/**
  A line view of text: `Join` lays lines out with a newline between
  neighbours, and `Split` reads them back. They describe the layout of the
  wallpaper description and let it be read back; the source calls neither.
 */
module Text {

  import opened Wrappers
  import Seqs

  const NL: char := '\n'

  /** Lines joined with one newline between neighbours. */
  function Join(lines: seq<string>): (s: string)
    requires |lines| > 0
  {
    if |lines| == 1 then lines[0] else lines[0] + [NL] + Join(lines[1..])
  }

  /** The pieces of `s` between newlines; the last piece is what follows the final newline. */
  function Split(s: string): (lines: seq<string>)
    ensures |lines| > 0
    ensures forall i :: 0 <= i < |lines| ==> NL !in lines[i]
    decreases |s|
  {
    if NL in s then
      var i := Seqs.IndexOf(s, NL);
      [s[..i]] + Split(s[i + 1..])
    else [s]
  }

  /** Splitting a first line off the front. */
  lemma SplitCons(a: string, b: string)
    requires NL !in a
    ensures Split(a + [NL] + b) == [a] + Split(b)
  {
    var s := a + [NL] + b;
    assert s[|a|] == NL;
    var i := Seqs.IndexOf(s, NL);
    assert s[..i] == a;
    assert s[i + 1..] == b;
  }

  /** Joining a first line in front of further lines. */
  lemma JoinCons(first: string, rest: seq<string>)
    requires |rest| > 0
    ensures Join([first] + rest) == first + [NL] + Join(rest)
  {
    assert ([first] + rest)[1..] == rest;
  }

  /** Joining two groups of lines is joining each group and putting a newline between. */
  lemma {:induction false} JoinAppend(a: seq<string>, b: seq<string>)
    requires |a| > 0 && |b| > 0
    ensures Join(a + b) == Join(a) + [NL] + Join(b)
    decreases |a|
  {
    if |a| == 1 {
      JoinCons(a[0], b);
      assert [a[0]] + b == a + b;
    } else {
      JoinAppend(a[1..], b);
      assert (a + b)[1..] == a[1..] + b;
      assert Join(a + b) == a[0] + [NL] + Join(a[1..] + b);
      assert Join(a) == a[0] + [NL] + Join(a[1..]);
    }
  }

  /** Joining and splitting are inverse on lines free of newlines. */
  lemma {:induction false} SplitJoin(lines: seq<string>)
    requires |lines| > 0
    requires forall i :: 0 <= i < |lines| ==> NL !in lines[i]
    ensures Split(Join(lines)) == lines
    decreases |lines|
  {
    if |lines| > 1 {
      var rest := lines[1..];
      assert Join(lines) == lines[0] + [NL] + Join(rest);
      assert forall i :: 0 <= i < |rest| ==> rest[i] == lines[i + 1];
      SplitCons(lines[0], Join(rest));
      SplitJoin(rest);
      assert [lines[0]] + rest == lines;
    }
  }

  /** The text strictly between a known prefix and a known suffix of `s`, if `s` has both. */
  function Between(s: string, prefix: string, suffix: string): (r: Option<string>)
    ensures r.Some? ==> s == prefix + r.value + suffix
  {
    if |prefix| + |suffix| <= |s| && s[..|prefix|] == prefix && s[|s| - |suffix|..] == suffix then
      var mid := s[|prefix|..|s| - |suffix|];
      assert s == s[..|prefix|] + mid + s[|s| - |suffix|..];
      Some(mid)
    else None
  }

  /** `Between` recovers the middle of a text built from prefix, middle and suffix. */
  lemma BetweenOf(prefix: string, mid: string, suffix: string)
    ensures Between(prefix + mid + suffix, prefix, suffix) == Some(mid)
  {
    var s := prefix + mid + suffix;
    assert s[..|prefix|] == prefix;
    assert s[|s| - |suffix|..] == suffix;
    assert s[|prefix|..|s| - |suffix|] == mid;
  }

  /** A text whose character `k` differs from the prefix's does not start with that prefix. */
  lemma NotBetween(s: string, prefix: string, suffix: string, k: nat)
    requires k < |prefix| && k < |s| && s[k] != prefix[k]
    ensures Between(s, prefix, suffix) == None
  {
    if |prefix| + |suffix| <= |s| {
      assert s[..|prefix|][k] == s[k];
    }
  }

  /** A text that continues after `head` with a character the prefix does not have there lacks that prefix. */
  lemma NotBetweenAfter(head: string, rest: string, prefix: string, suffix: string)
    requires |head| < |prefix| && |rest| > 0 && rest[0] != prefix[|head|]
    ensures Between(head + rest, prefix, suffix) == None
  {
    NotBetween(head + rest, prefix, suffix, |head|);
  }
}
