/**
  The `vram` command: report the smallest amount of video memory among the
  GPUs the system-information provider finds, or list those GPUs.

  The provider (`wallutils.GPUs`) is an oracle here: a `Provider` value holds
  the answer it gives with and without integrated GPUs, and every call with
  the same argument gets the same answer. Output is modelled as the lines
  written to standard output and to standard error (without their final
  newline) plus the error value the action returns.
 */
module Vram {

  import opened Wrappers
  import Decimal
  import Text

  /** One GPU as the provider describes it; `vram` is in MiB (a Go `uint`). */
  datatype Gpu = Gpu(bus: string, name: string, vram: nat)

  /** The answer to one provider call: the GPUs found, or the provider's error message. */
  datatype Query = Found(gpus: seq<Gpu>) | Failed(err: string)

  /** A deterministic provider: one answer per value of `includeIntegrated`. */
  datatype Provider = Provider(withIntegrated: Query, withoutIntegrated: Query) {
    function Gpus(includeIntegrated: bool): Query {
      if includeIntegrated then withIntegrated else withoutIntegrated
    }
  }

  /** Whether `--list` / `-l` and `--integrated` / `-i` were given. */
  datatype Flags = Flags(list: bool, integrated: bool)

  /** What one run of the action produces. */
  datatype Outcome = Outcome(stdout: seq<string>, stderr: seq<string>, err: Option<string>)

  const NoGpuError: string := "could not find any available GPUs"

  /* ---------------- the minimum loop ---------------- */

  /** One iteration of the loop body: a zero accumulator takes the next value unconditionally. */
  function Step(minimum: nat, vram: nat): (r: nat)
    ensures r == minimum || r == vram
    ensures minimum == 0 ==> r == vram
    ensures vram == 0 ==> r == 0
    ensures minimum > 0 && vram > 0 ==> 0 < r <= minimum && r <= vram
  {
    if minimum == 0 || vram < minimum then vram else minimum
  }

  /** The accumulator after the loop has visited every entry of `gpus`, starting from 0. */
  function MinimumVram(gpus: seq<Gpu>): (r: nat)
    ensures r == 0 || exists i :: 0 <= i < |gpus| && gpus[i].vram == r
    ensures |gpus| > 0 && gpus[|gpus| - 1].vram == 0 ==> r == 0
    ensures (forall i :: 0 <= i < |gpus| ==> gpus[i].vram > 0) ==>
      (|gpus| > 0 ==> r > 0) && forall i :: 0 <= i < |gpus| ==> r <= gpus[i].vram
    decreases |gpus|
  {
    if |gpus| == 0 then 0 else Step(MinimumVram(gpus[..|gpus| - 1]), gpus[|gpus| - 1].vram)
  }

  /** The loop as the source writes it. */
  method ComputeMinimum(gpus: seq<Gpu>) returns (minimum: nat)
    ensures minimum == MinimumVram(gpus)
    ensures minimum == 0 || exists i :: 0 <= i < |gpus| && gpus[i].vram == minimum
  {
    minimum := 0;
    var i := 0;
    while i < |gpus|
      invariant 0 <= i <= |gpus|
      invariant minimum == MinimumVram(gpus[..i])
      invariant minimum == 0 || exists k :: 0 <= k < i && gpus[k].vram == minimum
    {
      assert gpus[..i + 1][..i] == gpus[..i];
      if minimum == 0 || gpus[i].vram < minimum {
        minimum := gpus[i].vram;
      }
      i := i + 1;
    }
    assert gpus[..i] == gpus;
  }

  /** The least VRAM amount of a non-empty list: an entry's value that no entry undercuts. */
  function Least(gpus: seq<Gpu>): (m: nat)
    requires |gpus| > 0
    ensures exists i :: 0 <= i < |gpus| && gpus[i].vram == m
    ensures forall i :: 0 <= i < |gpus| ==> m <= gpus[i].vram
  {
    if |gpus| == 1 then gpus[0].vram
    else
      var rest := Least(gpus[1..]);
      assert forall i :: 1 <= i < |gpus| ==> gpus[i] == gpus[1..][i - 1];
      if gpus[0].vram < rest then gpus[0].vram else rest
  }

  /** The entries after the last entry whose VRAM is 0 (all of them when none is 0). */
  function LastRun(gpus: seq<Gpu>): (run: seq<Gpu>)
    ensures |run| <= |gpus| && run == gpus[|gpus| - |run|..]
    ensures forall i :: 0 <= i < |run| ==> run[i].vram > 0
    ensures |run| < |gpus| ==> gpus[|gpus| - |run| - 1].vram == 0
    decreases |gpus|
  {
    if |gpus| == 0 || gpus[|gpus| - 1].vram == 0 then []
    else LastRun(gpus[..|gpus| - 1]) + [gpus[|gpus| - 1]]
  }

  lemma LeastSnoc(s: seq<Gpu>, g: Gpu)
    requires |s| > 0
    ensures Least(s + [g]) == if g.vram < Least(s) then g.vram else Least(s)
  {
    var t := s + [g];
    var a := Least(s);
    var b := if g.vram < a then g.vram else a;
    var m := Least(t);
    var k :| 0 <= k < |s| && s[k].vram == a;
    assert t[k] == s[k];
    assert t[|s|] == g;
    assert m <= b;
    var i :| 0 <= i < |t| && t[i].vram == m;
    if i < |s| {
      assert t[i] == s[i];
    }
    assert b <= m;
  }

  /**
    The zero-reset behaviour of the loop: its result is 0 when the last entry
    has VRAM 0 (or the list is empty) and otherwise the least VRAM among the
    entries after the last zero entry.
   */
  lemma {:induction false} MinimumIsLeastOfLastRun(gpus: seq<Gpu>)
    ensures MinimumVram(gpus) == if LastRun(gpus) == [] then 0 else Least(LastRun(gpus))
    decreases |gpus|
  {
    if |gpus| > 0 {
      var p := gpus[..|gpus| - 1];
      var g := gpus[|gpus| - 1];
      MinimumIsLeastOfLastRun(p);
      if g.vram > 0 && LastRun(p) != [] {
        LeastSnoc(LastRun(p), g);
      }
    }
  }

  /** With every VRAM positive, the loop finds the true minimum of a non-empty list. */
  lemma MinimumOfPositive(gpus: seq<Gpu>)
    requires |gpus| > 0
    requires forall i :: 0 <= i < |gpus| ==> gpus[i].vram > 0
    ensures exists i :: 0 <= i < |gpus| && gpus[i].vram == MinimumVram(gpus)
    ensures forall i :: 0 <= i < |gpus| ==> MinimumVram(gpus) <= gpus[i].vram
  {
    MinimumIsLeastOfLastRun(gpus);
    var run := LastRun(gpus);
    assert |run| == |gpus|;
  }

  /** A last entry with VRAM 0 makes the result 0, whatever came before. */
  lemma MinimumAfterTrailingZero(gpus: seq<Gpu>)
    requires |gpus| > 0 && gpus[|gpus| - 1].vram == 0
    ensures MinimumVram(gpus) == 0
  {
  }

  /* ---------------- the action ---------------- */

  const MiB: string := " MiB"

  /**
    The `--list` line for one GPU: `[bus] name, N MiB`. The bus opens it, the
    name sits between the bus and the comma, and it ends in the same `N MiB`
    as a minimum line.
   */
  function ListLine(g: Gpu): (line: string)
    ensures "[" + g.bus + "] " <= line
    ensures Text.Between(line, "[" + g.bus + "] ", ", " + MinimumLine(g.vram)) == Some(g.name)
    ensures |MinimumLine(g.vram)| <= |line| && line[|line| - |MinimumLine(g.vram)|..] == MinimumLine(g.vram)
  {
    var open := "[" + g.bus + "] ";
    ListLineShape(open, g.name, ", ", MinimumLine(g.vram));
    Text.BetweenOf(open, g.name, ", " + MinimumLine(g.vram));
    open + g.name + ", " + MinimumLine(g.vram)
  }

  lemma ListLineShape(open: string, name: string, comma: string, tail: string)
    ensures open <= open + name + comma + tail
    ensures open + name + comma + tail == open + name + (comma + tail)
    ensures |tail| <= |open + name + comma + tail|
    ensures (open + name + comma + tail)[|open + name + comma + tail| - |tail|..] == tail
  {
    var line := open + name + comma + tail;
    assert line[..|open|] == open;
    assert line[|line| - |tail|..] == tail;
  }

  /** The line reporting the minimum: `N MiB`, from which `N` reads back. */
  function MinimumLine(minimum: nat): (line: string)
    ensures |MiB| < |line| && line[|line| - |MiB|..] == MiB
    ensures Decimal.ParseNat(line[..|line| - |MiB|]) == Some(minimum)
  {
    var line := Decimal.Itoa(minimum) + MiB;
    assert line[..|line| - |MiB|] == Decimal.Itoa(minimum);
    Decimal.ParseItoa(minimum);
    line
  }

  const CouldNotFindAny: string := "error: could not find any GPU"
  const FoundNonePrefix: string := "error: found no GPUs while at the same time finding "
  const FoundNoneSuffix: string := " non-integrated GPUs"
  const FoundOnePrefix: string := "error: found one GPUs, and "
  const FoundPrefix: string := "error: found "
  const FoundMiddle: string := " GPUs, where "
  const OfThemSuffix: string := " of them are non-integrated"

  /** The diagnostic written when no GPU was found without integrated ones. */
  function Diagnostic(allCount: nat, nonIntegratedCount: nat): (line: string)
    ensures ReadDiagnostic(line) == Some((allCount, nonIntegratedCount))
  {
    DiagnosticReadsBack(allCount, nonIntegratedCount);
    DiagnosticText(allCount, nonIntegratedCount)
  }

  function DiagnosticText(allCount: nat, nonIntegratedCount: nat): string {
    if allCount == 0 then
      if nonIntegratedCount == 0 then CouldNotFindAny
      else FoundNonePrefix + Decimal.Itoa(nonIntegratedCount) + FoundNoneSuffix
    else if allCount == 1 then
      FoundOnePrefix + Decimal.Itoa(nonIntegratedCount) + OfThemSuffix
    else
      FoundPrefix + Decimal.Itoa(allCount) + FoundMiddle + Decimal.Itoa(nonIntegratedCount) + OfThemSuffix
  }

  /** `Itoa(allCount) + " GPUs, where " + Itoa(nonIntegratedCount)`, read back as the two counts. */
  function ReadCountPair(text: string): Option<(nat, nat)> {
    var k := Decimal.DigitRun(text);
    var first := Decimal.ParseNat(text[..k]);
    var rest := text[k..];
    if first.Some? && FoundMiddle <= rest then
      var second := Decimal.ParseNat(rest[|FoundMiddle|..]);
      if second.Some? then Some((first.value, second.value)) else None
    else None
  }

  function ReadCount(text: Option<string>): Option<nat> {
    if text.Some? then Decimal.ParseNat(text.value) else None
  }

  /** Reads the GPU counts back out of a diagnostic line; `None` for any other text. */
  function ReadDiagnostic(line: string): Option<(nat, nat)> {
    var none := ReadCount(Text.Between(line, FoundNonePrefix, FoundNoneSuffix));
    var one := ReadCount(Text.Between(line, FoundOnePrefix, OfThemSuffix));
    var many := Text.Between(line, FoundPrefix, OfThemSuffix);
    if line == CouldNotFindAny then Some((0, 0))
    else if none.Some? then Some((0, none.value))
    else if one.Some? then Some((1, one.value))
    else if many.Some? then ReadCountPair(many.value)
    else None
  }

  lemma ReadCountPairOf(a: nat, n: nat)
    ensures ReadCountPair(Decimal.Itoa(a) + FoundMiddle + Decimal.Itoa(n)) == Some((a, n))
  {
    var d := Decimal.Itoa(a);
    var text := d + FoundMiddle + Decimal.Itoa(n);
    assert text == d + (FoundMiddle + Decimal.Itoa(n));
    assert (FoundMiddle + Decimal.Itoa(n))[0] == ' ';
    Decimal.DigitRunOf(d, FoundMiddle + Decimal.Itoa(n));
    assert text[..|d|] == d;
    assert text[|d|..] == FoundMiddle + Decimal.Itoa(n);
    assert (FoundMiddle + Decimal.Itoa(n))[|FoundMiddle|..] == Decimal.Itoa(n);
    Decimal.ParseItoa(a);
    Decimal.ParseItoa(n);
  }

  lemma ReadsBackNone(n: nat)
    requires n > 0
    ensures ReadDiagnostic(FoundNonePrefix + Decimal.Itoa(n) + FoundNoneSuffix) == Some((0, n))
  {
    var line := FoundNonePrefix + Decimal.Itoa(n) + FoundNoneSuffix;
    MessageFacts();
    Text.BetweenOf(FoundNonePrefix, Decimal.Itoa(n), FoundNoneSuffix);
    Decimal.ParseItoa(n);
  }

  lemma ReadsBackOne(n: nat)
    ensures ReadDiagnostic(FoundOnePrefix + Decimal.Itoa(n) + OfThemSuffix) == Some((1, n))
  {
    var line := FoundOnePrefix + Decimal.Itoa(n) + OfThemSuffix;
    MessageFacts();
    assert line[13] == 'o';
    Text.NotBetween(line, FoundNonePrefix, FoundNoneSuffix, 13);
    Text.BetweenOf(FoundOnePrefix, Decimal.Itoa(n), OfThemSuffix);
    Decimal.ParseItoa(n);
  }

  lemma ReadsBackMany(a: nat, n: nat)
    requires a >= 2
    ensures ReadDiagnostic(FoundPrefix + Decimal.Itoa(a) + FoundMiddle + Decimal.Itoa(n) + OfThemSuffix) == Some((a, n))
  {
    var mid := Decimal.Itoa(a) + FoundMiddle + Decimal.Itoa(n);
    Regroup(FoundPrefix, Decimal.Itoa(a), FoundMiddle, Decimal.Itoa(n), OfThemSuffix);
    ManyLineIsNoOther(Decimal.Itoa(a), mid + OfThemSuffix);
    ManyLineMiddle(mid);
    ReadCountPairOf(a, n);
    ReadManyBranch(FoundPrefix + (mid + OfThemSuffix), mid);
  }

  lemma ManyLineMiddle(mid: string)
    ensures Text.Between(FoundPrefix + (mid + OfThemSuffix), FoundPrefix, OfThemSuffix) == Some(mid)
  {
    assert FoundPrefix + (mid + OfThemSuffix) == FoundPrefix + mid + OfThemSuffix;
    Text.BetweenOf(FoundPrefix, mid, OfThemSuffix);
  }

  /** A line that starts with "error: found " and then a digit matches none of the other diagnostics. */
  lemma ManyLineIsNoOther(d: string, rest: string)
    requires |d| > 0 && Decimal.IsDigit(d[0])
    requires |rest| >= |OfThemSuffix| && rest[0] == d[0]
    ensures FoundPrefix + rest != CouldNotFindAny
    ensures Text.Between(FoundPrefix + rest, FoundNonePrefix, FoundNoneSuffix) == None
    ensures Text.Between(FoundPrefix + rest, FoundOnePrefix, OfThemSuffix) == None
  {
    MessageFacts();
    Text.NotBetweenAfter(FoundPrefix, rest, FoundNonePrefix, FoundNoneSuffix);
    Text.NotBetweenAfter(FoundPrefix, rest, FoundOnePrefix, OfThemSuffix);
  }

  /** Lengths and distinguishing characters of the fixed message parts. */
  lemma MessageFacts()
    ensures |CouldNotFindAny| == 29 && |FoundPrefix| == 13 && |OfThemSuffix| == 27
    ensures |FoundNonePrefix| == 52 && FoundNonePrefix[13] == 'n'
    ensures |FoundOnePrefix| == 27 && FoundOnePrefix[13] == 'o'
  {
  }

  lemma Regroup(p: string, d: string, m: string, e: string, s: string)
    ensures p + d + m + e + s == p + ((d + m + e) + s)
  {
  }

  lemma ReadManyBranch(line: string, mid: string)
    requires line != CouldNotFindAny
    requires Text.Between(line, FoundNonePrefix, FoundNoneSuffix) == None
    requires Text.Between(line, FoundOnePrefix, OfThemSuffix) == None
    requires Text.Between(line, FoundPrefix, OfThemSuffix) == Some(mid)
    ensures ReadDiagnostic(line) == ReadCountPair(mid)
  {
  }

  /** Every diagnostic line reads back as the counts it was written from. */
  lemma DiagnosticReadsBack(allCount: nat, n: nat)
    ensures ReadDiagnostic(DiagnosticText(allCount, n)) == Some((allCount, n))
  {
    if allCount == 0 && n > 0 {
      ReadsBackNone(n);
    } else if allCount == 1 {
      ReadsBackOne(n);
    } else if allCount >= 2 {
      ReadsBackMany(allCount, n);
    }
  }

  /** Distinct pairs of counts give distinct diagnostic lines. */
  lemma DiagnosticInjective(a: nat, n: nat, a': nat, n': nat)
    ensures Diagnostic(a, n) == Diagnostic(a', n') <==> a == a' && n == n'
  {
  }

  function ListLines(gpus: seq<Gpu>): (lines: seq<string>)
    ensures |lines| == |gpus|
    ensures forall i :: 0 <= i < |gpus| ==> lines[i] == ListLine(gpus[i])
  {
    if |gpus| == 0 then [] else [ListLine(gpus[0])] + ListLines(gpus[1..])
  }

  /** The `vram` action as the code is written. */
  function VramAction(flags: Flags, provider: Provider): (r: Outcome)
    // nothing reaches standard output once an error is returned
    ensures r.err.Some? ==> r.stdout == []
    // every returned error is the provider's own, or the "no GPUs" error of --integrated
    ensures r.err.Some? ==>
      r.err.value == NoGpuError
      || provider.withIntegrated == Failed(r.err.value)
      || provider.withoutIntegrated == Failed(r.err.value)
    // outside --list a successful run prints exactly the minimum of the GPUs the first call found
    ensures !flags.list && r.err.None? ==>
      provider.Gpus(flags.integrated).Found? &&
      r.stdout == [MinimumLine(MinimumVram(provider.Gpus(flags.integrated).gpus))]
  {
    if flags.list then
      match provider.Gpus(true)
      case Failed(e) => Outcome([], [], Some(e))
      case Found(gpus) => Outcome(ListLines(gpus), [], None)
    else
      var includeIntegrated := flags.integrated;
      match provider.Gpus(includeIntegrated)
      case Failed(e) => Outcome([], [], Some(e))
      case Found(gpus) =>
        if |gpus| == 0 && includeIntegrated then
          Outcome([], ["error: " + NoGpuError], Some(NoGpuError))
        else if |gpus| == 0 then
          match provider.Gpus(true)
          case Failed(e) => Outcome([], [], Some(e))
          case Found(allGpus) =>
            match provider.Gpus(false)
            case Failed(e) => Outcome([], [], Some(e))
            case Found(nonIntegratedGpus) =>
              // `gpus` is not replaced: the minimum is taken over the empty list
              Outcome([MinimumLine(MinimumVram(gpus))], [Diagnostic(|allGpus|, |nonIntegratedGpus|)], None)
        else
          Outcome([MinimumLine(MinimumVram(gpus))], [], None)
  }

  /* ---------------- properties of the action ---------------- */

  /**
    `--list` prints one line per GPU the provider finds with integrated GPUs
    included, in the provider's order, and nothing else; `--integrated` makes
    no difference to it.
   */
  lemma ListMode(integrated: bool, provider: Provider)
    ensures var r := VramAction(Flags(true, integrated), provider);
      match provider.withIntegrated
      case Found(gpus) =>
        && |r.stdout| == |gpus|
        && (forall i :: 0 <= i < |gpus| ==> r.stdout[i] == ListLine(gpus[i]))
        && r.stderr == [] && r.err == None
      case Failed(e) => r == Outcome([], [], Some(e))
    ensures VramAction(Flags(true, integrated), provider) == VramAction(Flags(true, !integrated), provider)
  {
  }

  /** A failing first provider call ends the action with that very error and no output. */
  lemma ProviderErrorPassedThrough(flags: Flags, provider: Provider, e: string)
    requires provider.Gpus(flags.list || flags.integrated) == Failed(e)
    ensures VramAction(flags, provider) == Outcome([], [], Some(e))
  {
  }

  /** With `--integrated` and no GPU at all: one error line, the "no GPUs" error, no minimum. */
  lemma IntegratedButNone(provider: Provider)
    requires provider.withIntegrated == Found([])
    ensures VramAction(Flags(false, true), provider)
         == Outcome([], ["error: could not find any available GPUs"], Some("could not find any available GPUs"))
  {
    assert "error: " + NoGpuError == "error: could not find any available GPUs";
  }

  /**
    The diagnostic table when no GPU is non-integrated: which of the three
    messages appears depends only on how many GPUs exist in all.
   */
  lemma DiagnosticWithoutDiscrete(allCount: nat)
    ensures allCount == 0 ==> Diagnostic(allCount, 0) == "error: could not find any GPU"
    ensures allCount == 1 ==> Diagnostic(allCount, 0) == "error: found one GPUs, and 0 of them are non-integrated"
    ensures allCount >= 2 ==>
      Diagnostic(allCount, 0) == "error: found " + Decimal.Itoa(allCount) + " GPUs, where 0 of them are non-integrated"
  {
    var zero := Decimal.Itoa(0);
    assert zero == "0";
    if allCount == 1 {
      CountOfOneText(zero);
    } else if allCount >= 2 {
      CountOfManyText(Decimal.Itoa(allCount), zero);
    }
  }

  lemma CountOfOneText(zero: string)
    requires zero == "0"
    ensures "error: found one GPUs, and " + zero + " of them are non-integrated"
         == "error: found one GPUs, and 0 of them are non-integrated"
  {
  }

  lemma CountOfManyText(n: string, zero: string)
    requires zero == "0"
    ensures "error: found " + n + " GPUs, where " + zero + " of them are non-integrated"
         == "error: found " + n + " GPUs, where 0 of them are non-integrated"
  {
    var tail := " GPUs, where " + zero + " of them are non-integrated";
    assert tail == " GPUs, where 0 of them are non-integrated";
    assert "error: found " + n + " GPUs, where " + zero + " of them are non-integrated"
        == ("error: found " + n) + tail;
  }

  /**
    Without `--integrated` and with no discrete GPU: the action succeeds with
    one diagnostic line whose non-integrated count is 0 (so the "found no GPUs
    while finding N non-integrated" message never appears), and the minimum
    printed is over the empty list, "0 MiB": the integrated GPUs are not used
    instead.
   */
  lemma NoDiscreteGpu(provider: Provider)
    requires provider.withoutIntegrated == Found([])
    ensures var r := VramAction(Flags(false, false), provider);
      match provider.withIntegrated
      case Failed(e) => r == Outcome([], [], Some(e))
      case Found(all) => r == Outcome(["0 MiB"], [Diagnostic(|all|, 0)], None)
  {
    assert Decimal.Itoa(0) == "0";
    assert MinimumVram([]) == 0;
    assert MinimumLine(0) == "0 MiB";
  }

  /** Outside `--list`, when the provider finds GPUs that all report VRAM, the true minimum is printed. */
  lemma PrintsTrueMinimum(integrated: bool, provider: Provider)
    requires provider.Gpus(integrated).Found?
    requires |provider.Gpus(integrated).gpus| > 0
    requires forall g :: g in provider.Gpus(integrated).gpus ==> g.vram > 0
    ensures var gpus := provider.Gpus(integrated).gpus;
      exists i :: 0 <= i < |gpus| && VramAction(Flags(false, integrated), provider)
        == Outcome([MinimumLine(gpus[i].vram)], [], None)
        && forall j :: 0 <= j < |gpus| ==> gpus[i].vram <= gpus[j].vram
  {
    var gpus := provider.Gpus(integrated).gpus;
    MinimumOfPositive(gpus);
  }

  /** One discrete 4096 MiB GPU next to an integrated 1024 MiB one. */
  lemma DiscreteAndIntegratedExample()
    ensures var discrete := Gpu("01:00.0", "discrete", 4096);
      var integrated := Gpu("00:02.0", "integrated", 1024);
      var provider := Provider(Found([discrete, integrated]), Found([discrete]));
      && VramAction(Flags(false, false), provider) == Outcome([MinimumLine(4096)], [], None)
      && VramAction(Flags(false, true), provider) == Outcome([MinimumLine(1024)], [], None)
  {
    var discrete := Gpu("01:00.0", "discrete", 4096);
    var integrated := Gpu("00:02.0", "integrated", 1024);
    assert [discrete, integrated][..1] == [discrete];
  }

  /* ---------------- the fallback the usage text promises ---------------- */

  /**
    The action with the fallback the usage text describes: when no discrete
    GPU is found, the minimum is taken over all GPUs instead. Everything else
    is as in `VramAction`.
   */
  function VramActionWithFallback(flags: Flags, provider: Provider): (r: Outcome)
    ensures !flags.list && !flags.integrated && provider.withoutIntegrated == Found([])
            && provider.withIntegrated.Found? ==>
      && r.stdout == [MinimumLine(MinimumVram(provider.withIntegrated.gpus))]
      && r.stderr == VramAction(flags, provider).stderr
      && r.err == None
    ensures !(!flags.list && !flags.integrated && provider.withoutIntegrated == Found([])
              && provider.withIntegrated.Found?) ==>
      r == VramAction(flags, provider)
  {
    var asWritten := VramAction(flags, provider);
    if !flags.list && !flags.integrated && provider.withoutIntegrated == Found([])
       && provider.withIntegrated.Found? then
      asWritten.(stdout := [MinimumLine(MinimumVram(provider.withIntegrated.gpus))])
    else asWritten
  }

  /** With only integrated GPUs, the corrected action prints their true minimum. */
  lemma FallbackPrintsIntegratedMinimum(provider: Provider)
    requires provider.withoutIntegrated == Found([])
    requires provider.withIntegrated.Found? && |provider.withIntegrated.gpus| > 0
    requires forall g :: g in provider.withIntegrated.gpus ==> g.vram > 0
    ensures var all := provider.withIntegrated.gpus;
      exists i :: 0 <= i < |all|
        && VramActionWithFallback(Flags(false, false), provider).stdout == [MinimumLine(all[i].vram)]
        && forall j :: 0 <= j < |all| ==> all[i].vram <= all[j].vram
  {
    MinimumOfPositive(provider.withIntegrated.gpus);
  }

  /** As written, a machine with one integrated 1024 MiB GPU gets "0 MiB", not "1024 MiB". */
  lemma NoFallbackCounterexample()
    ensures var provider := Provider(Found([Gpu("00:02.0", "integrated", 1024)]), Found([]));
      && VramAction(Flags(false, false), provider).stdout == ["0 MiB"]
      && VramActionWithFallback(Flags(false, false), provider).stdout == [MinimumLine(1024)]
      && MinimumLine(1024) != "0 MiB"
  {
    assert Decimal.Itoa(0) == "0";
    assert MinimumLine(0) == "0 MiB";
    Decimal.ItoaInjective(0, 1024);
    assert MinimumLine(1024)[..|MinimumLine(1024)| - 4] == Decimal.Itoa(1024);
  }
}
