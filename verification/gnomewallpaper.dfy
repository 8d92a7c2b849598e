/**
  A GNOME timed wallpaper: the parsed XML configuration (its static periods
  and its transitions) and the two derived views the `GnomeWallpaper` type
  offers, the list of images it uses and a textual description.

  The XML parsing (`GBackground`) is not part of this model; a `Config` holds
  only the parts these views read.
 */
module GnomeWallpaper {

  import opened Wrappers
  import Seqs
  import Text
  import Decimal

  /** A `<static>` element: one image shown for a while. */
  datatype Static = Static(filename: string)

  /** A `<transition>` element: a cross-fade from one image to another. */
  datatype Transition = Transition(fromFilename: string, toFilename: string)

  /** The parsed XML: statics and transitions, each in document order. */
  datatype Config = Config(statics: seq<Static>, transitions: seq<Transition>)

  datatype Wallpaper = Wallpaper(collectionName: string, path: string, config: Config)

  /** `x` is the filename of a static or one end of a transition of `c`. */
  predicate Referenced(c: Config, x: string) {
    || (exists i :: 0 <= i < |c.statics| && c.statics[i].filename == x)
    || (exists j :: 0 <= j < |c.transitions| && c.transitions[j].fromFilename == x)
    || (exists j :: 0 <= j < |c.transitions| && c.transitions[j].toFilename == x)
  }

  /* ---------------- collecting filenames ---------------- */

  function StaticFilenames(statics: seq<Static>): (names: seq<string>)
    ensures |names| == |statics|
    ensures forall i :: 0 <= i < |statics| ==> names[i] == statics[i].filename
  {
    if |statics| == 0 then [] else [statics[0].filename] + StaticFilenames(statics[1..])
  }

  function TransitionFilenames(transitions: seq<Transition>): (names: seq<string>)
    ensures |names| == 2 * |transitions|
    ensures forall j :: 0 <= j < |transitions| ==>
      names[2 * j] == transitions[j].fromFilename && names[2 * j + 1] == transitions[j].toFilename
  {
    if |transitions| == 0 then []
    else
      var t := transitions[0];
      var rest := TransitionFilenames(transitions[1..]);
      assert forall j :: 1 <= j < |transitions| ==> transitions[j] == transitions[1..][j - 1];
      [t.fromFilename, t.toFilename] + rest
  }

  /**
    The filenames before de-duplication: every static's filename in order,
    then the from- and to-filename of each transition in order.
   */
  function AllFilenames(c: Config): (names: seq<string>)
    ensures |names| == |c.statics| + 2 * |c.transitions|
    ensures forall i :: 0 <= i < |c.statics| ==> names[i] == c.statics[i].filename
    ensures forall j :: 0 <= j < |c.transitions| ==>
      && names[|c.statics| + 2 * j] == c.transitions[j].fromFilename
      && names[|c.statics| + 2 * j + 1] == c.transitions[j].toFilename
  {
    StaticFilenames(c.statics) + TransitionFilenames(c.transitions)
  }

  /** The two append loops of `Images`, as the source writes them. */
  method CollectFilenames(c: Config) returns (filenames: seq<string>)
    ensures filenames == AllFilenames(c)
  {
    var statics, transitions := c.statics, c.transitions;
    filenames := [];
    for i := 0 to |statics|
      invariant |filenames| == i
      invariant forall k :: 0 <= k < i ==> filenames[k] == statics[k].filename
    {
      filenames := filenames + [statics[i].filename];
    }
    for j := 0 to |transitions|
      invariant |filenames| == |statics| + 2 * j
      invariant forall k :: 0 <= k < |statics| ==> filenames[k] == statics[k].filename
      invariant forall k :: 0 <= k < j ==>
        && filenames[|statics| + 2 * k] == transitions[k].fromFilename
        && filenames[|statics| + 2 * k + 1] == transitions[k].toFilename
    {
      filenames := filenames + [transitions[j].fromFilename];
      filenames := filenames + [transitions[j].toFilename];
    }
    var all := AllFilenames(c);
    forall k | |statics| <= k < |filenames|
      ensures filenames[k] == all[k]
    {
      var j := (k - |statics|) / 2;
      if k == |statics| + 2 * j {
        assert filenames[|statics| + 2 * j] == transitions[j].fromFilename;
      } else {
        assert k == |statics| + 2 * j + 1;
        assert filenames[|statics| + 2 * j + 1] == transitions[j].toFilename;
      }
    }
  }

  /* ---------------- Images ---------------- */

  /**
    The images the wallpaper uses: exactly the referenced filenames, each
    once, in the order in which they first occur among the collected ones.
   */
  function Images(c: Config): (images: seq<string>)
    ensures Seqs.NoDuplicates(images)
    ensures forall x :: x in images <==> Referenced(c, x)
  {
    var images := Seqs.Unique(AllFilenames(c));
    assert forall x :: x in images <==> Referenced(c, x) by {
      forall x
        ensures x in images <==> Referenced(c, x)
      {
        CollectedIffReferenced(c, x);
      }
    }
    images
  }

  /** The collected filenames are exactly the referenced ones. */
  lemma CollectedIffReferenced(c: Config, x: string)
    ensures x in AllFilenames(c) <==> Referenced(c, x)
  {
    var all := AllFilenames(c);
    var n := |c.statics|;
    if i :| 0 <= i < n && c.statics[i].filename == x {
      assert all[i] == x;
    } else if j :| 0 <= j < |c.transitions| && c.transitions[j].fromFilename == x {
      assert all[n + 2 * j] == x;
    } else if j :| 0 <= j < |c.transitions| && c.transitions[j].toFilename == x {
      assert all[n + 2 * j + 1] == x;
    }
    if x in all {
      var k :| 0 <= k < |all| && all[k] == x;
      if k >= n {
        var j := (k - n) / 2;
        if k == n + 2 * j {
          assert c.transitions[j].fromFilename == x;
        } else {
          assert k == n + 2 * j + 1;
          assert c.transitions[j].toFilename == x;
        }
      }
    }
  }

  /** Every static's filename is among the images. */
  lemma StaticsAreImages(c: Config, i: nat)
    requires i < |c.statics|
    ensures c.statics[i].filename in Images(c)
  {
    assert Referenced(c, c.statics[i].filename);
  }

  /** Both ends of every transition are among the images. */
  lemma TransitionEndsAreImages(c: Config, j: nat)
    requires j < |c.transitions|
    ensures c.transitions[j].fromFilename in Images(c)
    ensures c.transitions[j].toFilename in Images(c)
  {
    assert Referenced(c, c.transitions[j].fromFilename);
    assert Referenced(c, c.transitions[j].toFilename);
  }

  /** The images keep the order of their first occurrence among the collected filenames. */
  lemma ImagesInFirstOccurrenceOrder(c: Config)
    ensures var all, images := AllFilenames(c), Images(c);
      forall i, j :: 0 <= i < j < |images| ==> Seqs.IndexOf(all, images[i]) < Seqs.IndexOf(all, images[j])
  {
    Seqs.UniqueKeepsFirstOccurrenceOrder(AllFilenames(c));
  }

  /** When no filename repeats, the images are the collected filenames themselves. */
  lemma ImagesOfDistinctFilenames(c: Config)
    requires Seqs.NoDuplicates(AllFilenames(c))
    ensures Images(c) == AllFilenames(c)
  {
    Seqs.UniqueOfDistinct(AllFilenames(c));
  }

  /** A configuration with no statics and no transitions uses no images. */
  lemma ImagesOfEmptyConfig()
    ensures Images(Config([], [])) == []
  {
  }

  /* ---------------- String ---------------- */

  const NameOpen: string := "--- "
  const NameClose: string := "---"
  const PathLabel: string := "path\t\t\t= "
  const StartLabel: string := "start time\t\t= "
  const StaticsLabel: string := "number of static tags\t= "
  const TransitionsLabel: string := "number of transitions\t= "
  const ImagesLabel: string := "uses these images:"

  /** One line per image: a tab followed by the filename. */
  function TabLines(images: seq<string>): (lines: seq<string>)
    ensures |lines| == |images|
    ensures forall i :: 0 <= i < |images| ==> lines[i] == "\t" + images[i]
  {
    if |images| == 0 then [] else ["\t" + images[0]] + TabLines(images[1..])
  }

  /**
    The opening lines: collection name, path and start time. The start time's
    rendering comes from Go's time formatting and is taken as given.
   */
  function Header(w: Wallpaper, startTime: string): (s: string)
    ensures s == Text.Join([NameOpen + w.collectionName + NameClose, PathLabel + w.path, StartLabel + startTime])
  {
    HeaderShape(NameOpen, w.collectionName, NameClose, PathLabel, w.path, StartLabel, startTime);
    NameOpen + w.collectionName + NameClose + [Text.NL] + PathLabel + w.path
      + [Text.NL] + StartLabel + startTime
  }

  /**
    The header reads back: it splits into its three lines, from which the
    collection name, the path and the start time are recovered, provided
    none of them holds a newline.
   */
  lemma HeaderReadsBack(w: Wallpaper, startTime: string)
    requires Text.NL !in w.collectionName && Text.NL !in w.path && Text.NL !in startTime
    ensures var lines := Text.Split(Header(w, startTime));
      && lines == [NameOpen + w.collectionName + NameClose, PathLabel + w.path, StartLabel + startTime]
      && Text.Between(lines[0], NameOpen, NameClose) == Some(w.collectionName)
      && Text.Between(lines[1], PathLabel, "") == Some(w.path)
      && Text.Between(lines[2], StartLabel, "") == Some(startTime)
  {
    HeaderLabelsHaveNoNewline();
    Text.SplitJoin([NameOpen + w.collectionName + NameClose, PathLabel + w.path, StartLabel + startTime]);
    Text.BetweenOf(NameOpen, w.collectionName, NameClose);
    Text.BetweenOf(PathLabel, w.path, "");
    assert PathLabel + w.path + "" == PathLabel + w.path;
    Text.BetweenOf(StartLabel, startTime, "");
    assert StartLabel + startTime + "" == StartLabel + startTime;
  }

  /** The image listing: every image as a tab-indented line, each ended by a newline. */
  function Listing(images: seq<string>): (s: string)
    ensures s == Text.Join(TabLines(images) + [""])
  {
    if |images| == 0 then []
    else
      var rest := Listing(images[1..]);
      Text.JoinCons("\t" + images[0], TabLines(images[1..]) + [""]);
      assert TabLines(images) + [""] == ["\t" + images[0]] + (TabLines(images[1..]) + [""]);
      "\t" + images[0] + [Text.NL] + rest
  }

  /**
    The counts and the image list that follow the header: the empty rest of
    the start-time line, the statics count line, the transitions count line,
    the "uses these images:" line, one line per image, and a final newline.
   */
  function Summary(c: Config): (s: string)
    ensures s == Text.Join(["", StaticsLabel + Decimal.Itoa(|c.statics|), TransitionsLabel + Decimal.Itoa(|c.transitions|), ImagesLabel]
                           + TabLines(Images(c)) + [""])
  {
    var n1, n2 := Decimal.Itoa(|c.statics|), Decimal.Itoa(|c.transitions|);
    var listing := Listing(Images(c));
    SummaryShape(StaticsLabel, n1, TransitionsLabel, n2, ImagesLabel, TabLines(Images(c)), listing);
    [Text.NL] + StaticsLabel + n1
      + [Text.NL] + TransitionsLabel + n2
      + [Text.NL] + ImagesLabel + [Text.NL] + listing
  }

  /**
    The description `String` builds, line by line: the three header lines,
    the two counts, "uses these images:", one tab-indented line per image in
    order, and a final newline.
   */
  function String(w: Wallpaper, startTime: string): (s: string)
    ensures s == Text.Join([NameOpen + w.collectionName + NameClose, PathLabel + w.path, StartLabel + startTime,
                            StaticsLabel + Decimal.Itoa(|w.config.statics|),
                            TransitionsLabel + Decimal.Itoa(|w.config.transitions|), ImagesLabel]
                           + TabLines(Images(w.config)) + [""])
  {
    StringShape(NameOpen + w.collectionName + NameClose, PathLabel + w.path, StartLabel + startTime,
                StaticsLabel + Decimal.Itoa(|w.config.statics|), TransitionsLabel + Decimal.Itoa(|w.config.transitions|),
                ImagesLabel, TabLines(Images(w.config)));
    Header(w, startTime) + Summary(w.config)
  }

  lemma HeaderShape(a: string, cn: string, b: string, p: string, path: string, t: string, st: string)
    ensures a + cn + b + [Text.NL] + p + path + [Text.NL] + t + st == Text.Join([a + cn + b, p + path, t + st])
  {
    Text.JoinCons(p + path, [t + st]);
    Text.JoinCons(a + cn + b, [p + path] + [t + st]);
    assert [a + cn + b] + ([p + path] + [t + st]) == [a + cn + b, p + path, t + st];
  }

  lemma SummaryShape(sl: string, n1: string, tl: string, n2: string, il: string, tabs: seq<string>, listing: string)
    requires listing == Text.Join(tabs + [""])
    ensures [Text.NL] + sl + n1 + [Text.NL] + tl + n2 + [Text.NL] + il + [Text.NL] + listing
         == Text.Join(["", sl + n1, tl + n2, il] + tabs + [""])
  {
    var nl := [Text.NL];
    var rest := tabs + [""];
    Text.JoinCons(il, rest);
    Text.JoinCons(tl + n2, [il] + rest);
    Text.JoinCons(sl + n1, [tl + n2] + ([il] + rest));
    Text.JoinCons("", [sl + n1] + ([tl + n2] + ([il] + rest)));
    assert ["", sl + n1, tl + n2, il] + tabs + [""] == [""] + ([sl + n1] + ([tl + n2] + ([il] + rest)));
    assert nl + sl + n1 + nl + tl + n2 + nl + il + nl + listing
        == "" + nl + ((sl + n1) + nl + ((tl + n2) + nl + (il + nl + listing)));
  }

  lemma StringShape(h1: string, h2: string, h3: string, l1: string, l2: string, il: string, tabs: seq<string>)
    ensures Text.Join([h1, h2, h3]) + Text.Join(["", l1, l2, il] + tabs + [""])
         == Text.Join([h1, h2, h3, l1, l2, il] + tabs + [""])
  {
    var rest := [l1, l2, il] + tabs + [""];
    Text.JoinCons("", rest);
    assert ["", l1, l2, il] + tabs + [""] == [""] + rest;
    Text.JoinAppend([h1, h2, h3], rest);
    assert [h1, h2, h3] + rest == [h1, h2, h3, l1, l2, il] + tabs + [""];
  }

  /* ---------------- reading a summary back ---------------- */

  /** What a reader learns from the summary part of a description. */
  datatype Report = Report(staticCount: nat, transitionCount: nat, images: seq<string>)

  function ReadCount(line: string, prefix: string): Option<nat> {
    if prefix <= line then Decimal.ParseNat(line[|prefix|..]) else None
  }

  function ReadImageLines(lines: seq<string>): Option<seq<string>> {
    if |lines| == 0 then Some([])
    else if |lines[0]| == 0 || lines[0][0] != '\t' then None
    else match ReadImageLines(lines[1..])
      case None => None
      case Some(rest) => Some([lines[0][1..]] + rest)
  }

  /** Parses the text after the header; `None` unless it has the shape `Summary` writes. */
  function ReadSummary(text: string): Option<Report> {
    ReadSummaryLines(Text.Split(text))
  }

  function ReadSummaryLines(lines: seq<string>): Option<Report> {
    if |lines| < 5 || lines[0] != "" || lines[3] != ImagesLabel || lines[|lines| - 1] != "" then None
    else
      var statics := ReadCount(lines[1], StaticsLabel);
      var transitions := ReadCount(lines[2], TransitionsLabel);
      var images := ReadImageLines(lines[4..|lines| - 1]);
      if statics.None? || transitions.None? || images.None? then None
      else Some(Report(statics.value, transitions.value, images.value))
  }

  lemma {:induction false} ReadTabLines(images: seq<string>)
    ensures ReadImageLines(TabLines(images)) == Some(images)
    decreases |images|
  {
    if |images| > 0 {
      var lines := TabLines(images);
      assert lines[1..] == TabLines(images[1..]);
      ReadTabLines(images[1..]);
      assert lines[0] == "\t" + images[0];
      assert lines[0][1..] == images[0];
      assert [images[0]] + images[1..] == images;
    }
  }

  lemma LabelledCount(prefix: string, n: nat)
    ensures Text.NL !in prefix + Decimal.Itoa(n) <== Text.NL !in prefix
    ensures ReadCount(prefix + Decimal.Itoa(n), prefix) == Some(n)
  {
    var line := prefix + Decimal.Itoa(n);
    assert line[|prefix|..] == Decimal.Itoa(n);
    Decimal.ParseItoa(n);
    if Text.NL !in prefix {
      forall k | 0 <= k < |line|
        ensures line[k] != Text.NL
      {
        if k >= |prefix| {
          assert line[k] == Decimal.Itoa(n)[k - |prefix|];
        }
      }
    }
  }

  lemma LabelsHaveNoNewline()
    ensures Text.NL !in StaticsLabel && Text.NL !in TransitionsLabel && Text.NL !in ImagesLabel
  {
  }

  lemma HeaderLabelsHaveNoNewline()
    ensures Text.NL !in NameOpen && Text.NL !in NameClose && Text.NL !in PathLabel && Text.NL !in StartLabel
  {
  }

  /** A tab-indented line holds a newline only if the filename does. */
  lemma TabLineHasNoNewline(image: string)
    requires Text.NL !in image
    ensures Text.NL !in "\t" + image
  {
    var line := "\t" + image;
    assert forall k :: 1 <= k < |line| ==> line[k] == image[k - 1];
  }

  /** The lines of the summary, when no image name holds a newline. */
  lemma SplitSummary(c: Config)
    requires forall i :: 0 <= i < |Images(c)| ==> Text.NL !in Images(c)[i]
    ensures Text.Split(Summary(c))
         == ["", StaticsLabel + Decimal.Itoa(|c.statics|), TransitionsLabel + Decimal.Itoa(|c.transitions|), ImagesLabel]
            + TabLines(Images(c)) + [""]
  {
    var images := Images(c);
    var head := ["", StaticsLabel + Decimal.Itoa(|c.statics|), TransitionsLabel + Decimal.Itoa(|c.transitions|), ImagesLabel];
    var tabs := TabLines(images);
    var lines := head + tabs + [""];
    LabelsHaveNoNewline();
    LabelledCount(StaticsLabel, |c.statics|);
    LabelledCount(TransitionsLabel, |c.transitions|);
    forall i | 0 <= i < |lines|
      ensures Text.NL !in lines[i]
    {
      if 4 <= i < 4 + |tabs| {
        assert lines[i] == tabs[i - 4];
        TabLineHasNoNewline(images[i - 4]);
      } else if i < 4 {
        assert lines[i] == head[i];
      }
    }
    Text.SplitJoin(lines);
  }

  lemma ReadLinesOfSummary(staticCount: nat, transitionCount: nat, images: seq<string>)
    ensures var lines := ["", StaticsLabel + Decimal.Itoa(staticCount), TransitionsLabel + Decimal.Itoa(transitionCount), ImagesLabel]
                         + TabLines(images) + [""];
      ReadSummaryLines(lines) == Some(Report(staticCount, transitionCount, images))
  {
    var lines := ["", StaticsLabel + Decimal.Itoa(staticCount), TransitionsLabel + Decimal.Itoa(transitionCount), ImagesLabel]
                 + TabLines(images) + [""];
    assert lines[4..|lines| - 1] == TabLines(images);
    ReadTabLines(images);
    LabelledCount(StaticsLabel, staticCount);
    LabelledCount(TransitionsLabel, transitionCount);
  }

  /** The summary reads back as the two counts and exactly the images, when no image name holds a newline. */
  lemma ReadSummaryOfSummary(c: Config)
    requires forall i :: 0 <= i < |Images(c)| ==> Text.NL !in Images(c)[i]
    ensures ReadSummary(Summary(c)) == Some(Report(|c.statics|, |c.transitions|, Images(c)))
  {
    SplitSummary(c);
    ReadLinesOfSummary(|c.statics|, |c.transitions|, Images(c));
  }

  lemma AfterPrefix(a: string, b: string)
    ensures a <= a + b && (a + b)[|a|..] == b
  {
  }

  /**
    The description starts with the header, and what follows reads back as
    the number of statics, the number of transitions and exactly the images,
    in order -- provided no image name holds a newline.
   */
  lemma StringReportsCountsAndImages(w: Wallpaper, startTime: string)
    requires forall i :: 0 <= i < |Images(w.config)| ==> Text.NL !in Images(w.config)[i]
    ensures var header, s := Header(w, startTime), String(w, startTime);
      && header <= s
      && ReadSummary(s[|header|..])
         == Some(Report(|w.config.statics|, |w.config.transitions|, Images(w.config)))
  {
    AfterPrefix(Header(w, startTime), Summary(w.config));
    ReadSummaryOfSummary(w.config);
  }
}
