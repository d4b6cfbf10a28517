/** The fixed text that every generated setup.py contains. */
module SetupTemplate {

  const BelowMarker: string := "EDIT BELOW" + ThisLineOnly
  const AboveMarker: string := "EDIT ABOVE" + ThisLineOnly
  const ThisLineOnly: string := " THIS LINE ONLY"
  const Fence: string := "##########"
  const BelowLine: string := Fence + " " + BelowMarker + " " + Fence + "\n"
  const AboveLine: string := Fence + " " + AboveMarker + " " + Fence + "\n"

  /** The region used when there is no setup.py yet: `out.extend("\n\n")` adds two "\n". */
  const DefaultRegion: seq<string> := ["\n", "\n"]

  /**
   * The docstring and import written at the top of every setup.py, in pieces
   * short enough for the verifier to inspect character by character.
   */
  const Header: string :=
    DocQuotes + Generated + Generator + EditOnly + Overwritten + Rerun + DocQuotes + "\n" + SetupImport + "\n"
  const DocQuotes: string := "\"\"\"\n"
  const Generated: string := ThisFile + AutoGenerated
  const ThisFile: string := "This file is "
  const AutoGenerated: string := "automatically generated "
  const Generator: string := "by the autogen package.\n"
  const EditOnly: string := PleaseEdit + MarkedArea
  const PleaseEdit: string := "Please edit the "
  const MarkedArea: string := "marked area only. "
  const Overwritten: string := "Other areas will be\n"
  const Rerun: string := OverwrittenWhen + IsRerun
  const OverwrittenWhen: string := "overwritten when "
  const IsRerun: string := "autogen is rerun.\n"
  const SetupImport: string := FromSetuptools + ImportSetup
  const FromSetuptools: string := "from setuptools "
  const ImportSetup: string := "import setup\n"

  /** The call that ends every setup.py. */
  const SetupCall: string := "setup(**params)"

  /** Text that holds neither a "\r" nor an "E". */
  predicate Plain(s: string) {
    '\r' !in s && 'E' !in s
  }

  /** The header ends its last line and holds neither a "\r" nor any "E", so no marker. */
  lemma HeaderFacts()
    ensures |Header| > 0 && Header[|Header| - 1] == '\n'
    ensures '\r' !in Header && 'E' !in Header
  {
    DocQuotesPlain();
    ThisFilePlain();
    AutoGeneratedPlain();
    GeneratorPlain();
    PleaseEditPlain();
    MarkedAreaPlain();
    OverwrittenPlain();
    OverwrittenWhenPlain();
    IsRerunPlain();
    FromSetuptoolsPlain();
    ImportSetupPlain();
  }

  lemma DocQuotesPlain()
    ensures Plain(DocQuotes)
  {
  }

  lemma ThisFilePlain()
    ensures Plain(ThisFile)
  {
  }

  lemma AutoGeneratedPlain()
    ensures Plain(AutoGenerated)
  {
  }

  lemma GeneratorPlain()
    ensures Plain(Generator)
  {
  }

  lemma PleaseEditPlain()
    ensures Plain(PleaseEdit)
  {
  }

  lemma MarkedAreaPlain()
    ensures Plain(MarkedArea)
  {
  }

  lemma OverwrittenPlain()
    ensures Plain(Overwritten)
  {
  }

  lemma OverwrittenWhenPlain()
    ensures Plain(OverwrittenWhen)
  {
  }

  lemma IsRerunPlain()
    ensures Plain(IsRerun)
  {
  }

  lemma FromSetuptoolsPlain()
    ensures Plain(FromSetuptools)
  {
  }

  lemma ImportSetupPlain()
    ensures Plain(ImportSetup)
  {
  }

  lemma ThisLineOnlyFacts()
    ensures '\n' !in ThisLineOnly && '\r' !in ThisLineOnly && 'A' !in ThisLineOnly
  {
  }

  lemma BelowMarkerFacts()
    ensures '\n' !in BelowMarker && '\r' !in BelowMarker && 'A' !in BelowMarker
  {
    ThisLineOnlyFacts();
    assert '\n' !in "EDIT BELOW" && '\r' !in "EDIT BELOW" && 'A' !in "EDIT BELOW";
  }

  lemma AboveMarkerFacts()
    ensures '\n' !in AboveMarker && '\r' !in AboveMarker && AboveMarker[5] == 'A'
  {
    ThisLineOnlyFacts();
    assert '\n' !in "EDIT ABOVE" && '\r' !in "EDIT ABOVE";
  }

  lemma FenceFacts()
    ensures |Fence| == 10 && '\n' !in Fence && '\r' !in Fence && 'A' !in Fence
  {
  }

  lemma SetupCallFacts()
    ensures SetupCall != [] && '\r' !in SetupCall && '\n' !in SetupCall
  {
  }
}

/**
 * `Project.create_setup` in autogen/project.py: setup.py is regenerated from
 * the project's metadata, except for a hand-edited region between two marker
 * lines, which is carried over from the setup.py already on disk.
 */
module ProjectSetup {
  import opened Wrappers
  import opened Text
  import opened SetupTemplate

  /** The setup.py on disk has lines but lacks one of the two markers. */
  datatype SetupError = MarkersMissing

  // ---------------------------------------------------------------------------
  // Reading the edit region back

  /** `[i for i, s in enumerate(lines) if m in s][0]`, with None for the IndexError. */
  function FirstContaining(lines: seq<string>, m: string): (r: Option<nat>)
    ensures r.Some? ==> r.value < |lines| && Contains(lines[r.value], m)
    ensures r.Some? ==> forall i :: 0 <= i < r.value ==> !Contains(lines[i], m)
    ensures r.None? ==> forall i :: 0 <= i < |lines| ==> !Contains(lines[i], m)
    decreases |lines|
  {
    if lines == [] then None
    else if Contains(lines[0], m) then Some(0)
    else
      match FirstContaining(lines[1..], m)
      case None => None
      case Some(k) => Some(k + 1)
  }

  /** Python's `lines[a:b]` for `0 <= a <= |lines|` and `0 <= b`: empty when `b <= a`. */
  function Slice(lines: seq<string>, a: nat, b: nat): seq<string>
    requires a <= |lines|
  {
    if b <= a then [] else if b <= |lines| then lines[a..b] else lines[a..]
  }

  /**
   * The lines strictly between the first line holding `below` and the first
   * line holding `above`, or the IndexError when one of them is on no line.
   */
  function RegionBetween(lines: seq<string>, below: string, above: string): Result<seq<string>, SetupError> {
    var start := FirstContaining(lines, below);
    var end := FirstContaining(lines, above);
    if start.None? || end.None? then Failure(MarkersMissing)
    else Success(Slice(lines, start.value + 1, end.value))
  }

  /**
   * The bespoke lines of autogen/project.py:95-111: the default region when
   * there is no setup.py, otherwise the lines between the two marker lines.
   */
  function ExtractRegion(existing: Option<string>): Result<seq<string>, SetupError> {
    match existing
    case None => Success(DefaultRegion)
    case Some(text) => RegionBetween(ReadLines(text), BelowMarker, AboveMarker)
  }

  /**
   * The region is read exactly as stated: the call fails if and only if one
   * of the markers is on no line; otherwise there are first lines `s` and `e`
   * holding the markers and the region is what lies strictly between them,
   * or nothing when the ABOVE marker comes first.
   */
  lemma ExtractRegionBetweenMarkers(text: string)
    ensures var lines := ReadLines(text);
      ExtractRegion(Some(text)).Failure? <==>
        (forall i :: 0 <= i < |lines| ==> !Contains(lines[i], BelowMarker)) ||
        (forall i :: 0 <= i < |lines| ==> !Contains(lines[i], AboveMarker))
    ensures var lines := ReadLines(text);
      ExtractRegion(Some(text)).Success? ==>
        exists s, e :: 0 <= s < |lines| && 0 <= e < |lines| &&
          Contains(lines[s], BelowMarker) && (forall i :: 0 <= i < s ==> !Contains(lines[i], BelowMarker)) &&
          Contains(lines[e], AboveMarker) && (forall i :: 0 <= i < e ==> !Contains(lines[i], AboveMarker)) &&
          ExtractRegion(Some(text)).value == (if s < e then lines[s + 1..e] else [])
  {
    RegionBetweenMarkers(ReadLines(text), BelowMarker, AboveMarker);
  }

  /** `RegionBetween` for any two markers. */
  lemma RegionBetweenMarkers(lines: seq<string>, below: string, above: string)
    ensures RegionBetween(lines, below, above).Failure? <==>
      (forall i :: 0 <= i < |lines| ==> !Contains(lines[i], below)) ||
      (forall i :: 0 <= i < |lines| ==> !Contains(lines[i], above))
    ensures RegionBetween(lines, below, above).Success? ==>
      exists s, e :: 0 <= s < |lines| && 0 <= e < |lines| &&
        Contains(lines[s], below) && (forall i :: 0 <= i < s ==> !Contains(lines[i], below)) &&
        Contains(lines[e], above) && (forall i :: 0 <= i < e ==> !Contains(lines[i], above)) &&
        RegionBetween(lines, below, above).value == (if s < e then lines[s + 1..e] else [])
  {
    var start := FirstContaining(lines, below);
    var end := FirstContaining(lines, above);
    if start.Some? && end.Some? {
      var s, e := start.value, end.value;
      assert RegionBetween(lines, below, above).value == (if s < e then lines[s + 1..e] else []);
    }
  }

  /** A line is carried over unchanged by a later run. */
  predicate Preservable(line: string) {
    IsLine(line) && '\r' !in line && !Contains(line, AboveMarker)
  }

  /**
   * Every line of a region read from disk can be carried over again: it ends
   * in its own "\n" (it is not the last line of the file), has no "\r" (reading
   * translates newlines) and does not hold the ABOVE marker (that line ends the
   * region).
   */
  lemma RegionLinesPreservable(existing: Option<string>)
    requires ExtractRegion(existing).Success?
    ensures forall i :: 0 <= i < |ExtractRegion(existing).value| ==>
      Preservable(ExtractRegion(existing).value[i])
  {
    match existing
    case None =>
      assert forall i :: 0 <= i < 2 ==> DefaultRegion[i] == "\n";
    case Some(text) =>
      var lines := ReadLines(text);
      var region := ExtractRegion(existing).value;
      ReadLinesShape(text);
      forall i | 0 <= i < |region|
        ensures Preservable(region[i])
      {
        RegionLineAt(lines, BelowMarker, AboveMarker, i);
      }
  }

  /**
   * Line `i` of a region is a line of the text before the last one, and it
   * lacks the `above` marker.
   */
  lemma RegionLineAt(lines: seq<string>, below: string, above: string, i: int)
    requires RegionBetween(lines, below, above).Success?
    requires 0 <= i < |RegionBetween(lines, below, above).value|
    ensures var j := FirstContaining(lines, below).value + 1 + i;
      j < |lines| - 1 && RegionBetween(lines, below, above).value[i] == lines[j] &&
      !Contains(lines[j], above)
  {
    var s := FirstContaining(lines, below).value;
    var e := FirstContaining(lines, above).value;
    SliceAt(lines, s + 1, e, i);
  }

  /** Element `i` of a slice is element `a + i` of the whole. */
  lemma SliceAt(lines: seq<string>, a: nat, b: nat, i: int)
    requires a <= |lines| && b <= |lines| && 0 <= i < |Slice(lines, a, b)|
    ensures a + i < b && Slice(lines, a, b)[i] == lines[a + i]
  {
  }

  // ---------------------------------------------------------------------------
  // Writing setup.py

  /**
   * A value of `setup_defaults()`: a string, which is quoted, or any other
   * value, given as the text `str()` makes of it for `%s`.
   */
  datatype ParamValue = Str(s: string) | Other(text: string)

  datatype Param = Param(key: string, value: ParamValue)

  /** `"   %s=%s" % (k, v)`, after a string `v` was put between single quotes. */
  function RenderParam(p: Param): string {
    var v := match p.value
      case Str(s) => "'" + s + "'"
      case Other(text) => text;
    "   " + p.key + "=" + v
  }

  /** The `params = dict(...)` block and the blank line after it. */
  function ParamsBlock(params: seq<Param>): string {
    "params = dict(\n"
    + Join(",\n", seq(|params|, i requires 0 <= i < |params| => RenderParam(params[i])))
    + ")\n" + "\n"
  }

  /** `"".join(out)` before autopep8: header, params, the marked region, the setup call. */
  function SetupText(params: seq<Param>, region: seq<string>): string {
    Header + ParamsBlock(params) + BelowLine + Concat(region) + AboveLine + "\n" + SetupCall
  }

  /** The contents written to setup.py, or the error raised for missing markers. */
  function SetupFile(params: seq<Param>, existing: Option<string>): Result<string, SetupError> {
    match ExtractRegion(existing)
    case Failure(e) => Failure(e)
    case Success(region) => Success(SetupText(params, region))
  }

  /** The loop of autogen/project.py:71-75: one rendered line per parameter, in order. */
  method RenderParams(params: seq<Param>) returns (rendered: seq<string>)
    ensures |rendered| == |params|
    ensures forall j :: 0 <= j < |params| ==> rendered[j] == RenderParam(params[j])
  {
    rendered := [];
    var i := 0;
    while i < |params|
      invariant 0 <= i <= |params|
      invariant |rendered| == i
      invariant forall j :: 0 <= j < i ==> rendered[j] == RenderParam(params[j])
    {
      rendered := rendered + [RenderParam(params[i])];
      i := i + 1;
    }
  }

  /**
   * `create_setup` as autogen/project.py:55-119 builds it, piece by piece in
   * `out`, given the parameters and the current setup.py (None when absent).
   */
  method CreateSetup(params: seq<Param>, existing: Option<string>) returns (r: Result<string, SetupError>)
    ensures r == SetupFile(params, existing)
  {
    var out: seq<string> := [Header];
    assert Concat(out) == Header;
    ConcatPush(out, "params = dict(\n");
    out := out + ["params = dict(\n"];
    var rendered := RenderParams(params);
    ConcatPush(out, Join(",\n", rendered));
    out := out + [Join(",\n", rendered)];
    ConcatPush(out, ")\n");
    out := out + [")\n"];
    ConcatPush(out, "\n");
    out := out + ["\n"];
    assert rendered == seq(|params|, i requires 0 <= i < |params| => RenderParam(params[i]));
    Regroup4(Header, "params = dict(\n", Join(",\n", rendered), ")\n", "\n");
    assert Concat(out) == Header + ParamsBlock(params);
    ConcatPush(out, BelowLine);
    out := out + [BelowLine];
    var bespoke := ExtractRegion(existing);
    if bespoke.Failure? {
      return Failure(MarkersMissing);
    }
    ConcatAppend(out, bespoke.value);
    out := out + bespoke.value;
    ConcatPush(out, AboveLine);
    out := out + [AboveLine];
    ConcatPush(out, "\n");
    out := out + ["\n"];
    ConcatPush(out, SetupCall);
    out := out + [SetupCall];
    assert Concat(out) == SetupText(params, bespoke.value);
    r := Success(Concat(out));
  }

  lemma Regroup4(h: string, a: string, b: string, c: string, d: string)
    ensures h + a + b + c + d == h + (a + b + c + d)
  {
    Associative(h, a, b);
    Associative(h, a + b, c);
    Associative(h, a + b + c, d);
  }

  // ---------------------------------------------------------------------------
  // The round trip

  /** What the parameters contribute to setup.py must not be mistaken for a marker. */
  predicate QuietParams(params: seq<Param>) {
    var block := ParamsBlock(params);
    '\r' !in block && !Contains(block, BelowMarker) && !Contains(block, AboveMarker)
  }

  /** A marker line: the marker between fences, ended by "\n". */
  lemma MarkerLine(marker: string)
    requires '\n' !in marker && '\r' !in marker
    ensures var line := Fence + " " + marker + " " + Fence + "\n";
      IsLine(line) && '\r' !in line && Contains(line, marker)
  {
    var line := Fence + " " + marker + " " + Fence + "\n";
    FenceFacts();
    assert line[11..11 + |marker|] == marker;
    assert OccursAt(line, marker, 11);
    assert forall j :: 0 <= j < |line| - 1 ==> line[j] in Fence + " " + marker + " " + Fence;
  }

  /** Each marker line is one line and holds its own marker. */
  lemma MarkerLineFacts()
    ensures IsLine(BelowLine) && '\r' !in BelowLine && Contains(BelowLine, BelowMarker)
    ensures IsLine(AboveLine) && '\r' !in AboveLine && Contains(AboveLine, AboveMarker)
  {
    BelowMarkerFacts();
    AboveMarkerFacts();
    MarkerLine(BelowMarker);
    MarkerLine(AboveMarker);
  }

  /** The BELOW marker line has no "A", so it cannot hold the ABOVE marker. */
  lemma BelowLineLacksAbove()
    ensures !Contains(BelowLine, AboveMarker)
  {
    BelowMarkerFacts();
    AboveMarkerFacts();
    FenceFacts();
    assert 'A' !in BelowLine;
    LacksLetter(BelowLine, AboveMarker, 5);
  }

  lemma UniversalNewlinesPlain(s: string)
    requires '\r' !in s
    ensures UniversalNewlines(s) == s
  {
    UniversalNewlinesAppend(s, []);
    assert s + [] == s;
  }

  /** A text without the letter `m[j]` holds no string that has it. */
  lemma LacksLetter(s: string, m: string, j: int)
    requires 0 <= j < |m| && m[j] !in s
    ensures !Contains(s, m)
  {
    if Contains(s, m) {
      ContainsChar(s, m, j);
    }
  }

  /** No line read from a text holds a string the text does not hold. */
  lemma LinesLack(s: string, m: string)
    requires !Contains(s, m)
    ensures forall i :: 0 <= i < |SplitLines(s)| ==> !Contains(SplitLines(s)[i], m)
  {
    forall i | 0 <= i < |SplitLines(s)|
      ensures !Contains(SplitLines(s)[i], m)
    {
      LinesInText(s, i);
      if Contains(SplitLines(s)[i], m) {
        ContainsTransitive(s, SplitLines(s)[i], m);
      }
    }
  }

  lemma {:induction false} ConcatNoChar(parts: seq<string>, c: char)
    requires forall i :: 0 <= i < |parts| ==> c !in parts[i]
    ensures c !in Concat(parts)
    decreases |parts|
  {
    if parts != [] {
      ConcatNoChar(parts[1..], c);
    }
  }

  /** Complete lines joined end in "\n" (or are empty). */
  lemma {:induction false} ConcatLines(parts: seq<string>)
    requires forall i :: 0 <= i < |parts| ==> IsLine(parts[i])
    ensures Concat(parts) == [] || Concat(parts)[|Concat(parts)| - 1] == '\n'
    decreases |parts|
  {
    if parts != [] {
      ConcatLines(parts[1..]);
    }
  }

  /** The ABOVE marker line, a blank line and the call, as lines. */
  lemma LastLines(above: string, tail: string)
    requires IsLine(above)
    requires tail != [] && '\n' !in tail
    ensures SplitLines(above + ("\n" + tail)) == [above] + ["\n", tail]
  {
    SplitLinesOfLastLine(tail);
    SplitLinesOfLine("\n");
    SplitLinesAppend("\n", tail);
    SplitLinesOfLine(above);
    SplitLinesAppend(above, "\n" + tail);
  }

  /** Complete lines at the front of a text are read back as themselves. */
  lemma BottomLines(region: seq<string>, rest: string)
    requires forall i :: 0 <= i < |region| ==> IsLine(region[i])
    ensures SplitLines(Concat(region) + rest) == region + SplitLines(rest)
  {
    ConcatLines(region);
    SplitLinesConcat(region);
    SplitLinesAppend(Concat(region), rest);
  }

  /**
   * The lines of text laid out as setup.py is: complete text, a marker line,
   * preserved lines, a marker line, a blank line and a last line without "\n".
   */
  lemma LayoutLines(top: string, below: string, region: seq<string>, above: string, tail: string)
    requires '\r' !in top && (top == [] || top[|top| - 1] == '\n')
    requires IsLine(below) && '\r' !in below && IsLine(above) && '\r' !in above
    requires forall i :: 0 <= i < |region| ==> IsLine(region[i]) && '\r' !in region[i]
    requires tail != [] && '\r' !in tail && '\n' !in tail
    ensures ReadLines(top + below + Concat(region) + above + "\n" + tail) ==
      SplitLines(top) + [below] + region + [above] + ["\n", tail]
  {
    LayoutText(top, below, region, above, tail);
    SplitLayout(top, below, region, above, tail);
  }

  /** The layout has no "\r", so reading it splits it as it is. */
  lemma LayoutText(top: string, below: string, region: seq<string>, above: string, tail: string)
    requires '\r' !in top && '\r' !in below && '\r' !in above && '\r' !in tail
    requires forall i :: 0 <= i < |region| ==> '\r' !in region[i]
    ensures ReadLines(top + below + Concat(region) + above + "\n" + tail) ==
      SplitLines(top + (below + (Concat(region) + (above + ("\n" + tail)))))
  {
    var text := top + below + Concat(region) + above + "\n" + tail;
    assert text == top + (below + (Concat(region) + (above + ("\n" + tail))));
    ConcatNoChar(region, '\r');
    UniversalNewlinesPlain(text);
  }

  lemma SplitLayout(top: string, below: string, region: seq<string>, above: string, tail: string)
    requires top == [] || top[|top| - 1] == '\n'
    requires IsLine(below) && IsLine(above)
    requires forall i :: 0 <= i < |region| ==> IsLine(region[i])
    requires tail != [] && '\n' !in tail
    ensures SplitLines(top + (below + (Concat(region) + (above + ("\n" + tail))))) ==
      SplitLines(top) + [below] + region + [above] + ["\n", tail]
  {
    var rest := Concat(region) + (above + ("\n" + tail));
    RestLines(region, above, tail);
    MiddleLines(top, below, rest, region + ([above] + ["\n", tail]));
    Regroup(SplitLines(top) + [below], region, above, tail);
  }

  /** The lines from the region on. */
  lemma RestLines(region: seq<string>, above: string, tail: string)
    requires IsLine(above)
    requires forall i :: 0 <= i < |region| ==> IsLine(region[i])
    requires tail != [] && '\n' !in tail
    ensures SplitLines(Concat(region) + (above + ("\n" + tail))) == region + ([above] + ["\n", tail])
  {
    LastLines(above, tail);
    BottomLines(region, above + ("\n" + tail));
  }

  /** Complete text, then a line, then text with known lines. */
  lemma MiddleLines(top: string, below: string, rest: string, restLines: seq<string>)
    requires top == [] || top[|top| - 1] == '\n'
    requires IsLine(below)
    requires SplitLines(rest) == restLines
    ensures SplitLines(top + (below + rest)) == SplitLines(top) + [below] + restLines
  {
    SplitLinesAppend(top, below + rest);
    SplitLinesAppend(below, rest);
    SplitLinesOfLine(below);
    Associative(SplitLines(top), [below], restLines);
  }

  lemma Regroup(front: seq<string>, region: seq<string>, above: string, tail: string)
    ensures front + (region + ([above] + ["\n", tail])) == front + region + [above] + ["\n", tail]
  {
    Associative(front, region, [above] + ["\n", tail]);
    Associative(front + region, [above], ["\n", tail]);
  }

  /** Lines that lack `m` in front shift the first line holding it. */
  lemma {:induction false} FirstContainingSkip(a: seq<string>, b: seq<string>, m: string)
    requires forall i :: 0 <= i < |a| ==> !Contains(a[i], m)
    ensures FirstContaining(a + b, m) ==
      match FirstContaining(b, m)
      case None => None
      case Some(k) => Some(|a| + k)
    decreases |a|
  {
    if a != [] {
      assert (a + b)[1..] == a[1..] + b;
      FirstContainingSkip(a[1..], b, m);
    } else {
      assert a + b == b;
    }
  }

  /**
   * With no marker above the `below` line and no `above` marker inside the
   * region, the region lies exactly between the two marker lines.
   */
  lemma LayoutRegion(top: seq<string>, below: string, region: seq<string>, above: string, rest: seq<string>,
                     bm: string, am: string)
    requires forall i :: 0 <= i < |top| ==> !Contains(top[i], bm) && !Contains(top[i], am)
    requires Contains(below, bm) && !Contains(below, am)
    requires forall i :: 0 <= i < |region| ==> !Contains(region[i], am)
    requires Contains(above, am)
    ensures RegionBetween(top + [below] + region + [above] + rest, bm, am) == Success(region)
  {
    var lines := top + [below] + region + [above] + rest;
    var middle := top + [below] + region;
    assert lines == top + [below] + (region + [above] + rest);
    FirstAt(top, below, region + [above] + rest, bm);
    MiddleLacks(top, below, region, am);
    FirstAt(middle, above, rest, am);
    assert lines[|top| + 1..|top| + 1 + |region|] == region;
  }

  /** The first line holding `m` is `x` when no line before it does. */
  lemma FirstAt(a: seq<string>, x: string, b: seq<string>, m: string)
    requires forall i :: 0 <= i < |a| ==> !Contains(a[i], m)
    requires Contains(x, m)
    ensures FirstContaining(a + [x] + b, m) == Some(|a|)
  {
    assert a + [x] + b == a + ([x] + b);
    FirstContainingSkip(a, [x] + b, m);
  }

  /** No line from the top through the region holds the `am` marker. */
  lemma MiddleLacks(top: seq<string>, below: string, region: seq<string>, am: string)
    requires forall i :: 0 <= i < |top| ==> !Contains(top[i], am)
    requires !Contains(below, am)
    requires forall i :: 0 <= i < |region| ==> !Contains(region[i], am)
    ensures forall i :: 0 <= i < |top + [below] + region| ==> !Contains((top + [below] + region)[i], am)
  {
    var middle := top + [below] + region;
    forall i | 0 <= i < |middle|
      ensures !Contains(middle[i], am)
    {
      if i > |top| {
        assert middle[i] == region[i - |top| - 1];
      }
    }
  }

  /** The header holds no "E", so none of its lines holds a marker. */
  lemma HeaderLinesQuiet()
    ensures forall i :: 0 <= i < |SplitLines(Header)| ==>
      !Contains(SplitLines(Header)[i], BelowMarker) && !Contains(SplitLines(Header)[i], AboveMarker)
  {
    HeaderFacts();
    LacksLetter(Header, BelowMarker, 0);
    LacksLetter(Header, AboveMarker, 0);
    LinesLack(Header, BelowMarker);
    LinesLack(Header, AboveMarker);
  }

  /** Lines that lack two strings, followed by more such lines. */
  lemma QuietLinesAppend(a: string, b: string, m1: string, m2: string)
    requires a == [] || a[|a| - 1] == '\n'
    requires forall i :: 0 <= i < |SplitLines(a)| ==>
      !Contains(SplitLines(a)[i], m1) && !Contains(SplitLines(a)[i], m2)
    requires forall i :: 0 <= i < |SplitLines(b)| ==>
      !Contains(SplitLines(b)[i], m1) && !Contains(SplitLines(b)[i], m2)
    ensures forall i :: 0 <= i < |SplitLines(a + b)| ==>
      !Contains(SplitLines(a + b)[i], m1) && !Contains(SplitLines(a + b)[i], m2)
  {
    SplitLinesAppend(a, b);
    QuietConcat(SplitLines(a), SplitLines(b), m1, m2);
  }

  lemma QuietConcat(x: seq<string>, y: seq<string>, m1: string, m2: string)
    requires forall i :: 0 <= i < |x| ==> !Contains(x[i], m1) && !Contains(x[i], m2)
    requires forall i :: 0 <= i < |y| ==> !Contains(y[i], m1) && !Contains(y[i], m2)
    ensures forall i :: 0 <= i < |x + y| ==> !Contains((x + y)[i], m1) && !Contains((x + y)[i], m2)
  {
    forall i | 0 <= i < |x + y|
      ensures !Contains((x + y)[i], m1) && !Contains((x + y)[i], m2)
    {
      if i >= |x| {
        assert (x + y)[i] == y[i - |x|];
      }
    }
  }

  /** The lines of the generated file above its BELOW line hold neither marker. */
  lemma TopLinesQuiet(params: seq<Param>)
    requires QuietParams(params)
    ensures var top := Header + ParamsBlock(params);
      '\r' !in top && top[|top| - 1] == '\n' &&
      forall i :: 0 <= i < |SplitLines(top)| ==>
        !Contains(SplitLines(top)[i], BelowMarker) && !Contains(SplitLines(top)[i], AboveMarker)
  {
    var block := ParamsBlock(params);
    HeaderFacts();
    HeaderLinesQuiet();
    LinesLack(block, BelowMarker);
    LinesLack(block, AboveMarker);
    QuietLinesAppend(Header, block, BelowMarker, AboveMarker);
  }

  /**
   * The promise of the generated header: reading the edit region back from a
   * freshly written setup.py gives the preserved lines unchanged, as long as
   * none of them holds the ABOVE marker and the parameters hold no marker.
   */
  lemma RegionRoundTrip(params: seq<Param>, region: seq<string>)
    requires forall i :: 0 <= i < |region| ==> Preservable(region[i])
    requires QuietParams(params)
    ensures ExtractRegion(Some(SetupText(params, region))) == Success(region)
  {
    var tops := SplitLines(Header + ParamsBlock(params));
    SetupTextLines(params, region);
    TopLinesQuiet(params);
    MarkerLineFacts();
    BelowLineLacksAbove();
    LayoutRegion(tops, BelowLine, region, AboveLine, ["\n", SetupCall], BelowMarker, AboveMarker);
  }

  /** The lines of a generated setup.py. */
  lemma SetupTextLines(params: seq<Param>, region: seq<string>)
    requires forall i :: 0 <= i < |region| ==> Preservable(region[i])
    requires QuietParams(params)
    ensures ReadLines(SetupText(params, region)) ==
      SplitLines(Header + ParamsBlock(params)) + [BelowLine] + region + [AboveLine] + ["\n", SetupCall]
  {
    TopLinesQuiet(params);
    MarkerLineFacts();
    SetupCallFacts();
    forall i | 0 <= i < |region|
      ensures IsLine(region[i]) && '\r' !in region[i]
    {
    }
    LayoutLines(Header + ParamsBlock(params), BelowLine, region, AboveLine, SetupCall);
  }


  /**
   * Regenerating setup.py with the same parameters writes the same file again:
   * the region just written is the region read on the next run.
   */
  lemma CreateSetupIdempotent(params: seq<Param>, existing: Option<string>)
    requires QuietParams(params)
    requires SetupFile(params, existing).Success?
    ensures SetupFile(params, Some(SetupFile(params, existing).value)) == SetupFile(params, existing)
  {
    RegionLinesPreservable(existing);
    RegionRoundTrip(params, ExtractRegion(existing).value);
  }
}
