/**
 * The release version of a project (`Project.version` and
 * `Project.update_version` in autogen/project.py): a dotted string of integers
 * kept in a file named `version`, bumped at a chosen level before a release.
 */
module ProjectVersion {
  import opened Wrappers
  import opened Text
  import opened Numerals

  datatype VersionError =
    | NotAnInteger      // int() raised ValueError on a component
    | LevelOutOfRange   // versions[level] raised IndexError

  const DefaultVersion: string := "0.0.0"

  /** `Project.version`: the text of the version file, or "0.0.0" when there is none. */
  function VersionText(versionFile: Option<string>): string {
    match versionFile
    case Some(text) => text
    case None => DefaultVersion
  }

  /** `[int(v) for v in parts]`; the first component that is not an integer raises. */
  function ParseComponents(parts: seq<string>): (r: Result<seq<int>, VersionError>)
    ensures r.Failure? ==> r.error == NotAnInteger
    ensures r.Success? ==> |r.value| == |parts|
    decreases |parts|
  {
    if parts == [] then Success([])
    else
      var head := ParseInt(parts[0]);
      var tail := ParseComponents(parts[1..]);
      if head.None? then Failure(NotAnInteger)
      else if tail.Failure? then tail
      else Success([head.value] + tail.value)
  }

  /**
   * The list comprehension succeeds exactly when every part is an integer,
   * and then holds each part's value at the part's position.
   */
  lemma ParseComponentsSpec(parts: seq<string>)
    ensures ParseComponents(parts).Success? <==> forall i :: 0 <= i < |parts| ==> ParseInt(parts[i]).Some?
    ensures ParseComponents(parts).Success? ==>
      forall i :: 0 <= i < |parts| ==> ParseComponents(parts).value[i] == ParseInt(parts[i]).value
  {
    if ParseComponents(parts).Success? {
      forall i | 0 <= i < |parts|
        ensures ParseInt(parts[i]).Some? && ParseComponents(parts).value[i] == ParseInt(parts[i]).value
      {
        ParseComponentAt(parts, i);
      }
    } else if forall i :: 0 <= i < |parts| ==> ParseInt(parts[i]).Some? {
      ParseComponentsSucceed(parts);
    }
  }

  /** A successful parse holds the value of part `i` at position `i`. */
  lemma ParseComponentAt(parts: seq<string>, i: nat)
    requires i < |parts| && ParseComponents(parts).Success?
    ensures ParseInt(parts[i]) == Some(ParseComponents(parts).value[i])
  {
    ParseComponentsFrom(parts, i);
    ParseComponentsHead(parts[i..]);
    assert parts[i..][0] == parts[i];
  }

  /** The parse of the parts from `i` on is the successful parse from `i` on. */
  lemma {:induction false} ParseComponentsFrom(parts: seq<string>, i: nat)
    requires i <= |parts| && ParseComponents(parts).Success?
    ensures ParseComponents(parts[i..]) == Success(ParseComponents(parts).value[i..])
    decreases i
  {
    if i > 0 {
      ParseComponentsFrom(parts, i - 1);
      ParseComponentsFromStep(parts, ParseComponents(parts).value, i);
    }
  }

  /** The parse from `i - 1` on carries the parse from `i` on. */
  lemma ParseComponentsFromStep(parts: seq<string>, values: seq<int>, i: nat)
    requires 0 < i <= |parts| == |values|
    requires ParseComponents(parts[i - 1..]) == Success(values[i - 1..])
    ensures ParseComponents(parts[i..]) == Success(values[i..])
  {
    ParseComponentsHead(parts[i - 1..]);
    assert parts[i - 1..][1..] == parts[i..];
    assert values[i - 1..][1..] == values[i..];
  }

  /** The first part of a successful parse, and the parse of the rest behind it. */
  lemma ParseComponentsHead(parts: seq<string>)
    requires parts != [] && ParseComponents(parts).Success?
    ensures ParseInt(parts[0]) == Some(ParseComponents(parts).value[0])
    ensures ParseComponents(parts[1..]) == Success(ParseComponents(parts).value[1..])
  {
  }

  /** A parse in which every part is an integer succeeds. */
  lemma {:induction false} ParseComponentsSucceed(parts: seq<string>)
    requires forall i :: 0 <= i < |parts| ==> ParseInt(parts[i]).Some?
    ensures ParseComponents(parts).Success?
    decreases |parts|
  {
    if parts != [] {
      var tail := parts[1..];
      assert forall i :: 0 <= i < |tail| ==> tail[i] == parts[i + 1];
      ParseComponentsSucceed(tail);
      assert ParseInt(parts[0]).Some?;
    }
  }

  /** `[int(v) for v in version.split(".")]`. */
  function ParseVersion(version: string): Result<seq<int>, VersionError> {
    ParseComponents(SplitOn(version, '.'))
  }

  /** `[str(v) for v in versions]`. */
  function ComponentStrings(versions: seq<int>): (parts: seq<string>)
    ensures |parts| == |versions|
    ensures forall i :: 0 <= i < |versions| ==> parts[i] == IntToString(versions[i])
    decreases |versions|
  {
    if versions == [] then [] else [IntToString(versions[0])] + ComponentStrings(versions[1..])
  }

  /** `".".join([str(v) for v in versions])`. */
  function FormatVersion(versions: seq<int>): string {
    Join(".", ComponentStrings(versions))
  }

  /** `k` is a valid Python index into a list of length `n`. */
  predicate ValidIndex(k: int, n: nat) {
    -(n as int) <= k < n
  }

  /** The position Python's `xs[k]` refers to: negative indexes count from the end. */
  function PyIndex(k: int, n: nat): int {
    if k < 0 then k + n else k
  }

  /**
   * Position `j` has been set to 0 by the iterations `i` of
   * `for i in range(level + 1, n): versions[i] = 0` with `i < upTo`.
   */
  ghost predicate ZeroedBy(level: int, n: nat, upTo: int, j: int) {
    exists k :: level + 1 <= k < upTo && PyIndex(k, n) == j
  }

  /**
   * The components after `versions[level] += 1` and the zeroing loop of
   * autogen/project.py:161-163, position by position, with Python's indexing.
   */
  ghost function Bumped(versions: seq<int>, level: int): seq<int>
    requires ValidIndex(level, |versions|)
  {
    var n := |versions|;
    seq(n, j requires 0 <= j < n =>
      if ZeroedBy(level, n, n, j) then 0
      else if j == PyIndex(level, n) then versions[j] + 1
      else versions[j])
  }

  lemma ZeroedStep(level: int, n: nat, i: int, j: int)
    requires level + 1 <= i
    ensures ZeroedBy(level, n, i + 1, j) <==> ZeroedBy(level, n, i, j) || PyIndex(i, n) == j
  {
    if PyIndex(i, n) == j {
      assert level + 1 <= i < i + 1 && PyIndex(i, n) == j;
    }
    if ZeroedBy(level, n, i + 1, j) && PyIndex(i, n) != j {
      var k :| level + 1 <= k < i + 1 && PyIndex(k, n) == j;
      assert k < i;
    }
  }

  /** The list mutation of `update_version`, on the integer components. */
  method BumpInPlace(versions: array<int>, level: int)
    requires ValidIndex(level, versions.Length)
    modifies versions
    ensures versions[..] == Bumped(old(versions[..]), level)
  {
    var n := versions.Length;
    var at := PyIndex(level, n);
    versions[at] := versions[at] + 1;
    ghost var incremented := versions[..];
    var i := level + 1;
    while i < n
      invariant level + 1 <= i <= n
      invariant forall j :: 0 <= j < n ==>
        versions[j] == (if ZeroedBy(level, n, i, j) then 0 else incremented[j])
    {
      forall j | 0 <= j < n {
        ZeroedStep(level, n, i, j);
      }
      versions[PyIndex(i, n)] := 0;
      i := i + 1;
    }
  }

  /**
   * `Project.update_version(level)`: the new text of the version file, or the
   * error that `int()` or the list index raises.
   */
  method UpdateVersion(version: string, level: int) returns (r: Result<string, VersionError>)
    ensures ParseVersion(version).Failure? ==> r == Failure(NotAnInteger)
    ensures ParseVersion(version).Success? && !ValidIndex(level, |ParseVersion(version).value|) ==>
      r == Failure(LevelOutOfRange)
    ensures ParseVersion(version).Success? && ValidIndex(level, |ParseVersion(version).value|) ==>
      r == Success(FormatVersion(Bumped(ParseVersion(version).value, level)))
  {
    var parsed := ParseVersion(version);
    if parsed.Failure? {
      return Failure(NotAnInteger);
    }
    var components := parsed.value;
    if !ValidIndex(level, |components|) {
      return Failure(LevelOutOfRange);
    }
    var bumped := BumpComponents(components, level);
    r := Success(FormatVersion(bumped));
  }

  /** `versions` as the list `update_version` mutates: copied into an array and bumped there. */
  method BumpComponents(components: seq<int>, level: int) returns (bumped: seq<int>)
    requires ValidIndex(level, |components|)
    ensures bumped == Bumped(components, level)
  {
    var versions := new int[|components|](i requires 0 <= i < |components| => components[i]);
    assert versions[..] == components;
    BumpInPlace(versions, level);
    bumped := versions[..];
  }

  /**
   * For a level counted from the front: the component count is kept, the
   * component at `level` goes up by one, the ones before it are unchanged and
   * the ones after it become 0.
   */
  lemma BumpAtLevel(versions: seq<int>, level: int)
    requires 0 <= level < |versions|
    ensures |Bumped(versions, level)| == |versions|
    ensures Bumped(versions, level)[level] == versions[level] + 1
    ensures forall j :: 0 <= j < level ==> Bumped(versions, level)[j] == versions[j]
    ensures forall j :: level < j < |versions| ==> Bumped(versions, level)[j] == 0
  {
    var n := |versions|;
    forall j | 0 <= j <= level
      ensures !ZeroedBy(level, n, n, j)
    {
    }
    forall j | level < j < n
      ensures ZeroedBy(level, n, n, j)
    {
      assert PyIndex(j, n) == j;
    }
  }

  /**
   * For a level counted from the end (a negative Python index) the zeroing
   * loop starts at a negative index and runs over every position, so every
   * component, the incremented one included, becomes 0.
   */
  lemma NegativeLevelZeroesAll(versions: seq<int>, level: int)
    requires -|versions| <= level < 0
    ensures Bumped(versions, level) == seq(|versions|, j => 0)
  {
    var n := |versions|;
    forall j | 0 <= j < n
      ensures ZeroedBy(level, n, n, j)
    {
      assert level + 1 <= j < n && PyIndex(j, n) == j;
    }
  }

  lemma IntToStringHasNoDot(x: int)
    ensures '.' !in IntToString(x)
  {
    var ds := NatToString(if x < 0 then -x else x);
    assert forall i :: 0 <= i < |ds| ==> ds[i] != '.';
    if x < 0 {
      assert IntToString(x) == ['-'] + ds;
    }
  }

  /** A formatted version parses back to the same components. */
  lemma FormatParseRoundTrip(versions: seq<int>)
    requires |versions| >= 1
    ensures ParseVersion(FormatVersion(versions)) == Success(versions)
  {
    var parts := ComponentStrings(versions);
    forall i | 0 <= i < |parts|
      ensures '.' !in parts[i]
    {
      IntToStringHasNoDot(versions[i]);
    }
    SplitJoin(parts, '.');
    assert SplitOn(FormatVersion(versions), '.') == parts;
    ParseFormattedComponents(versions);
  }

  lemma {:induction false} ParseFormattedComponents(versions: seq<int>)
    ensures ParseComponents(ComponentStrings(versions)) == Success(versions)
    decreases |versions|
  {
    if versions != [] {
      ParseFormattedComponents(versions[1..]);
      assert versions == [versions[0]] + versions[1..];
      ParseComponentsCons(versions[0], versions[1..]);
    }
  }

  /** The step of `ParseFormattedComponents`: one more component in front. */
  lemma ParseComponentsCons(v: int, rest: seq<int>)
    requires ParseComponents(ComponentStrings(rest)) == Success(rest)
    ensures ParseComponents(ComponentStrings([v] + rest)) == Success([v] + rest)
  {
    var parts := ComponentStrings([v] + rest);
    assert ([v] + rest)[1..] == rest;
    assert parts == [IntToString(v)] + ComponentStrings(rest);
    assert parts[1..] == ComponentStrings(rest);
    ParseIntOfString(v);
  }

  /** What `update_version` writes is itself a version a later release can bump. */
  lemma BumpedVersionReparses(versions: seq<int>, level: int)
    requires ValidIndex(level, |versions|)
    ensures ParseVersion(FormatVersion(Bumped(versions, level))) == Success(Bumped(versions, level))
  {
    FormatParseRoundTrip(Bumped(versions, level));
  }

  /** `str(d)` for a single digit. */
  lemma DigitString(d: nat)
    requires d < 10
    ensures IntToString(d) == [('0' as int + d) as char]
  {
    assert IntToString(d) == NatToString(d);
  }

  /** Three one-digit components format as `a.b.c`. */
  lemma FormatThreeDigits(a: nat, b: nat, c: nat)
    requires a < 10 && b < 10 && c < 10
    ensures FormatVersion([a, b, c]) ==
      [('0' as int + a) as char, '.', ('0' as int + b) as char, '.', ('0' as int + c) as char]
  {
    DigitString(a);
    DigitString(b);
    DigitString(c);
    var parts := ComponentStrings([a, b, c]);
    var x, y, z := IntToString(a), IntToString(b), IntToString(c);
    assert parts == [x, y, z];
    assert parts[2..] == [z];
    assert parts[1..] == [y, z];
    assert Join(".", [z]) == z;
    assert Join(".", [y, z]) == y + "." + z;
    assert Join(".", parts) == x + "." + (y + "." + z);
  }

  /** Without a version file the version is 0.0.0. */
  lemma MissingVersionFile()
    ensures ParseVersion(VersionText(None)) == Success([0, 0, 0])
  {
    FormatThreeDigits(0, 0, 0);
    FormatParseRoundTrip([0, 0, 0]);
  }

  /** A patch release of 0.0.0 writes 0.0.1. */
  lemma FirstPatchRelease()
    ensures FormatVersion(Bumped([0, 0, 0], 2)) == "0.0.1"
  {
    BumpAtLevel([0, 0, 0], 2);
    assert Bumped([0, 0, 0], 2) == [0, 0, 1];
    FormatThreeDigits(0, 0, 1);
  }
}
