/**
 * The helpers of autogen/utils.py: path normalisation, the table that maps
 * import names to PyPI names, and the merge that regenerates the lower part
 * of `.dockerignore` from git's list of ignored files.
 */
module Utils {
  import opened Wrappers
  import opened Text
  import opened Sorting

  // ---------------------------------------------------------------------------
  // normpath

  /** `normpath(path)`: every backslash becomes "/", nothing else changes. */
  function Normpath(path: string): (r: string)
    ensures |r| == |path|
    ensures forall i :: 0 <= i < |path| ==> r[i] == (if path[i] == '\\' then '/' else path[i])
  {
    ReplaceChar(path, '\\', '/');
    Replace(path, "\\", "/")
  }

  /** A normalised path holds no backslash. */
  lemma NormpathNoBackslash(path: string)
    ensures '\\' !in Normpath(path)
  {
    var r := Normpath(path);
    forall i | 0 <= i < |r|
      ensures r[i] != '\\'
    {
    }
  }

  /** Normalising twice is normalising once. */
  lemma NormpathIdempotent(path: string)
    ensures Normpath(Normpath(path)) == Normpath(path)
  {
    var r := Normpath(path);
    NormpathNoBackslash(path);
    if Contains(r, "\\") {
      ContainsChar(r, "\\", 0);
    }
    ReplaceAbsent(r, "\\", "/");
  }

  // ---------------------------------------------------------------------------
  // import2pypi

  /** The dict comprehension raised ValueError at this line of the table. */
  datatype TableError = BadRow(index: nat)

  /** `l.lower().split(":")` for one line of the table file. */
  function TableRow(line: string): seq<string> {
    SplitOn(Lower(line), ':')
  }

  /** A line that unpacks into `k, v`. */
  predicate GoodRow(line: string) {
    |TableRow(line)| == 2
  }

  /**
   * `{k: v for k, v in rows}`: rows are entered in order, so a later row with
   * the same key overrides an earlier one; the first row that does not split
   * into exactly two parts raises.
   */
  function BuildTable(lines: seq<string>): (r: Result<map<string, string>, TableError>)
    ensures r.Success? <==> forall j :: 0 <= j < |lines| ==> GoodRow(lines[j])
    ensures r.Failure? ==> (r.error.index < |lines| && !GoodRow(lines[r.error.index]) &&
      forall j :: 0 <= j < r.error.index ==> GoodRow(lines[j]))
    decreases |lines|
  {
    if lines == [] then Success(map[])
    else
      var n := |lines| - 1;
      var init := BuildTable(lines[..n]);
      assert forall j :: 0 <= j < n ==> lines[..n][j] == lines[j];
      var row := TableRow(lines[n]);
      if init.Failure? then init
      else if |row| != 2 then Failure(BadRow(n))
      else Success(init.value[row[0] := row[1]])
  }

  /** The value stored for a key is the one on the last row with that key. */
  lemma {:induction false} TableLastRowWins(lines: seq<string>, j: nat)
    requires BuildTable(lines).Success? && j < |lines|
    requires forall k :: j < k < |lines| ==> TableRow(lines[k])[0] != TableRow(lines[j])[0]
    ensures TableRow(lines[j])[0] in BuildTable(lines).value
    ensures BuildTable(lines).value[TableRow(lines[j])[0]] == TableRow(lines[j])[1]
    decreases |lines|
  {
    var n := |lines| - 1;
    if j < n {
      assert lines[..n][j] == lines[j];
      assert forall k :: j < k < n ==> lines[..n][k] == lines[k];
      TableLastRowWins(lines[..n], j);
    }
  }

  /** No string with a capital letter. */
  predicate NoUpper(s: string) {
    forall i :: 0 <= i < |s| ==> !IsUpper(s[i])
  }

  /** Every key of the table comes from a table line and is lower case. */
  lemma {:induction false} TableKeys(lines: seq<string>)
    requires BuildTable(lines).Success?
    ensures forall key :: key in BuildTable(lines).value ==>
      NoUpper(key) && exists j :: 0 <= j < |lines| && TableRow(lines[j])[0] == key
    decreases |lines|
  {
    if lines != [] {
      var n := |lines| - 1;
      TableKeys(lines[..n]);
      var row := TableRow(lines[n]);
      forall i | 0 <= i < |row[0]|
        ensures !IsUpper(row[0][i])
      {
        assert row[0][i] in row[0];
        SplitOnChars(Lower(lines[n]), ':', 0, row[0][i]);
      }
      forall key | key in BuildTable(lines).value
        ensures exists j :: 0 <= j < |lines| && TableRow(lines[j])[0] == key
      {
        if key != row[0] {
          var j :| 0 <= j < n && TableRow(lines[..n][j])[0] == key;
          assert lines[..n][j] == lines[j];
        }
      }
    }
  }

  /** `import2pypi.get(i, i)`. */
  function Lookup(table: map<string, string>, name: string): string {
    if name in table then table[name] else name
  }

  /** `[import2pypi.get(i, i).lower() for i in imports]`. */
  function PypiNames(table: map<string, string>, imports: seq<string>): seq<string> {
    seq(|imports|, i requires 0 <= i < |imports| => Lower(Lookup(table, imports[i])))
  }

  /**
   * `import2pypi(imports)` with the table file given as its lines: one PyPI
   * name per import, duplicates kept, sorted; an unpackable table line raises.
   */
  function Import2Pypi(lines: seq<string>, imports: seq<string>): (r: Result<seq<string>, TableError>)
    ensures r.Failure? <==> exists j :: 0 <= j < |lines| && !GoodRow(lines[j])
    ensures r.Success? ==> (|r.value| == |imports| && Sorted(r.value) &&
      multiset(r.value) == multiset(PypiNames(BuildTable(lines).value, imports)))
  {
    var table := BuildTable(lines);
    if table.Failure? then Failure(table.error)
    else
      var names := PypiNames(table.value, imports);
      assert |multiset(Sort(names))| == |multiset(names)|;
      Success(Sort(names))
  }

  /** Each import contributes its own entry, looked up exactly as given. */
  lemma Import2PypiEntry(lines: seq<string>, imports: seq<string>, i: nat)
    requires Import2Pypi(lines, imports).Success? && i < |imports|
    ensures Lower(Lookup(BuildTable(lines).value, imports[i])) in Import2Pypi(lines, imports).value
  {
    var names := PypiNames(BuildTable(lines).value, imports);
    assert names[i] in multiset(names);
  }

  /**
   * Table keys are lower case but the lookup is not: an import name with a
   * capital letter never matches a row and passes through, lower-cased.
   */
  lemma CapitalisedImportPassesThrough(lines: seq<string>, imports: seq<string>, i: nat)
    requires Import2Pypi(lines, imports).Success? && i < |imports|
    requires !NoUpper(imports[i])
    ensures Lower(imports[i]) in Import2Pypi(lines, imports).value
  {
    TableKeys(lines);
    assert imports[i] !in BuildTable(lines).value;
    Import2PypiEntry(lines, imports, i);
  }

  // ---------------------------------------------------------------------------
  // git2docker

  /** `r.split()[1]` raised IndexError on this status line. */
  datatype GitError = ShortStatusLine(index: nat)

  /** The rows from a line starting with this on are regenerated. */
  const Cut: string := "####"
  const MarkerText: string := BelowAdded + FromFiles + IgnoredByGit
  const BelowAdded: string := " Below added"
  const FromFiles: string := " from files"
  const IgnoredByGit: string := " ignored by git"
  const DockerMarker: string := Cut + MarkerText
  const DockerSelf: string := ".dockerignore"

  /** Neither "\n" nor "\r". */
  predicate Clean(row: string) {
    '\n' !in row && '\r' !in row
  }

  lemma MarkerTextFacts()
    ensures Clean(MarkerText)
  {
    BelowAddedClean();
    FromFilesClean();
    IgnoredByGitClean();
  }

  lemma BelowAddedClean()
    ensures Clean(BelowAdded)
  {
  }

  lemma FromFilesClean()
    ensures Clean(FromFiles)
  {
  }

  lemma IgnoredByGitClean()
    ensures Clean(IgnoredByGit)
  {
  }

  lemma DockerMarkerFacts()
    ensures '\n' !in DockerMarker && '\r' !in DockerMarker
    ensures DockerMarker != [] && StartsWith(DockerMarker, Cut)
  {
    MarkerTextFacts();
  }

  /**
   * `[r.split()[1] for r in lines]`: the path field of each status line, or
   * the first line with fewer than two fields.
   */
  function StatusPaths(lines: seq<string>): (r: Result<seq<string>, GitError>)
    ensures r.Success? ==> (|r.value| == |lines| &&
      forall i :: 0 <= i < |lines| ==> |Fields(lines[i])| >= 2 && r.value[i] == Fields(lines[i])[1])
    ensures r.Failure? ==> (r.error.index < |lines| && |Fields(lines[r.error.index])| < 2 &&
      forall i :: 0 <= i < r.error.index ==> |Fields(lines[i])| >= 2)
    decreases |lines|
  {
    if lines == [] then Success([])
    else if |Fields(lines[0])| < 2 then Failure(ShortStatusLine(0))
    else
      match StatusPaths(lines[1..])
      case Failure(e) => Failure(ShortStatusLine(e.index + 1))
      case Success(rest) => Success([Fields(lines[0])[1]] + rest)
  }

  /**
   * A path made absolute under the repository root; a "!" in front stays in
   * front of the joined path.
   */
  function GitEntry(root: string, path: string): (e: string)
    ensures StartsWith(path, "!") ==> StartsWith(e, "!") && EndsWith(e, path[1..])
    ensures !StartsWith(path, "!") ==> EndsWith(e, path)
    ensures !StartsWith(path, "!") && !StartsWith(path, "/") ==> StartsWith(e, root)
    ensures StartsWith(path, "!") && !StartsWith(path[1..], "/") ==> StartsWith(e, "!" + root)
  {
    if StartsWith(path, "!") then
      var joined := PathJoin(root, path[1..]);
      assert ("!" + joined)[|"!" + joined| - |path[1..]|..] == joined[|joined| - |path[1..]|..];
      "!" + joined
    else PathJoin(root, path)
  }

  function GitEntries(root: string, paths: seq<string>): seq<string> {
    seq(|paths|, i requires 0 <= i < |paths| => GitEntry(root, paths[i]))
  }

  /**
   * The user's rows of `.dockerignore`: the lines before the first one that
   * starts with "####", each with "\r" and "\n" stripped from both ends.
   */
  function KeptRows(lines: seq<string>): seq<string>
    decreases |lines|
  {
    if lines == [] || StartsWith(lines[0], Cut) then []
    else [Strip(lines[0], IsNewlineChar)] + KeptRows(lines[1..])
  }

  /**
   * The kept rows are the stripped lines in front of the first line that
   * starts with "####", or all of them when no line does.
   */
  lemma KeptRowsBeforeCut(lines: seq<string>)
    ensures |KeptRows(lines)| <= |lines|
    ensures forall i :: 0 <= i < |KeptRows(lines)| ==>
      !StartsWith(lines[i], Cut) && KeptRows(lines)[i] == Strip(lines[i], IsNewlineChar)
    ensures |KeptRows(lines)| < |lines| ==> StartsWith(lines[|KeptRows(lines)|], Cut)
  {
    KeptRowsStop(lines);
    forall i | 0 <= i < |KeptRows(lines)|
      ensures !StartsWith(lines[i], Cut) && KeptRows(lines)[i] == Strip(lines[i], IsNewlineChar)
    {
      KeptRowAt(lines, i);
    }
  }

  /** The kept part ends at the first cut line, or at the end. */
  lemma {:induction false} KeptRowsStop(lines: seq<string>)
    ensures |KeptRows(lines)| <= |lines|
    ensures |KeptRows(lines)| < |lines| ==> StartsWith(lines[|KeptRows(lines)|], Cut)
    decreases |lines|
  {
    if lines != [] && !StartsWith(lines[0], Cut) {
      KeptRowsStop(lines[1..]);
    }
  }

  /** Row `i` of the kept part is line `i` stripped, and that line is no cut line. */
  lemma {:induction false} KeptRowAt(lines: seq<string>, i: nat)
    requires i < |KeptRows(lines)|
    ensures i < |lines| && !StartsWith(lines[i], Cut) && KeptRows(lines)[i] == Strip(lines[i], IsNewlineChar)
    decreases i
  {
    if i > 0 {
      KeptRowAt(lines[1..], i - 1);
    }
  }

  /** The rows kept from the old `.dockerignore`, none when there is no such file. */
  function ExistingRows(existing: Option<string>): seq<string> {
    if existing.Some? then KeptRows(ReadLines(existing.value)) else []
  }

  /** The rows written to `.dockerignore`, joined by "\n". */
  function DockerIgnore(status: seq<string>, root: string, existing: Option<string>): Result<string, GitError> {
    var paths := StatusPaths(status);
    if paths.Failure? then Failure(paths.error)
    else Success(Join("\n", ExistingRows(existing) + [DockerMarker, DockerSelf] + GitEntries(root, paths.value)))
  }

  /**
   * `git2docker()` with git's output and the old `.dockerignore` (None when
   * there is none) as inputs: the new content of `.dockerignore`.
   */
  method Git2Docker(status: seq<string>, root: string, existing: Option<string>)
    returns (r: Result<string, GitError>)
    ensures r == DockerIgnore(status, root, existing)
  {
    var paths := StatusPaths(status);
    if paths.Failure? {
      return Failure(paths.error);
    }
    var git := GitEntries(root, paths.value);
    var docker: seq<string> := [];
    if existing.Some? {
      docker := KeepRows(ReadLines(existing.value));
    }
    ghost var kept := docker;
    docker := docker + [DockerMarker];
    docker := docker + [DockerSelf];
    docker := docker + git;
    assert docker == kept + [DockerMarker, DockerSelf] + git;
    r := Success(Join("\n", docker));
  }

  /**
   * The loop over the old file's lines that stops at the first line starting
   * with "####".
   */
  method KeepRows(rows: seq<string>) returns (docker: seq<string>)
    ensures docker == KeptRows(rows)
  {
    docker := [];
    var i := 0;
    while i < |rows|
      invariant 0 <= i <= |rows|
      invariant KeptRows(rows) == docker + KeptRows(rows[i..])
    {
      if StartsWith(rows[i], Cut) {
        assert rows[i..][0] == rows[i];
        break;
      }
      KeptRowsSkip(rows, i);
      Associative(docker, [Strip(rows[i], IsNewlineChar)], KeptRows(rows[i + 1..]));
      docker := docker + [Strip(rows[i], IsNewlineChar)];
      i := i + 1;
    }
  }

  /** A row that is not a cut row is kept, stripped, in front of the rows after it. */
  lemma KeptRowsSkip(rows: seq<string>, i: nat)
    requires i < |rows| && !StartsWith(rows[i], Cut)
    ensures KeptRows(rows[i..]) == [Strip(rows[i], IsNewlineChar)] + KeptRows(rows[i + 1..])
  {
    assert rows[i..][0] == rows[i];
    assert rows[i..][1..] == rows[i + 1..];
  }

  /** Stripping a line as read keeps a prefix of it with no line break in it. */
  lemma StripReadLine(l: string)
    requires '\r' !in l
    requires forall j :: 0 <= j < |l| - 1 ==> l[j] != '\n'
    ensures Clean(Strip(l, IsNewlineChar)) && StartsWith(l, Strip(l, IsNewlineChar))
  {
    var a := TrimLeft(l, IsNewlineChar);
    if |a| < |l| {
      assert IsNewlineChar(l[0]);
      assert |l| == 1;
    } else {
      assert a == l;
      var b := TrimRight(l, IsNewlineChar);
      forall j | 0 <= j < |b|
        ensures b[j] != '\n' && b[j] != '\r'
      {
        assert b[j] == l[j];
        assert l[j] in l;
      }
    }
  }

  /** The rows kept from read lines are clean and not cut rows. */
  lemma KeptRowsClean(lines: seq<string>)
    requires forall i :: 0 <= i < |lines| ==> ReadLine(lines[i])
    ensures forall i :: 0 <= i < |KeptRows(lines)| ==>
      Clean(KeptRows(lines)[i]) && !StartsWith(KeptRows(lines)[i], Cut)
  {
    var kept := KeptRows(lines);
    KeptRowsBeforeCut(lines);
    forall i | 0 <= i < |kept|
      ensures Clean(kept[i]) && !StartsWith(kept[i], Cut)
    {
      var l := lines[i];
      StripReadLine(l);
      NotStartsWithPrefix(l, kept[i], Cut);
    }
  }

  /** A clean row that is not a cut row, written with its "\n", reads back as itself. */
  lemma StripWrittenRow(k: string)
    requires Clean(k) && !StartsWith(k, Cut)
    ensures Strip(k + "\n", IsNewlineChar) == k
    ensures !StartsWith(k + "\n", Cut)
    ensures IsLine(k + "\n")
  {
    if k == [] {
      assert TrimLeft("\n", IsNewlineChar) == [];
    } else {
      assert k[0] in k && k[|k| - 1] in k;
      TrimLeftKeeps(k + "\n", IsNewlineChar);
      TrimRightDropsLast(k, '\n', IsNewlineChar);
    }
    CleanLine(k);
    NotCutWithNewline(k);
  }

  lemma TrimLeftKeeps(s: string, drop: char -> bool)
    requires s != [] && !drop(s[0])
    ensures TrimLeft(s, drop) == s
  {
  }

  /** Stripping a dropped character from the end of `k + [c]` gives `k` back. */
  lemma TrimRightDropsLast(k: string, c: char, drop: char -> bool)
    requires drop(c) && k != [] && !drop(k[|k| - 1])
    ensures TrimRight(k + [c], drop) == k
  {
    assert (k + [c])[..|k|] == k;
  }

  lemma CleanLine(k: string)
    requires Clean(k)
    ensures IsLine(k + "\n")
  {
    forall j | 0 <= j < |k|
      ensures (k + "\n")[j] != '\n'
    {
      assert k[j] in k;
    }
  }

  /** Appending "\n" to a clean row does not make it a cut row. */
  lemma NotCutWithNewline(k: string)
    requires Clean(k) && !StartsWith(k, Cut)
    ensures !StartsWith(k + "\n", Cut)
  {
    if |k| >= |Cut| {
      assert (k + "\n")[..|Cut|] == k[..|Cut|];
    } else {
      assert (k + "\n")[|k|] == '\n';
      assert Cut[|k|] != '\n';
    }
  }

  /**
   * Reading back what was written: the clean rows in front come back as
   * they were, and the marker row stops the kept part.
   */
  lemma {:induction false} RereadKept(kept: seq<string>, marker: string, rest: seq<string>)
    requires forall i :: 0 <= i < |kept| ==> Clean(kept[i]) && !StartsWith(kept[i], Cut)
    requires marker != [] && Clean(marker) && StartsWith(marker, Cut)
    requires rest != []
    ensures KeptRows(ReadLines(Join("\n", kept + [marker] + rest))) == kept
    decreases |kept|
  {
    if kept == [] {
      assert kept + [marker] + rest == [marker] + rest;
      MarkerRowStops(marker, rest);
    } else {
      var tail := kept[1..] + [marker] + rest;
      assert kept + [marker] + rest == [kept[0]] + tail;
      RereadKept(kept[1..], marker, rest);
      RereadRow(kept[0], tail);
      assert kept == [kept[0]] + kept[1..];
    }
  }

  /** One clean row in front of what is written is read back and kept in front. */
  lemma RereadRow(k: string, tail: seq<string>)
    requires Clean(k) && !StartsWith(k, Cut)
    requires tail != []
    ensures KeptRows(ReadLines(Join("\n", [k] + tail))) == [k] + KeptRows(ReadLines(Join("\n", tail)))
  {
    var t := Join("\n", tail);
    JoinFront(k, tail);
    ReadWrittenRow(k, t);
    KeptWrittenRow(k, ReadLines(t));
  }

  /** A kept row read back in front of other lines is kept again, as itself. */
  lemma KeptWrittenRow(k: string, lines: seq<string>)
    requires Clean(k) && !StartsWith(k, Cut)
    ensures KeptRows([k + "\n"] + lines) == [k] + KeptRows(lines)
  {
    StripWrittenRow(k);
    assert ([k + "\n"] + lines)[1..] == lines;
  }

  lemma JoinFront(k: string, tail: seq<string>)
    requires tail != []
    ensures Join("\n", [k] + tail) == k + "\n" + Join("\n", tail)
  {
    assert ([k] + tail)[1..] == tail;
  }

  /** A marker row read back is a cut row, so nothing from it on is kept. */
  lemma MarkerRowStops(marker: string, rest: seq<string>)
    requires marker != [] && Clean(marker) && StartsWith(marker, Cut)
    requires rest != []
    ensures KeptRows(ReadLines(Join("\n", [marker] + rest))) == []
  {
    var z := "\n" + Join("\n", rest);
    JoinFront(marker, rest);
    assert Join("\n", [marker] + rest) == marker + z;
    UniversalNewlinesAppend(marker, z);
    FirstLineKeepsPrefix(marker, UniversalNewlines(z));
    var first := ReadLines(marker + z)[0];
    assert first[..|Cut|] == marker[..|Cut|];
  }

  /** A clean row written with its "\n" is read back as one line. */
  lemma ReadWrittenRow(k: string, t: string)
    requires Clean(k)
    ensures ReadLines(k + "\n" + t) == [k + "\n"] + ReadLines(t)
  {
    CleanLine(k);
    UniversalNewlinesAppend(k + "\n", t);
    SplitLinesOfLine(k + "\n");
    SplitLinesAppend(k + "\n", UniversalNewlines(t));
  }

  /**
   * Running `git2docker` again with the same git listing writes the same
   * content: the marker row it wrote ends the kept part.
   */
  lemma DockerIgnoreIdempotent(status: seq<string>, root: string, existing: Option<string>)
    requires DockerIgnore(status, root, existing).Success?
    ensures DockerIgnore(status, root, Some(DockerIgnore(status, root, existing).value)) ==
      DockerIgnore(status, root, existing)
  {
    var git := GitEntries(root, StatusPaths(status).value);
    var kept := ExistingRows(existing);
    ExistingRowsClean(existing);
    WrittenRows(kept, git);
    DockerMarkerFacts();
    RereadKept(kept, DockerMarker, [DockerSelf] + git);
  }

  /** The rows kept from an old file are clean and not cut rows. */
  lemma ExistingRowsClean(existing: Option<string>)
    ensures forall i :: 0 <= i < |ExistingRows(existing)| ==>
      Clean(ExistingRows(existing)[i]) && !StartsWith(ExistingRows(existing)[i], Cut)
  {
    if existing.Some? {
      ReadLinesShape(existing.value);
      KeptRowsClean(ReadLines(existing.value));
    }
  }

  /** The written rows: the kept ones, the marker, then the rest. */
  lemma WrittenRows(kept: seq<string>, git: seq<string>)
    ensures kept + [DockerMarker, DockerSelf] + git == kept + [DockerMarker] + ([DockerSelf] + git)
  {
  }
}
