/**
 * Metadata `Project` derives for setup.py in autogen/project.py: the project
 * URL from the git remote, the top-level modules and scripts under git, and
 * the split of imported names into user, system and missing packages.
 *
 * Git output, directory listings, `os.path.isfile` and `find_spec` are
 * inputs: the remote URL (None when the git call fails), listings as
 * sequences of names, a set of the paths that are files, the git file list,
 * and a map from module name to its spec (a name without an entry has none).
 */
module ProjectMetadata {
  import opened Wrappers
  import opened Text
  import opened Sorting
  import opened Utils

  // ---------------------------------------------------------------------------
  // url

  const SshPrefix: string := "ssh://git@"
  const ScpPrefix: string := "git@"
  const HttpsPrefix: string := "https://"
  const HttpPrefix: string := "http://"
  const ScpHost: string := "github.com:"
  const WebHost: string := "github.com/"

  predicate IsLineFeed(c: char) {
    c == '\n'
  }

  /**
   * `Project.url()`: the remote with trailing "\n" removed and rewritten by
   * three replacements in this order; "" when the git call raises.
   */
  function Url(remote: Option<string>): (url: string)
    ensures remote.None? ==> url == ""
  {
    match remote
    case None => ""
    case Some(out) =>
      var u := TrimRight(out, IsLineFeed);
      var a := Replace(u, SshPrefix, HttpsPrefix);
      var b := Replace(a, ScpPrefix, HttpPrefix);
      Replace(b, ScpHost, WebHost)
  }

  /** A repository path in which none of the rewritten patterns occurs. */
  predicate PlainPath(path: string) {
    !Contains(path, ScpPrefix) && !Contains(path, ScpHost) &&
    (path == [] || path[|path| - 1] != '\n')
  }

  /** A path free of "git@" is free of "ssh://git@". */
  lemma PlainPathNoSsh(path: string)
    requires PlainPath(path)
    ensures !Contains(path, SshPrefix)
  {
    if Contains(path, SshPrefix) {
      assert OccursAt(SshPrefix, ScpPrefix, 6);
      ContainsTransitive(path, SshPrefix, ScpPrefix);
    }
  }

  /** `rstrip("\n")` of a line whose text does not end in "\n". */
  lemma RStripLine(x: string)
    requires x != [] && x[|x| - 1] != '\n'
    ensures TrimRight(x + "\n", IsLineFeed) == x
  {
    var s := x + "\n";
    assert s[|x| - 1] == x[|x| - 1] && s[|x|] == '\n';
    assert s[..|x|] == x;
  }

  /** The last two replacements leave a text behind "https://" alone. */
  lemma HttpsUnchanged(path: string)
    requires PlainPath(path)
    ensures Replace(HttpsPrefix + path, ScpPrefix, HttpPrefix) == HttpsPrefix + path
    ensures Replace(HttpsPrefix + path, ScpHost, WebHost) == HttpsPrefix + path
  {
    ReplaceSkip(HttpsPrefix, path, ScpPrefix, HttpPrefix);
    ReplaceAbsent(path, ScpPrefix, HttpPrefix);
    ReplaceSkip(HttpsPrefix, path, ScpHost, WebHost);
    ReplaceAbsent(path, ScpHost, WebHost);
  }

  /**
   * A remote in which neither "git@" nor "github.com:" occurs is only
   * stripped of its trailing newlines.
   */
  lemma UrlUnmatched(out: string)
    requires !Contains(TrimRight(out, IsLineFeed), ScpPrefix)
    requires !Contains(TrimRight(out, IsLineFeed), ScpHost)
    ensures Url(Some(out)) == TrimRight(out, IsLineFeed)
  {
    var u := TrimRight(out, IsLineFeed);
    if Contains(u, SshPrefix) {
      assert OccursAt(SshPrefix, ScpPrefix, 6);
      ContainsTransitive(u, SshPrefix, ScpPrefix);
    }
    ReplaceAbsent(u, SshPrefix, HttpsPrefix);
    ReplaceAbsent(u, ScpPrefix, HttpPrefix);
    ReplaceAbsent(u, ScpHost, WebHost);
  }

  /** An ssh remote `ssh://git@host/path` becomes `https://host/path`. */
  lemma UrlOfSshRemote(path: string)
    requires PlainPath(path)
    ensures Url(Some(SshPrefix + path + "\n")) == HttpsPrefix + path
  {
    RStripLine(SshPrefix + path);
    PlainPathNoSsh(path);
    ReplaceAtStart(path, SshPrefix, HttpsPrefix);
    ReplaceAbsent(path, SshPrefix, HttpsPrefix);
    HttpsUnchanged(path);
  }

  /** An https remote is kept as it is. */
  lemma UrlOfHttpsRemote(path: string)
    requires PlainPath(path)
    ensures Url(Some(HttpsPrefix + path + "\n")) == HttpsPrefix + path
  {
    RStripLine(HttpsPrefix + path);
    PlainPathNoSsh(path);
    var tail := "://" + path;
    assert HttpsPrefix + path == "http" + (['s'] + tail);
    ReplaceSkip("http", ['s'] + tail, SshPrefix, HttpsPrefix);
    assert (['s'] + tail)[1] == ':' && SshPrefix[1] == 's';
    ReplaceMiss('s', tail, SshPrefix, HttpsPrefix);
    ReplaceSkip("://", path, SshPrefix, HttpsPrefix);
    ReplaceAbsent(path, SshPrefix, HttpsPrefix);
    HttpsUnchanged(path);
  }

  /** An scp-style remote `git@github.com:owner/repo` becomes `http://github.com/owner/repo`. */
  lemma UrlOfScpRemote(path: string)
    requires PlainPath(path)
    ensures Url(Some(ScpPrefix + ScpHost + path + "\n")) == HttpPrefix + WebHost + path
  {
    var s := ScpPrefix + ScpHost + path;
    RStripLine(s);
    ScpKeepsSsh(path);
    ScpPrefixReplaced(path);
    ScpHostReplaced(path);
  }

  /** "ssh://git@" does not occur in an scp-style remote: its front has no "s". */
  lemma ScpKeepsSsh(path: string)
    requires PlainPath(path)
    ensures Replace(ScpPrefix + ScpHost + path, SshPrefix, HttpsPrefix) == ScpPrefix + ScpHost + path
  {
    PlainPathNoSsh(path);
    ReplaceSkip(ScpPrefix + ScpHost, path, SshPrefix, HttpsPrefix);
    ReplaceAbsent(path, SshPrefix, HttpsPrefix);
  }

  /** "git@" occurs in an scp-style remote at the front only. */
  lemma ScpPrefixReplaced(path: string)
    requires PlainPath(path)
    ensures Replace(ScpPrefix + ScpHost + path, ScpPrefix, HttpPrefix) == HttpPrefix + (ScpHost + path)
  {
    assert ScpPrefix + ScpHost + path == ScpPrefix + (ScpHost + path);
    ReplaceAtStart(ScpHost + path, ScpPrefix, HttpPrefix);
    HostKeepsScpPrefix(path);
  }

  /** The host part holds no "git@". */
  lemma HostKeepsScpPrefix(path: string)
    requires PlainPath(path)
    ensures Replace(ScpHost + path, ScpPrefix, HttpPrefix) == ScpHost + path
  {
    var rest := "ithub.com:" + path;
    assert ScpHost + path == ['g'] + rest;
    assert (['g'] + rest)[3] == 'h' && ScpPrefix[3] == '@';
    ReplaceMiss('g', rest, ScpPrefix, HttpPrefix);
    ReplaceSkip("ithub.com:", path, ScpPrefix, HttpPrefix);
    ReplaceAbsent(path, ScpPrefix, HttpPrefix);
  }

  /** The host's ":" becomes "/". */
  lemma ScpHostReplaced(path: string)
    requires PlainPath(path)
    ensures Replace(HttpPrefix + (ScpHost + path), ScpHost, WebHost) == HttpPrefix + WebHost + path
  {
    ReplaceSkip(HttpPrefix, ScpHost + path, ScpHost, WebHost);
    ReplaceAtStart(path, ScpHost, WebHost);
    ReplaceAbsent(path, ScpHost, WebHost);
  }

  // ---------------------------------------------------------------------------
  // py_modules

  /** A top-level name that `py_modules` keeps: a file under git ending ".py", not setup.py. */
  predicate IsModuleFile(f: string, isFile: set<string>, gitfiles: seq<string>) {
    f in isFile && f in gitfiles && EndsWith(f, ".py") && f != "setup.py"
  }

  /** The filtering comprehension of `py_modules`, in listing order. */
  function ModuleFiles(entries: seq<string>, isFile: set<string>, gitfiles: seq<string>): (files: seq<string>)
    ensures forall f :: f in files <==> f in entries && IsModuleFile(f, isFile, gitfiles)
    ensures forall i :: 0 <= i < |files| ==> IsModuleFile(files[i], isFile, gitfiles)
    decreases |entries|
  {
    if entries == [] then []
    else
      var rest := ModuleFiles(entries[1..], isFile, gitfiles);
      assert forall f :: f in entries <==> f == entries[0] || f in entries[1..];
      if IsModuleFile(entries[0], isFile, gitfiles) then [entries[0]] + rest else rest
  }

  /** `f[:-3]`: the module name of a file ending ".py". */
  function ModuleName(f: string): (m: string)
    requires EndsWith(f, ".py")
    ensures f == m + ".py"
  {
    f[..|f| - 3]
  }

  function ModuleNames(files: seq<string>): (names: seq<string>)
    requires forall i :: 0 <= i < |files| ==> EndsWith(files[i], ".py")
    ensures |names| == |files| && forall i :: 0 <= i < |files| ==> files[i] == names[i] + ".py"
  {
    seq(|files|, i requires 0 <= i < |files| => ModuleName(files[i]))
  }

  /** A module name is listed exactly when its file is. */
  lemma ModuleNamesMembers(files: seq<string>)
    requires forall i :: 0 <= i < |files| ==> EndsWith(files[i], ".py")
    ensures forall m :: m in ModuleNames(files) <==> m + ".py" in files
  {
    var names := ModuleNames(files);
    forall m
      ensures m in names <==> m + ".py" in files
    {
      if m in names {
        var i :| 0 <= i < |names| && names[i] == m;
        assert files[i] == m + ".py";
      }
      if m + ".py" in files {
        var i :| 0 <= i < |files| && files[i] == m + ".py";
        assert names[i] + ".py" == m + ".py";
        assert names[i] == (m + ".py")[..|m|];
      }
    }
  }

  /** `Project.py_modules()` on the listing `entries` of the project folder. */
  function PyModules(entries: seq<string>, isFile: set<string>, gitfiles: seq<string>): (r: seq<string>)
    ensures Sorted(r)
    ensures forall m :: m in r <==> m + ".py" in entries && IsModuleFile(m + ".py", isFile, gitfiles)
  {
    var files := ModuleFiles(entries, isFile, gitfiles);
    var names := ModuleNames(files);
    ModuleNamesMembers(files);
    var r := Sort(names);
    assert forall m :: m in r <==> m in multiset(names);
    r
  }

  /** A listing has no name twice, and then neither has the module list. */
  lemma PyModulesDistinct(entries: seq<string>, isFile: set<string>, gitfiles: seq<string>)
    requires Distinct(entries)
    ensures Distinct(PyModules(entries, isFile, gitfiles))
  {
    var files := ModuleFiles(entries, isFile, gitfiles);
    ModuleFilesDistinct(entries, isFile, gitfiles);
    var names := ModuleNames(files);
    forall i, j | 0 <= i < j < |names|
      ensures names[i] != names[j]
    {
      assert files[i] == names[i] + ".py" && files[j] == names[j] + ".py";
    }
    DistinctPermutation(names, PyModules(entries, isFile, gitfiles));
  }

  lemma {:induction false} ModuleFilesDistinct(entries: seq<string>, isFile: set<string>, gitfiles: seq<string>)
    requires Distinct(entries)
    ensures Distinct(ModuleFiles(entries, isFile, gitfiles))
    decreases |entries|
  {
    if entries != [] {
      assert Distinct(entries[1..]);
      ModuleFilesDistinct(entries[1..], isFile, gitfiles);
      assert entries[0] !in entries[1..];
    }
  }

  // ---------------------------------------------------------------------------
  // scripts

  const ScriptsFolder: string := "scripts"

  /** `[os.path.join(folder, f) for f in os.listdir(folder) if os.path.isfile(...)]`. */
  function ScriptFiles(listing: seq<string>, isFile: set<string>): (files: seq<string>)
    ensures forall x :: x in files <==> exists f :: f in listing && x == PathJoin(ScriptsFolder, f) && x in isFile
    decreases |listing|
  {
    if listing == [] then []
    else
      var path := PathJoin(ScriptsFolder, listing[0]);
      var rest := ScriptFiles(listing[1..], isFile);
      assert forall f :: f in listing <==> f == listing[0] || f in listing[1..];
      if path in isFile then [path] + rest else rest
  }

  /** `[utils.normpath(f) for f in files]`. */
  function NormpathAll(files: seq<string>): (r: seq<string>)
    ensures |r| == |files| && forall i :: 0 <= i < |files| ==> r[i] == Normpath(files[i])
  {
    seq(|files|, i requires 0 <= i < |files| => Normpath(files[i]))
  }

  /** The elements of `files` that are also git files, in order. */
  function InGit(files: seq<string>, gitfiles: seq<string>): (r: seq<string>)
    ensures forall x :: x in r <==> x in files && x in gitfiles
    decreases |files|
  {
    if files == [] then []
    else
      var rest := InGit(files[1..], gitfiles);
      assert forall x :: x in files <==> x == files[0] || x in files[1..];
      if files[0] in gitfiles then [files[0]] + rest else rest
  }

  /**
   * `Project.scripts()`: None when there is no `scripts` folder (listing
   * None), otherwise `sorted(list(set(files) & set(gitfiles)))`.
   */
  function Scripts(listing: Option<seq<string>>, isFile: set<string>, gitfiles: seq<string>): (r: Option<seq<string>>)
    ensures listing.None? <==> r.None?
    ensures r.Some? ==> Sorted(r.value) && Distinct(r.value)
    ensures r.Some? ==> forall x :: x in r.value <==>
      x in NormpathAll(ScriptFiles(listing.value, isFile)) && x in gitfiles
  {
    match listing
    case None => None
    case Some(names) =>
      var common := Dedup(InGit(NormpathAll(ScriptFiles(names, isFile)), gitfiles));
      var sorted := Sort(common);
      DistinctPermutation(common, sorted);
      assert forall x :: x in sorted <==> x in multiset(common);
      Some(sorted)
  }

  /** Two lists without repetitions and with the same elements are permutations. */
  lemma DistinctSameElements(a: seq<string>, b: seq<string>)
    requires Distinct(a) && Distinct(b) && forall x :: x in a <==> x in b
    ensures multiset(a) == multiset(b)
  {
    forall x
      ensures multiset(a)[x] == multiset(b)[x]
    {
      DistinctCounts(a, x);
      DistinctCounts(b, x);
      assert x in a <==> x in multiset(a);
      assert x in b <==> x in multiset(b);
    }
  }

  /**
   * The scripts are the one sorted list, without repetitions, of the
   * normalised script paths that git tracks.
   */
  lemma ScriptsAreTheSortedSet(listing: seq<string>, isFile: set<string>, gitfiles: seq<string>, s: seq<string>)
    requires Sorted(s) && Distinct(s)
    requires forall x :: x in s <==> x in NormpathAll(ScriptFiles(listing, isFile)) && x in gitfiles
    ensures Scripts(Some(listing), isFile, gitfiles) == Some(s)
  {
    var r := Scripts(Some(listing), isFile, gitfiles).value;
    DistinctSameElements(r, s);
    SortedUnique(r, s);
  }

  // ---------------------------------------------------------------------------
  // imports

  /** What `find_spec` tells about a module: where it was loaded from, if anywhere. */
  datatype ModuleSpec = ModuleSpec(origin: Option<string>)

  datatype Category = User | System | Missing

  const SitePackages: string := "site-packages"

  /**
   * The tests of `imports` on one top-level name: no spec is missing, an
   * origin outside site-packages (or none) is system, anything else is user.
   */
  function Classify(specs: map<string, ModuleSpec>, name: string): Category {
    if name !in specs then Missing
    else if specs[name].origin.None? || !Contains(specs[name].origin.value, SitePackages) then System
    else User
  }

  /** `m.split(".")[0]`. */
  function TopLevel(name: string): string {
    SplitOn(name, '.')[0]
  }

  /**
   * The top-level name is the dot-free prefix that ends at the first dot, or
   * the whole name when it has none.
   */
  lemma TopLevelPrefix(name: string)
    ensures '.' !in TopLevel(name) && StartsWith(name, TopLevel(name))
    ensures |TopLevel(name)| < |name| ==> name[|TopLevel(name)|] == '.'
    ensures '.' !in name ==> TopLevel(name) == name
  {
    SplitOnFirst(name, '.');
    if '.' !in name {
      SplitPrefix(name, [], '.');
      assert name + [] == name;
    }
  }

  /** `set([m.split(".")[0] for m in imports])`. */
  function TopLevels(names: seq<string>): set<string> {
    set m | m in names :: TopLevel(m)
  }

  /**
   * The classification loop of `Project.imports()`: each top-level name,
   * taken from the set in an unspecified order, is appended to exactly one
   * of the three lists.
   */
  method Imports(names: seq<string>, specs: map<string, ModuleSpec>)
    returns (user: seq<string>, system: seq<string>, missing: seq<string>)
    ensures forall x :: x in user <==> x in TopLevels(names) && Classify(specs, x) == User
    ensures forall x :: x in system <==> x in TopLevels(names) && Classify(specs, x) == System
    ensures forall x :: x in missing <==> x in TopLevels(names) && Classify(specs, x) == Missing
    ensures Distinct(user) && Distinct(system) && Distinct(missing)
    ensures |user| + |system| + |missing| == |TopLevels(names)|
  {
    var tops := TopLevels(names);
    var rest := tops;
    user, system, missing := [], [], [];
    while rest != {}
      invariant rest <= tops
      invariant forall x :: x in user <==> x in tops - rest && Classify(specs, x) == User
      invariant forall x :: x in system <==> x in tops - rest && Classify(specs, x) == System
      invariant forall x :: x in missing <==> x in tops - rest && Classify(specs, x) == Missing
      invariant Distinct(user) && Distinct(system) && Distinct(missing)
      invariant |user| + |system| + |missing| + |rest| == |tops|
      decreases |rest|
    {
      var i :| i in rest;
      match Classify(specs, i) {
        case Missing =>
          PushNew(missing, i);
          missing := missing + [i];
        case System =>
          PushNew(system, i);
          system := system + [i];
        case User =>
          PushNew(user, i);
          user := user + [i];
      }
      rest := rest - {i};
    }
  }

  /** Appending a name not yet listed keeps the list free of duplicates. */
  lemma PushNew(xs: seq<string>, x: string)
    requires Distinct(xs) && x !in xs
    ensures Distinct(xs + [x])
    ensures forall y :: y in xs + [x] <==> y in xs || y == x
  {
  }
}
