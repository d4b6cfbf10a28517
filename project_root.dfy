/**
 * `Project.root` in autogen/project.py: the folder holding `.git`, found by
 * walking from a start folder up through `os.path.dirname` until a folder
 * lists `.git` or the path is its own parent.
 *
 * The file system is an input: `gitDirs` is the set of folders whose listing
 * holds an entry named `.git`.
 */
module ProjectRoot {
  import opened Wrappers
  import opened Text

  /** Every character is a path separator ("" included). */
  predicate AllSlashes(s: string) {
    forall i :: 0 <= i < |s| ==> IsSlash(s[i])
  }

  /** `p.rfind("/") + 1`: the end of the head, or 0 when `p` holds no "/". */
  function HeadEnd(p: string): (k: nat)
    ensures k <= |p|
    ensures k > 0 ==> IsSlash(p[k - 1])
    ensures forall i :: k <= i < |p| ==> !IsSlash(p[i])
    decreases |p|
  {
    if p == [] then 0
    else if IsSlash(p[|p| - 1]) then |p|
    else HeadEnd(p[..|p| - 1])
  }

  /**
   * `posixpath.dirname(p)`: everything up to the last "/", with trailing
   * slashes removed unless the head is made of slashes only.
   */
  function Dirname(p: string): (d: string)
    ensures |d| <= |p| && d == p[..|d|]
  {
    var head := p[..HeadEnd(p)];
    if head != [] && !AllSlashes(head) then TrimRight(head, IsSlash) else head
  }

  /**
   * A path is its own dirname exactly when it is made of slashes ("/" or
   * ""). The walk of `root` checks this after listing the folder.
   */
  lemma DirnameFixpoint(p: string)
    ensures Dirname(p) == p <==> AllSlashes(p)
  {
    var k := HeadEnd(p);
    var head := p[..k];
    if AllSlashes(p) && p != [] {
      assert k == |p| && head == p;
    }
    if head != [] && !AllSlashes(head) {
      var d := TrimRight(head, IsSlash);
      assert |d| < |head| by {
        assert IsSlash(head[|head| - 1]);
      }
    } else if Dirname(p) == p {
      assert |head| == |p|;
      assert head == p;
    }
  }

  /** Each step of the walk that does not stop goes to a strictly shorter path. */
  lemma DirnameShorter(p: string)
    requires Dirname(p) != p
    ensures |Dirname(p)| < |p|
  {
  }

  /** The path `k` steps up from `p`: `dirname` applied `k` times. */
  function Up(p: string, k: nat): string
    decreases k
  {
    if k == 0 then p else Up(Dirname(p), k - 1)
  }

  /** The walk of `root`, as a function of its start: the nearest folder holding `.git`. */
  function NearestRepo(p: string, gitDirs: set<string>): Option<string>
    decreases |p|
  {
    if p in gitDirs then Some(p)
    else if Dirname(p) == p then None
    else
      DirnameShorter(p);
      NearestRepo(Dirname(p), gitDirs)
  }

  /**
   * `Project.root(path)`: a missing or empty `path` starts the walk at the
   * current folder `cwd`; the result is the first folder on the way up that
   * holds `.git`, or None for Python's False.
   */
  method Root(path: Option<string>, cwd: string, gitDirs: set<string>) returns (r: Option<string>)
    ensures r == NearestRepo(if path.None? || path.value == [] then cwd else path.value, gitDirs)
  {
    var p := if path.None? || path.value == [] then cwd else path.value;
    ghost var start := p;
    while true
      invariant NearestRepo(p, gitDirs) == NearestRepo(start, gitDirs)
      decreases |p|
    {
      if p in gitDirs {
        return Some(p);
      }
      if p == Dirname(p) {
        return None;
      }
      DirnameShorter(p);
      p := Dirname(p);
    }
  }

  /** Once the walk reaches a path made of slashes it stays there. */
  lemma {:induction false} UpFixed(p: string, k: nat)
    requires Dirname(p) == p
    ensures Up(p, k) == p
    decreases k
  {
    if k > 0 {
      UpFixed(p, k - 1);
    }
  }

  /** `a` is `k` steps up from `p` and no folder fewer steps up holds `.git`. */
  predicate FirstRepoAt(p: string, gitDirs: set<string>, k: nat, a: string) {
    Up(p, k) == a && forall j :: 0 <= j < k ==> Up(p, j) !in gitDirs
  }

  /**
   * The folder `root` returns lies on the way up from the start and holds
   * `.git`, and no folder strictly closer to the start does.
   */
  lemma {:induction false} NearestRepoIsNearest(p: string, gitDirs: set<string>)
    requires NearestRepo(p, gitDirs).Some?
    ensures NearestRepo(p, gitDirs).value in gitDirs
    ensures exists k: nat :: FirstRepoAt(p, gitDirs, k, NearestRepo(p, gitDirs).value)
    decreases |p|
  {
    if p in gitDirs {
      assert FirstRepoAt(p, gitDirs, 0, p);
    } else {
      DirnameShorter(p);
      var q := Dirname(p);
      NearestRepoIsNearest(q, gitDirs);
      var k: nat :| FirstRepoAt(q, gitDirs, k, NearestRepo(q, gitDirs).value);
      assert Up(p, k + 1) == Up(q, k);
      forall j | 0 <= j < k + 1
        ensures Up(p, j) !in gitDirs
      {
        if j > 0 {
          assert Up(p, j) == Up(q, j - 1);
        }
      }
      assert FirstRepoAt(p, gitDirs, k + 1, NearestRepo(p, gitDirs).value);
    }
  }

  /** `root` gives False only when no folder on the way up holds `.git`. */
  lemma {:induction false} NoRepoAnywhere(p: string, gitDirs: set<string>, k: nat)
    requires NearestRepo(p, gitDirs).None?
    ensures Up(p, k) !in gitDirs
    decreases |p|
  {
    if Dirname(p) == p {
      UpFixed(p, k);
    } else if k > 0 {
      DirnameShorter(p);
      NoRepoAnywhere(Dirname(p), gitDirs, k - 1);
    }
  }
}
