# autogen core, modelled in Dafny

autogen generates the packaging files of a Python project kept in git:
`setup.py`, the `version` file, `.dockerignore`. This project models the
string and list logic at the centre of that. File system, git and Python's
import machinery are all treated as inputs. It covers:

- **Version bump**, the `version` file and `Project.update_version`:
  - a dotted version is parsed into integers with `int()`;
  - one component is incremented with Python's list indexing, negative levels included;
  - every later component is zeroed;
  - the components are joined back with `str()`.
- **setup.py regeneration**, `Project.create_setup`:
  - the user's edit region is read back from the old file: the lines strictly between the first line holding `EDIT BELOW THIS LINE ONLY` and the first line holding `EDIT ABOVE THIS LINE ONLY`, with `readlines()` and its newline translation;
  - the new file is assembled piece by piece, as the method appends to `out`.
- **Project helpers**:
  - `root` walks up with `posixpath.dirname` to the folder that holds `.git`;
  - `url` rewrites the git remote;
  - `py_modules` and `scripts` filter and sort;
  - `imports` splits top-level import names into user, system and missing packages.
- **utils.py**:
  - `normpath`;
  - the `import2pypi` table;
  - the `git2docker` merge, which keeps the user's rows of `.dockerignore` above the first `####` row and regenerates the rest.

Modules:

- `Wrappers`: Option and Result.
- `Text`: Python's `str` operations as the core uses them. These are `replace`, `split`, `join`, `strip`, `lower`, `split()` on whitespace, `readlines()` with universal newlines, and `os.path.join`.
- `Numerals`: `int()` and `str()`.
- `Sorting`: `sorted()` on strings, as code-point order, and duplicate removal.
- `ProjectVersion`, `SetupTemplate` and `ProjectSetup`, `ProjectRoot`, `ProjectMetadata`: autogen/project.py.
- `Utils`: autogen/utils.py.

Loops that change variables step by step in the source are methods with loop invariants:

- `BumpInPlace` works on an array. It is proved equal to the specification function `Bumped`.
- `RenderParams` is the parameter loop of `create_setup`. Each line it renders is proved to be `RenderParam` of its parameter, and `CreateSetup` then assembles `out` from the pieces.
- `Root` walks `path`. It is proved equal to `NearestRepo`.
- `Imports` appends to three lists. Its contract states membership, no repeats and the total count, because the order of the lists depends on set iteration.
- `KeepRows` has the `break` of `git2docker`. It is proved equal to `KeptRows`.

The remaining properties are proved about the specification functions.

Comprehensions and replace chains are functions.

Two facts about the edit region:

- **Duplicate or misordered markers.** These are not an error. Reading the old file raises only when a marker is on no line at all. Otherwise the first line holding each marker is used, and the region is empty when the ABOVE line comes first (`ExtractRegionBetweenMarkers`).
- **Round-trip condition.** A preserved line holding the BELOW marker is harmless, because the first occurrence wins. The round trip holds when:
  - each preserved line ends in its own "\n", holds no carriage return and does not hold the ABOVE marker; every line read from an old file meets this (`RegionLinesPreservable`);
  - the rendered parameters hold neither marker nor a carriage return.

## Model

| member | source | states |
|---|---|---|
| ProjectVersion.ParseComponents | autogen/project.py:160 | `[int(v) for v in parts]` fails only with the ValueError of `int()`, and otherwise gives one integer per part |
| ProjectVersion.ParseComponentsSpec | autogen/project.py:160 | the comprehension succeeds exactly when every part is an integer, and then holds each part's value at that part's position |
| ProjectVersion.BumpInPlace | autogen/project.py:161-163 | the list after `versions[level] += 1` and the zeroing loop equals `Bumped(old list, level)`, under Python's negative indexing |
| ProjectVersion.BumpComponents | autogen/project.py:160-163 | the parsed list, copied into an array and mutated in place, comes back as `Bumped(list, level)` |
| ProjectVersion.UpdateVersion | autogen/project.py:152-168 | the written version is the bumped, re-joined version; an unparsable component gives the ValueError; a level outside the list gives the IndexError |
| ProjectVersion.BumpAtLevel | autogen/project.py:160-163 | for `0 <= level < n`: the count is kept, the component at `level` goes up by exactly one, earlier ones are unchanged, later ones are 0 |
| ProjectVersion.NegativeLevelZeroesAll | autogen/project.py:161-163 | a negative level makes the zeroing loop cover every position, so every component ends up 0 |
| ProjectVersion.FormatParseRoundTrip | autogen/project.py:160-164 | `".".join(str(v) ...)` parsed back with `split(".")` and `int()` gives the same components |
| ProjectVersion.BumpedVersionReparses | autogen/project.py:160-168 | what `update_version` writes parses back to the bumped components, so the next release can bump it again |
| Numerals.FileSeparatorNotSkipped | autogen/project.py:160 | `int()` does not skip a \x1c in front of the digits, unlike `str.isspace()`, so the component is a ValueError |
| ProjectVersion.MissingVersionFile | autogen/project.py:214-220 | without a version file the version is "0.0.0", which parses to [0, 0, 0] |
| ProjectVersion.FirstPatchRelease | autogen/project.py:152-168 | a patch release (level 2) of 0.0.0 writes "0.0.1" |
| ProjectSetup.FirstContaining | autogen/project.py:99-102 | the index found is that of the first line holding the marker; None (the IndexError) exactly when no line holds it |
| ProjectSetup.ExtractRegionBetweenMarkers | autogen/project.py:95-111 | reading an existing setup.py fails exactly when one marker is on no line; otherwise the region is the lines strictly between the first BELOW line and the first ABOVE line, empty when the ABOVE line comes first |
| ProjectSetup.RegionLinesPreservable | autogen/project.py:95-103 | every line of the region, whether read back from an old file or taken from the default region, ends in its own newline, holds no carriage return and no ABOVE marker |
| ProjectSetup.RenderParams | autogen/project.py:71-75 | the loop renders one `   key=value` line per parameter, in order, strings quoted |
| ProjectSetup.CreateSetup | autogen/project.py:55-118 | the pieces appended to `out` concatenate to header, parameter block, BELOW line, region, ABOVE line, blank line and setup call; missing markers raise |
| ProjectSetup.RegionRoundTrip | autogen/project.py:58-63 | the header's promise: reading the region back from a freshly written file gives exactly the preserved lines, when no preserved line holds the ABOVE marker and the parameters hold no marker |
| ProjectSetup.SetupTextLines | autogen/project.py:94-118 | the written file reads back as the header and parameter lines, the BELOW line, the region lines, the ABOVE line, a blank line and the setup call |
| ProjectSetup.CreateSetupIdempotent | autogen/project.py:93-118 | regenerating setup.py with the same parameters from the file just written writes the same file |
| ProjectRoot.Dirname | autogen/project.py:194-196 | `os.path.dirname(path)` is a prefix of `path`, no longer than it |
| ProjectRoot.DirnameFixpoint | autogen/project.py:194-195 | a path is its own dirname exactly when it is made of slashes ("/" or ""), which the walk checks after listing the folder |
| ProjectRoot.Root | autogen/project.py:187-196 | the walk from `path` (the current folder when `path` is empty) returns the nearest folder on the way up that holds `.git`, or False |
| ProjectRoot.NearestRepoIsNearest | autogen/project.py:190-196 | a returned folder holds `.git`, lies `k` dirname steps above the start, and no folder fewer steps up holds `.git` |
| ProjectRoot.NoRepoAnywhere | autogen/project.py:194-195 | False is returned only when no folder any number of steps up holds `.git` |
| ProjectMetadata.Url | autogen/project.py:222-231 | when the git call raises, the URL is "" |
| ProjectMetadata.UrlUnmatched | autogen/project.py:225-228 | a remote holding neither "git@" nor "github.com:" is only stripped of its trailing newlines |
| ProjectMetadata.UrlOfSshRemote | autogen/project.py:225-228 | `ssh://git@host/path` followed by a newline becomes `https://host/path` |
| ProjectMetadata.UrlOfHttpsRemote | autogen/project.py:225-228 | an `https://` remote comes back unchanged, less its trailing newline |
| ProjectMetadata.UrlOfScpRemote | autogen/project.py:225-228 | `git@github.com:owner/repo` becomes `http://github.com/owner/repo`: the second and third replacements each act once, in order |
| ProjectMetadata.ModuleFiles | autogen/project.py:280-287 | a listed name is kept exactly when it is a file, tracked by git, ends in ".py" and is not setup.py |
| ProjectMetadata.ModuleName | autogen/project.py:288 | `f[:-3]` is the name that ".py" completes back to `f` |
| ProjectMetadata.PyModules | autogen/project.py:278-289 | the module list is sorted, and holds `m` exactly when `m + ".py"` is a kept file of the listing |
| ProjectMetadata.PyModulesDistinct | autogen/project.py:280-289 | a listing without repeated names gives a module list without repetitions |
| ProjectMetadata.ScriptFiles | autogen/project.py:311-315 | the joined paths `scripts/<name>` of listed names that are files, and nothing else |
| ProjectMetadata.Scripts | autogen/project.py:306-318 | None when there is no scripts folder; otherwise sorted, without repetitions, and holding exactly the normalised script paths that git tracks |
| ProjectMetadata.ScriptsAreTheSortedSet | autogen/project.py:316-318 | `sorted(list(set(files) & set(gitfiles)))`: any sorted list without repetitions with those elements is the result |
| ProjectMetadata.TopLevelPrefix | autogen/project.py:261 | `m.split(".")[0]` is the dot-free prefix of `m` that ends at the first dot, and is `m` itself when `m` has no dot |
| ProjectMetadata.Imports | autogen/project.py:261-276 | each top-level name lands in exactly the list its spec selects (none: missing; no origin or not under site-packages: system; else user); no list repeats a name; the lengths add up to the number of distinct top-level names |
| Utils.Normpath | autogen/utils.py:17-19 | same length; each backslash becomes "/" and every other character is kept |
| Utils.NormpathNoBackslash | autogen/utils.py:19 | a normalised path holds no backslash |
| Utils.NormpathIdempotent | autogen/utils.py:19 | normalising twice is normalising once |
| Utils.BuildTable | autogen/utils.py:35-36 | the table is built exactly when every line splits on ":" into two parts; otherwise it fails at the first line that does not |
| Utils.TableLastRowWins | autogen/utils.py:36 | the value for a key is the one on the last row with that key |
| Utils.TableKeys | autogen/utils.py:35-36 | every key comes from a table line and has no capital letter |
| Utils.Import2Pypi | autogen/utils.py:32-38 | one name per import, duplicates kept, sorted, and a permutation of the looked-up lower-cased names; a bad table line raises |
| Utils.Import2PypiEntry | autogen/utils.py:37 | each import's own lookup result, lower-cased, is in the output |
| Utils.CapitalisedImportPassesThrough | autogen/utils.py:35-37 | keys are lower-cased but lookups are not: an import name with a capital letter never matches and comes out as itself, lower-cased |
| Utils.StatusPaths | autogen/utils.py:45 | the second whitespace field of every status line, or failure at the first line with fewer than two fields |
| Utils.GitEntry | autogen/utils.py:49 | a path starting with "!" keeps the "!" in front and ends with the rest of the path; any other path ends the joined entry; a relative path is placed under the root, behind the "!" when there is one |
| Utils.KeptRowsBeforeCut | autogen/utils.py:51-58 | the kept rows are the stripped lines before the first line starting with "####", or all of them when none does |
| Utils.KeepRows | autogen/utils.py:54-58 | the loop with its `break` computes the kept rows |
| Utils.Git2Docker | autogen/utils.py:41-63 | the new `.dockerignore` is the kept rows, the marker row, ".dockerignore" and the git entries, joined by "\n" |
| Utils.KeptRowsClean | autogen/utils.py:55-58 | kept rows hold no line break and do not start with "####" |
| Utils.RereadKept | autogen/utils.py:51-63 | the kept rows written in front of the marker row are read back as exactly those rows |
| Utils.DockerIgnoreIdempotent | autogen/utils.py:41-63 | running `git2docker` again with the same git listing writes the same content |

## Left out

- Subprocesses are not modelled: `subprocess_run`, `release`, `create_conda` and every git, twine or `setup.py` call. Their outputs are inputs here: the remote URL, the status lines, the repository root and the git file list.
- `git2docker` passes a list to `subprocess.getoutput`, which on POSIX runs only its first element in a shell. The status lines are an input here, so this is not modelled.
- Foreign library calls are not modelled: `find_spec`, `find_packages`, `pkg_resources`, `ast.parse` and the glob over package folders. `imports` takes the import names as given and the module specs as a map.
- `setup_defaults` and the other metadata (`name`, `description`, `packages`, `package_data`, `install_requires`) are not modelled, nor is writing requirements.txt. Parameters are given as key/value pairs. For a non-string value, the text `str()` makes of it is given.
- `autopep8.fix_code` is an opaque formatter. The model describes the text before formatting, and the round trip is stated on that text.
- Files are not read or written. The old file contents are a parameter; None stands for the missing file, caught as FileNotFoundError. Errors when listing a folder that does not exist are not modelled, and `root` treats `gitDirs` as the folders whose listing holds `.git`. A walk from a relative path with no `.git` on the way up reaches "", and `os.listdir("")` raises FileNotFoundError there. The model instead checks "" against `gitDirs` and returns False.
- The import2pypi table file is given as the lines `str.splitlines()` produces. The line-boundary rules of `splitlines` are not modelled.
- Only ASCII is modelled for `str.lower()` and for whitespace in `strip()` and `split()`. `int()` skips space and \t to \r around a numeral, as CPython does for ASCII. Non-ASCII whitespace, underscores and non-ASCII digits are not accepted by `int()` here.
- ProjectVersion.UpdateVersion: `int()` and `str()` are modelled without Python's limit on the number of digits (`sys.int_max_str_digits`, 4300 by default since Python 3.11). For a component with more digits than that, project.py:160 or project.py:164 raises ValueError, while `UpdateVersion` succeeds.
- Paths use POSIX rules. Writes add no `os.linesep` translation, and `readlines()` reads with universal newlines.
- `create_docs`, autogen/autogen.py, autogen/main.py, the Sphinx configuration files, docs/clean_rst.py and templates/test/conftest.py are not part of this model.
- ProjectMetadata.UrlOfSshRemote, UrlOfHttpsRemote, UrlOfScpRemote: these state the rewrite of the three usual remote shapes for a path that holds none of the patterns. Remotes where a pattern appears twice are covered by `Url` itself but by no lemma.
- ProjectMetadata.Imports: the order in which Python iterates the name set is not modelled. The loop takes names in any order, and the contract states only what does not depend on it.
