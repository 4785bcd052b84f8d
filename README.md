# Release preparation script of Elasticsearch, modelled in Dafny

This project models `dev-tools/prepare_release_create_release_version.py`, the
script that moves an Elasticsearch checkout from a snapshot version to a
release version. The script does four things:

- It reads the release version from the root `pom.xml`. This is the first
  line that matches `<version>(.+)-SNAPSHOT</version>`.
- It splits the output of `find` into pom file names.
- In every named pom file it rewrites `<version>R-SNAPSHOT</version>` to
  `<version>R</version>`.
- In `Version.java` it flips `new Version(V_<id>_ID, true` to `false`. The
  `<id>` is the release with every `.` and `-` turned into `_`. This step
  fails when no line changes.

Every file is rewritten by `process_file`. It applies a line callback to each
line, and it replaces the file only when some line came out different.

Files:

- `pystr.dfy` (module `PyStr`) gives the Python string operations the
  script relies on, with Python's own semantics. These are `in`, `count`,
  `replace` (all non-overlapping occurrences, scanned from the left),
  `split` with an explicit separator, and `join`.
- `release_text.dfy` (module `ReleaseText`) holds the two line callbacks,
  the release-id mangling, and the one regular expression the script uses.
  The regular expression is modelled as Python's `re.search` runs it: start
  positions are tried from the left, and `.+` is greedy and backtracks.
  `.` does not match a newline.
- `release_script.dfy` (module `ReleaseScript`) models the script itself.
  `ProcessLines` is the loop of `process_file`. `FindReleaseVersion` is the
  search loop with its early return. The class `FileTree` holds the working
  tree as a map from path to lines. Its methods rewrite that map in place
  as the script rewrites files. Each method is proved equal to a
  specification function (`Processed`, `MavenRewrite`, `VersionRewrite`,
  `ReleaseRun`), and the properties are lemmas about those functions.

A file is modelled as the sequence of its lines. Each line keeps its
trailing newline, as Python's line iteration does. A missing file is the
error `FileNotFound`, which is what Python's `open` raises. The two
`RuntimeError`s of the modelled functions, raised at lines 109 and 126 of the
script, are `SnapshotNotRemoved` and `ReleaseVersionNotFound`.

## Model

| member | source | states |
|---|---|---|
| `PyStr.Split` | dev-tools/prepare_release_create_release_version.py:114 | `split(sep)` yields one more part than `count(sep)` finds occurrences |
| `PyStr.SplitJoin` | dev-tools/prepare_release_create_release_version.py:114 | round trip: joining the parts of `s.split(sep)` with `sep` gives `s` back |
| `PyStr.SplitPartsFree` | dev-tools/prepare_release_create_release_version.py:114 | no part of a split contains the separator |
| `PyStr.SplitLeftmost` | dev-tools/prepare_release_create_release_version.py:114 | the split cuts at leftmost occurrences: no part but the last, extended by all but the last character of the separator, holds the separator |
| `PyStr.SplitUnique` | dev-tools/prepare_release_create_release_version.py:114 | any parts that join back to `s`, hold no separator and are cut at leftmost occurrences are exactly `s.split(sep)` |
| `PyStr.SplitCharacterised` | dev-tools/prepare_release_create_release_version.py:114 | `parts == s.split(sep)` exactly when the parts are non-empty, join back to `s`, hold no separator and are cut at leftmost occurrences |
| `PyStr.ReplaceOfCut` | dev-tools/prepare_release_create_release_version.py:95 | `replace` rewrites the leftmost non-overlapping occurrences: for any such cut of `s` at `pat`, the result is the parts joined by `rep` |
| `PyStr.SplitTrailingSeparator` | dev-tools/prepare_release_create_release_version.py:114 | with a one-character separator, a trailing separator adds exactly one empty last part |
| `PyStr.ReplaceLength` | dev-tools/prepare_release_create_release_version.py:95 | `replace` changes the length by `count(pat) * (len(rep) - len(pat))` |
| `PyStr.CountPositiveIff` | dev-tools/prepare_release_create_release_version.py:95 | `count(pat) > 0` exactly when `pat in s` |
| `PyStr.ReplaceAbsent` | dev-tools/prepare_release_create_release_version.py:95 | a string without the pattern comes back from `replace` unchanged |
| `PyStr.ReplaceChangesIff` | dev-tools/prepare_release_create_release_version.py:95 | if the replacement's length differs from the pattern's, `replace` changes the string exactly when the pattern occurs in it |
| `PyStr.ReplaceIsJoinOfSplit` | dev-tools/prepare_release_create_release_version.py:95 | `s.replace(pat, rep) == rep.join(s.split(pat))`: the text between occurrences is kept and each occurrence becomes `rep` |
| `PyStr.ReplaceCharAt` | dev-tools/prepare_release_create_release_version.py:101-102 | a one-character `replace` keeps the length and maps every position independently |
| `PyStr.OccursContains` | dev-tools/prepare_release_create_release_version.py:95 | an occurrence at any index makes `pat in s` hold |
| `PyStr.ContainsWitness` | dev-tools/prepare_release_create_release_version.py:95 | when `pat in s` holds, the pattern occurs at some index |
| `PyStr.ContainsChar` | dev-tools/prepare_release_create_release_version.py:114 | for a one-character pattern, `in` is element membership |
| `ReleaseText.PomCallbackKeepsOtherLines` | dev-tools/prepare_release_create_release_version.py:92-95 | the pom callback leaves a line without `<version>R-SNAPSHOT</version>` unchanged |
| `ReleaseText.PomCallbackChangesIff` | dev-tools/prepare_release_create_release_version.py:92-95 | the pom callback changes a line exactly when the line holds `<version>R-SNAPSHOT</version>` |
| `ReleaseText.PomCallbackSegments` | dev-tools/prepare_release_create_release_version.py:92-95 | the line is its pieces joined by the snapshot element, the result is the same pieces joined by `<version>R</version>`, and no piece holds the snapshot element |
| `ReleaseText.MangleReleaseAt` | dev-tools/prepare_release_create_release_version.py:100-102 | mangling keeps the length, turns each `.` and `-` into `_`, and keeps every other character in place |
| `ReleaseText.MangleReleaseHasNoSeparators` | dev-tools/prepare_release_create_release_version.py:100-102 | a mangled release id contains no `.` and no `-` |
| `ReleaseText.MangleReleaseExample` | dev-tools/prepare_release_create_release_version.py:100 | `1.0.0.Beta1` mangles to `1_0_0_Beta1` |
| `ReleaseText.VersionCallbackChangesIff` | dev-tools/prepare_release_create_release_version.py:103-106 | the Version.java callback changes a line exactly when it holds `new Version(V_<id>_ID, true` |
| `ReleaseText.LineEnd` | dev-tools/prepare_release_create_release_version.py:123 | the greedy `.` run stops at the first newline or at the end of the line |
| `ReleaseText.GreedyEnd` | dev-tools/prepare_release_create_release_version.py:123 | backtracking picks the largest capture end that `-SNAPSHOT</version>` follows; none exists when it reports none |
| `ReleaseText.MatchAtSound` | dev-tools/prepare_release_create_release_version.py:123 | a match at index `i` captures a non-empty, newline-free `v` with `<version>v-SNAPSHOT</version>` at `i` |
| `ReleaseText.MatchAtGreedy` | dev-tools/prepare_release_create_release_version.py:123 | any such `v` at `i` makes the pattern match at `i`, and the capture is at least as long as `v` |
| `ReleaseText.SearchFromLeftmost` | dev-tools/prepare_release_create_release_version.py:123 | `re.search` returns the match at the leftmost start position that matches |
| `ReleaseText.SearchFromComplete` | dev-tools/prepare_release_create_release_version.py:123 | `re.search` finds a match whenever some start position matches |
| `ReleaseText.SearchVersionSound` | dev-tools/prepare_release_create_release_version.py:123-125 | the returned group is non-empty, has no newline, and its snapshot element is a substring of the line |
| `ReleaseText.SearchVersionComplete` | dev-tools/prepare_release_create_release_version.py:123-124 | a line holding the snapshot element of some non-empty, newline-free version is matched |
| `ReleaseText.SearchVersionOfElement` | dev-tools/prepare_release_create_release_version.py:119-125 | the search reads the release back: for any non-empty, newline-free `r`, the line `<version>r-SNAPSHOT</version>` plus newline yields exactly `r` |
| `ReleaseText.PomPatternAt` | dev-tools/prepare_release_create_release_version.py:123 | the snapshot element at `i` is the opening tag at `i`, then the version, then `-SNAPSHOT</version>` |
| `ReleaseScript.ProcessLines` | dev-tools/prepare_release_create_release_version.py:71-74 | same number of lines; each output line is the callback applied to the input line at the same position; the flag is set exactly when some line changed; with no change the lines are the input |
| `ReleaseScript.ProcessedAt` | dev-tools/prepare_release_create_release_version.py:76-85 | after `process_file` the file holds the rewritten lines (the original when nothing changed), no other file changes, no path appears |
| `ReleaseScript.MavenRewriteSkipsEmpty` | dev-tools/prepare_release_create_release_version.py:89-90 | empty names make no difference: the rewrite equals the rewrite of the non-empty names alone |
| `ReleaseScript.NonEmptyPathsDropsLastEmpty` | dev-tools/prepare_release_create_release_version.py:89-90 | an empty last name is dropped from the names that are processed |
| `ReleaseScript.MavenRewriteFrame` | dev-tools/prepare_release_create_release_version.py:88-96 | no path is added; files not named are untouched; the step succeeds exactly when every non-empty name exists, and otherwise fails naming the first missing one |
| `ReleaseScript.MavenRewritePrefix` | dev-tools/prepare_release_create_release_version.py:89-96 | after names that all exist, the loop goes on from the file system they left, with the rest of the names |
| `ReleaseScript.MavenRewriteStops` | dev-tools/prepare_release_create_release_version.py:89-96 | at the first missing name the step fails naming it; the names before it stay processed, files not named before it keep their lines, and distinct names before it hold their rewritten lines |
| `ReleaseScript.MavenRewriteEach` | dev-tools/prepare_release_create_release_version.py:88-96 | distinct existing pom files each end up rewritten once by the pom callback |
| `ReleaseScript.VersionRewriteIff` | dev-tools/prepare_release_create_release_version.py:99-109 | the Version.java step fails, leaving every file alone, exactly when no line holds `new Version(V_<id>_ID, true`; otherwise only that file changes, to its rewritten lines |
| `ReleaseScript.FindReleaseVersion` | dev-tools/prepare_release_create_release_version.py:120-126 | on success a non-empty `v` whose snapshot element is in the first matching line, no earlier line matching; an error exactly when no line matches |
| `ReleaseScript.FirstReleaseAt` | dev-tools/prepare_release_create_release_version.py:120-125 | the first-match result comes from a line with no matching line before it |
| `ReleaseScript.FirstReleaseVersionNone` | dev-tools/prepare_release_create_release_version.py:126 | when no line matches there is no release version |
| `ReleaseScript.PomPathsSplit` | dev-tools/prepare_release_create_release_version.py:114 | the names carry no newline and joined by newlines give the `find` output back |
| `ReleaseScript.PomPathsTrailingNewline` | dev-tools/prepare_release_create_release_version.py:114 | the trailing newline of `find` output adds one empty name, and the pom rewrite is the same with or without it |
| `ReleaseScript.ReleaseRunSucceeded` | dev-tools/prepare_release_create_release_version.py:129-138 | a successful run returns the capture of the first matching line of pom.xml, a non-empty release whose snapshot element that file holds; the pom step succeeded; no path is added; Version.java, which held the snapshot constant, holds its rewritten lines, and every other file is as the pom step left it |
| `ReleaseScript.ReleaseRunNoVersion` | dev-tools/prepare_release_create_release_version.py:130 | with no snapshot version in pom.xml the run fails and changes no file |
| `ReleaseScript.FileTree.ProcessFile` | dev-tools/prepare_release_create_release_version.py:66-85 | a missing file is an error and changes nothing; otherwise returns whether a line changed, and the tree becomes `Processed` |
| `ReleaseScript.FileTree.RemoveMavenSnapshot` | dev-tools/prepare_release_create_release_version.py:88-96 | the new tree and the outcome are those of `MavenRewrite` on the old tree |
| `ReleaseScript.FileTree.RemoveVersionSnapshot` | dev-tools/prepare_release_create_release_version.py:99-109 | the new tree and the outcome are those of `VersionRewrite` on the old tree |
| `ReleaseScript.FileTree.PrepareRelease` | dev-tools/prepare_release_create_release_version.py:129-138 | the new tree and the result are those of `ReleaseRun` on the old tree and the `find` output |

## Left out

- Reading a file into lines, writing lines back, and text encodings are not modelled. A file is its sequence of lines.
- Temporary files are not modelled: `tempfile.mkstemp`, `os.close`, `os.remove` and `shutil.move`. When `open` fails, the temporary file is left behind; this model does not show that.
- Paths are compared as plain strings. `./pom.xml`, as `find` prints it, and `pom.xml` are different keys. No path normalisation or aliasing is modelled. The release version found is the same, because the script reads `pom.xml` before any pom is rewritten. But the model's `pom.xml` entry keeps its snapshot content after the run, while the script rewrites that same file through `./pom.xml`.
- `run` and `ensure_checkout_is_clean` are left out. They depend on `os.system` and on `git` output.
- The `find ... -exec grep` call is left out. Its output is a parameter (`findOutput`), and only the `split('\n')` of its decoded text is modelled.
- The `git log` call and the prints of the main block are left out.
- Python's `re` engine is not modelled in general. Only the one fixed pattern `<version>(.+)-SNAPSHOT</version>` is modelled.
- `PyStr.ReplaceChangesIff`: requires the pattern and replacement to differ in length. Both callers meet this: the pom replacement is nine characters shorter, and the Version.java replacement is one character longer.
- `ReleaseScript.MavenRewriteEach`: states the per-file result only for distinct names. A name listed twice is rewritten twice; `MavenRewrite` models that, but the lemma does not describe it.
- `PyStr.Split`: requires a non-empty separator. Python raises `ValueError` for an empty one, which is not modelled; the script only splits on `'\n'`.
- `FilterIT.java` and `PluginManagerUnitTests.java` are tests with no release logic and are not modelled.
