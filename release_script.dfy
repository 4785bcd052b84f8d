/** The release script: rewriting files line by line, finding the release
    version in the root pom.xml, and moving the pom files and Version.java
    from the snapshot to the release. A file is the sequence of its lines,
    each with the newline Python keeps; the file system is a map from path
    to lines. */
module ReleaseScript {
  import opened PyStr
  import opened ReleaseText

  const VersionFile: String := "core/src/main/java/org/elasticsearch/Version.java"
  const RootPom: String := "pom.xml"

  type Lines = seq<String>
  type Files = map<String, Lines>

  datatype Error =
    | FileNotFound(path: String)            // opening a path that is not there
    | SnapshotNotRemoved(releaseId: String) // no line of Version.java changed
    | ReleaseVersionNotFound                // no line of pom.xml holds a snapshot version

  datatype Result<T> = Ok(value: T) | Err(error: Error)

  /** The result of a step that returns nothing or raises. */
  datatype Outcome = Done | Failed(error: Error)

  // ---------------------------------------------------------------------
  // process_file

  /** The lines the callback produces, one for one. */
  function Rewritten(lines: Lines, callback: String -> String): Lines
  {
    seq(|lines|, k requires 0 <= k < |lines| => callback(lines[k]))
  }

  /** The callback changes at least one line. */
  predicate AnyLineChanged(lines: Lines, callback: String -> String)
  {
    exists k :: 0 <= k < |lines| && callback(lines[k]) != lines[k]
  }

  /** The loop of `process_file`: the callback is applied to every line in
      order, and the flag records whether any line came out different. When
      nothing changed, the new lines are the old ones. */
  method ProcessLines(lines: Lines, callback: String -> String) returns (newLines: Lines, modified: bool)
    ensures |newLines| == |lines|
    ensures forall k :: 0 <= k < |lines| ==> newLines[k] == callback(lines[k])
    ensures modified <==> exists k :: 0 <= k < |lines| && callback(lines[k]) != lines[k]
    ensures !modified ==> newLines == lines
  {
    newLines := [];
    modified := false;
    for k := 0 to |lines|
      invariant |newLines| == k
      invariant forall j :: 0 <= j < k ==> newLines[j] == callback(lines[j])
      invariant modified <==> exists j :: 0 <= j < k && callback(lines[j]) != lines[j]
    {
      var line := lines[k];
      var newLine := callback(line);
      modified := modified || newLine != line;
      newLines := newLines + [newLine];
    }
  }

  /** The file system after `process_file` on an existing file: the file is
      replaced by the rewritten lines only when a line changed. */
  function Processed(files: Files, path: String, callback: String -> String): Files
    requires path in files
  {
    if AnyLineChanged(files[path], callback) then files[path := Rewritten(files[path], callback)]
    else files
  }

  /** Whether or not a line changed, the processed file holds the rewritten
      lines, every other file is as it was, and no path is added. */
  lemma ProcessedAt(files: Files, path: String, callback: String -> String)
    requires path in files
    ensures Processed(files, path, callback).Keys == files.Keys
    ensures Processed(files, path, callback)[path] == Rewritten(files[path], callback)
    ensures forall p :: p in files && p != path ==> Processed(files, path, callback)[p] == files[p]
  {
    if !AnyLineChanged(files[path], callback) {
      assert Rewritten(files[path], callback) == files[path];
    }
  }

  // ---------------------------------------------------------------------
  // remove_maven_snapshot

  /** The pom files that the loop of `remove_maven_snapshot` opens, in order:
      the empty names are skipped. */
  function NonEmptyPaths(paths: seq<String>): seq<String>
  {
    if paths == [] then []
    else if paths[0] == [] then NonEmptyPaths(paths[1..])
    else [paths[0]] + NonEmptyPaths(paths[1..])
  }

  /** The file system and outcome after `remove_maven_snapshot(poms, release)`:
      each non-empty name is processed in turn with the pom callback; the
      first name that is not a file stops the loop, and the files processed
      before it stay rewritten. */
  function MavenRewrite(files: Files, poms: seq<String>, release: String): (Files, Outcome)
    decreases |poms|
  {
    if poms == [] then (files, Done)
    else if poms[0] == [] then MavenRewrite(files, poms[1..], release)
    else if poms[0] !in files then (files, Failed(FileNotFound(poms[0])))
    else MavenRewrite(Processed(files, poms[0], PomCallback(release)), poms[1..], release)
  }

  /** Empty names make no difference: the rewrite is the one of the
      non-empty names alone. */
  lemma {:induction false} MavenRewriteSkipsEmpty(files: Files, poms: seq<String>, release: String)
    ensures MavenRewrite(files, poms, release) == MavenRewrite(files, NonEmptyPaths(poms), release)
    decreases |poms|
  {
    if poms != [] {
      if poms[0] == [] {
        MavenRewriteSkipsEmpty(files, poms[1..], release);
      } else {
        var rest := NonEmptyPaths(poms[1..]);
        assert ([poms[0]] + rest)[1..] == rest;
        if poms[0] in files {
          MavenRewriteSkipsEmpty(Processed(files, poms[0], PomCallback(release)), poms[1..], release);
        }
      }
    }
  }

  /** The rewrite adds no path, touches no file it was not given, and fails
      exactly when a non-empty name is not a file, naming the first such. */
  lemma {:induction false} MavenRewriteFrame(files: Files, poms: seq<String>, release: String)
    ensures MavenRewrite(files, poms, release).0.Keys == files.Keys
    ensures forall p :: p in files && p !in poms ==> MavenRewrite(files, poms, release).0[p] == files[p]
    ensures MavenRewrite(files, poms, release).1 == Done <==>
      forall k :: 0 <= k < |poms| && poms[k] != [] ==> poms[k] in files
    ensures MavenRewrite(files, poms, release).1.Failed? ==>
      exists k :: 0 <= k < |poms| && poms[k] != [] && poms[k] !in files
        && MavenRewrite(files, poms, release).1 == Failed(FileNotFound(poms[k]))
        && forall j :: 0 <= j < k ==> poms[j] == [] || poms[j] in files
    decreases |poms|
  {
    if poms != [] {
      var next := if poms[0] != [] && poms[0] in files then Processed(files, poms[0], PomCallback(release)) else files;
      if poms[0] != [] && poms[0] in files {
        ProcessedAt(files, poms[0], PomCallback(release));
      }
      if poms[0] == [] || poms[0] in files {
        MavenRewriteFrame(next, poms[1..], release);
        var outcome := MavenRewrite(files, poms, release).1;
        assert outcome == MavenRewrite(next, poms[1..], release).1;
        assert forall p :: p in files && p !in poms ==> p !in poms[1..] && p != poms[0];
        if outcome.Failed? {
          var k :| 0 <= k < |poms[1..]| && poms[1..][k] != [] && poms[1..][k] !in next
            && outcome == Failed(FileNotFound(poms[1..][k]))
            && forall j :: 0 <= j < k ==> poms[1..][j] == [] || poms[1..][j] in next;
          assert poms[k + 1] == poms[1..][k];
          assert forall j :: 1 <= j < k + 1 ==> poms[j] == poms[1..][j - 1];
        } else {
          assert forall k :: 1 <= k < |poms| ==> poms[k] == poms[1..][k - 1];
        }
      } else {
        assert poms[0] != [] && poms[0] !in files;
      }
    }
  }

  /** The loop over the names before index `k`, none of them missing, leaves
      a file system from which the rest of the loop runs on `poms[k..]`. */
  lemma {:induction false} MavenRewritePrefix(files: Files, poms: seq<String>, release: String, k: nat)
    requires k <= |poms|
    requires forall j :: 0 <= j < k ==> poms[j] == [] || poms[j] in files
    ensures MavenRewrite(files, poms[..k], release).1 == Done
    ensures MavenRewrite(files, poms, release) ==
      MavenRewrite(MavenRewrite(files, poms[..k], release).0, poms[k..], release)
    decreases k
  {
    if k == 0 {
      assert poms[..0] == [] && poms[0..] == poms;
    } else {
      var next := if poms[0] != [] then Processed(files, poms[0], PomCallback(release)) else files;
      if poms[0] != [] {
        ProcessedAt(files, poms[0], PomCallback(release));
      }
      assert forall j :: 0 <= j < k - 1 ==> poms[1..][j] == poms[j + 1];
      MavenRewritePrefix(next, poms[1..], release, k - 1);
      assert poms[..k][1..] == poms[1..][..k - 1];
      assert poms[1..][k - 1..] == poms[k..];
    }
  }

  /** When `poms[k]` is the first name that is not a file, the step fails
      naming it, with the names before it processed and nothing after it
      touched: every file not named before `k` keeps its lines, and when
      the names before `k` are distinct, each of them holds its rewritten
      lines. */
  lemma MavenRewriteStops(files: Files, poms: seq<String>, release: String, k: nat)
    requires k < |poms| && poms[k] != [] && poms[k] !in files
    requires forall j :: 0 <= j < k ==> poms[j] == [] || poms[j] in files
    ensures MavenRewrite(files, poms, release) ==
      (MavenRewrite(files, poms[..k], release).0, Failed(FileNotFound(poms[k])))
    ensures MavenRewrite(files, poms, release).0.Keys == files.Keys
    ensures forall p :: p in files && p !in poms[..k] ==> MavenRewrite(files, poms, release).0[p] == files[p]
    ensures (forall i, j :: 0 <= i < j < k && poms[i] != [] ==> poms[i] != poms[j]) ==>
      forall j :: 0 <= j < k && poms[j] != [] ==>
        MavenRewrite(files, poms, release).0[poms[j]] == Rewritten(files[poms[j]], PomCallback(release))
  {
    MavenRewritePrefix(files, poms, release, k);
    MavenRewriteFrame(files, poms[..k], release);
    assert poms[k..][0] == poms[k];
    var before := poms[..k];
    assert forall j :: 0 <= j < k ==> before[j] == poms[j];
    if forall i, j :: 0 <= i < j < k && poms[i] != [] ==> poms[i] != poms[j] {
      MavenRewriteEach(files, before, release);
    }
  }

  /** Distinct pom files that all exist are each rewritten once with the pom
      callback. */
  lemma {:induction false} MavenRewriteEach(files: Files, poms: seq<String>, release: String)
    requires forall k :: 0 <= k < |poms| && poms[k] != [] ==> poms[k] in files
    requires forall i, j :: 0 <= i < j < |poms| && poms[i] != [] ==> poms[i] != poms[j]
    ensures MavenRewrite(files, poms, release).1 == Done
    ensures MavenRewrite(files, poms, release).0.Keys == files.Keys
    ensures forall k :: 0 <= k < |poms| && poms[k] != [] ==>
      MavenRewrite(files, poms, release).0[poms[k]] == Rewritten(files[poms[k]], PomCallback(release))
    decreases |poms|
  {
    MavenRewriteFrame(files, poms, release);
    if poms != [] {
      var tail := poms[1..];
      assert forall k :: 0 <= k < |tail| ==> tail[k] == poms[k + 1];
      if poms[0] == [] {
        MavenRewriteEach(files, tail, release);
      } else {
        var next := Processed(files, poms[0], PomCallback(release));
        ProcessedAt(files, poms[0], PomCallback(release));
        MavenRewriteEach(next, tail, release);
        MavenRewriteFrame(next, tail, release);
        assert poms[0] !in tail;
      }
    }
  }

  // ---------------------------------------------------------------------
  // remove_version_snapshot

  /** The file system and outcome after `remove_version_snapshot(path, release)`. */
  function VersionRewrite(files: Files, path: String, release: String): (Files, Outcome)
  {
    if path !in files then (files, Failed(FileNotFound(path)))
    else if !AnyLineChanged(files[path], VersionCallback(release)) then
      (files, Failed(SnapshotNotRemoved(MangleRelease(release))))
    else (Processed(files, path, VersionCallback(release)), Done)
  }

  /** The Version.java step fails, leaving the files alone, exactly when no
      line holds `new Version(V_<id>_ID, true` for the mangled release id;
      otherwise every such occurrence is turned to `false` and only that
      file changes. */
  lemma VersionRewriteIff(files: Files, path: String, release: String)
    requires path in files
    ensures VersionRewrite(files, path, release).1 == Done <==>
      exists k :: 0 <= k < |files[path]| && Contains(files[path][k], VersionPattern(release))
    ensures VersionRewrite(files, path, release).1.Failed? ==>
      VersionRewrite(files, path, release) == (files, Failed(SnapshotNotRemoved(MangleRelease(release))))
    ensures VersionRewrite(files, path, release).1 == Done ==>
      VersionRewrite(files, path, release).0 == files[path := Rewritten(files[path], VersionCallback(release))]
  {
    var lines := files[path];
    forall k | 0 <= k < |lines|
      ensures VersionCallback(release)(lines[k]) != lines[k] <==> Contains(lines[k], VersionPattern(release))
    {
      VersionCallbackChangesIff(release, lines[k]);
    }
  }

  // ---------------------------------------------------------------------
  // find_release_version and find_pom_files_with_snapshots

  /** The capture of the first line that matches, if any. */
  function FirstReleaseVersion(lines: Lines): Option<String>
  {
    if lines == [] then None
    else if SearchVersion(lines[0]).Some? then SearchVersion(lines[0])
    else FirstReleaseVersion(lines[1..])
  }

  /** The loop of `find_release_version`: the capture of the first line that
      matches `<version>(.+)-SNAPSHOT</version>`, which is non-empty and whose
      snapshot element that line holds; or an error when no line matches. */
  method FindReleaseVersion(lines: Lines) returns (r: Result<String>)
    ensures r.Ok? ==> exists k :: (0 <= k < |lines| && SearchVersion(lines[k]) == Some(r.value)
      && Contains(lines[k], PomPattern(r.value))
      && forall j :: 0 <= j < k ==> SearchVersion(lines[j]).None?)
    ensures r.Ok? ==> r.value != [] && '\n' !in r.value
    ensures r.Err? ==> (r.error == ReleaseVersionNotFound
      && forall k :: 0 <= k < |lines| ==> SearchVersion(lines[k]).None?)
    ensures r.Ok? <==> FirstReleaseVersion(lines).Some?
    ensures r.Ok? ==> r.value == FirstReleaseVersion(lines).value
  {
    for k := 0 to |lines|
      invariant forall j :: 0 <= j < k ==> SearchVersion(lines[j]).None?
      invariant FirstReleaseVersion(lines[k..]) == FirstReleaseVersion(lines)
    {
      assert lines[k..][1..] == lines[k + 1..];
      var found := SearchVersion(lines[k]);
      if found.Some? {
        SearchVersionSound(lines[k]);
        return Ok(found.value);
      }
    }
    return Err(ReleaseVersionNotFound);
  }

  /** `find ... | ...` output split on newlines, as `split('\n')` does. */
  function PomPaths(findOutput: String): Lines
  {
    Split(findOutput, "\n")
  }

  /** No path holds a newline, and joining the paths with newlines gives the
      output back. */
  lemma PomPathsSplit(findOutput: String)
    ensures Join(PomPaths(findOutput), "\n") == findOutput
    ensures forall k :: 0 <= k < |PomPaths(findOutput)| ==> '\n' !in PomPaths(findOutput)[k]
  {
    SplitJoin(findOutput, "\n");
    SplitPartsFree(findOutput, "\n");
    forall k | 0 <= k < |PomPaths(findOutput)| ensures '\n' !in PomPaths(findOutput)[k] {
      ContainsChar(PomPaths(findOutput)[k], '\n');
    }
  }

  /** The newline that ends the output of `find` leaves an empty last name,
      which the pom rewrite skips. */
  lemma PomPathsTrailingNewline(files: Files, output: String, release: String)
    ensures PomPaths(output + "\n") == PomPaths(output) + [""]
    ensures MavenRewrite(files, PomPaths(output + "\n"), release) == MavenRewrite(files, PomPaths(output), release)
  {
    SplitTrailingSeparator(output, '\n');
    MavenRewriteSkipsEmpty(files, PomPaths(output) + [""], release);
    MavenRewriteSkipsEmpty(files, PomPaths(output), release);
    NonEmptyPathsDropsLastEmpty(PomPaths(output));
  }

  lemma {:induction false} NonEmptyPathsDropsLastEmpty(paths: seq<String>)
    ensures NonEmptyPaths(paths + [""]) == NonEmptyPaths(paths)
  {
    if paths == [] {
      assert [] + [""] == [""];
    } else {
      assert (paths + [""])[1..] == paths[1..] + [""];
      NonEmptyPathsDropsLastEmpty(paths[1..]);
    }
  }

  // ---------------------------------------------------------------------
  // The script as a whole

  /** The file system and outcome of the script: find the release version in
      pom.xml, rewrite the listed pom files, then Version.java; the first
      failure stops the run. */
  function ReleaseRun(files: Files, findOutput: String): (Files, Result<String>)
  {
    if RootPom !in files then (files, Err(FileNotFound(RootPom)))
    else match FirstReleaseVersion(files[RootPom])
      case None => (files, Err(ReleaseVersionNotFound))
      case Some(release) =>
        var (afterPoms, pomOutcome) := MavenRewrite(files, PomPaths(findOutput), release);
        if pomOutcome.Failed? then (afterPoms, Err(pomOutcome.error))
        else
          var (afterVersion, versionOutcome) := VersionRewrite(afterPoms, VersionFile, release);
          if versionOutcome.Failed? then (afterVersion, Err(versionOutcome.error))
          else (afterVersion, Ok(release))
  }

  /** A run that succeeds returns the capture of the first matching line of
      pom.xml, a non-empty release whose snapshot element that file holds;
      every listed pom was found and rewritten as `MavenRewrite` says; and
      Version.java, which held the snapshot constant afterwards, was turned
      to a release while every other file is as the pom step left it. */
  lemma ReleaseRunSucceeded(files: Files, findOutput: String)
    requires ReleaseRun(files, findOutput).1.Ok?
    ensures RootPom in files
    ensures ReleaseRun(files, findOutput).1.value == FirstReleaseVersion(files[RootPom]).value
    ensures var release := ReleaseRun(files, findOutput).1.value;
      release != []
      && exists k :: 0 <= k < |files[RootPom]| && Contains(files[RootPom][k], PomPattern(release))
    ensures var release := ReleaseRun(files, findOutput).1.value;
      MavenRewrite(files, PomPaths(findOutput), release).1 == Done
    ensures ReleaseRun(files, findOutput).0.Keys == files.Keys
    ensures var release := ReleaseRun(files, findOutput).1.value;
      var before := MavenRewrite(files, PomPaths(findOutput), release).0;
      && VersionFile in before
      && ReleaseRun(files, findOutput).0[VersionFile] == Rewritten(before[VersionFile], VersionCallback(release))
      && (exists k :: 0 <= k < |before[VersionFile]| && Contains(before[VersionFile][k], VersionPattern(release)))
      && forall p :: p in files && p != VersionFile ==> ReleaseRun(files, findOutput).0[p] == before[p]
  {
    var lines := files[RootPom];
    var release := FirstReleaseVersion(lines).value;
    var k := FirstReleaseAt(lines);
    SearchVersionSound(lines[k]);
    var before := MavenRewrite(files, PomPaths(findOutput), release).0;
    MavenRewriteFrame(files, PomPaths(findOutput), release);
    VersionRewriteIff(before, VersionFile, release);
  }

  /** The line whose capture `FirstReleaseVersion` returns. */
  lemma {:induction false} FirstReleaseAt(lines: Lines) returns (k: nat)
    requires FirstReleaseVersion(lines).Some?
    ensures k < |lines| && SearchVersion(lines[k]) == FirstReleaseVersion(lines)
    ensures forall j :: 0 <= j < k ==> SearchVersion(lines[j]).None?
  {
    if SearchVersion(lines[0]).Some? {
      k := 0;
    } else {
      var k' := FirstReleaseAt(lines[1..]);
      k := k' + 1;
      assert forall j :: 1 <= j < k ==> lines[j] == lines[1..][j - 1];
    }
  }

  /** A run that cannot read the release version changes no file. */
  lemma ReleaseRunNoVersion(files: Files, findOutput: String)
    requires RootPom in files
    requires forall k :: 0 <= k < |files[RootPom]| ==> SearchVersion(files[RootPom][k]).None?
    ensures ReleaseRun(files, findOutput) == (files, Err(ReleaseVersionNotFound))
  {
    FirstReleaseVersionNone(files[RootPom]);
  }

  /** No line matches, so there is no first match. */
  lemma {:induction false} FirstReleaseVersionNone(lines: Lines)
    requires forall k :: 0 <= k < |lines| ==> SearchVersion(lines[k]).None?
    ensures FirstReleaseVersion(lines).None?
  {
    if lines != [] {
      assert forall k :: 0 <= k < |lines[1..]| ==> lines[1..][k] == lines[k + 1];
      FirstReleaseVersionNone(lines[1..]);
    }
  }

  /** The working tree the script runs in. */
  class FileTree {
    var files: Files

    constructor (initial: Files)
      ensures files == initial
    {
      files := initial;
    }

    /** `process_file(path, callback)`: rewrite the file line by line and
        replace it only when some line changed; report whether it did. */
    method ProcessFile(path: String, callback: String -> String) returns (r: Result<bool>)
      modifies this
      ensures path !in old(files) ==> r == Err(FileNotFound(path)) && files == old(files)
      ensures path in old(files) ==> r == Ok(AnyLineChanged(old(files)[path], callback))
      ensures path in old(files) ==> files == Processed(old(files), path, callback)
    {
      if path !in files {
        return Err(FileNotFound(path));
      }
      var newLines, modified := ProcessLines(files[path], callback);
      assert newLines == Rewritten(files[path], callback);
      assert modified == AnyLineChanged(files[path], callback);
      if modified {
        files := files[path := newLines];
      }
      return Ok(modified);
    }

    /** `remove_maven_snapshot(poms, release)`. */
    method RemoveMavenSnapshot(poms: seq<String>, release: String) returns (r: Outcome)
      modifies this
      ensures (files, r) == MavenRewrite(old(files), poms, release)
    {
      var k := 0;
      while k < |poms|
        invariant 0 <= k <= |poms|
        invariant MavenRewrite(files, poms[k..], release) == MavenRewrite(old(files), poms, release)
      {
        assert poms[k..][1..] == poms[k + 1..];
        if poms[k] != [] {
          var processed := ProcessFile(poms[k], PomCallback(release));
          if processed.Err? {
            return Failed(processed.error);
          }
        }
        k := k + 1;
      }
      return Done;
    }

    /** `remove_version_snapshot(path, release)`. */
    method RemoveVersionSnapshot(path: String, release: String) returns (r: Outcome)
      modifies this
      ensures (files, r) == VersionRewrite(old(files), path, release)
    {
      var processed := ProcessFile(path, VersionCallback(release));
      if processed.Err? {
        return Failed(processed.error);
      }
      if !processed.value {
        return Failed(SnapshotNotRemoved(MangleRelease(release)));
      }
      return Done;
    }

    /** The body of the script: `find_release_version`, the split output of
        `find_pom_files_with_snapshots`, `remove_maven_snapshot`, then
        `remove_version_snapshot` on Version.java. */
    method PrepareRelease(findOutput: String) returns (r: Result<String>)
      modifies this
      ensures (files, r) == ReleaseRun(old(files), findOutput)
    {
      if RootPom !in files {
        return Err(FileNotFound(RootPom));
      }
      var found := FindReleaseVersion(files[RootPom]);
      if found.Err? {
        return found;
      }
      var release := found.value;
      var pomOutcome := RemoveMavenSnapshot(PomPaths(findOutput), release);
      if pomOutcome.Failed? {
        return Err(pomOutcome.error);
      }
      var versionOutcome := RemoveVersionSnapshot(VersionFile, release);
      if versionOutcome.Failed? {
        return Err(versionOutcome.error);
      }
      return Ok(release);
    }
  }
}
