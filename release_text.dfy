/** The text rewrites of the release script: the pom.xml callback, the
    Version.java callback with its release-id mangling, and the search for
    `<version>(.+)-SNAPSHOT</version>` in one line. */
module ReleaseText {
  import opened PyStr

  datatype Option<T> = None | Some(value: T)

  const VersionTag: String := "<version>"
  const SnapshotClose: String := "-SNAPSHOT</version>"
  const ReleaseClose: String := "</version>"

  /** `<version>R-SNAPSHOT</version>`: the snapshot version element of release `R`. */
  function PomPattern(release: String): String
  {
    VersionTag + release + SnapshotClose
  }

  /** `<version>R</version>`: the release version element of release `R`. */
  function PomReplacement(release: String): String
  {
    VersionTag + release + ReleaseClose
  }

  /** The line callback of `remove_maven_snapshot`. */
  function PomCallback(release: String): String -> String
  {
    line => Replace(line, PomPattern(release), PomReplacement(release))
  }

  /** The pom callback leaves a line without the snapshot element alone. */
  lemma PomCallbackKeepsOtherLines(release: String, line: String)
    requires !Contains(line, PomPattern(release))
    ensures PomCallback(release)(line) == line
  {
    ReplaceAbsent(line, PomPattern(release), PomReplacement(release));
  }

  /** The pom callback changes a line exactly when the line holds the
      snapshot element (the replacement is nine characters shorter). */
  lemma PomCallbackChangesIff(release: String, line: String)
    ensures PomCallback(release)(line) != line <==> Contains(line, PomPattern(release))
  {
    ReplaceChangesIff(line, PomPattern(release), PomReplacement(release));
  }

  /** The pom callback cuts the line at every snapshot element, keeps the
      pieces between them as they are, and puts the release element where
      each snapshot element was. */
  lemma PomCallbackSegments(release: String, line: String)
    ensures var pieces := Split(line, PomPattern(release));
      && line == Join(pieces, PomPattern(release))
      && PomCallback(release)(line) == Join(pieces, PomReplacement(release))
      && forall k :: 0 <= k < |pieces| ==> !Contains(pieces[k], PomPattern(release))
  {
    SplitJoin(line, PomPattern(release));
    ReplaceIsJoinOfSplit(line, PomPattern(release), PomReplacement(release));
    SplitPartsFree(line, PomPattern(release));
  }

  /** The release id of a Java constant name: `1.0.0.Beta1` becomes
      `1_0_0_Beta1`, dots first, then dashes. */
  function MangleRelease(release: String): String
  {
    Replace(Replace(release, ".", "_"), "-", "_")
  }

  /** Mangling keeps the length and turns each dot and each dash into an
      underscore, leaving every other character where it was. */
  lemma MangleReleaseAt(release: String)
    ensures |MangleRelease(release)| == |release|
    ensures forall k :: 0 <= k < |release| ==>
      MangleRelease(release)[k] == if release[k] == '.' || release[k] == '-' then '_' else release[k]
  {
    ReplaceCharAt(release, '.', '_');
    ReplaceCharAt(Replace(release, ".", "_"), '-', '_');
  }

  /** A mangled release id holds no dot and no dash. */
  lemma MangleReleaseHasNoSeparators(release: String)
    ensures '.' !in MangleRelease(release) && '-' !in MangleRelease(release)
  {
    MangleReleaseAt(release);
  }

  /** The example of the script's own comment. */
  lemma MangleReleaseExample()
    ensures MangleRelease("1.0.0.Beta1") == "1_0_0_Beta1"
  {
    MangleReleaseAt("1.0.0.Beta1");
  }

  /** `new Version(V_<id>_ID, true`: the snapshot constant in Version.java. */
  function VersionPattern(release: String): String
  {
    "new Version(V_" + MangleRelease(release) + "_ID, true"
  }

  /** `new Version(V_<id>_ID, false`: the same constant marked as a release. */
  function VersionReplacement(release: String): String
  {
    "new Version(V_" + MangleRelease(release) + "_ID, false"
  }

  /** The line callback of `remove_version_snapshot`. */
  function VersionCallback(release: String): String -> String
  {
    line => Replace(line, VersionPattern(release), VersionReplacement(release))
  }

  /** The Version.java callback changes a line exactly when the line holds the
      snapshot constant of the release. */
  lemma VersionCallbackChangesIff(release: String, line: String)
    ensures VersionCallback(release)(line) != line <==> Contains(line, VersionPattern(release))
  {
    ReplaceChangesIff(line, VersionPattern(release), VersionReplacement(release));
  }

  // The search of `re.search(r'<version>(.+)-SNAPSHOT</version>', line)`:
  // start positions are tried from the left; at a start position the
  // greedy `.+` first runs to the end of the line (`.` stops at a newline)
  // and then gives back one character at a time until the closing
  // `-SNAPSHOT</version>` follows.

  /** The first newline at or after `start`, or the end of the line. */
  function LineEnd(line: String, start: nat): (e: nat)
    requires start <= |line|
    ensures start <= e <= |line|
    ensures forall k :: start <= k < e ==> line[k] != '\n'
    ensures e == |line| || line[e] == '\n'
    decreases |line| - start
  {
    if start == |line| || line[start] == '\n' then start else LineEnd(line, start + 1)
  }

  /** The backtracking of the greedy `.+`: the largest end `j` of the capture,
      with `start < j <= last`, that the closing `-SNAPSHOT</version>` follows. */
  function GreedyEnd(line: String, start: nat, last: nat): (r: Option<nat>)
    ensures r.Some? ==> start < r.value <= last && OccursAt(line, SnapshotClose, r.value)
    ensures r.Some? ==> forall k :: r.value < k <= last ==> !OccursAt(line, SnapshotClose, k)
    ensures r.None? ==> forall k :: start < k <= last ==> !OccursAt(line, SnapshotClose, k)
    decreases last
  {
    if last <= start then None
    else if OccursAt(line, SnapshotClose, last) then Some(last)
    else GreedyEnd(line, start, last - 1)
  }

  /** The capture of a match starting at index `i`, if the pattern matches there. */
  function MatchAt(line: String, i: nat): Option<String>
  {
    if !OccursAt(line, VersionTag, i) then None
    else
      var start := i + |VersionTag|;
      match GreedyEnd(line, start, LineEnd(line, start))
      case Some(j) => Some(line[start..j])
      case None => None
  }

  /** The snapshot element of `v` at `i`: the opening tag at `i`, then `v`,
      then the closing `-SNAPSHOT</version>`. */
  lemma PomPatternAt(line: String, v: String, i: int)
    ensures OccursAt(line, PomPattern(v), i) <==>
      OccursAt(line, VersionTag, i) && OccursAt(line, v, i + |VersionTag|)
      && OccursAt(line, SnapshotClose, i + |VersionTag| + |v|)
  {
    OccursConcat(line, VersionTag + v, SnapshotClose, i);
    OccursConcat(line, VersionTag, v, i);
  }

  /** What a match at `i` captured is a non-empty run without a newline,
      wrapped in the snapshot element at `i`. */
  lemma MatchAtSound(line: String, i: nat)
    requires MatchAt(line, i).Some?
    ensures var v := MatchAt(line, i).value;
      v != [] && '\n' !in v && OccursAt(line, PomPattern(v), i)
  {
    var start := i + |VersionTag|;
    var e := LineEnd(line, start);
    var j := GreedyEnd(line, start, e).value;
    var v := line[start..j];
    assert OccursAt(line, v, start);
    PomPatternAt(line, v, i);
    assert '\n' !in v by {
      forall k | 0 <= k < |v| ensures v[k] != '\n' {
        assert v[k] == line[start + k];
      }
    }
  }

  /** A match at `i` exists whenever a non-empty run without a newline sits
      inside a snapshot element at `i`, and the greedy capture is at least
      as long as any such run. */
  lemma MatchAtGreedy(line: String, i: nat, w: String)
    requires w != [] && '\n' !in w && OccursAt(line, PomPattern(w), i)
    ensures MatchAt(line, i).Some? && |w| <= |MatchAt(line, i).value|
  {
    PomPatternAt(line, w, i);
    var start := i + |VersionTag|;
    var stop := start + |w|;
    assert line[start..stop] == w;
    var e := LineEnd(line, start);
    assert forall k :: start <= k < stop ==> line[k] == w[k - start];
    assert stop <= e;
    var r := GreedyEnd(line, start, e);
    assert r.Some? && stop <= r.value;
  }

  /** `re.search` from start position `i` on. */
  function SearchFrom(line: String, i: nat): Option<String>
    decreases |line| + 1 - i
  {
    if i > |line| then None
    else if MatchAt(line, i).Some? then MatchAt(line, i)
    else SearchFrom(line, i + 1)
  }

  /** The capture of `re.search(r'<version>(.+)-SNAPSHOT</version>', line)`. */
  function SearchVersion(line: String): Option<String>
  {
    SearchFrom(line, 0)
  }

  /** A search result is the match at the leftmost start position that
      matches. */
  lemma {:induction false} SearchFromLeftmost(line: String, from: nat) returns (i: nat)
    requires SearchFrom(line, from).Some?
    ensures from <= i && MatchAt(line, i) == SearchFrom(line, from)
    ensures forall k :: from <= k < i ==> MatchAt(line, k).None?
    decreases |line| + 1 - from
  {
    if MatchAt(line, from).Some? {
      i := from;
    } else {
      i := SearchFromLeftmost(line, from + 1);
    }
  }

  /** The search finds a match whenever one exists at or after `from`. */
  lemma {:induction false} SearchFromComplete(line: String, from: nat, i: nat)
    requires from <= i && MatchAt(line, i).Some?
    ensures SearchFrom(line, from).Some?
    decreases i - from
  {
    if i <= |line| && MatchAt(line, from).None? {
      SearchFromComplete(line, from + 1, i);
    }
  }

  /** What the search captures is non-empty, holds no newline, and the line
      holds its snapshot element. */
  lemma SearchVersionSound(line: String)
    requires SearchVersion(line).Some?
    ensures var v := SearchVersion(line).value;
      v != [] && '\n' !in v && Contains(line, PomPattern(v))
  {
    var i := SearchFromLeftmost(line, 0);
    MatchAtSound(line, i);
    OccursContains(line, PomPattern(SearchVersion(line).value), i);
  }

  /** A line that holds the snapshot element of some non-empty version
      without a newline is matched. */
  lemma SearchVersionComplete(line: String, w: String)
    requires w != [] && '\n' !in w && Contains(line, PomPattern(w))
    ensures SearchVersion(line).Some?
  {
    var i := ContainsWitness(line, PomPattern(w));
    MatchAtGreedy(line, i, w);
    SearchFromComplete(line, 0, i);
  }

  /** The search reads back the release of a snapshot element: a line that
      is `<version>r-SNAPSHOT</version>` and a newline yields `r`. */
  lemma SearchVersionOfElement(r: String)
    requires r != [] && '\n' !in r
    ensures SearchVersion(PomPattern(r) + "\n") == Some(r)
  {
    var line := PomPattern(r) + "\n";
    OccursConcat(line, PomPattern(r), "\n", 0);
    MatchAtGreedy(line, 0, r);
    var v := MatchAt(line, 0).value;
    MatchAtSound(line, 0);
    PomPatternAt(line, r, 0);
    PomPatternAt(line, v, 0);
    var close := |VersionTag| + |r|;
    SnapshotCloseNotShifted(line, close);
    assert |v| <= |r| + 1;
    assert |v| == |r|;
    assert v == line[|VersionTag|..close] == r;
  }

  /** The closing `-SNAPSHOT</version>` cannot also start one character
      later: its second character is not a dash. */
  lemma SnapshotCloseNotShifted(line: String, c: int)
    requires OccursAt(line, SnapshotClose, c)
    ensures !OccursAt(line, SnapshotClose, c + 1)
  {
    assert line[c + 1] == line[c..c + |SnapshotClose|][1] == SnapshotClose[1];
    assert SnapshotClose[1] != SnapshotClose[0];
  }
}
