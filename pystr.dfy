/** Python `str` operations used by the release script: `in`, `count`,
    `replace`, `split` and `join`, with the scanning order Python uses
    (leftmost first, non-overlapping). */
module PyStr {

  /** A Python `str`, as a sequence of code points. */
  type String = seq<char>

  /** `pat` occurs in `s` starting at index `i`. */
  predicate OccursAt(s: String, pat: String, i: int)
  {
    0 <= i && i + |pat| <= |s| && s[i..i + |pat|] == pat
  }

  /** Python's `pat in s`. */
  predicate Contains(s: String, pat: String)
    decreases |s|
  {
    pat <= s || (s != [] && Contains(s[1..], pat))
  }

  /** An occurrence of `a + b` is an occurrence of `a` followed directly by
      one of `b`. */
  lemma OccursConcat(s: String, a: String, b: String, i: int)
    ensures OccursAt(s, a + b, i) <==> OccursAt(s, a, i) && OccursAt(s, b, i + |a|)
  {
    if OccursAt(s, a + b, i) {
      var whole := s[i..i + |a| + |b|];
      forall k | 0 <= k < |a| ensures s[i + k] == a[k] {
        assert whole[k] == (a + b)[k];
      }
      forall k | 0 <= k < |b| ensures s[i + |a| + k] == b[k] {
        assert whole[|a| + k] == (a + b)[|a| + k];
      }
      assert s[i..i + |a|] == a;
      assert s[i + |a|..i + |a| + |b|] == b;
    }
    if OccursAt(s, a, i) && OccursAt(s, b, i + |a|) {
      var whole := s[i..i + |a| + |b|];
      forall k | 0 <= k < |a| + |b| ensures whole[k] == (a + b)[k] {
        if k < |a| {
          assert s[i..i + |a|][k] == a[k];
        } else {
          assert s[i + |a|..i + |a| + |b|][k - |a|] == b[k - |a|];
        }
      }
      assert whole == a + b;
    }
  }

  /** An occurrence anywhere makes `Contains` hold. */
  lemma {:induction false} OccursContains(s: String, pat: String, i: int)
    requires OccursAt(s, pat, i)
    ensures Contains(s, pat)
    decreases i
  {
    if i == 0 {
      assert s[..|pat|] == pat;
    } else {
      assert s[1..][i - 1..i - 1 + |pat|] == s[i..i + |pat|];
      OccursContains(s[1..], pat, i - 1);
    }
  }

  /** When `Contains` holds, the pattern occurs at some index. */
  lemma {:induction false} ContainsWitness(s: String, pat: String) returns (i: nat)
    requires Contains(s, pat)
    ensures OccursAt(s, pat, i)
    decreases |s|
  {
    if pat <= s {
      i := 0;
      assert s[..|pat|] == pat;
    } else {
      var j := ContainsWitness(s[1..], pat);
      i := j + 1;
      assert s[1..][j..j + |pat|] == s[i..i + |pat|];
    }
  }

  /** Python's `s.count(pat)`: the number of non-overlapping occurrences,
      scanned from the left; the empty pattern counts `|s| + 1` times. */
  function Count(s: String, pat: String): nat
    decreases |s|
  {
    if pat == [] then |s| + 1
    else if pat <= s then 1 + Count(s[|pat|..], pat)
    else if s == [] then 0
    else Count(s[1..], pat)
  }

  /** Python's `s.replace(pat, rep)`: every non-overlapping occurrence of
      `pat`, scanned from the left, becomes `rep`; the empty pattern puts
      `rep` before every character and at the end. */
  function Replace(s: String, pat: String, rep: String): String
    decreases |s|
  {
    if pat == [] then
      if s == [] then rep else rep + [s[0]] + Replace(s[1..], pat, rep)
    else if pat <= s then rep + Replace(s[|pat|..], pat, rep)
    else if s == [] then []
    else [s[0]] + Replace(s[1..], pat, rep)
  }

  /** Python's `sep.join(parts)`. */
  function Join(parts: seq<String>, sep: String): String
  {
    if parts == [] then []
    else if |parts| == 1 then parts[0]
    else parts[0] + sep + Join(parts[1..], sep)
  }

  /** Python's `s.split(sep)` for an explicit separator (Python raises
      ValueError on an empty one): one more part than there are
      occurrences, counted as `count` counts them. */
  function Split(s: String, sep: String): (parts: seq<String>)
    requires sep != []
    ensures |parts| == Count(s, sep) + 1
    decreases |s|
  {
    if sep <= s then [[]] + Split(s[|sep|..], sep)
    else if s == [] then [[]]
    else
      var rest := Split(s[1..], sep);
      [[s[0]] + rest[0]] + rest[1..]
  }

  /** Each replacement changes the length by `|rep| - |pat|`. */
  lemma {:induction false} ReplaceLength(s: String, pat: String, rep: String)
    ensures |Replace(s, pat, rep)| == |s| + Count(s, pat) * (|rep| - |pat|)
    decreases |s|
  {
    var d := |rep| - |pat|;
    if pat == [] {
      if s != [] {
        ReplaceLength(s[1..], pat, rep);
        var n := |s|;
        assert |Replace(s, pat, rep)| == |rep| + 1 + (n - 1) + n * d;
        assert Count(s, pat) == n + 1;
        Distribute(n, d);
      }
    } else if pat <= s {
      ReplaceLength(s[|pat|..], pat, rep);
      var c := Count(s[|pat|..], pat);
      assert |Replace(s, pat, rep)| == |rep| + (|s| - |pat|) + c * d;
      assert Count(s, pat) == c + 1;
      Distribute(c, d);
    } else if s != [] {
      ReplaceLength(s[1..], pat, rep);
    }
  }

  lemma Distribute(c: int, d: int)
    ensures (c + 1) * d == c * d + d
  {
  }

  /** `count` finds an occurrence exactly when `in` does. */
  lemma {:induction false} CountPositiveIff(s: String, pat: String)
    ensures Count(s, pat) > 0 <==> Contains(s, pat)
    decreases |s|
  {
    if pat != [] && !(pat <= s) && s != [] {
      CountPositiveIff(s[1..], pat);
    }
  }

  /** A string without the pattern comes back from `replace` unchanged. */
  lemma {:induction false} ReplaceAbsent(s: String, pat: String, rep: String)
    requires !Contains(s, pat)
    ensures Replace(s, pat, rep) == s
    decreases |s|
  {
    if s != [] {
      ReplaceAbsent(s[1..], pat, rep);
    }
  }

  /** When the replacement has another length than the pattern, `replace`
      changes the string exactly when the pattern occurs in it. */
  lemma ReplaceChangesIff(s: String, pat: String, rep: String)
    requires |pat| != |rep|
    ensures Replace(s, pat, rep) != s <==> Contains(s, pat)
  {
    CountPositiveIff(s, pat);
    if Contains(s, pat) {
      ReplaceLength(s, pat, rep);
      ProductNonzero(Count(s, pat), |rep| - |pat|);
      assert |Replace(s, pat, rep)| != |s|;
    } else {
      ReplaceAbsent(s, pat, rep);
    }
  }

  lemma ProductNonzero(c: int, d: int)
    requires c > 0 && d != 0
    ensures c * d != 0
  {
  }

  /** Replacing one character by another maps every position on its own and
      keeps the length. */
  lemma {:induction false} ReplaceCharAt(s: String, c: char, d: char)
    ensures |Replace(s, [c], [d])| == |s|
    ensures forall k :: 0 <= k < |s| ==>
      Replace(s, [c], [d])[k] == if s[k] == c then d else s[k]
    decreases |s|
  {
    if s != [] {
      ReplaceCharAt(s[1..], c, d);
      if [c] <= s {
        assert s[0] == c;
      } else {
        assert s[0] != c;
      }
    }
  }

  /** Joining a part in front of further parts puts the separator between. */
  lemma JoinCons(head: String, tail: seq<String>, sep: String)
    requires tail != []
    ensures Join([head] + tail, sep) == head + sep + Join(tail, sep)
  {
    assert ([head] + tail)[1..] == tail;
  }

  /** Moving one character from the front of the string into the first part. */
  lemma JoinConsChar(c: char, parts: seq<String>, sep: String)
    requires parts != []
    ensures Join([[c] + parts[0]] + parts[1..], sep) == [c] + Join(parts, sep)
  {
    var joined := [[c] + parts[0]] + parts[1..];
    if |parts| > 1 {
      assert joined[1..] == parts[1..];
    }
  }

  /** The first part of a split is a prefix of the string. */
  lemma {:induction false} SplitHeadPrefix(s: String, sep: String)
    requires sep != []
    ensures Split(s, sep)[0] <= s
    decreases |s|
  {
    if !(sep <= s) && s != [] {
      SplitHeadPrefix(s[1..], sep);
      var rest := Split(s[1..], sep);
      assert s == [s[0]] + s[1..];
    }
  }

  /** Round trip: joining the parts of a split with the same separator gives
      back the string. */
  lemma {:induction false} SplitJoin(s: String, sep: String)
    requires sep != []
    ensures Join(Split(s, sep), sep) == s
    decreases |s|
  {
    if sep <= s {
      var tail := Split(s[|sep|..], sep);
      calc {
        Join(Split(s, sep), sep);
        Join([[]] + tail, sep);
        { JoinCons([], tail, sep); }
        sep + Join(tail, sep);
        { SplitJoin(s[|sep|..], sep); }
        sep + s[|sep|..];
        s;
      }
    } else if s != [] {
      var rest := Split(s[1..], sep);
      calc {
        Join(Split(s, sep), sep);
        Join([[s[0]] + rest[0]] + rest[1..], sep);
        { JoinConsChar(s[0], rest, sep); }
        [s[0]] + Join(rest, sep);
        { SplitJoin(s[1..], sep); }
        [s[0]] + s[1..];
        s;
      }
    }
  }

  /** No part of a split contains the separator. */
  lemma {:induction false} SplitPartsFree(s: String, sep: String)
    requires sep != []
    ensures forall k :: 0 <= k < |Split(s, sep)| ==> !Contains(Split(s, sep)[k], sep)
    decreases |s|
  {
    var parts := Split(s, sep);
    if sep <= s {
      SplitPartsFree(s[|sep|..], sep);
      var tail := Split(s[|sep|..], sep);
      forall k | 0 <= k < |parts| ensures !Contains(parts[k], sep) {
        if k > 0 {
          assert parts[k] == tail[k - 1];
        }
      }
    } else if s != [] {
      SplitPartsFree(s[1..], sep);
      SplitHeadPrefix(s[1..], sep);
      var rest := Split(s[1..], sep);
      var head := [s[0]] + rest[0];
      assert !Contains(rest[0], sep);
      assert head <= s;
      assert !Contains(head, sep) by {
        assert head[1..] == rest[0];
        assert head == s[..|head|];
        assert !(sep <= head);
      }
      forall k | 0 <= k < |parts| ensures !Contains(parts[k], sep) {
        if k > 0 {
          assert parts[k] == rest[k];
        }
      }
    }
  }

  /** A string shorter than the pattern does not contain it. */
  lemma {:induction false} ShortNotContains(t: String, pat: String)
    requires |t| < |pat|
    ensures !Contains(t, pat)
    decreases |t|
  {
    if t != [] {
      ShortNotContains(t[1..], pat);
    }
  }

  /** No part but the last holds the separator even when the first
      `|sep| - 1` characters of the separator after it are appended: no
      occurrence starts inside a part and runs into the separator that ends
      it, so each cut is at the leftmost occurrence. */
  predicate CutsLeftmost(parts: seq<String>, sep: String)
    requires sep != []
  {
    forall k :: 0 <= k < |parts| - 1 ==> !Contains(parts[k] + sep[..|sep| - 1], sep)
  }

  /** The split cuts at the leftmost occurrence each time. */
  lemma {:induction false} SplitLeftmost(s: String, sep: String)
    requires sep != []
    ensures CutsLeftmost(Split(s, sep), sep)
    decreases |s|
  {
    if sep <= s {
      SplitLeftmost(s[|sep|..], sep);
      CutsLeftmostAfterSep(Split(s[|sep|..], sep), sep);
    } else if s != [] {
      SplitLeftmost(s[1..], sep);
      SplitJoin(s[1..], sep);
      assert s == [s[0]] + s[1..];
      CutsLeftmostCons(s[0], Split(s[1..], sep), sep);
    }
  }

  /** An empty part in front, cut at a separator that starts the string. */
  lemma CutsLeftmostAfterSep(tail: seq<String>, sep: String)
    requires sep != [] && CutsLeftmost(tail, sep)
    ensures CutsLeftmost([[]] + tail, sep)
  {
    var parts := [[]] + tail;
    var short := sep[..|sep| - 1];
    ShortNotContains(short, sep);
    forall k | 0 <= k < |parts| - 1 ensures !Contains(parts[k] + short, sep) {
      if k == 0 {
        assert parts[0] + short == short;
      } else {
        assert parts[k] == tail[k - 1];
      }
    }
  }

  /** A character moved into the first part of a string that does not start
      with the separator keeps the cuts leftmost. */
  lemma CutsLeftmostCons(c: char, rest: seq<String>, sep: String)
    requires sep != [] && rest != [] && CutsLeftmost(rest, sep)
    requires !(sep <= [c] + Join(rest, sep))
    ensures CutsLeftmost([[c] + rest[0]] + rest[1..], sep)
  {
    var parts := [[c] + rest[0]] + rest[1..];
    var short := sep[..|sep| - 1];
    if |rest| > 1 {
      var head := [c] + rest[0];
      assert [c] + Join(rest, sep) == head + sep + Join(rest[1..], sep) by {
        assert rest == [rest[0]] + rest[1..];
        JoinCons(rest[0], rest[1..], sep);
      }
      assert head[1..] == rest[0];
      HeadCut(head, sep, Join(rest[1..], sep));
    }
    forall k | 0 <= k < |parts| - 1 ensures !Contains(parts[k] + short, sep) {
      if k > 0 {
        assert parts[k] == rest[k];
      }
    }
  }

  /** `head + sep + rest` does not start with the separator: `head` extended
      into the separator after it does not hold the separator when its tail
      does not. */
  lemma HeadCut(head: String, sep: String, rest: String)
    requires sep != [] && head != []
    requires !(sep <= head + sep + rest)
    requires !Contains(head[1..] + sep[..|sep| - 1], sep)
    ensures !Contains(head + sep[..|sep| - 1], sep)
  {
    CutStartIff(head, sep, rest);
    assert (head + sep[..|sep| - 1])[1..] == head[1..] + sep[..|sep| - 1];
  }

  /** Whether `head + sep + rest` starts with `sep` is decided within `head`
      and all but the last character of the `sep` after it. */
  lemma CutStartIff(head: String, sep: String, rest: String)
    requires sep != [] && head != []
    ensures sep <= head + sep + rest <==> sep <= head + sep[..|sep| - 1]
  {
    var s := head + sep + rest;
    var t := head + sep[..|sep| - 1];
    forall i | 0 <= i < |sep| ensures s[i] == t[i] {
      if i >= |head| {
        assert s[i] == sep[i - |head|];
        assert t[i] == sep[..|sep| - 1][i - |head|];
      }
    }
    assert s[..|sep|] == t[..|sep|];
  }

  /** No part holds the separator. */
  predicate PartsFree(parts: seq<String>, sep: String)
  {
    forall k :: 0 <= k < |parts| ==> !Contains(parts[k], sep)
  }

  /** Dropping the first part keeps both conditions. */
  lemma CutsTail(parts: seq<String>, sep: String)
    requires sep != [] && parts != []
    requires PartsFree(parts, sep) && CutsLeftmost(parts, sep)
    ensures PartsFree(parts[1..], sep) && CutsLeftmost(parts[1..], sep)
  {
    assert forall k :: 0 <= k < |parts[1..]| ==> parts[1..][k] == parts[k + 1];
  }

  /** Dropping the first character of a non-empty first part keeps both
      conditions. */
  lemma CutsUncons(parts: seq<String>, sep: String)
    requires sep != [] && parts != [] && parts[0] != []
    requires PartsFree(parts, sep) && CutsLeftmost(parts, sep)
    ensures PartsFree([parts[0][1..]] + parts[1..], sep)
    ensures CutsLeftmost([parts[0][1..]] + parts[1..], sep)
  {
    var short := sep[..|sep| - 1];
    var rest := [parts[0][1..]] + parts[1..];
    assert !Contains(parts[0], sep);
    forall k | 0 <= k < |rest| ensures !Contains(rest[k], sep) {
      if k > 0 {
        assert rest[k] == parts[k];
      }
    }
    forall k | 0 <= k < |rest| - 1 ensures !Contains(rest[k] + short, sep) {
      if k == 0 {
        assert !Contains(parts[0] + short, sep);
        assert (parts[0] + short)[1..] == rest[0] + short;
      } else {
        assert rest[k] == parts[k];
      }
    }
  }

  /** Joined parts whose first part is non-empty and cut leftmost do not
      start with the separator, and give up their first character with the
      first part. */
  lemma CutsUnconsJoin(parts: seq<String>, sep: String)
    requires sep != [] && parts != [] && parts[0] != []
    requires PartsFree(parts, sep) && CutsLeftmost(parts, sep)
    ensures Join(parts, sep) == [parts[0][0]] + Join([parts[0][1..]] + parts[1..], sep)
    ensures !(sep <= Join(parts, sep))
  {
    var u := parts[0][1..];
    assert parts[0] == [parts[0][0]] + u;
    assert !Contains(parts[0], sep);
    if |parts| > 1 {
      assert parts == [parts[0]] + parts[1..];
      JoinCons(parts[0], parts[1..], sep);
      JoinCons(u, parts[1..], sep);
      assert !Contains(parts[0] + sep[..|sep| - 1], sep);
      CutStartIff(parts[0], sep, Join(parts[1..], sep));
    }
  }

  /** `SplitJoin`, `SplitPartsFree` and `SplitLeftmost` pin the split down:
      any parts that join back to `s`, hold no separator, and hold none
      across a cut either, are the parts of `s.split(sep)`. */
  lemma {:induction false} SplitUnique(s: String, sep: String, parts: seq<String>)
    requires sep != [] && parts != []
    requires Join(parts, sep) == s
    requires PartsFree(parts, sep) && CutsLeftmost(parts, sep)
    ensures parts == Split(s, sep)
    decreases |s|
  {
    if parts[0] == [] {
      if |parts| > 1 {
        var tail := parts[1..];
        assert parts == [[]] + tail;
        JoinCons([], tail, sep);
        assert s[|sep|..] == Join(tail, sep);
        CutsTail(parts, sep);
        SplitUnique(s[|sep|..], sep, tail);
      }
    } else {
      var rest := [parts[0][1..]] + parts[1..];
      CutsUncons(parts, sep);
      CutsUnconsJoin(parts, sep);
      assert s[1..] == Join(rest, sep);
      SplitUnique(s[1..], sep, rest);
      assert s[0] == parts[0][0];
      assert rest[1..] == parts[1..];
      assert parts[0] == [s[0]] + rest[0];
      assert parts == [[s[0]] + rest[0]] + rest[1..];
    }
  }

  /** `s.split(sep)` is exactly the one cut of `s` into parts that join back
      to `s`, hold no separator, and are cut at leftmost occurrences. */
  lemma SplitCharacterised(s: String, sep: String, parts: seq<String>)
    requires sep != []
    ensures parts == Split(s, sep) <==>
      parts != [] && Join(parts, sep) == s && PartsFree(parts, sep) && CutsLeftmost(parts, sep)
  {
    SplitJoin(s, sep);
    SplitPartsFree(s, sep);
    SplitLeftmost(s, sep);
    if parts != [] && Join(parts, sep) == s && PartsFree(parts, sep) && CutsLeftmost(parts, sep) {
      SplitUnique(s, sep, parts);
    }
  }

  /** `replace` rewrites the leftmost non-overlapping occurrences: for any
      cut of `s` into parts as `SplitUnique` describes, the result is the
      parts joined by `rep`. */
  lemma ReplaceOfCut(s: String, pat: String, rep: String, parts: seq<String>)
    requires pat != [] && parts != []
    requires Join(parts, pat) == s
    requires PartsFree(parts, pat) && CutsLeftmost(parts, pat)
    ensures Replace(s, pat, rep) == Join(parts, rep)
  {
    SplitUnique(s, pat, parts);
    ReplaceIsJoinOfSplit(s, pat, rep);
  }

  /** Python's identity `s.replace(pat, rep) == rep.join(s.split(pat))`:
      together with `SplitJoin` it says that `replace` keeps the text between
      the occurrences and swaps each occurrence for `rep`. */
  lemma {:induction false} ReplaceIsJoinOfSplit(s: String, pat: String, rep: String)
    requires pat != []
    ensures Replace(s, pat, rep) == Join(Split(s, pat), rep)
    decreases |s|
  {
    if pat <= s {
      ReplaceIsJoinOfSplit(s[|pat|..], pat, rep);
      var tail := Split(s[|pat|..], pat);
      assert ([[]] + tail)[1..] == tail;
    } else if s != [] {
      ReplaceIsJoinOfSplit(s[1..], pat, rep);
      JoinConsChar(s[0], Split(s[1..], pat), rep);
    }
  }

  /** Splitting on a one-character separator: a trailing separator adds one
      empty part at the end. */
  lemma {:induction false} SplitTrailingSeparator(s: String, c: char)
    ensures Split(s + [c], [c]) == Split(s, [c]) + [[]]
    decreases |s|
  {
    if s == [] {
      assert [c] + [] == [c];
      assert ([c] + [])[1..] == [];
    } else if [c] <= s {
      assert (s + [c])[1..] == s[1..] + [c];
      SplitTrailingSeparator(s[1..], c);
    } else {
      assert (s + [c])[1..] == s[1..] + [c];
      assert !([c] <= s + [c]);
      SplitTrailingSeparator(s[1..], c);
    }
  }

  /** For a one-character pattern, `in` is membership. */
  lemma {:induction false} ContainsChar(s: String, c: char)
    ensures Contains(s, [c]) <==> c in s
    decreases |s|
  {
    if s != [] {
      ContainsChar(s[1..], c);
      assert s == [s[0]] + s[1..];
    }
  }
}
