/** Python's `str` operations used by the widget: `strip`, `in` and `index`,
    `replace`, `split`, `join` and `splitlines`, on `string == seq<char>`. */
module Text {
  import opened Chars
  import opened Results

  // ---------------------------------------------------------------------
  // Whitespace trimming
  // ---------------------------------------------------------------------

  /** Every character of `s` is whitespace in Python's sense. */
  predicate AllSpace(s: string) {
    forall i :: 0 <= i < |s| ==> IsSpace(s[i])
  }

  /** `s` neither starts nor ends with whitespace. */
  predicate Stripped(s: string) {
    s == [] || (!IsSpace(s[0]) && !IsSpace(s[|s| - 1]))
  }

  /** Python's `str.lstrip()`: the longest suffix of `s` that does not start
      with whitespace. */
  function TrimStart(s: string): (r: string)
    ensures |r| <= |s| && r == s[|s| - |r|..]
    ensures AllSpace(s[..|s| - |r|])
    ensures r == [] || !IsSpace(r[0])
    decreases |s|
  {
    if |s| > 0 && IsSpace(s[0]) then
      var r := TrimStart(s[1..]);
      TrimStartStep(s, r);
      r
    else s
  }

  lemma TrimStartStep(s: string, r: string)
    requires |s| > 0 && IsSpace(s[0])
    requires |r| <= |s| - 1 && r == s[1..][|s| - 1 - |r|..]
    requires AllSpace(s[1..][..|s| - 1 - |r|])
    ensures r == s[|s| - |r|..] && AllSpace(s[..|s| - |r|])
  {
    var k := |s| - |r|;
    assert s[1..][k - 1..] == s[k..];
    assert s[..k] == [s[0]] + s[1..][..k - 1];
    forall i | 0 <= i < k ensures IsSpace(s[..k][i]) {
      if i > 0 {
        assert s[..k][i] == s[1..][..k - 1][i - 1];
      }
    }
  }

  /** Python's `str.rstrip()`: the longest prefix of `s` that does not end
      with whitespace. */
  function TrimEnd(s: string): (r: string)
    ensures |r| <= |s| && r == s[..|r|]
    ensures AllSpace(s[|r|..])
    ensures r == [] || !IsSpace(r[|r| - 1])
    decreases |s|
  {
    if |s| > 0 && IsSpace(s[|s| - 1]) then TrimEnd(s[..|s| - 1]) else s
  }

  /** Python's `str.strip()`: `s` with all leading and trailing whitespace
      removed (`StripBounds` and `StripEmpty` say which slice remains). */
  function Strip(s: string): (r: string)
    ensures Stripped(r)
  {
    TrimEnd(TrimStart(s))
  }

  /** The stripped text is a slice of `s` framed by whitespace only. */
  lemma {:induction false} StripBounds(s: string) returns (i: nat, j: nat)
    ensures i <= j <= |s| && Strip(s) == s[i..j]
    ensures AllSpace(s[..i]) && AllSpace(s[j..])
  {
    var t := TrimStart(s);
    var r := TrimEnd(t);
    StripShape(s, t, r);
    i := |s| - |t|;
    j := i + |r|;
    assert Strip(s) == r == s[i..j];
  }

  lemma {:induction false} TrimStartOf(ws: string, t: string)
    requires AllSpace(ws) && (t == [] || !IsSpace(t[0]))
    ensures TrimStart(ws + t) == t
    decreases |ws|
  {
    if |ws| > 0 {
      assert (ws + t)[1..] == ws[1..] + t;
      TrimStartOf(ws[1..], t);
    } else {
      assert ws + t == t;
    }
  }

  lemma {:induction false} TrimEndOf(t: string, ws: string)
    requires AllSpace(ws) && (t == [] || !IsSpace(t[|t| - 1]))
    ensures TrimEnd(t + ws) == t
    decreases |ws|
  {
    if |ws| > 0 {
      var w := ws[..|ws| - 1];
      assert (t + ws)[..|t + ws| - 1] == t + w;
      TrimEndOf(t, w);
    } else {
      assert t + ws == t;
    }
  }

  /** Stripping removes exactly the whitespace around a stripped text. */
  lemma StripAround(ws1: string, s: string, ws2: string)
    requires AllSpace(ws1) && AllSpace(ws2) && Stripped(s)
    requires s == [] ==> ws1 == [] && ws2 == []
    ensures Strip(ws1 + s + ws2) == s
  {
    assert ws1 + s + ws2 == ws1 + (s + ws2);
    if s == [] {
      assert ws1 + s + ws2 == [];
    } else {
      TrimStartOf(ws1, s + ws2);
      TrimEndOf(s, ws2);
    }
  }

  /** `s.strip()` is empty exactly when `s` is all whitespace. */
  lemma StripEmpty(s: string)
    ensures Strip(s) == [] <==> AllSpace(s)
  {
    StripShape(s, TrimStart(s), TrimEnd(TrimStart(s)));
  }

  lemma StripShape(s: string, t: string, r: string)
    requires |t| <= |s| && t == s[|s| - |t|..] && AllSpace(s[..|s| - |t|])
    requires t == [] || !IsSpace(t[0])
    requires |r| <= |t| && r == t[..|r|] && AllSpace(t[|r|..])
    ensures var i := |s| - |t|;
            && 0 <= i <= i + |r| <= |s| && r == s[i..i + |r|]
            && AllSpace(s[..i]) && AllSpace(s[i + |r|..])
    ensures r == [] <==> AllSpace(s)
  {
    var i := |s| - |t|;
    var j := i + |r|;
    assert r == s[i..j];
    assert s[j..] == t[|r|..];
    if r == [] {
      AllSpaceConcat(s[..i], t);
      assert s == s[..i] + t;
    } else {
      assert s[i] == t[0];
    }
  }

  lemma AllSpaceConcat(a: string, b: string)
    requires AllSpace(a) && AllSpace(b)
    ensures AllSpace(a + b)
  {
    forall k | 0 <= k < |a + b| ensures IsSpace((a + b)[k]) {
      if k < |a| {
        assert (a + b)[k] == a[k];
      } else {
        assert (a + b)[k] == b[k - |a|];
      }
    }
  }

  /** Stripping leaves an already stripped string alone, so `strip` is
      idempotent. */
  lemma StripStripped(s: string)
    requires Stripped(s)
    ensures Strip(s) == s
  {
    assert [] + s + [] == s;
    StripAround([], s, []);
  }

  // ---------------------------------------------------------------------
  // Substring search: `p in s` and `s.index(p)`
  // ---------------------------------------------------------------------

  /** `p` occurs in `s` starting at index `i`. */
  predicate OccursAt(s: string, p: string, i: int) {
    0 <= i && i + |p| <= |s| && s[i..i + |p|] == p
  }

  /** `p` is a prefix of `s` (Python's `s.startswith(p)`). */
  predicate StartsWith(s: string, p: string) {
    |p| <= |s| && s[..|p|] == p
  }

  lemma OccursAtShift(s: string, p: string, d: nat, k: nat)
    requires d <= |s|
    ensures OccursAt(s[d..], p, k) <==> OccursAt(s, p, k + d)
  {
    if k + |p| <= |s| - d {
      assert s[d..][k..k + |p|] == s[k + d..k + d + |p|];
    }
  }

  /** Python's `s.index(p)` / `s.find(p)`: the position of the first
      occurrence of `p` in `s`, if there is one. */
  function IndexOf(s: string, p: string): (r: Option<nat>)
    ensures r.Some? ==> OccursAt(s, p, r.value)
    ensures r.Some? ==> forall k :: 0 <= k < r.value ==> !OccursAt(s, p, k)
    ensures r.None? ==> forall k :: !OccursAt(s, p, k)
    decreases |s|
  {
    if |s| < |p| then None
    else if s[..|p|] == p then Some(0)
    else
      var rest := IndexOf(s[1..], p);
      assert forall k: nat :: OccursAt(s[1..], p, k) <==> OccursAt(s, p, k + 1) by {
        forall k: nat ensures OccursAt(s[1..], p, k) <==> OccursAt(s, p, k + 1) {
          OccursAtShift(s, p, 1, k);
        }
      }
      match rest
      case Some(k) =>
        assert forall j :: 0 <= j < k + 1 ==> !OccursAt(s, p, j) by {
          forall j | 0 < j < k + 1 ensures !OccursAt(s, p, j) {
            OccursAtShift(s, p, 1, j - 1);
          }
        }
        Some(k + 1)
      case None =>
        assert forall j :: !OccursAt(s, p, j) by {
          forall j | 0 < j ensures !OccursAt(s, p, j) {
            OccursAtShift(s, p, 1, j - 1);
          }
        }
        None
  }

  /** Python's `p in s`. */
  predicate Contains(s: string, p: string) {
    IndexOf(s, p).Some?
  }

  lemma ContainsAt(s: string, p: string, k: int)
    requires OccursAt(s, p, k)
    ensures Contains(s, p)
  {
  }

  /** `IndexOf` finds exactly the first occurrence. */
  lemma IndexOfIs(s: string, p: string, i: nat)
    requires OccursAt(s, p, i)
    requires forall k :: 0 <= k < i ==> !OccursAt(s, p, k)
    ensures IndexOf(s, p) == Some(i)
  {
  }

  lemma OccursAtPrefix(a: string, b: string, p: string, k: nat)
    requires k + |p| <= |a|
    ensures OccursAt(a + b, p, k) <==> OccursAt(a, p, k)
  {
    assert (a + b)[k..k + |p|] == a[k..k + |p|];
  }

  /** The first occurrence found in a prefix is still the first occurrence
      once more text is appended. */
  lemma IndexOfPrefix(a: string, b: string, p: string)
    requires IndexOf(a, p).Some?
    ensures IndexOf(a + b, p) == IndexOf(a, p)
  {
    var i := IndexOf(a, p).value;
    OccursAtPrefix(a, b, p, i);
    forall k | 0 <= k < i
      ensures !OccursAt(a + b, p, k)
    {
      OccursAtPrefix(a, b, p, k);
    }
    IndexOfIs(a + b, p, i);
  }

  /** Appending text keeps the first occurrence, and the text before and
      after it gains only the appended tail. */
  lemma IndexOfExtend(s: string, p: string, more: string)
    requires IndexOf(s, p).Some?
    ensures IndexOf(s + more, p) == IndexOf(s, p)
    ensures var i := IndexOf(s, p).value;
      && (s + more)[..i] == s[..i]
      && (s + more)[i + |p|..] == s[i + |p|..] + more
  {
    IndexOfPrefix(s, more, p);
  }

  // ---------------------------------------------------------------------
  // Global replacement: `s.replace(pat, rep)`
  // ---------------------------------------------------------------------

  /** Python's `s.replace(pat, rep)` for a non-empty `pat`: scanning left to
      right, each occurrence of `pat` that does not overlap an earlier
      replaced one becomes `rep`; the inserted text is not scanned again.
      The result holds no character that is in neither `s` nor `rep`, and a
      string without `pat` is returned unchanged. */
  function Replace(s: string, pat: string, rep: string): (r: string)
    requires |pat| > 0
    decreases |s|
  {
    if |s| < |pat| then s
    else if StartsWith(s, pat) then rep + Replace(s[|pat|..], pat, rep)
    else [s[0]] + Replace(s[1..], pat, rep)
  }

  /** A string without `pat` is returned unchanged by `Replace`. */
  lemma {:induction false} ReplaceAbsent(s: string, pat: string, rep: string)
    requires |pat| > 0
    requires !Contains(s, pat)
    ensures Replace(s, pat, rep) == s
    decreases |s|
  {
    if |s| >= |pat| {
      assert !OccursAt(s, pat, 0);
      forall k: nat ensures !OccursAt(s[1..], pat, k) {
        OccursAtShift(s, pat, 1, k);
      }
      assert !Contains(s[1..], pat);
      ReplaceAbsent(s[1..], pat, rep);
      assert s == [s[0]] + s[1..];
    }
  }

  /** `Replace` brings in no character that is in neither `s` nor `rep`. */
  lemma {:induction false} ReplaceChars(s: string, pat: string, rep: string, c: char)
    requires |pat| > 0
    requires c in Replace(s, pat, rep)
    ensures c in s || c in rep
    decreases |s|
  {
    if |s| < |pat| {
    } else if StartsWith(s, pat) {
      if c !in rep {
        ReplaceChars(s[|pat|..], pat, rep, c);
      }
    } else if c != s[0] {
      ReplaceChars(s[1..], pat, rep, c);
    }
  }

  /** `Replace(a + b)` works piecewise when no occurrence of `pat` can
      straddle the seam between `a` and `b`: a one-character pattern, or a
      seam with a character of `pat` on neither side. */
  predicate Seamless(a: string, b: string, pat: string) {
    a == [] || b == [] || |pat| == 1 || a[|a| - 1] !in pat || b[0] !in pat
  }

  lemma {:induction false} ReplaceConcat(a: string, b: string, pat: string, rep: string)
    requires |pat| > 0
    requires Seamless(a, b, pat)
    ensures Replace(a + b, pat, rep) == Replace(a, pat, rep) + Replace(b, pat, rep)
    decreases |a|
  {
    if a == [] {
      assert a + b == b;
    } else if |a + b| < |pat| {
      assert Replace(b, pat, rep) == b;
    } else if |a| < |pat| {
      ReplaceConcatShort(a, b, pat, rep);
    } else if StartsWith(a, pat) {
      var a' := a[|pat|..];
      StepMatch(a, b, pat);
      SeamShift(a, b, pat, |pat|);
      calc {
        Replace(a + b, pat, rep);
        rep + Replace(a' + b, pat, rep);
        { ReplaceConcat(a', b, pat, rep); }
        rep + (Replace(a', pat, rep) + Replace(b, pat, rep));
        (rep + Replace(a', pat, rep)) + Replace(b, pat, rep);
      }
    } else {
      var a' := a[1..];
      StepSkip(a, b, pat);
      SeamShift(a, b, pat, 1);
      calc {
        Replace(a + b, pat, rep);
        [a[0]] + Replace(a' + b, pat, rep);
        { ReplaceConcat(a', b, pat, rep); }
        [a[0]] + (Replace(a', pat, rep) + Replace(b, pat, rep));
        ([a[0]] + Replace(a', pat, rep)) + Replace(b, pat, rep);
      }
    }
  }

  lemma StepMatch(a: string, b: string, pat: string)
    requires 0 < |pat| <= |a| && StartsWith(a, pat)
    ensures StartsWith(a + b, pat) && (a + b)[|pat|..] == a[|pat|..] + b
  {
    assert (a + b)[..|pat|] == a[..|pat|];
  }

  lemma StepSkip(a: string, b: string, pat: string)
    requires 0 < |pat| <= |a| && !StartsWith(a, pat)
    ensures !StartsWith(a + b, pat) && (a + b)[1..] == a[1..] + b
  {
    assert (a + b)[..|pat|] == a[..|pat|];
  }

  lemma SeamShift(a: string, b: string, pat: string, d: nat)
    requires 0 < |pat| && d <= |a| && Seamless(a, b, pat)
    ensures Seamless(a[d..], b, pat)
  {
    if d < |a| {
      assert a[d..][|a| - d - 1] == a[|a| - 1];
    }
  }

  /** The seam case of `ReplaceConcat`: `a` is too short to hold `pat`, so
      `a` is copied as it is. */
  lemma {:induction false} ReplaceConcatShort(a: string, b: string, pat: string, rep: string)
    requires |pat| > 0 && 0 < |a| < |pat| <= |a + b|
    requires Seamless(a, b, pat)
    ensures Replace(a + b, pat, rep) == a + Replace(b, pat, rep)
    decreases |a|
  {
    var ab := a + b;
    var a' := a[1..];
    assert !StartsWith(ab, pat) by {
      assert ab[..|pat|][|a| - 1] == a[|a| - 1];
      assert ab[..|pat|][|a|] == b[0];
    }
    assert ab[1..] == a' + b;
    assert Replace(ab, pat, rep) == [a[0]] + Replace(a' + b, pat, rep);
    if |a| == 1 {
      assert a' + b == b;
    } else if |ab| - 1 < |pat| {
      assert Replace(a' + b, pat, rep) == a' + b;
      assert Replace(b, pat, rep) == b;
    } else {
      SeamShift(a, b, pat, 1);
      ReplaceConcatShort(a', b, pat, rep);
    }
    assert a == [a[0]] + a';
  }

  /** A character in neither `pat` nor `rep` occurs in the result exactly
      as often as in `s`. */
  lemma {:induction false} ReplaceCount(s: string, pat: string, rep: string, c: char)
    requires |pat| > 0 && c !in pat && c !in rep
    ensures multiset(Replace(s, pat, rep))[c] == multiset(s)[c]
    decreases |s|
  {
    if |s| < |pat| {
    } else if StartsWith(s, pat) {
      var t := s[|pat|..];
      ReplaceCount(t, pat, rep, c);
      CountConcat(rep, Replace(t, pat, rep), c);
      CountConcat(pat, t, c);
      assert s == pat + t;
    } else {
      var t := s[1..];
      ReplaceCount(t, pat, rep, c);
      CountConcat([s[0]], Replace(t, pat, rep), c);
      CountConcat([s[0]], t, c);
      assert s == [s[0]] + t;
    }
  }

  lemma CountConcat(x: string, y: string, c: char)
    ensures multiset(x + y)[c] == multiset(x)[c] + multiset(y)[c]
  {
  }

  /** No occurrence of `pat` in `a + b` starts in `a` and ends in `b`. */
  predicate NoStraddle(a: string, b: string, pat: string) {
    forall k :: 0 <= k < |a| < k + |pat| ==> !OccursAt(a + b, pat, k)
  }

  /** `Replace(a + b)` works piecewise when no occurrence of `pat`
      straddles the seam. */
  lemma {:induction false} ReplaceSplitAt(a: string, b: string, pat: string, rep: string)
    requires |pat| > 0 && NoStraddle(a, b, pat)
    ensures Replace(a + b, pat, rep) == Replace(a, pat, rep) + Replace(b, pat, rep)
    decreases |a|
  {
    if a == [] {
      assert a + b == b;
    } else if |a| < |pat| {
      SplitShort(a, b, pat, rep);
    } else if StartsWith(a, pat) {
      StepMatch(a, b, pat);
      StraddleShift(a, b, pat, |pat|);
      ReplaceSplitAt(a[|pat|..], b, pat, rep);
      assert Replace(a + b, pat, rep) == rep + Replace(a[|pat|..] + b, pat, rep);
      assert Replace(a, pat, rep) == rep + Replace(a[|pat|..], pat, rep);
    } else {
      StepSkip(a, b, pat);
      StraddleShift(a, b, pat, 1);
      ReplaceSplitAt(a[1..], b, pat, rep);
      assert Replace(a + b, pat, rep) == [a[0]] + Replace(a[1..] + b, pat, rep);
      assert Replace(a, pat, rep) == [a[0]] + Replace(a[1..], pat, rep);
    }
  }

  /** The case of `ReplaceSplitAt` where `a` is shorter than `pat`. */
  lemma {:induction false} SplitShort(a: string, b: string, pat: string, rep: string)
    requires 0 < |a| < |pat| && NoStraddle(a, b, pat)
    ensures Replace(a + b, pat, rep) == a + Replace(b, pat, rep)
    decreases |a|
  {
    var ab := a + b;
    if |ab| < |pat| {
      assert Replace(b, pat, rep) == b;
    } else {
      assert !OccursAt(ab, pat, 0);
      assert !StartsWith(ab, pat);
      assert ab[1..] == a[1..] + b;
      assert Replace(ab, pat, rep) == [a[0]] + Replace(a[1..] + b, pat, rep);
      if |a| == 1 {
        assert a[1..] + b == b;
      } else {
        StraddleShift(a, b, pat, 1);
        SplitShort(a[1..], b, pat, rep);
        assert a == [a[0]] + a[1..];
      }
    }
  }

  lemma StraddleShift(a: string, b: string, pat: string, d: nat)
    requires 0 < |pat| && d <= |a| && NoStraddle(a, b, pat)
    ensures NoStraddle(a[d..], b, pat)
  {
    assert (a + b)[d..] == a[d..] + b;
    forall k | 0 <= k < |a[d..]| < k + |pat| ensures !OccursAt(a[d..] + b, pat, k) {
      OccursAtShift(a + b, pat, d, k);
    }
  }

  // ---------------------------------------------------------------------
  // `sep.join(parts)` and `s.split(pat)`
  // ---------------------------------------------------------------------

  /** Python's `sep.join(parts)`. */
  function Join(parts: seq<string>, sep: string): (r: string)
    ensures |parts| == 1 ==> r == parts[0]
    decreases |parts|
  {
    if |parts| == 0 then []
    else if |parts| == 1 then parts[0]
    else parts[0] + sep + Join(parts[1..], sep)
  }

  lemma JoinExtendFirst(c: char, parts: seq<string>, sep: string)
    requires |parts| >= 1
    ensures Join([[c] + parts[0]] + parts[1..], sep) == [c] + Join(parts, sep)
  {
    var ps := [[c] + parts[0]] + parts[1..];
    if |parts| > 1 {
      assert ps[1..] == parts[1..];
    }
  }

  /** Python's `s.split(pat)` for a non-empty `pat`: the pieces between the
      occurrences `Replace` rewrites. Joining them back with `pat` gives `s`,
      no piece contains `pat`, and the first piece is a prefix of `s`. */
  function Split(s: string, pat: string): (r: seq<string>)
    requires |pat| > 0
    ensures |r| >= 1
    ensures StartsWith(s, r[0])
    ensures Join(r, pat) == s
    ensures forall i :: 0 <= i < |r| ==> !Contains(r[i], pat)
    decreases |s|
  {
    if |s| < |pat| then
      assert forall k :: !OccursAt(s, pat, k);
      [s]
    else if StartsWith(s, pat) then
      var t := Split(s[|pat|..], pat);
      assert !Contains([], pat) by {
        assert forall k :: !OccursAt([], pat, k);
      }
      var r := [[]] + t;
      assert r[1..] == t;
      assert s == s[..|pat|] + s[|pat|..];
      r
    else
      var t := Split(s[1..], pat);
      var first := [s[0]] + t[0];
      assert StartsWith(s, first) by {
        assert s == [s[0]] + s[1..];
      }
      assert !Contains(first, pat);
      var r := [first] + t[1..];
      JoinExtendFirst(s[0], t, pat);
      assert s == [s[0]] + s[1..];
      r
  }

  /** Splitting at a one-character separator that `a` lacks: `a` is the
      first piece and the rest is split as before. */
  lemma {:induction false} SplitCharCons(a: string, c: char, b: string)
    requires c !in a
    ensures Split(a + [c] + b, [c]) == [a] + Split(b, [c])
    decreases |a|
  {
    var s := a + [c] + b;
    if a == [] {
      assert StartsWith(s, [c]);
      assert s[1..] == b;
    } else {
      assert !StartsWith(s, [c]) by {
        assert s[0] == a[0] && a[0] != c;
        assert s[..1][0] == s[0];
      }
      assert s[1..] == a[1..] + [c] + b;
      SplitCharCons(a[1..], c, b);
      assert a == [a[0]] + a[1..];
    }
  }

  /** The characterisation of `str.replace`: cut `s` at the occurrences of
      `pat` taken left to right, then glue the pieces back with `rep`
      (Python's `rep.join(s.split(pat))`). */
  lemma {:induction false} ReplaceIsJoinOfSplit(s: string, pat: string, rep: string)
    requires |pat| > 0
    ensures Replace(s, pat, rep) == Join(Split(s, pat), rep)
    decreases |s|
  {
    if |s| < |pat| {
    } else if StartsWith(s, pat) {
      ReplaceIsJoinOfSplit(s[|pat|..], pat, rep);
      var t := Split(s[|pat|..], pat);
      assert ([[]] + t)[1..] == t;
    } else {
      ReplaceIsJoinOfSplit(s[1..], pat, rep);
      JoinExtendFirst(s[0], Split(s[1..], pat), rep);
    }
  }

  // ---------------------------------------------------------------------
  // `s.split(c)[-1]`
  // ---------------------------------------------------------------------

  /** Python's `s.split(c)[-1]`: the text after the last `c`, or all of `s`
      when it holds no `c`. The result is the longest suffix of `s` free of
      `c`. */
  function LastSegment(s: string, c: char): (r: string)
    ensures c !in r
    ensures |r| <= |s| && r == s[|s| - |r|..]
    ensures |r| < |s| ==> s[|s| - |r| - 1] == c
    decreases |s|
  {
    if |s| == 0 then []
    else if s[|s| - 1] == c then []
    else
      var r0 := LastSegment(s[..|s| - 1], c);
      LastSegmentStep(s, c, r0);
      r0 + [s[|s| - 1]]
  }

  lemma LastSegmentStep(s: string, c: char, r0: string)
    requires |s| > 0 && s[|s| - 1] != c
    requires c !in r0
    requires |r0| <= |s| - 1 && r0 == s[..|s| - 1][|s| - 1 - |r0|..]
    requires |r0| < |s| - 1 ==> s[..|s| - 1][|s| - 2 - |r0|] == c
    ensures var r := r0 + [s[|s| - 1]];
            && c !in r
            && r == s[|s| - |r|..]
            && (|r| < |s| ==> s[|s| - |r| - 1] == c)
  {
    var r := r0 + [s[|s| - 1]];
    assert s[|s| - |r|..] == s[..|s| - 1][|s| - 1 - |r0|..] + [s[|s| - 1]];
  }

  /** The segment after a final separator is exactly what follows it. */
  lemma {:induction false} LastSegmentAfter(a: string, c: char, b: string)
    requires c !in b
    ensures LastSegment(a + [c] + b, c) == b
    decreases |b|
  {
    var s := a + [c] + b;
    if b != [] {
      var b' := b[..|b| - 1];
      assert s[..|s| - 1] == a + [c] + b';
      LastSegmentAfter(a, c, b');
      assert b == b' + [b[|b| - 1]];
    }
  }

  /** Without a separator the segment is the whole text. */
  lemma LastSegmentWhole(s: string, c: char)
    ensures c !in s ==> LastSegment(s, c) == s
  {
  }

  // ---------------------------------------------------------------------
  // `s.partition(c)`
  // ---------------------------------------------------------------------

  /** The text before and after the first `c` in `s`, if `s` holds one
      (Python's `s.partition(c)` when the separator is found). */
  function SplitOnce(s: string, c: char): (r: Option<(string, string)>)
    ensures r.None? <==> c !in s
    ensures r.Some? ==> s == r.value.0 + [c] + r.value.1 && c !in r.value.0
    decreases |s|
  {
    if |s| == 0 then None
    else if s[0] == c then
      assert s == [] + [c] + s[1..];
      Some(([], s[1..]))
    else
      match SplitOnce(s[1..], c)
      case None => None
      case Some((a, b)) =>
        assert s == [s[0]] + s[1..];
        Some(([s[0]] + a, b))
  }

  /** Splitting at the first `c` recovers the two parts it was joined from. */
  lemma {:induction false} SplitOnceJoin(a: string, c: char, b: string)
    requires c !in a
    ensures SplitOnce(a + [c] + b, c) == Some((a, b))
    decreases |a|
  {
    var s := a + [c] + b;
    if a == [] {
      assert s[1..] == b;
    } else {
      assert s[1..] == a[1..] + [c] + b;
      SplitOnceJoin(a[1..], c, b);
      assert a == [a[0]] + a[1..];
    }
  }

  // ---------------------------------------------------------------------
  // `s.splitlines()`
  // ---------------------------------------------------------------------

  predicate NoLineBoundary(s: string) {
    forall i :: 0 <= i < |s| ==> !IsLineBoundary(s[i])
  }

  /** Index of the first line-boundary character of `s`, or `|s|`. */
  function LineEnd(s: string): (r: nat)
    ensures r <= |s|
    ensures NoLineBoundary(s[..r])
    ensures r < |s| ==> IsLineBoundary(s[r])
    decreases |s|
  {
    if |s| == 0 then 0
    else if IsLineBoundary(s[0]) then 0
    else 1 + LineEnd(s[1..])
  }

  /** Python's `s.splitlines()`: the lines of `s` without their boundaries,
      `\r\n` counting as one boundary, and no empty line after a final
      boundary. */
  function SplitLines(s: string): (r: seq<string>)
    ensures forall k :: 0 <= k < |r| ==> NoLineBoundary(r[k])
    ensures s == [] <==> r == []
    decreases |s|
  {
    if |s| == 0 then []
    else
      var i := LineEnd(s);
      if i == |s| then
        assert s[..i] == s;
        [s]
      else
        var next := if s[i] == '\r' && i + 1 < |s| && s[i + 1] == '\n' then i + 2 else i + 1;
        [s[..i]] + SplitLines(s[next..])
  }

  /** A line without boundaries ends where the next boundary, or the text,
      begins. */
  lemma {:induction false} LineEndAfter(a: string, b: string)
    requires NoLineBoundary(a) && (b == [] || IsLineBoundary(b[0]))
    ensures LineEnd(a + b) == |a|
    decreases |a|
  {
    if a != [] {
      assert (a + b)[1..] == a[1..] + b;
      LineEndAfter(a[1..], b);
    }
  }

  /** A non-empty text without line boundaries is one line. */
  lemma SplitLinesSingle(a: string)
    requires a != [] && NoLineBoundary(a)
    ensures SplitLines(a) == [a]
  {
    LineEndAfter(a, []);
    assert a + [] == a;
  }

  /** A line followed by `\n` is the first line, whatever follows. */
  lemma SplitLinesCons(a: string, b: string)
    requires NoLineBoundary(a)
    ensures SplitLines(a + "\n" + b) == [a] + SplitLines(b)
  {
    var s := a + "\n" + b;
    LineEndAfter(a, "\n" + b);
    assert s == a + ("\n" + b);
    assert s[..|a|] == a;
    assert s[|a| + 1..] == b;
  }

  /** `\r\n` counts as one boundary. */
  lemma SplitLinesCrLf(a: string, b: string)
    requires NoLineBoundary(a)
    ensures SplitLines(a + "\r\n" + b) == [a] + SplitLines(b)
  {
    var s := a + "\r\n" + b;
    LineEndAfter(a, "\r\n" + b);
    assert s == a + ("\r\n" + b);
    assert s[..|a|] == a;
    assert s[|a|] == '\r' && s[|a| + 1] == '\n';
    assert s[|a| + 2..] == b;
  }

  // ---------------------------------------------------------------------
  // Occurrences around and across a replacement
  // ---------------------------------------------------------------------

  /** Every character of an occurring pattern is a character of `s`. */
  lemma ContainsChars(s: string, p: string, c: char)
    requires c in p
    ensures Contains(s, p) ==> c in s
  {
    if Contains(s, p) {
      var k := IndexOf(s, p).value;
      assert s[k..k + |p|] == p;
    }
  }

  /** An occurrence in a suffix is an occurrence in the whole string. */
  lemma ContainsSuffix(s: string, d: nat, q: string)
    requires d <= |s|
    ensures Contains(s[d..], q) ==> Contains(s, q)
  {
    if Contains(s[d..], q) {
      var k := IndexOf(s[d..], q).value;
      OccursAtShift(s, q, d, k);
      ContainsAt(s, q, k + d);
    }
  }

  /** A string that lacks one of the pattern's characters is left alone. */
  lemma ReplaceFree(s: string, pat: string, rep: string, c: char)
    requires |pat| > 0 && c in pat && c !in s
    ensures Replace(s, pat, rep) == s
  {
    ContainsChars(s, pat, c);
    ReplaceAbsent(s, pat, rep);
  }

  /** A string made of just the pattern becomes just the replacement. */
  lemma ReplaceWhole(pat: string, rep: string)
    requires |pat| > 0
    ensures Replace(pat, pat, rep) == rep
  {
    assert StartsWith(pat, pat);
    assert pat[|pat|..] == [];
  }

  /** A piece `m` that neither contains `pat` nor can share an occurrence
      with its neighbours passes through `Replace` untouched. */
  lemma ReplaceAround(a: string, m: string, b: string, pat: string, rep: string)
    requires |pat| > 0 && |m| > 0
    requires m[0] !in pat && m[|m| - 1] !in pat && pat[0] !in m
    ensures Replace(a + m + b, pat, rep) == Replace(a, pat, rep) + m + Replace(b, pat, rep)
  {
    ReplaceConcat(a, m, pat, rep);
    ReplaceConcat(a + m, b, pat, rep);
    ReplaceFree(m, pat, rep, pat[0]);
  }

  /** If `rep` does not start with a character of `q`, a prefix `q` of the
      replaced text was already a prefix of the original. */
  lemma {:induction false} ReplacePrefixBack(x: string, pat: string, rep: string, q: string)
    requires |pat| > 0 && |rep| > 0 && rep[0] !in q
    ensures StartsWith(Replace(x, pat, rep), q) ==> StartsWith(x, q)
    decreases |x|
  {
    var r := Replace(x, pat, rep);
    if |x| >= |pat| && q != [] {
      if StartsWith(x, pat) {
        // The replaced text starts with rep[0], which q cannot.
        assert r[0] == rep[0];
      } else {
        var r1 := Replace(x[1..], pat, rep);
        assert r == [x[0]] + r1;
        assert StartsWith(r, q) ==> StartsWith(r1, q[1..]) by {
          if StartsWith(r, q) {
            assert r1[..|q| - 1] == r[1..|q|];
          }
        }
        assert rep[0] !in q[1..] by {
          assert forall c :: c in q[1..] ==> c in q;
        }
        ReplacePrefixBack(x[1..], pat, rep, q[1..]);
        if StartsWith(x[1..], q[1..]) && x[0] == q[0] {
          assert x[..|q|] == [x[0]] + x[1..][..|q| - 1];
          assert q == [q[0]] + q[1..];
        }
      }
    }
  }

  /** `Replace` creates no new occurrence of a text `q` that shares no
      boundary character with a non-empty `rep`: `q` does not start with a
      character of `rep`, and `rep` does not start with a character of `q`. */
  lemma {:induction false} ReplaceNoNewOccurrence(s: string, pat: string, rep: string, q: string, k: nat)
    requires |pat| > 0 && |rep| > 0 && |q| > 0
    requires q[0] !in rep && rep[0] !in q
    requires OccursAt(Replace(s, pat, rep), q, k)
    ensures Contains(s, q)
    decreases |s|
  {
    var r := Replace(s, pat, rep);
    if |s| < |pat| {
      ContainsAt(s, q, k);
    } else if StartsWith(s, pat) {
      var s' := s[|pat|..];
      assert r == rep + Replace(s', pat, rep);
      assert r[k] == q[0];
      if k >= |rep| {
        OccursAtShift(r, q, |rep|, k - |rep|);
        assert r[|rep|..] == Replace(s', pat, rep);
        ReplaceNoNewOccurrence(s', pat, rep, q, k - |rep|);
        ContainsSuffix(s, |pat|, q);
      }
    } else {
      var r1 := Replace(s[1..], pat, rep);
      assert r == [s[0]] + r1;
      if k == 0 {
        assert StartsWith(r, q);
        if |q| == 1 {
          assert OccursAt(s, q, 0);
        } else {
          assert StartsWith(r1, q[1..]) by {
            assert r1[..|q| - 1] == r[1..|q|];
          }
          assert rep[0] !in q[1..] by {
            assert forall c :: c in q[1..] ==> c in q;
          }
          ReplacePrefixBack(s[1..], pat, rep, q[1..]);
          assert s[..|q|] == [s[0]] + s[1..][..|q| - 1];
          assert q == [q[0]] + q[1..];
          assert OccursAt(s, q, 0);
        }
        ContainsAt(s, q, 0);
      } else {
        OccursAtShift(r, q, 1, k - 1);
        assert r[1..] == r1;
        ReplaceNoNewOccurrence(s[1..], pat, rep, q, k - 1);
        ContainsSuffix(s, 1, q);
      }
    }
  }

  /** The same, for a whole string: a `q` absent before `Replace` is
      absent after it. */
  lemma ReplaceKeepsAbsent(s: string, pat: string, rep: string, q: string)
    requires |pat| > 0 && |rep| > 0 && |q| > 0
    requires q[0] !in rep && rep[0] !in q
    requires !Contains(s, q)
    ensures !Contains(Replace(s, pat, rep), q)
  {
    var r := Replace(s, pat, rep);
    if Contains(r, q) {
      ReplaceNoNewOccurrence(s, pat, rep, q, IndexOf(r, q).value);
    }
  }

  /** When the first character of `p` occurs nowhere else in `p`, and `x`
      does not contain `p`, the first occurrence of `p` in `x + p + y` is
      the one right after `x`. */
  lemma FirstOccurrence(x: string, p: string, y: string)
    requires |p| > 0 && forall i :: 0 < i < |p| ==> p[i] != p[0]
    requires !Contains(x, p)
    ensures IndexOf(x + p + y, p) == Some(|x|)
  {
    var s := x + p + y;
    assert s[|x|..|x| + |p|] == p;
    forall k | 0 <= k < |x|
      ensures !OccursAt(s, p, k)
    {
      if k + |p| <= |x| {
        OccursAtPrefix(x, p + y, p, k);
        assert s == x + (p + y);
        if OccursAt(x, p, k) {
          ContainsAt(x, p, k);
        }
      } else {
        assert s[|x|] == p[0];
        assert s[k..k + |p|][|x| - k] == s[|x|];
      }
    }
    IndexOfIs(s, p, |x|);
  }

  /** The same when the last character of `p` occurs nowhere else in `p`. */
  lemma FirstOccurrenceTail(x: string, p: string, y: string)
    requires |p| > 0 && forall i :: 0 <= i < |p| - 1 ==> p[i] != p[|p| - 1]
    requires !Contains(x, p)
    ensures IndexOf(x + p + y, p) == Some(|x|)
  {
    var s := x + p + y;
    assert s[|x|..|x| + |p|] == p;
    forall k | 0 <= k < |x|
      ensures !OccursAt(s, p, k)
    {
      if k + |p| <= |x| {
        OccursAtPrefix(x, p + y, p, k);
        assert s == x + (p + y);
        if OccursAt(x, p, k) {
          ContainsAt(x, p, k);
        }
      } else {
        var t := k + |p| - 1;
        assert s[t] == p[t - |x|];
        assert s[k..k + |p|][|p| - 1] == s[t];
      }
    }
    IndexOfIs(s, p, |x|);
  }

  /** Every character of a part is a character of the joined text. */
  lemma {:induction false} JoinChars(parts: seq<string>, sep: string, k: nat, c: char)
    requires k < |parts| && c in parts[k]
    ensures c in Join(parts, sep)
    decreases |parts|
  {
    if |parts| > 1 {
      if k > 0 {
        JoinChars(parts[1..], sep, k - 1, c);
      }
    }
  }

  /** Stripping introduces no character. */
  lemma StripKeepsAbsent(s: string, c: char)
    requires c !in s
    ensures c !in Strip(s)
  {
    var i, j := StripBounds(s);
    forall k | 0 <= k < j - i ensures s[i..j][k] != c {
      assert s[i..j][k] == s[i + k];
    }
  }

  /** Every character of the stripped text is a character of the text. */
  lemma StripChars(s: string, c: char)
    requires c in Strip(s)
    ensures c in s
  {
    var i, j := StripBounds(s);
    var k :| 0 <= k < j - i && s[i..j][k] == c;
    assert s[i + k] == c;
  }
}
