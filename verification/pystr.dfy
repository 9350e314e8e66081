/**
 * The parts of Python's `str` that the container list parser relies on:
 * `strip()`, `split(sep)`, `split(maxsplit=n)`, `lower()`, `title()` and the
 * substring operator `in`. Whitespace is Python's own notion of it; case
 * mapping is restricted to ASCII letters. Scanning is done with positions
 * into one string, the way CPython's own loops do it.
 */
module PyStr {

  /** Python's `str.isspace()` on one code point: what `strip()` and `split()` skip. */
  predicate IsSpace(c: char) {
    ('\t' <= c <= '\r') || ('\U{1c}' <= c <= ' ') || c == '\U{85}' || c == '\U{a0}'
    || c == '\U{1680}' || ('\U{2000}' <= c <= '\U{200a}') || c == '\U{2028}' || c == '\U{2029}'
    || c == '\U{202f}' || c == '\U{205f}' || c == '\U{3000}'
  }

  /** Every character of `s[i..j]` is whitespace. */
  predicate SpaceIn(s: string, i: nat, j: nat)
    requires j <= |s|
  {
    forall k :: i <= k < j ==> IsSpace(s[k])
  }

  /** No character of `s[i..j]` is whitespace. */
  predicate WordIn(s: string, i: nat, j: nat)
    requires j <= |s|
  {
    forall k :: i <= k < j ==> !IsSpace(s[k])
  }

  predicate AllSpace(s: string) {
    SpaceIn(s, 0, |s|)
  }

  predicate NoSpace(s: string) {
    WordIn(s, 0, |s|)
  }

  /** `a` is the tail of `b`. */
  predicate IsSuffix(a: string, b: string) {
    |a| <= |b| && b[|b| - |a|..] == a
  }

  /** Neither end of `s` is whitespace: what `strip()` leaves behind. */
  predicate Trimmed(s: string) {
    s == [] || (!IsSpace(s[0]) && !IsSpace(s[|s| - 1]))
  }

  /** The first position at or after `i` that is not whitespace (`|s|` if none). */
  function SkipSpace(s: string, i: nat): (j: nat)
    requires i <= |s|
    ensures i <= j <= |s|
    ensures j < |s| ==> !IsSpace(s[j])
    decreases |s| - i
  {
    if i < |s| && IsSpace(s[i]) then SkipSpace(s, i + 1) else i
  }

  /** The first position at or after `i` that is whitespace (`|s|` if none). */
  function SkipWord(s: string, i: nat): (j: nat)
    requires i <= |s|
    ensures i <= j <= |s|
    ensures j < |s| ==> IsSpace(s[j])
    ensures i < |s| && !IsSpace(s[i]) ==> i < j
    decreases |s| - i
  {
    if i < |s| && !IsSpace(s[i]) then SkipWord(s, i + 1) else i
  }

  /** Walking back from `j`, not below `lo`, over whitespace. */
  function BackSpace(s: string, lo: nat, j: nat): (i: nat)
    requires lo <= j <= |s|
    ensures lo <= i <= j
    ensures lo < i ==> !IsSpace(s[i - 1])
    decreases j
  {
    if lo < j && IsSpace(s[j - 1]) then BackSpace(s, lo, j - 1) else j
  }

  /** What `SkipSpace` passes over is whitespace. */
  lemma {:induction false} SkipSpaceSpan(s: string, i: nat)
    requires i <= |s|
    ensures SpaceIn(s, i, SkipSpace(s, i))
    decreases |s| - i
  {
    if i < |s| && IsSpace(s[i]) {
      SkipSpaceSpan(s, i + 1);
    }
  }

  /** What `SkipWord` passes over has no whitespace. */
  lemma {:induction false} SkipWordSpan(s: string, i: nat)
    requires i <= |s|
    ensures WordIn(s, i, SkipWord(s, i))
    decreases |s| - i
  {
    if i < |s| && !IsSpace(s[i]) {
      SkipWordSpan(s, i + 1);
    }
  }

  /** What `BackSpace` passes over is whitespace. */
  lemma {:induction false} BackSpaceSpan(s: string, lo: nat, j: nat)
    requires lo <= j <= |s|
    ensures SpaceIn(s, BackSpace(s, lo, j), j)
    decreases j
  {
    if lo < j && IsSpace(s[j - 1]) {
      BackSpaceSpan(s, lo, j - 1);
    }
  }

  /** `s.strip()`: the slice of `s` between its leading and its trailing whitespace. */
  function Strip(s: string): (r: string)
    ensures Trimmed(r)
  {
    var i := SkipSpace(s, 0);
    var j := BackSpace(s, i, |s|);
    SkipSpaceSpan(s, 0);
    BackSpaceSpan(s, i, |s|);
    assert i < |s| ==> !IsSpace(s[i]);
    s[i..j]
  }

  /** Stripping gives the empty string exactly when the text is all whitespace. */
  lemma StripEmpty(s: string)
    ensures Strip(s) == [] <==> AllSpace(s)
  {
    SkipSpaceSpan(s, 0);
    BackSpaceSpan(s, SkipSpace(s, 0), |s|);
  }

  /** What `strip()` removes is whitespace, and only from the two ends. */
  lemma StripSlice(s: string)
    ensures exists i: nat, j: nat :: i <= j <= |s| && Strip(s) == s[i..j] && SpaceIn(s, 0, i) && SpaceIn(s, j, |s|)
  {
    var i := SkipSpace(s, 0);
    var j := BackSpace(s, i, |s|);
    SkipSpaceSpan(s, 0);
    BackSpaceSpan(s, i, |s|);
    assert Strip(s) == s[i..j];
  }

  lemma {:induction false} SkipSpaceOver(s: string, i: nat, j: nat)
    requires i <= j <= |s| && SpaceIn(s, i, j)
    ensures SkipSpace(s, i) == SkipSpace(s, j)
    decreases j - i
  {
    if i < j {
      SkipSpaceOver(s, i + 1, j);
    }
  }

  lemma {:induction false} SkipWordOver(s: string, i: nat, j: nat)
    requires i <= j <= |s| && WordIn(s, i, j)
    ensures SkipWord(s, i) == SkipWord(s, j)
    decreases j - i
  {
    if i < j {
      SkipWordOver(s, i + 1, j);
    }
  }

  lemma {:induction false} BackSpaceOver(s: string, lo: nat, i: nat, j: nat)
    requires lo <= i <= j <= |s| && SpaceIn(s, i, j)
    ensures BackSpace(s, lo, j) == BackSpace(s, lo, i)
    decreases j - i
  {
    if i < j {
      BackSpaceOver(s, lo, i, j - 1);
    }
  }

  /** `strip()` removes exactly the whitespace padding around a trimmed text. */
  lemma StripPadded(g0: string, t: string, g1: string)
    requires AllSpace(g0) && AllSpace(g1) && Trimmed(t)
    ensures Strip(g0 + t + g1) == t
  {
    var s := g0 + t + g1;
    var a, b := |g0|, |g0| + |t|;
    PaddedParts(g0, t, g1);
    SkipSpaceOver(s, 0, a);
    if t == [] {
      SkipSpaceOver(s, a, |s|);
    } else {
      BackSpaceOver(s, a, b, |s|);
    }
  }

  /** A text that is already trimmed is left as it is. */
  lemma StripTrimmed(t: string)
    requires Trimmed(t)
    ensures Strip(t) == t
  {
    StripPadded([], t, []);
    assert [] + t + [] == t;
  }

  /** Where the padding and the text sit in a padded text. */
  lemma PaddedParts(g0: string, t: string, g1: string)
    requires AllSpace(g0) && AllSpace(g1)
    ensures var s := g0 + t + g1;
      SpaceIn(s, 0, |g0|) && SpaceIn(s, |g0| + |t|, |s|) && s[|g0|..|g0| + |t|] == t
      && (t != [] ==> s[|g0|] == t[0] && s[|g0| + |t| - 1] == t[|t| - 1])
  {
    var s := g0 + t + g1;
    var a, b := |g0|, |g0| + |t|;
    forall k | 0 <= k < a ensures s[k] == g0[k] { }
    forall k | b <= k < |s| ensures s[k] == g1[k - b] { }
    assert s[a..b] == t;
  }

  /**
   * `s.split(sep)` for a one-character separator: the pieces between the
   * separators, so there is always at least one piece, the empty string
   * giving `[""]`.
   */
  function SplitSep(s: string, sep: char): (r: seq<string>)
    ensures |r| >= 1
    ensures forall k :: 0 <= k < |r| ==> sep !in r[k]
    decreases |s|
  {
    if s == [] then [[]]
    else
      var rest := SplitSep(s[1..], sep);
      if s[0] == sep then [[]] + rest else [[s[0]] + rest[0]] + rest[1..]
  }

  /** `sep.join(pieces)`. */
  function JoinSep(pieces: seq<string>, sep: char): string
    requires |pieces| >= 1
    decreases |pieces|
  {
    if |pieces| == 1 then pieces[0] else pieces[0] + [sep] + JoinSep(pieces[1..], sep)
  }

  /** Splitting on a separator loses nothing: joining the pieces back gives the text. */
  lemma {:induction false} JoinSplitSep(s: string, sep: char)
    ensures JoinSep(SplitSep(s, sep), sep) == s
    decreases |s|
  {
    if s != [] {
      var rest := SplitSep(s[1..], sep);
      JoinSplitSep(s[1..], sep);
      if s[0] == sep {
        assert SplitSep(s, sep)[1..] == rest;
      } else {
        var r := SplitSep(s, sep);
        if |rest| == 1 {
          assert r == [[s[0]] + rest[0]];
        } else {
          assert r[1..] == rest[1..];
          assert JoinSep(rest, sep) == rest[0] + [sep] + JoinSep(rest[1..], sep);
        }
      }
    }
  }

  /** A piece without the separator splits into itself alone. */
  lemma {:induction false} SplitSepPlain(p: string, sep: char)
    requires sep !in p
    ensures SplitSep(p, sep) == [p]
    decreases |p|
  {
    if p != [] {
      assert sep !in p[1..] by {
        forall k | 0 <= k < |p| - 1 ensures p[1..][k] != sep {
          assert p[1..][k] == p[k + 1];
        }
      }
      SplitSepPlain(p[1..], sep);
      assert [p[0]] + p[1..] == p;
    }
  }

  /** A piece without the separator, then the separator, is cut off as the first piece. */
  lemma {:induction false} SplitSepCons(p: string, sep: char, rest: string)
    requires sep !in p
    ensures SplitSep(p + [sep] + rest, sep) == [p] + SplitSep(rest, sep)
    decreases |p|
  {
    var s := p + [sep] + rest;
    if p == [] {
      assert s[1..] == rest;
    } else {
      assert sep !in p[1..] by {
        forall k | 0 <= k < |p| - 1 ensures p[1..][k] != sep {
          assert p[1..][k] == p[k + 1];
        }
      }
      SplitSepCons(p[1..], sep, rest);
      assert s[1..] == p[1..] + [sep] + rest;
      assert s[0] == p[0];
      assert [p[0]] + p[1..] == p;
    }
  }

  /** Joining pieces that hold no separator and splitting again gives the pieces back. */
  lemma {:induction false} SplitJoinSep(pieces: seq<string>, sep: char)
    requires |pieces| >= 1
    requires forall k :: 0 <= k < |pieces| ==> sep !in pieces[k]
    ensures SplitSep(JoinSep(pieces, sep), sep) == pieces
    decreases |pieces|
  {
    if |pieces| == 1 {
      SplitSepPlain(pieces[0], sep);
    } else {
      SplitJoinSep(pieces[1..], sep);
      SplitSepCons(pieces[0], sep, JoinSep(pieces[1..], sep));
      assert [pieces[0]] + pieces[1..] == pieces;
    }
  }

  /**
   * `s.split(maxsplit=n)`, or `s.split()` when `n` is negative: skip
   * whitespace, cut off a word, and repeat; once `n` words are cut, whatever
   * follows the next run of whitespace is the last field, untouched.
   */
  function Split(s: string, maxsplit: int): (r: seq<string>)
    ensures maxsplit >= 0 ==> |r| <= maxsplit + 1
    ensures r == [] <==> AllSpace(s)
  {
    SplitFromEmpty(s, 0, maxsplit);
    SplitFrom(s, 0, maxsplit)
  }

  /** The fields `split` finds in `s[i..]`. */
  function SplitFrom(s: string, i: nat, maxsplit: int): (r: seq<string>)
    requires i <= |s|
    ensures maxsplit >= 0 ==> |r| <= maxsplit + 1
    decreases |s| - i
  {
    var a := SkipSpace(s, i);
    if a == |s| then []
    else if maxsplit == 0 then [s[a..]]
    else
      var b := SkipWord(s, a);
      [s[a..b]] + SplitFrom(s, b, NextLimit(maxsplit))
  }

  /** The limit left after one more cut; a negative limit means none. */
  function NextLimit(maxsplit: int): int {
    if maxsplit < 0 then maxsplit else maxsplit - 1
  }

  /** `split` finds nothing exactly when only whitespace is left. */
  lemma SplitFromEmpty(s: string, i: nat, maxsplit: int)
    requires i <= |s|
    ensures SplitFrom(s, i, maxsplit) == [] <==> SpaceIn(s, i, |s|)
  {
    SkipSpaceSpan(s, i);
  }

  /** A field is non-empty and does not start with whitespace. */
  predicate IsField(f: string) {
    f != [] && !IsSpace(f[0])
  }

  /** Every field is non-empty and starts with a non-space; all but the last are plain words. */
  predicate FieldsShape(r: seq<string>) {
    (forall k :: 0 <= k < |r| ==> IsField(r[k]))
    && (forall k :: 0 <= k < |r| - 1 ==> NoSpace(r[k]))
  }

  /** What `split` finds has the shape of a list of fields. */
  lemma {:induction false} SplitFromFields(s: string, i: nat, maxsplit: int)
    requires i <= |s|
    ensures FieldsShape(SplitFrom(s, i, maxsplit))
    decreases |s| - i
  {
    var r := SplitFrom(s, i, maxsplit);
    var a := SkipSpace(s, i);
    if a < |s| && maxsplit != 0 {
      var b := SkipWord(s, a);
      var m := NextLimit(maxsplit);
      var rest := SplitFrom(s, b, m);
      SplitFromFields(s, b, m);
      assert IsField(s[a..b]) && NoSpace(s[a..b]) by {
        SkipWordSpan(s, a);
        forall k | 0 <= k < b - a ensures s[a..b][k] == s[a + k] { }
      }
      assert r == [s[a..b]] + rest;
      assert forall k :: 1 <= k < |r| ==> r[k] == rest[k - 1];
    } else if a < |s| {
      assert r == [s[a..]] && s[a..][0] == s[a];
    }
  }

  /**
   * The last field is a plain word too unless the limit was reached, and when
   * the text does not end in whitespace it is the text's own tail.
   */
  lemma {:induction false} SplitFromLast(s: string, i: nat, maxsplit: int)
    requires i <= |s|
    ensures var r := SplitFrom(s, i, maxsplit);
      |r| > 0 && (maxsplit < 0 || |r| <= maxsplit) ==> NoSpace(r[|r| - 1])
    ensures var r := SplitFrom(s, i, maxsplit);
      |r| > 0 && !IsSpace(s[|s| - 1]) ==> IsSuffix(r[|r| - 1], s)
    decreases |s| - i
  {
    var r := SplitFrom(s, i, maxsplit);
    var a := SkipSpace(s, i);
    if a < |s| && maxsplit != 0 {
      var b := SkipWord(s, a);
      var m := NextLimit(maxsplit);
      var rest := SplitFrom(s, b, m);
      SplitFromLast(s, b, m);
      assert r == [s[a..b]] + rest;
      if rest == [] {
        SkipWordSpan(s, a);
        if !IsSpace(s[|s| - 1]) {
          SplitFromEmpty(s, b, m);
          assert b == |s|;
        }
      } else {
        assert r[|r| - 1] == rest[|rest| - 1];
      }
    }
  }

  /**
   * What `split` finds: fields that start with a non-space, all plain words
   * but perhaps the last; laid out in the text in order, with whitespace
   * before, between and after them, and at least one whitespace character
   * between two fields. Nothing comes before the first field of a text that
   * starts with a non-space, and nothing after the last field once the limit
   * is reached.
   */
  lemma SplitFields(s: string, maxsplit: int)
    ensures FieldsShape(Split(s, maxsplit))
    ensures var r := Split(s, maxsplit);
      |r| > 0 && (maxsplit < 0 || |r| <= maxsplit) ==> NoSpace(r[|r| - 1])
    ensures var r := Split(s, maxsplit);
      |r| > 0 && !IsSpace(s[|s| - 1]) ==> IsSuffix(r[|r| - 1], s)
    ensures var r := Split(s, maxsplit);
      exists gaps :: Separates(gaps, r) && s == Joined(gaps, r)
        && (s != [] && !IsSpace(s[0]) ==> gaps[0] == [])
        && (maxsplit >= 0 && |r| == maxsplit + 1 ==> gaps[|r|] == [])
  {
    SplitFromFields(s, 0, maxsplit);
    SplitFromLast(s, 0, maxsplit);
    SplitFromGaps(s, 0, maxsplit);
    assert s[0..] == s;
    if s != [] && !IsSpace(s[0]) {
      assert SkipSpace(s, 0) == 0;
    }
    assert Separates(GapsFrom(s, 0, maxsplit), Split(s, maxsplit));
  }

  /** Gaps and fields laid end to end: gap, field, gap, ..., field, gap. */
  function Joined(gaps: seq<string>, fields: seq<string>): string
    requires |gaps| == |fields| + 1
    decreases |fields|
  {
    if fields == [] then gaps[0] else gaps[0] + fields[0] + Joined(gaps[1..], fields[1..])
  }

  /** Every gap is whitespace, and a gap between two fields is not empty. */
  predicate Separates(gaps: seq<string>, fields: seq<string>) {
    |gaps| == |fields| + 1
    && (forall k :: 0 <= k < |gaps| ==> AllSpace(gaps[k]))
    && (forall k :: 0 < k < |fields| ==> gaps[k] != [])
  }

  /** The whitespace `split` passes over in `s[i..]`: in front of each field, then what is left. */
  function GapsFrom(s: string, i: nat, maxsplit: int): seq<string>
    requires i <= |s|
    decreases |s| - i
  {
    var a := SkipSpace(s, i);
    if a == |s| then [s[i..]]
    else if maxsplit == 0 then [s[i..a], []]
    else [s[i..a]] + GapsFrom(s, SkipWord(s, a), NextLimit(maxsplit))
  }

  /** A whitespace span, cut out, is all whitespace. */
  lemma SpaceInSlice(s: string, i: nat, j: nat)
    requires i <= j <= |s| && SpaceIn(s, i, j)
    ensures AllSpace(s[i..j])
  {
    forall k | 0 <= k < j - i ensures IsSpace(s[i..j][k]) {
      assert s[i..j][k] == s[i + k];
    }
  }

  /** The fields `split` finds and the gaps it passes over make up the text. */
  lemma SplitFromGaps(s: string, i: nat, maxsplit: int)
    requires i <= |s|
    ensures var r := SplitFrom(s, i, maxsplit);
      var g := GapsFrom(s, i, maxsplit);
      Separates(g, r) && s[i..] == Joined(g, r) && g[0] == s[i..SkipSpace(s, i)]
      && (maxsplit >= 0 && |r| == maxsplit + 1 ==> g[|r|] == [])
  {
    GapsCount(s, i, maxsplit);
    GapsSpace(s, i, maxsplit);
    GapsJoined(s, i, maxsplit);
  }

  /** One gap more than fields; the first gap is the leading whitespace, the last is empty once the limit is reached. */
  lemma {:induction false} GapsCount(s: string, i: nat, maxsplit: int)
    requires i <= |s|
    ensures var r := SplitFrom(s, i, maxsplit);
      var g := GapsFrom(s, i, maxsplit);
      |g| == |r| + 1 && g[0] == s[i..SkipSpace(s, i)]
      && (maxsplit >= 0 && |r| == maxsplit + 1 ==> g[|r|] == [])
    decreases |s| - i
  {
    var a := SkipSpace(s, i);
    if a < |s| && maxsplit != 0 {
      GapsCount(s, SkipWord(s, a), NextLimit(maxsplit));
    }
  }

  /** Every gap is whitespace, and the gaps between fields are not empty. */
  lemma {:induction false} GapsSpace(s: string, i: nat, maxsplit: int)
    requires i <= |s|
    ensures Separates(GapsFrom(s, i, maxsplit), SplitFrom(s, i, maxsplit))
    decreases |s| - i
  {
    var r := SplitFrom(s, i, maxsplit);
    var g := GapsFrom(s, i, maxsplit);
    var a := SkipSpace(s, i);
    GapsCount(s, i, maxsplit);
    SkipSpaceSpan(s, i);
    SpaceInSlice(s, i, a);
    if a == |s| {
      assert g == [s[i..]];
    } else if maxsplit == 0 {
      assert g == [s[i..a], []];
      assert AllSpace(g[1]);
    } else {
      var b := SkipWord(s, a);
      var m := NextLimit(maxsplit);
      var rest := SplitFrom(s, b, m);
      var h := GapsFrom(s, b, m);
      GapsSpace(s, b, m);
      GapsCount(s, b, m);
      assert r == [s[a..b]] + rest && g == [s[i..a]] + h;
      assert forall k :: 1 <= k < |g| ==> g[k] == h[k - 1];
      if rest != [] {
        SplitFromEmpty(s, b, m);
        assert IsSpace(s[b]) && SkipSpace(s, b) == SkipSpace(s, b + 1);
        assert g[1] != [];
      }
    }
  }

  /** Laying the gaps and the fields end to end gives back the text. */
  lemma {:induction false} GapsJoined(s: string, i: nat, maxsplit: int)
    requires i <= |s|
    ensures |GapsFrom(s, i, maxsplit)| == |SplitFrom(s, i, maxsplit)| + 1
    ensures s[i..] == Joined(GapsFrom(s, i, maxsplit), SplitFrom(s, i, maxsplit))
    decreases |s| - i
  {
    var r := SplitFrom(s, i, maxsplit);
    var g := GapsFrom(s, i, maxsplit);
    var a := SkipSpace(s, i);
    GapsCount(s, i, maxsplit);
    if a == |s| {
      assert g == [s[i..]] && r == [];
    } else if maxsplit == 0 {
      assert g == [s[i..a], []] && r == [s[a..]];
      JoinedFirst(g, r);
      SliceThree(s, i, a, |s|);
    } else {
      var b := SkipWord(s, a);
      var m := NextLimit(maxsplit);
      GapsJoined(s, b, m);
      var rest, h := SplitFrom(s, b, m), GapsFrom(s, b, m);
      assert r == [s[a..b]] + rest && g == [s[i..a]] + h;
      assert r[1..] == rest && g[1..] == h;
      JoinedFirst(g, r);
      SliceThree(s, i, a, b);
    }
  }

  /** The first gap and the first field, then the rest laid out. */
  lemma JoinedFirst(g: seq<string>, r: seq<string>)
    requires |g| == |r| + 1 && r != []
    ensures Joined(g, r) == g[0] + r[0] + Joined(g[1..], r[1..])
  {
  }

  /** A tail of a text is its three consecutive slices. */
  lemma SliceThree(s: string, i: nat, a: nat, b: nat)
    requires i <= a <= b <= |s|
    ensures s[i..] == s[i..a] + s[a..b] + s[b..]
  {
  }

  /** Three fields in their gaps, written out. */
  lemma JoinedThree(gaps: seq<string>, f: seq<string>)
    requires |gaps| == 4 && |f| == 3
    ensures Joined(gaps, f) == gaps[0] + f[0] + gaps[1] + f[1] + gaps[2] + f[2] + gaps[3]
  {
    var g1, f1 := gaps[1..], f[1..];
    var g2, f2 := g1[1..], f1[1..];
    var g3, f3 := g2[1..], f2[1..];
    assert Joined(g3, f3) == gaps[3];
    assert Joined(g2, f2) == gaps[2] + f[2] + gaps[3];
    assert Joined(g1, f1) == gaps[1] + f[1] + (gaps[2] + f[2] + gaps[3]);
  }

  /**
   * A limit only caps the number of fields: with limit `n` there are as many
   * fields as `split()` finds, but at most `n + 1`.
   */
  lemma {:induction false} SplitFromCount(s: string, i: nat, maxsplit: nat)
    requires i <= |s|
    ensures |SplitFrom(s, i, maxsplit)| == Min(maxsplit + 1, |SplitFrom(s, i, -1)|)
    decreases |s| - i
  {
    var a := SkipSpace(s, i);
    if a < |s| {
      var b := SkipWord(s, a);
      if maxsplit == 0 {
        assert |SplitFrom(s, i, -1)| == 1 + |SplitFrom(s, b, -1)|;
      } else {
        SplitFromCount(s, b, maxsplit - 1);
      }
    }
  }

  function Min(x: int, y: int): int {
    if x <= y then x else y
  }

  lemma SplitCount(s: string, maxsplit: nat)
    ensures |Split(s, maxsplit)| == Min(maxsplit + 1, |Split(s, -1)|)
  {
    SplitFromCount(s, 0, maxsplit);
  }

  /** `a` is the head of `b`. */
  predicate IsPrefix(a: string, b: string) {
    |a| <= |b| && b[..|a|] == a
  }

  /** On a text that does not start with whitespace, the first field is the text's own head. */
  lemma SplitFirstPrefix(s: string, maxsplit: int)
    requires s != [] && !IsSpace(s[0])
    ensures Split(s, maxsplit) != [] && IsPrefix(Split(s, maxsplit)[0], s)
  {
    assert SkipSpace(s, 0) == 0;
    if maxsplit == 0 {
      assert s[0..] == s;
    }
  }

  /** Whitespace in front of position `j` never changes what `split` finds. */
  lemma SplitFromOverSpace(s: string, i: nat, j: nat, maxsplit: int)
    requires i <= j <= |s| && SpaceIn(s, i, j)
    ensures SplitFrom(s, i, maxsplit) == SplitFrom(s, j, maxsplit)
  {
    SkipSpaceOver(s, i, j);
    assert SkipSpace(s, SkipSpace(s, j)) == SkipSpace(s, j);
  }

  /** At a word that ends at `j`, `split` cuts off that word and carries on from `j`. */
  lemma SplitFromWord(s: string, i: nat, j: nat, maxsplit: int)
    requires i < j <= |s| && WordIn(s, i, j) && (j < |s| ==> IsSpace(s[j])) && maxsplit != 0
    ensures SplitFrom(s, i, maxsplit) == [s[i..j]] + SplitFrom(s, j, NextLimit(maxsplit))
  {
    SkipWordOver(s, i, j);
  }

  /** A slice that is a word has no whitespace in it. */
  lemma WordInSlice(s: string, i: nat, j: nat)
    requires i <= j <= |s| && NoSpace(s[i..j])
    ensures WordIn(s, i, j)
  {
    forall k | i <= k < j ensures !IsSpace(s[k]) {
      assert s[k] == s[i..j][k - i];
    }
  }

  /**
   * `s` is three columns: a word up to `n1`, one whitespace character, a word
   * up to `n2`, one whitespace character, and a rest that starts with a
   * non-space.
   */
  predicate Columns(s: string, n1: nat, n2: nat) {
    0 < n1 && n1 + 1 < n2 && n2 + 1 < |s|
    && WordIn(s, 0, n1) && IsSpace(s[n1]) && WordIn(s, n1 + 1, n2) && IsSpace(s[n2]) && !IsSpace(s[n2 + 1])
  }

  /** The cuts `split` makes in three columns. */
  lemma ColumnCuts(s: string, n1: nat, n2: nat)
    requires Columns(s, n1, n2)
    ensures SplitFrom(s, 0, 2) == [s[0..n1]] + SplitFrom(s, n1 + 1, 1)
    ensures SplitFrom(s, n1 + 1, 1) == [s[n1 + 1..n2]] + SplitFrom(s, n2 + 1, 0)
    ensures SplitFrom(s, n2 + 1, 0) == [s[n2 + 1..]]
  {
    SplitFromWordGap(s, 0, n1, 2);
    SplitFromWordGap(s, n1 + 1, n2, 1);
    SplitFromRest(s, n2 + 1);
  }

  /** Three columns split with limit 2 into exactly those columns, the last one untouched. */
  lemma SplitColumns(s: string, n1: nat, n2: nat)
    requires Columns(s, n1, n2)
    ensures Split(s, 2) == [s[0..n1], s[n1 + 1..n2], s[n2 + 1..]]
  {
    ColumnCuts(s, n1, n2);
    ThreeCuts(SplitFrom(s, 0, 2), SplitFrom(s, n1 + 1, 1), SplitFrom(s, n2 + 1, 0), s[0..n1], s[n1 + 1..n2], s[n2 + 1..]);
  }

  /** Three cuts in a row give three fields. */
  lemma ThreeCuts(r0: seq<string>, r1: seq<string>, r2: seq<string>, a: string, b: string, c: string)
    requires r0 == [a] + r1 && r1 == [b] + r2 && r2 == [c]
    ensures r0 == [a, b, c]
  {
  }

  /** A word followed by one whitespace character is cut off, and `split` goes on behind the gap. */
  lemma SplitFromWordGap(s: string, i: nat, j: nat, maxsplit: int)
    requires i < j < |s| && WordIn(s, i, j) && IsSpace(s[j]) && maxsplit != 0
    ensures SplitFrom(s, i, maxsplit) == [s[i..j]] + SplitFrom(s, j + 1, NextLimit(maxsplit))
  {
    SplitFromWord(s, i, j, maxsplit);
    SplitFromOverSpace(s, j, j + 1, NextLimit(maxsplit));
  }

  /** Once the limit is used up, the rest from a non-space on is the last field. */
  lemma SplitFromRest(s: string, i: nat)
    requires i < |s| && !IsSpace(s[i])
    ensures SplitFrom(s, i, 0) == [s[i..]]
  {
  }

  /** Nothing is left at the end of the text. */
  lemma SplitFromEnd(s: string, maxsplit: int)
    ensures SplitFrom(s, |s|, maxsplit) == []
  {
  }

  function LowerChar(c: char): char {
    if 'A' <= c <= 'Z' then (c as int + 32) as char else c
  }

  function UpperChar(c: char): char {
    if 'a' <= c <= 'z' then (c as int - 32) as char else c
  }

  predicate IsLetter(c: char) {
    'A' <= c <= 'Z' || 'a' <= c <= 'z'
  }

  /** `s.lower()`, for ASCII letters only. */
  function Lower(s: string): (r: string)
    ensures |r| == |s|
    ensures forall i :: 0 <= i < |r| ==> !('A' <= r[i] <= 'Z')
    ensures forall i :: 0 <= i < |r| ==> LowerChar(r[i]) == r[i]
  {
    seq(|s|, i requires 0 <= i < |s| => LowerChar(s[i]))
  }

  /** Lower-casing twice is lower-casing once. */
  lemma LowerTwice(s: string)
    ensures Lower(Lower(s)) == Lower(s)
  {
    var t := Lower(s);
    assert forall i :: 0 <= i < |t| ==> Lower(t)[i] == LowerChar(t[i]) == t[i];
  }

  /**
   * `s.title()`, for ASCII letters: a letter is upper-cased when the
   * character before it is not a letter, and lower-cased otherwise.
   */
  function Title(s: string): (r: string)
    ensures |r| == |s|
  {
    TitleAfter(s, false)
  }

  function TitleAfter(s: string, previousCased: bool): (r: string)
    ensures |r| == |s|
    decreases |s|
  {
    if s == [] then []
    else [if previousCased then LowerChar(s[0]) else UpperChar(s[0])] + TitleAfter(s[1..], IsLetter(s[0]))
  }

  predicate LowerWord(w: string) {
    forall i :: 0 <= i < |w| ==> 'a' <= w[i] <= 'z'
  }

  lemma {:induction false} TitleAfterLetterKeepsLower(w: string)
    requires LowerWord(w)
    ensures TitleAfter(w, true) == w
    decreases |w|
  {
    if w != [] {
      TitleAfterLetterKeepsLower(w[1..]);
    }
  }

  /** Title-casing a lower-case word capitalises its first letter and keeps the rest. */
  lemma TitleOfLowerWord(w: string)
    requires w != [] && LowerWord(w)
    ensures Title(w) == [UpperChar(w[0])] + w[1..]
    ensures 'A' <= Title(w)[0] <= 'Z'
  {
    TitleAfterLetterKeepsLower(w[1..]);
  }

  /** The needle occurs in the haystack starting at position `i`. */
  predicate OccursAt(needle: string, hay: string, i: nat) {
    i + |needle| <= |hay| && hay[i..i + |needle|] == needle
  }

  /** `needle in hay`: the needle occurs somewhere in the haystack. */
  predicate Contains(needle: string, hay: string) {
    exists i: nat | i <= |hay| :: OccursAt(needle, hay, i)
  }

  /** The empty string is in every string. */
  lemma ContainsEmpty(hay: string)
    ensures Contains([], hay)
  {
    assert OccursAt([], hay, 0);
  }

  /** Every string is in itself. */
  lemma ContainsSelf(hay: string)
    ensures Contains(hay, hay)
  {
    assert OccursAt(hay, hay, 0);
  }

  /** A longer string is never in a shorter one. */
  lemma ContainsShorter(needle: string, hay: string)
    requires |needle| > |hay|
    ensures !Contains(needle, hay)
  {
  }
}
