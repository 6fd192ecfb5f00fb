/** The parts of Go's `strings`, `unicode` and `fmt` packages that the harvesters
    rely on. A Go string is modelled as a sequence of Unicode scalar values; every
    pattern the harvesters search for is ASCII, so byte and rune positions agree on
    everything the model states. */
module Text {
  import opened Results

  // ---------------------------------------------------------------------------
  // Prefixes, suffixes and occurrences

  predicate StartsWith(s: string, p: string) {
    |p| <= |s| && s[..|p|] == p
  }

  predicate EndsWith(s: string, p: string) {
    |p| <= |s| && s[|s| - |p|..] == p
  }

  /** `p` occurs in `s` starting at index `i`. */
  predicate OccursAt(s: string, p: string, i: int) {
    0 <= i && i + |p| <= |s| && s[i..i + |p|] == p
  }

  /** strings.Contains: `p` occurs somewhere in `s` (the empty string occurs everywhere). */
  predicate Contains(s: string, p: string)
    decreases |s|
  {
    StartsWith(s, p) || (|s| > 0 && Contains(s[1..], p))
  }

  lemma OccursInTail(s: string, p: string, i: int)
    requires |s| > 0 && i >= 1
    ensures OccursAt(s, p, i) <==> OccursAt(s[1..], p, i - 1)
  {
    if i + |p| <= |s| {
      assert s[1..][i - 1..i - 1 + |p|] == s[i..i + |p|];
    }
  }

  lemma {:induction false} OccursContains(s: string, p: string, i: int)
    requires OccursAt(s, p, i)
    ensures Contains(s, p)
    decreases i
  {
    if i > 0 {
      OccursInTail(s, p, i);
      OccursContains(s[1..], p, i - 1);
    }
  }

  lemma {:induction false} ContainsWitness(s: string, p: string) returns (i: int)
    requires Contains(s, p)
    ensures OccursAt(s, p, i)
    decreases |s|
  {
    if StartsWith(s, p) {
      i := 0;
    } else {
      var j := ContainsWitness(s[1..], p);
      OccursInTail(s, p, j + 1);
      i := j + 1;
    }
  }

  /** An occurrence of `a + b + c` contains an occurrence of `b`. */
  lemma ContainsInfix(s: string, a: string, b: string, c: string)
    requires Contains(s, a + b + c)
    ensures Contains(s, b)
  {
    var i := ContainsWitness(s, a + b + c);
    var w := s[i..i + |a + b + c|];
    assert w == a + b + c;
    forall k | 0 <= k < |b|
      ensures s[i + |a| + k] == b[k]
    {
      assert w[|a| + k] == s[i + |a| + k];
      assert (a + b + c)[|a| + k] == b[k];
    }
    assert s[i + |a|..i + |a| + |b|] == b;
    OccursContains(s, b, i + |a|);
  }

  /** strings.Index: the first position at which `p` occurs in `s`, or -1. */
  function IndexOf(s: string, p: string): (r: int)
    ensures r == -1 <==> !Contains(s, p)
    ensures r >= 0 ==> OccursAt(s, p, r)
    ensures r >= 0 ==> forall j :: 0 <= j < r ==> !OccursAt(s, p, j)
    decreases |s|
  {
    if StartsWith(s, p) then 0
    else if |s| == 0 then -1
    else
      var k := IndexOf(s[1..], p);
      assert forall j :: 1 <= j ==> (OccursAt(s, p, j) <==> OccursAt(s[1..], p, j - 1)) by {
        forall j | 1 <= j {
          OccursInTail(s, p, j);
        }
      }
      if k < 0 then -1 else k + 1
  }

  /** strings.Index of a single character: -1 when it does not occur, else the
      position of its first occurrence. */
  lemma IndexOfChar(s: string, c: char)
    ensures IndexOf(s, [c]) < 0 ==> c !in s
    ensures IndexOf(s, [c]) >= 0 ==> s[IndexOf(s, [c])] == c && c !in s[..IndexOf(s, [c])]
  {
    var i := IndexOf(s, [c]);
    forall j | 0 <= j < |s| && s[j] == c ensures 0 <= i <= j {
      assert s[j..j + 1] == [c];
      assert OccursAt(s, [c], j);
      OccursContains(s, [c], j);
      assert Contains(s, [c]);
      assert i >= 0;
    }
    if i >= 0 {
      assert s[i..i + 1] == [c];
      forall j | 0 <= j < i ensures s[j] != c {
        assert !OccursAt(s, [c], j);
        assert s[j..j + 1] == [s[j]];
      }
    }
  }

  /** A character that `a` does not hold is first found right after `a`. */
  lemma IndexOfAfter(a: string, c: char, rest: string)
    requires c !in a
    ensures IndexOf(a + [c] + rest, [c]) == |a|
  {
    var s := a + [c] + rest;
    assert s[|a|..|a| + 1] == [c];
    assert OccursAt(s, [c], |a|);
    OccursContains(s, [c], |a|);
    forall j | 0 <= j < |a| ensures !OccursAt(s, [c], j) {
      assert s[j] == a[j];
    }
  }

  predicate IsSlash(c: char) {
    c == '/'
  }

  // ---------------------------------------------------------------------------
  // strings.ReplaceAll

  /** strings.ReplaceAll(s, pat, rep): scan left to right, replacing each
      non-overlapping occurrence of `pat` by `rep`. An empty `pat` matches before
      every rune and at the end. */
  function ReplaceAll(s: string, pat: string, rep: string): string
    decreases |s|
  {
    if |pat| == 0 then
      if |s| == 0 then rep else rep + [s[0]] + ReplaceAll(s[1..], pat, rep)
    else if StartsWith(s, pat) then rep + ReplaceAll(s[|pat|..], pat, rep)
    else if |s| == 0 then ""
    else [s[0]] + ReplaceAll(s[1..], pat, rep)
  }

  /** Replacing a pattern that does not occur changes nothing. */
  lemma {:induction false} ReplaceAbsent(s: string, pat: string, rep: string)
    requires |pat| > 0 && !Contains(s, pat)
    ensures ReplaceAll(s, pat, rep) == s
    decreases |s|
  {
    if |s| > 0 {
      ReplaceAbsent(s[1..], pat, rep);
      assert s == [s[0]] + s[1..];
    }
  }

  /** Leftmost-first replacement keeps the text before the first occurrence and
      continues right after it. */
  lemma ReplaceSplice(x: string, pat: string, y: string, rep: string)
    requires |pat| > 0
    requires forall i :: 0 <= i < |x| ==> !OccursAt(x + pat + y, pat, i)
    ensures ReplaceAll(x + pat + y, pat, rep) == x + rep + ReplaceAll(y, pat, rep)
  {
    assert x + pat + y == x + (pat + y);
    ReplaceSkip(x, pat + y, pat, rep);
    assert (pat + y)[..|pat|] == pat;
    assert (pat + y)[|pat|..] == y;
    assert x + (rep + ReplaceAll(y, pat, rep)) == x + rep + ReplaceAll(y, pat, rep);
  }

  /** The conditions under which putting `rep` into a string cannot create a new
      occurrence of `q`: `q` cannot start inside `rep` (its first character does
      not occur after `rep`'s first position), `rep`'s first character cannot
      continue a partial `q`, and `rep` itself differs from `q` early on. */
  ghost predicate SafeReplacement(rep: string, q: string) {
    && |rep| > 0 && |q| > 0
    && (forall j :: 1 <= j < |q| ==> q[j] != rep[0])
    && (forall j :: 1 <= j < |rep| ==> rep[j] != q[0])
    && (exists j :: 0 <= j < |rep| && j < |q| && rep[j] != q[j])
  }

  lemma {:induction false} SafeConcatTail(rep: string, x: string, q: string, i: nat)
    requires SafeReplacement(rep, q) && !Contains(x, q)
    requires 1 <= i <= |rep|
    ensures !Contains(rep[i..] + x, q)
    decreases |rep| - i
  {
    if i == |rep| {
      assert rep[i..] + x == x;
    } else {
      var s := rep[i..] + x;
      assert s[0] == rep[i];
      assert !StartsWith(s, q);
      assert s[1..] == rep[i + 1..] + x;
      SafeConcatTail(rep, x, q, i + 1);
    }
  }

  lemma SafeConcat(rep: string, x: string, q: string)
    requires SafeReplacement(rep, q) && !Contains(x, q)
    ensures !Contains(rep + x, q)
  {
    var s := rep + x;
    assert !StartsWith(s, q);
    assert s[1..] == rep[1..] + x;
    SafeConcatTail(rep, x, q, 1);
  }

  /** If the result of a replacement starts with a proper suffix `q[k..]` of `q`,
      so did the original string: `rep` cannot supply a continuation of `q`. */
  lemma {:induction false} PrefixReflect(t: string, pat: string, rep: string, q: string, k: nat)
    requires |pat| > 0 && SafeReplacement(rep, q)
    requires 1 <= k < |q|
    requires StartsWith(ReplaceAll(t, pat, rep), q[k..])
    ensures StartsWith(t, q[k..])
    decreases |t|
  {
    var r := ReplaceAll(t, pat, rep);
    assert r[0] == q[k] by {
      assert r[..|q[k..]|][0] == q[k..][0];
    }
    if StartsWith(t, pat) {
      assert false;
    } else if |t| == 0 {
      assert false;
    } else {
      var r' := ReplaceAll(t[1..], pat, rep);
      assert r == [t[0]] + r';
      if k + 1 < |q| {
        assert r'[..|q[k + 1..]|] == r[1..1 + |q[k + 1..]|];
        assert q[k + 1..] == q[k..][1..];
        assert StartsWith(r', q[k + 1..]);
        PrefixReflect(t[1..], pat, rep, q, k + 1);
        assert t[..|q[k..]|] == [t[0]] + t[1..][..|q[k + 1..]|];
      } else {
        assert q[k..] == [q[k]];
      }
    }
  }

  /** After ReplaceAll, the replaced pattern no longer occurs, provided the
      replacement is safe for it. */
  lemma {:induction false} ReplaceEliminates(s: string, pat: string, rep: string)
    requires SafeReplacement(rep, pat)
    ensures !Contains(ReplaceAll(s, pat, rep), pat)
    decreases |s|
  {
    if StartsWith(s, pat) {
      ReplaceEliminates(s[|pat|..], pat, rep);
      SafeConcat(rep, ReplaceAll(s[|pat|..], pat, rep), pat);
    } else if |s| > 0 {
      var r' := ReplaceAll(s[1..], pat, rep);
      var r := [s[0]] + r';
      ReplaceEliminates(s[1..], pat, rep);
      assert r[1..] == r';
      if StartsWith(r, pat) {
        if |pat| == 1 {
          assert false;
        } else {
          assert r'[..|pat[1..]|] == r[1..|pat|];
          assert StartsWith(r', pat[1..]);
          PrefixReflect(s[1..], pat, rep, pat, 1);
          assert false;
        }
      }
    }
  }

  /** ReplaceAll with a safe replacement does not create occurrences of `q`. */
  lemma {:induction false} ReplaceKeepsAbsent(s: string, pat: string, rep: string, q: string)
    requires |pat| > 0 && SafeReplacement(rep, q) && !Contains(s, q)
    ensures !Contains(ReplaceAll(s, pat, rep), q)
    decreases |s|
  {
    if StartsWith(s, pat) {
      assert !Contains(s[|pat|..], q) by {
        if Contains(s[|pat|..], q) {
          var i := ContainsWitness(s[|pat|..], q);
          assert s[|pat|..][i..i + |q|] == s[|pat| + i..|pat| + i + |q|];
          OccursContains(s, q, |pat| + i);
        }
      }
      ReplaceKeepsAbsent(s[|pat|..], pat, rep, q);
      SafeConcat(rep, ReplaceAll(s[|pat|..], pat, rep), q);
    } else if |s| > 0 {
      var r' := ReplaceAll(s[1..], pat, rep);
      var r := [s[0]] + r';
      ReplaceKeepsAbsent(s[1..], pat, rep, q);
      assert r[1..] == r';
      if StartsWith(r, q) {
        if |q| == 1 {
          assert false;
        } else {
          assert r'[..|q[1..]|] == r[1..|q|];
          assert StartsWith(r', q[1..]);
          PrefixReflect(s[1..], pat, rep, q, 1);
          assert false;
        }
      }
    }
  }

  /** A first character that starts no occurrence is copied. */
  lemma ReplaceCons(c: char, t: string, pat: string, rep: string)
    requires |pat| > 0 && !StartsWith([c] + t, pat)
    ensures ReplaceAll([c] + t, pat, rep) == [c] + ReplaceAll(t, pat, rep)
  {
    assert ([c] + t)[1..] == t;
  }

  /** Leftmost-first replacement copies a prefix in which no occurrence starts. */
  lemma {:induction false} ReplaceSkip(x: string, y: string, pat: string, rep: string)
    requires |pat| > 0
    requires forall i :: 0 <= i < |x| ==> !OccursAt(x + y, pat, i)
    ensures ReplaceAll(x + y, pat, rep) == x + ReplaceAll(y, pat, rep)
    decreases |x|
  {
    if x != [] {
      var s := x + y;
      var s' := x[1..] + y;
      assert s == [x[0]] + s';
      assert !OccursAt(s, pat, 0);
      forall i | 0 <= i < |x| - 1
        ensures !OccursAt(s', pat, i)
      {
        OccursInTail(s, pat, i + 1);
      }
      ReplaceSkip(x[1..], y, pat, rep);
      ReplaceCons(x[0], s', pat, rep);
      assert x + ReplaceAll(y, pat, rep) == [x[0]] + (x[1..] + ReplaceAll(y, pat, rep));
    } else {
      assert x + y == y;
    }
  }

  /** A string `q` that is safe against `rep` cannot start inside `rep`, so
      replacing `q` copies a leading `rep` unchanged. */
  lemma SafeSkip(rep: string, y: string, q: string, r: string)
    requires SafeReplacement(rep, q)
    ensures ReplaceAll(rep + y, q, r) == rep + ReplaceAll(y, q, r)
  {
    var s := rep + y;
    forall i | 0 <= i < |rep|
      ensures !OccursAt(s, q, i)
    {
      if i == 0 {
        var j :| 0 <= j < |rep| && j < |q| && rep[j] != q[j];
        assert s[j] == rep[j];
      } else {
        assert s[i] == rep[i];
      }
    }
    ReplaceSkip(rep, y, q, r);
  }

  lemma StartsWithCons(c: char, u: string, q: string)
    ensures StartsWith([c] + u, q) <==> |q| == 0 || (c == q[0] && StartsWith(u, q[1..]))
  {
    if 0 < |q| <= |u| + 1 {
      assert ([c] + u)[..|q|] == [c] + u[..|q| - 1];
      assert q == [q[0]] + q[1..];
    }
  }

  /** A replacement safe for `q` does not make a string start with `q` that did not
      start with `q` or with the replaced pattern. */
  lemma NoNewStart(t: string, pat: string, rep: string, q: string)
    requires |pat| > 0 && SafeReplacement(rep, q)
    requires |t| > 0 && !StartsWith(t, pat) && !StartsWith(t, q)
    ensures !StartsWith(ReplaceAll(t, pat, rep), q)
  {
    var r' := ReplaceAll(t[1..], pat, rep);
    assert ReplaceAll(t, pat, rep) == [t[0]] + r';
    assert t == [t[0]] + t[1..];
    StartsWithCons(t[0], r', q);
    StartsWithCons(t[0], t[1..], q);
    if |q| >= 2 && t[0] == q[0] && StartsWith(r', q[1..]) {
      PrefixReflect(t[1..], pat, rep, q, 1);
    }
  }

  /** Two patterns that cannot overlap each other or the common replacement may be
      replaced in either order. */
  lemma {:induction false} ReplaceCommute(t: string, p: string, q: string, m: string)
    requires SafeReplacement(m, p) && SafeReplacement(m, q)
    requires SafeReplacement(p, q) && SafeReplacement(q, p)
    ensures ReplaceAll(ReplaceAll(t, p, m), q, m) == ReplaceAll(ReplaceAll(t, q, m), p, m)
    decreases |t|
  {
    if t == [] {
    } else if StartsWith(t, p) {
      var t' := t[|p|..];
      assert t == p + t';
      SafeSkip(m, ReplaceAll(t', p, m), q, m);
      SafeSkip(p, t', q, m);
      var y := ReplaceAll(t', q, m);
      assert (p + y)[..|p|] == p && (p + y)[|p|..] == y;
      ReplaceCommute(t', p, q, m);
    } else if StartsWith(t, q) {
      var t' := t[|q|..];
      assert t == q + t';
      SafeSkip(m, ReplaceAll(t', q, m), p, m);
      SafeSkip(q, t', p, m);
      var y := ReplaceAll(t', p, m);
      assert (q + y)[..|q|] == q && (q + y)[|q|..] == y;
      ReplaceCommute(t', p, q, m);
    } else {
      var a := ReplaceAll(t[1..], p, m);
      var b := ReplaceAll(t[1..], q, m);
      NoNewStart(t, p, m, q);
      NoNewStart(t, q, m, p);
      assert ([t[0]] + a)[1..] == a;
      assert ([t[0]] + b)[1..] == b;
      ReplaceCommute(t[1..], p, q, m);
    }
  }

  // ---------------------------------------------------------------------------
  // White space, trimming and case

  /** unicode.IsSpace: the Latin-1 spaces and the Unicode White_Space runes. */
  predicate IsSpace(c: char) {
    || c == '\t' || c == '\n' || c == '\U{000B}' || c == '\U{000C}' || c == '\r' || c == ' '
    || c == '\U{0085}' || c == '\U{00A0}' || c == '\U{1680}'
    || ('\U{2000}' <= c <= '\U{200A}')
    || c == '\U{2028}' || c == '\U{2029}' || c == '\U{202F}' || c == '\U{205F}' || c == '\U{3000}'
  }

  /** Drops the leading characters selected by `cut` (strings.TrimLeft/TrimLeftFunc). */
  function TrimLeftBy(s: string, cut: char -> bool): (r: string)
    ensures |r| <= |s| && r == s[|s| - |r|..]
    ensures r == [] || !cut(r[0])
    ensures forall i :: 0 <= i < |s| - |r| ==> cut(s[i])
    decreases |s|
  {
    if |s| > 0 && cut(s[0]) then TrimLeftBy(s[1..], cut) else s
  }

  /** Drops the trailing characters selected by `cut` (strings.TrimRight/TrimRightFunc). */
  function TrimRightBy(s: string, cut: char -> bool): (r: string)
    ensures |r| <= |s| && r == s[..|r|]
    ensures r == [] || !cut(r[|r| - 1])
    ensures forall i :: |r| <= i < |s| ==> cut(s[i])
    decreases |s|
  {
    if |s| > 0 && cut(s[|s| - 1]) then TrimRightBy(s[..|s| - 1], cut) else s
  }

  /** Neither end of `s` is selected by `cut`. */
  predicate TrimmedBy(s: string, cut: char -> bool) {
    s == [] || (!cut(s[0]) && !cut(s[|s| - 1]))
  }

  /** `r` is the slice of `s` at offset `a`, and every character of `s` before or
      after it is selected by `cut`. */
  ghost predicate CutAt(s: string, r: string, cut: char -> bool, a: int) {
    && 0 <= a && a + |r| <= |s| && r == s[a..a + |r|]
    && (forall i :: 0 <= i < a ==> cut(s[i]))
    && (forall i :: a + |r| <= i < |s| ==> cut(s[i]))
  }

  /** `r` is `s` with a run of characters selected by `cut` removed from each end. */
  ghost predicate CutAround(s: string, r: string, cut: char -> bool) {
    exists a :: CutAt(s, r, cut, a)
  }

  /** strings.Trim / strings.TrimFunc: both ends. */
  function TrimBy(s: string, cut: char -> bool): (r: string)
    ensures TrimmedBy(r, cut)
    ensures |r| <= |s|
  {
    var l := TrimLeftBy(s, cut);
    var r := TrimRightBy(l, cut);
    assert r != [] ==> r[0] == l[0];
    r
  }

  /** What trimming means: the result is the one slice of `s` that is cut around
      only by selected characters and has no selected character at either end. */
  lemma TrimByCharacterized(s: string, r: string, cut: char -> bool)
    ensures r == TrimBy(s, cut) <==> TrimmedBy(r, cut) && CutAround(s, r, cut)
  {
    var l := TrimLeftBy(s, cut);
    var t := TrimBy(s, cut);
    CutBothEnds(s, l, t, cut);
    if TrimmedBy(r, cut) && CutAround(s, r, cut) {
      var a :| CutAt(s, r, cut, a);
      CutAtUnique(s, r, t, cut, a, |s| - |l|);
    }
  }

  /** Two trimmed slices cut around by selected characters only are the same. */
  lemma CutAtUnique(s: string, r: string, t: string, cut: char -> bool, a: int, b: int)
    requires CutAt(s, r, cut, a) && TrimmedBy(r, cut)
    requires CutAt(s, t, cut, b) && TrimmedBy(t, cut)
    ensures r == t
  {
    if r != [] {
      assert s[a] == r[0] && s[a + |r| - 1] == r[|r| - 1];
    }
    if t != [] {
      assert s[b] == t[0] && s[b + |t| - 1] == t[|t| - 1];
    }
    if r != [] && t != [] {
      assert a == b;
      assert a + |r| == b + |t|;
    }
  }

  /** Cutting a prefix and then a suffix cuts around a slice of the original. */
  lemma CutBothEnds(s: string, l: string, r: string, cut: char -> bool)
    requires |l| <= |s| && l == s[|s| - |l|..] && forall i :: 0 <= i < |s| - |l| ==> cut(s[i])
    requires |r| <= |l| && r == l[..|r|] && forall i :: |r| <= i < |l| ==> cut(l[i])
    ensures CutAt(s, r, cut, |s| - |l|)
  {
    var a := |s| - |l|;
    assert r == s[a..a + |r|];
    forall i | a + |r| <= i < |s| ensures cut(s[i]) {
      assert s[i] == l[i - a];
    }
  }

  lemma TrimOfTrimmed(s: string, cut: char -> bool)
    requires TrimmedBy(s, cut)
    ensures TrimBy(s, cut) == s
  {
  }

  /** TrimSpace removes exactly the white space around the text. */
  lemma TrimSpaceCharacterized(s: string, r: string)
    ensures r == TrimSpace(s) <==> TrimmedBy(r, IsSpace) && CutAround(s, r, IsSpace)
  {
    TrimByCharacterized(s, r, IsSpace);
  }

  /** strings.TrimSpace */
  function TrimSpace(s: string): (r: string)
    ensures TrimmedBy(r, IsSpace)
    ensures |r| <= |s|
  {
    TrimBy(s, IsSpace)
  }

  /** unicode.ToLower restricted to what a comparison with an ASCII literal can
      observe: ASCII capitals, and the two non-ASCII runes whose lower case is ASCII
      (U+0130 to 'i', the Kelvin sign U+212A to 'k'). Every other rune keeps a
      non-ASCII lower case in Go and is left as it is here. */
  function LowerRune(c: char): char {
    if 'A' <= c <= 'Z' then (c as int + 32) as char
    else if c == '\U{0130}' then 'i'
    else if c == '\U{212A}' then 'k'
    else c
  }

  function ToLower(s: string): (r: string)
    ensures |r| == |s|
    ensures forall i :: 0 <= i < |s| ==> r[i] == LowerRune(s[i])
  {
    seq(|s|, i requires 0 <= i < |s| => LowerRune(s[i]))
  }

  /** `c` lower-cases to the ASCII character `t`, which is not itself a capital:
      `c` is `t`, or its ASCII capital, or one of the two non-ASCII runes whose lower
      case is ASCII. */
  predicate LowersTo(c: char, t: char) {
    || c == t
    || ('a' <= t <= 'z' && c as int == t as int - 32)
    || (t == 'i' && c == '\U{0130}')
    || (t == 'k' && c == '\U{212A}')
  }

  /** Comparing strings.ToLower(k) with an ASCII literal that has no capitals
      accepts exactly the keys that spell the literal letter by letter in either
      case, with U+0130 allowed for 'i' and the Kelvin sign for 'k'. */
  lemma ToLowerMatches(k: string, lit: string)
    requires forall i :: 0 <= i < |lit| ==> lit[i] < '\U{0080}' && !('A' <= lit[i] <= 'Z')
    ensures ToLower(k) == lit <==> |k| == |lit| && forall i :: 0 <= i < |k| ==> LowersTo(k[i], lit[i])
  {
    if |k| == |lit| && forall i :: 0 <= i < |k| ==> LowersTo(k[i], lit[i]) {
      assert forall i :: 0 <= i < |k| ==> ToLower(k)[i] == lit[i];
    }
  }

  /** Lower-casing twice is lower-casing once. */
  lemma ToLowerIdempotent(s: string)
    ensures ToLower(ToLower(s)) == ToLower(s)
  {
  }

  /** ASCII case-insensitive equality. */
  predicate EqualFoldAscii(a: string, b: string) {
    |a| == |b| && forall i :: 0 <= i < |a| ==> AsciiLower(a[i]) == AsciiLower(b[i])
  }

  function AsciiLower(c: char): char {
    if 'A' <= c <= 'Z' then (c as int + 32) as char else c
  }

  // ---------------------------------------------------------------------------
  // strings.Fields

  predicate NoSpace(s: string) {
    forall i :: 0 <= i < |s| ==> !IsSpace(s[i])
  }

  /** The characters of `s` that are not white space, in order. */
  function WithoutSpaces(s: string): string {
    if s == [] then [] else (if IsSpace(s[0]) then [] else [s[0]]) + WithoutSpaces(s[1..])
  }

  /** Length of the leading run of non-space characters. */
  function WordLength(s: string): (n: nat)
    ensures n <= |s|
    ensures forall i :: 0 <= i < n ==> !IsSpace(s[i])
    ensures n == |s| || IsSpace(s[n])
  {
    if s == [] || IsSpace(s[0]) then 0 else 1 + WordLength(s[1..])
  }

  lemma {:induction false} WithoutSpacesAppend(a: string, b: string)
    ensures WithoutSpaces(a + b) == WithoutSpaces(a) + WithoutSpaces(b)
    decreases |a|
  {
    if a == [] {
      assert a + b == b;
    } else {
      assert (a + b)[1..] == a[1..] + b;
      WithoutSpacesAppend(a[1..], b);
    }
  }

  lemma {:induction false} WithoutSpacesOfSpaces(s: string)
    requires forall i :: 0 <= i < |s| ==> IsSpace(s[i])
    ensures WithoutSpaces(s) == []
    decreases |s|
  {
    if s != [] {
      WithoutSpacesOfSpaces(s[1..]);
    }
  }

  lemma {:induction false} WithoutSpacesOfWord(s: string)
    requires NoSpace(s)
    ensures WithoutSpaces(s) == s
    decreases |s|
  {
    if s != [] {
      WithoutSpacesOfWord(s[1..]);
      assert s == [s[0]] + s[1..];
    }
  }

  /** Every string of `r` is a non-empty run of non-space characters. */
  predicate Words(r: seq<string>) {
    forall k :: 0 <= k < |r| ==> r[k] != [] && NoSpace(r[k])
  }

  /** The leading word of a string that starts with a non-space character is a word. */
  lemma WordsCons(t: string, rest: seq<string>)
    requires t != [] && !IsSpace(t[0]) && Words(rest)
    ensures Words([t[..WordLength(t)]] + rest)
  {
    var w := t[..WordLength(t)];
    assert w != [] && NoSpace(w);
    var r := [w] + rest;
    forall k | 0 <= k < |r| ensures r[k] != [] && NoSpace(r[k]) {
      if k > 0 {
        assert r[k] == rest[k - 1];
      }
    }
  }

  /** strings.Fields: the maximal runs of non-space characters. Together the fields
      hold exactly the non-space characters of `s`, in order. */
  function Fields(s: string): (r: seq<string>)
    ensures Words(r)
    decreases |s|
  {
    var t := TrimLeftBy(s, IsSpace);
    if t == [] then []
    else
      var n := WordLength(t);
      var rest := Fields(t[n..]);
      WordsCons(t, rest);
      [t[..n]] + rest
  }

  /** Leading white space contributes nothing to the non-space characters. */
  lemma WithoutLeadingSpaces(s: string)
    ensures WithoutSpaces(s) == WithoutSpaces(TrimLeftBy(s, IsSpace))
  {
    var t := TrimLeftBy(s, IsSpace);
    var lead := s[..|s| - |t|];
    assert s == lead + t;
    WithoutSpacesOfSpaces(lead);
    WithoutSpacesAppend(lead, t);
  }

  /** The leading word of `t` passes through whole. */
  lemma WithoutSpacesOfLeadingWord(t: string)
    ensures WithoutSpaces(t) == t[..WordLength(t)] + WithoutSpaces(t[WordLength(t)..])
  {
    var n := WordLength(t);
    assert t == t[..n] + t[n..];
    WithoutSpacesAppend(t[..n], t[n..]);
    WithoutSpacesOfWord(t[..n]);
  }

  /** One step of strings.Fields and of the concatenation of its result. */
  lemma ConcatFieldsStep(s: string)
    requires TrimLeftBy(s, IsSpace) != []
    ensures var t := TrimLeftBy(s, IsSpace); var n := WordLength(t);
            Concat(Fields(s)) == t[..n] + Concat(Fields(t[n..]))
  {
    var t := TrimLeftBy(s, IsSpace);
    var n := WordLength(t);
    var f := Fields(t[n..]);
    assert Fields(s) == [t[..n]] + f;
    assert ([t[..n]] + f)[1..] == f;
  }

  /** Together the fields hold exactly the non-space characters of `s`, in order. */
  lemma {:induction false} FieldsCoverText(s: string)
    ensures Concat(Fields(s)) == WithoutSpaces(s)
    decreases |s|
  {
    var t := TrimLeftBy(s, IsSpace);
    WithoutLeadingSpaces(s);
    if t != [] {
      var n := WordLength(t);
      WithoutSpacesOfLeadingWord(t);
      FieldsCoverText(t[n..]);
      ConcatFieldsStep(s);
    }
  }

  /** Every character of `s` is white space. */
  predicate AllSpace(s: string) {
    forall i :: 0 <= i < |s| ==> IsSpace(s[i])
  }

  /** Trimming the front of `a + b` trims into `b` only when all of `a` goes. */
  lemma {:induction false} TrimLeftAppend(a: string, b: string, cut: char -> bool)
    ensures TrimLeftBy(a + b, cut) ==
              if TrimLeftBy(a, cut) == [] then TrimLeftBy(b, cut) else TrimLeftBy(a, cut) + b
    decreases |a|
  {
    if a == [] {
      assert a + b == b;
    } else {
      assert (a + b)[0] == a[0];
      assert (a + b)[1..] == a[1..] + b;
      if cut(a[0]) {
        TrimLeftAppend(a[1..], b, cut);
      }
    }
  }

  /** Nothing of a run of white space survives trimming. */
  lemma {:induction false} TrimLeftOfSpaces(w: string)
    requires AllSpace(w)
    ensures TrimLeftBy(w, IsSpace) == []
    decreases |w|
  {
    if w != [] {
      TrimLeftOfSpaces(w[1..]);
    }
  }

  /** The fields of a string are decided by what is left once its leading white
      space is dropped. */
  lemma FieldsSameStart(x: string, y: string)
    requires TrimLeftBy(x, IsSpace) == TrimLeftBy(y, IsSpace)
    ensures Fields(x) == Fields(y)
  {
  }

  /** One step of strings.Fields: the leading word, then the fields of the rest. */
  lemma FieldsStep(s: string)
    requires TrimLeftBy(s, IsSpace) != []
    ensures var t := TrimLeftBy(s, IsSpace);
            Fields(s) == [t[..WordLength(t)]] + Fields(t[WordLength(t)..])
  {
  }

  /** Leading white space does not change the fields. */
  lemma FieldsAfterSpaces(lead: string, s: string)
    requires AllSpace(lead)
    ensures Fields(lead + s) == Fields(s)
  {
    TrimLeftOfSpaces(lead);
    TrimLeftAppend(lead, s, IsSpace);
    FieldsSameStart(lead + s, s);
  }

  /** A word ends where the text or the white space after it begins. */
  lemma {:induction false} WordLengthBeforeSpaces(t: string, w: string)
    requires AllSpace(w)
    ensures WordLength(t + w) == WordLength(t)
    decreases |t|
  {
    if t == [] {
      assert t + w == w;
    } else {
      assert (t + w)[0] == t[0];
      assert (t + w)[1..] == t[1..] + w;
      if !IsSpace(t[0]) {
        WordLengthBeforeSpaces(t[1..], w);
      }
    }
  }

  lemma FieldsOfEmpty()
    ensures Fields("") == []
  {
  }

  lemma SplitAt(s: string, k: nat)
    requires k <= |s|
    ensures s == s[..k] + s[k..]
  {
  }

  lemma SplitAppend(t: string, w: string, n: nat)
    requires n <= |t|
    ensures (t + w)[..n] == t[..n] && (t + w)[n..] == t[n..] + w
  {
  }

  /** Trailing white space does not change the fields. */
  lemma {:induction false} FieldsBeforeSpaces(s: string, w: string)
    requires AllSpace(w)
    ensures Fields(s + w) == Fields(s)
    decreases |s|
  {
    var t := TrimLeftBy(s, IsSpace);
    TrimLeftAppend(s, w, IsSpace);
    if t == [] {
      TrimLeftOfSpaces(w);
      assert Fields(s + w) == [] && Fields(s) == [];
    } else {
      var n := WordLength(t);
      WordLengthBeforeSpaces(t, w);
      SplitAppend(t, w, n);
      FieldsBeforeSpaces(t[n..], w);
      FieldsStep(s);
      FieldsStep(s + w);
    }
  }

  lemma SpacesAfterTrim(s: string)
    ensures AllSpace(s[|TrimRightBy(s, IsSpace)|..])
  {
  }

  lemma TrimSpaceIs(s: string)
    ensures TrimSpace(s) == TrimRightBy(TrimLeftBy(s, IsSpace), IsSpace)
  {
  }

  lemma TrimLeftIdempotent(s: string)
    ensures TrimLeftBy(TrimLeftBy(s, IsSpace), IsSpace) == TrimLeftBy(s, IsSpace)
  {
  }

  /** Leading white space is not seen by strings.Fields. */
  lemma FieldsOfTrimLeft(s: string)
    ensures Fields(TrimLeftBy(s, IsSpace)) == Fields(s)
  {
    TrimLeftIdempotent(s);
    FieldsSameStart(TrimLeftBy(s, IsSpace), s);
  }

  /** Trailing white space is not seen by strings.Fields. */
  lemma FieldsOfTrimRight(s: string)
    ensures Fields(TrimRightBy(s, IsSpace)) == Fields(s)
  {
    var r := TrimRightBy(s, IsSpace);
    SplitAt(s, |r|);
    SpacesAfterTrim(s);
    FieldsBeforeSpaces(r, s[|r|..]);
  }

  /** strings.Fields does not see the white space strings.TrimSpace removes. */
  lemma FieldsOfTrimSpace(s: string)
    ensures Fields(TrimSpace(s)) == Fields(s)
  {
    TrimSpaceIs(s);
    FieldsOfTrimLeft(s);
    FieldsOfTrimRight(TrimLeftBy(s, IsSpace));
  }

  function Concat(xs: seq<string>): string {
    if xs == [] then [] else xs[0] + Concat(xs[1..])
  }

  // ---------------------------------------------------------------------------
  // strings.Split on a single separator

  /** strings.Split(s, [sep]): the pieces between separators; always at least one. */
  function SplitOn(s: string, sep: char): (r: seq<string>)
    ensures |r| >= 1
    decreases |s|
  {
    var i := IndexOf(s, [sep]);
    if i < 0 then [s] else [s[..i]] + SplitOn(s[i + 1..], sep)
  }

  // ---------------------------------------------------------------------------
  // Decimal rendering of integers (fmt "%.0f" of an integral value)

  predicate IsDigit(c: char) {
    '0' <= c <= '9'
  }

  function DigitChar(d: nat): (c: char)
    requires d < 10
    ensures IsDigit(c) && c as int - '0' as int == d
  {
    (d + '0' as int) as char
  }

  /** The decimal digits of `n`, most significant first, without leading zeros. */
  function NatDigits(n: nat): (r: string)
    ensures |r| >= 1 && forall i :: 0 <= i < |r| ==> IsDigit(r[i])
    ensures |r| > 1 ==> r[0] != '0'
    decreases n
  {
    if n < 10 then [DigitChar(n)] else NatDigits(n / 10) + [DigitChar(n % 10)]
  }

  /** How an integral JSON number is written out as an identifier: an optional
      minus sign and the decimal digits, with no exponent, fraction or padding. */
  function Decimal(n: int): (r: string)
    ensures r != [] && NoSpace(r)
    ensures TrimmedBy(r, IsSpace)
  {
    if n < 0 then "-" + NatDigits(-n) else NatDigits(n)
  }

  function DigitsValue(s: string): nat
    requires forall i :: 0 <= i < |s| ==> IsDigit(s[i])
    decreases |s|
  {
    if s == [] then 0
    else
      var last := s[|s| - 1];
      assert IsDigit(last);
      10 * DigitsValue(s[..|s| - 1]) + (last as int - '0' as int)
  }

  /** Reads back a string written by Decimal. */
  function ParseDecimal(s: string): Option<int> {
    if |s| >= 2 && s[0] == '-' && forall i :: 1 <= i < |s| ==> IsDigit(s[i]) then
      var v: int := DigitsValue(s[1..]);
      Some(-v)
    else if |s| >= 1 && forall i :: 0 <= i < |s| ==> IsDigit(s[i]) then Some(DigitsValue(s))
    else None
  }

  lemma {:induction false} NatDigitsValue(n: nat)
    ensures DigitsValue(NatDigits(n)) == n
    decreases n
  {
    if n >= 10 {
      NatDigitsValue(n / 10);
      var r := NatDigits(n);
      assert r[..|r| - 1] == NatDigits(n / 10);
    }
  }

  /** The decimal form determines the number: distinct numbers give distinct ids. */
  lemma DecimalRoundTrip(n: int)
    ensures ParseDecimal(Decimal(n)) == Some(n)
  {
    NatDigitsValue(if n < 0 then -n else n);
    if n < 0 {
      assert Decimal(n)[1..] == NatDigits(-n);
    }
  }

  lemma DecimalInjective(m: int, n: int)
    requires Decimal(m) == Decimal(n)
    ensures m == n
  {
    DecimalRoundTrip(m);
    DecimalRoundTrip(n);
  }
}
