/**
  Character classes and the small string operations the normalizers are built
  from: Python's `str.strip()`, `str.lower()`, `str.split(',')`, `str(int)`,
  and the regular-expression classes `\d`, `\s` and `\w`.

  Whitespace is exactly the set of code points for which Python's
  `str.isspace()` holds; digits, word characters and case folding are the
  ASCII ones.
 */
module Text {

  predicate IsDigit(c: char) { '0' <= c <= '9' }

  predicate IsUpper(c: char) { 'A' <= c <= 'Z' }

  predicate IsLower(c: char) { 'a' <= c <= 'z' }

  /** `\w`: letters, digits and the underscore. */
  predicate IsWordChar(c: char) { IsUpper(c) || IsLower(c) || IsDigit(c) || c == '_' }

  /** `\s` and the characters `str.strip()` removes. */
  predicate IsSpace(c: char) {
    var n := c as int;
    9 <= n <= 13 || 28 <= n <= 32 || n == 0x85 || n == 0xA0 || n == 0x1680
    || 0x2000 <= n <= 0x200A || n == 0x2028 || n == 0x2029 || n == 0x202F
    || n == 0x205F || n == 0x3000
  }

  predicate HasDigit(s: string) { exists i :: 0 <= i < |s| && IsDigit(s[i]) }

  lemma HasDigitCons(s: string)
    requires s != []
    ensures HasDigit(s) <==> IsDigit(s[0]) || HasDigit(s[1..])
  {
    if HasDigit(s[1..]) {
      var i :| 0 <= i < |s[1..]| && IsDigit(s[1..][i]);
      assert s[i + 1] == s[1..][i];
    }
    if HasDigit(s) && !IsDigit(s[0]) {
      var i :| 0 <= i < |s| && IsDigit(s[i]);
      assert s[1..][i - 1] == s[i];
    }
  }

  lemma HasDigitAppend(a: string, b: string)
    ensures HasDigit(a + b) <==> HasDigit(a) || HasDigit(b)
  {
    if HasDigit(a) {
      var i :| 0 <= i < |a| && IsDigit(a[i]);
      assert (a + b)[i] == a[i];
    }
    if HasDigit(b) {
      var i :| 0 <= i < |b| && IsDigit(b[i]);
      assert (a + b)[|a| + i] == b[i];
    }
    if HasDigit(a + b) {
      var i :| 0 <= i < |a + b| && IsDigit((a + b)[i]);
      if i < |a| {
        assert a[i] == (a + b)[i];
      } else {
        assert b[i - |a|] == (a + b)[i];
      }
    }
  }

  predicate AllDigits(s: string) { forall i :: 0 <= i < |s| ==> IsDigit(s[i]) }

  predicate NoUpper(s: string) { forall i :: 0 <= i < |s| ==> !IsUpper(s[i]) }

  /** No leading or trailing whitespace. */
  predicate Trimmed(s: string) { s == [] || (!IsSpace(s[0]) && !IsSpace(s[|s| - 1])) }

  /** The shape `re.sub(r'\s+', ' ', x).strip()` leaves: trimmed, every
      whitespace character a plain space, and no two of them adjacent. */
  predicate SingleSpaced(s: string) { Trimmed(s) && SpacesCollapsed(s) }

  /* ---------------- case ---------------- */

  function LowerChar(c: char): (r: char)
    ensures !IsUpper(r)
    ensures IsSpace(r) == IsSpace(c) && IsDigit(r) == IsDigit(c) && IsWordChar(r) == IsWordChar(c)
  {
    if IsUpper(c) then (c as int + 32) as char else c
  }

  /** `str.lower()`. */
  function Lower(s: string): (r: string)
    ensures |r| == |s| && NoUpper(r)
    ensures forall i :: 0 <= i < |s| ==> r[i] == LowerChar(s[i])
  {
    if s == [] then [] else [LowerChar(s[0])] + Lower(s[1..])
  }

  /** Lowercasing leaves lowercase text as it is. */
  lemma LowerOfLower(s: string)
    requires NoUpper(s)
    ensures Lower(s) == s
  {
  }

  /** Equality of two characters under `re.IGNORECASE`. */
  predicate SameLetter(a: char, b: char) { LowerChar(a) == LowerChar(b) }

  /** `t` occurs in `s` at position `i`, ignoring case. */
  predicate MatchesAt(s: string, i: nat, t: string) {
    i + |t| <= |s| && forall j :: 0 <= j < |t| ==> SameLetter(s[i + j], t[j])
  }

  /** `t` occurs somewhere in `s`, ignoring case. */
  predicate ContainsIgnoreCase(s: string, t: string) {
    exists i: nat :: i <= |s| && MatchesAt(s, i, t)
  }

  /* ---------------- strip ---------------- */

  function LStrip(s: string): (r: string)
    ensures |r| <= |s| && r == s[|s| - |r|..]
    ensures forall j :: 0 <= j < |s| - |r| ==> IsSpace(s[j])
    ensures r == [] || !IsSpace(r[0])
  {
    if s != [] && IsSpace(s[0]) then LStrip(s[1..]) else s
  }

  function RStrip(s: string): (r: string)
    ensures |r| <= |s| && r == s[..|r|]
    ensures forall j :: |r| <= j < |s| ==> IsSpace(s[j])
    ensures r == [] || !IsSpace(r[|r| - 1])
  {
    if s != [] && IsSpace(s[|s| - 1]) then RStrip(s[..|s| - 1]) else s
  }

  /** How many leading whitespace characters `str.strip()` removes. */
  function StripOffset(s: string): (k: nat)
    ensures k <= |s|
  {
    |s| - |LStrip(s)|
  }

  /** `str.strip()`: the longest infix of `s` without whitespace at either end. */
  function Strip(s: string): (r: string)
    ensures Trimmed(r)
    ensures StripOffset(s) + |r| <= |s| && r == s[StripOffset(s)..StripOffset(s) + |r|]
    ensures forall j :: 0 <= j < StripOffset(s) ==> IsSpace(s[j])
    ensures forall j :: StripOffset(s) + |r| <= j < |s| ==> IsSpace(s[j])
  {
    var l := LStrip(s);
    var r := RStrip(l);
    assert r == s[|s| - |l|..|s| - |l| + |r|];
    r
  }

  lemma StripOfTrimmed(s: string)
    requires Trimmed(s)
    ensures Strip(s) == s
  {
    if s != [] {
      assert !IsSpace(s[0]) && !IsSpace(s[|s| - 1]);
    }
  }

  lemma StripKeepsChar(s: string, c: char)
    requires c in Strip(s)
    ensures c in s
  {
    var r := Strip(s);
    var a := StripOffset(s);
    var k :| 0 <= k < |r| && r[k] == c;
    assert s[a + k] == c;
  }

  /** A character that is not whitespace lies between a whitespace prefix
      and a whitespace suffix. */
  lemma InsideSpan(s: string, a: nat, b: nat, k: nat)
    requires a <= b <= |s| && k < |s| && !IsSpace(s[k])
    requires forall j :: 0 <= j < a ==> IsSpace(s[j])
    requires forall j :: b <= j < |s| ==> IsSpace(s[j])
    ensures a <= k < b
  {
  }

  /** Stripping neither adds nor loses digits. */
  lemma StripHasDigit(s: string)
    ensures HasDigit(Strip(s)) <==> HasDigit(s)
  {
    StripIsPadded(s);
    SpanHasDigit(s, StripOffset(s), Strip(s));
  }

  /** `r` sits in `s` at offset `a`, with nothing but whitespace before and after it. */
  predicate Padded(s: string, a: nat, r: string) {
    && a + |r| <= |s| && r == s[a..a + |r|]
    && (forall j :: 0 <= j < a ==> IsSpace(s[j]))
    && (forall j :: a + |r| <= j < |s| ==> IsSpace(s[j]))
  }

  lemma StripIsPadded(s: string)
    ensures Padded(s, StripOffset(s), Strip(s))
  {
  }

  /** An infix of `s` that only whitespace surrounds has the digits of `s`. */
  lemma SpanHasDigit(s: string, a: nat, r: string)
    requires Padded(s, a, r)
    ensures HasDigit(r) <==> HasDigit(s)
  {
    if HasDigit(r) {
      var k :| 0 <= k < |r| && IsDigit(r[k]);
      assert s[a + k] == r[k];
    }
    if HasDigit(s) {
      var k :| 0 <= k < |s| && IsDigit(s[k]);
      InsideSpan(s, a, a + |r|, k);
      assert r[k - a] == s[k];
    }
  }

  /** A string made of whitespace alone strips to the empty string, and only such a string does. */
  lemma StripEmptyIff(s: string)
    ensures Strip(s) == [] <==> forall j :: 0 <= j < |s| ==> IsSpace(s[j])
  {
    if Strip(s) != [] {
      var r := Strip(s);
      assert r[0] == s[StripOffset(s)];
    }
  }

  predicate AllSpace(s: string) {
    forall j :: 0 <= j < |s| ==> IsSpace(s[j])
  }

  /** Whitespace around a trimmed text is exactly what `strip` removes. */
  lemma StripPadded(pre: string, s: string, post: string)
    requires AllSpace(pre) && AllSpace(post) && Trimmed(s) && s != []
    ensures Strip(pre + s + post) == s
  {
    assert pre + s + post == pre + (s + post);
    LStripSpaces(pre, s + post);
    RStripSpaces(s, post);
  }

  lemma {:induction false} LStripSpaces(pre: string, t: string)
    requires AllSpace(pre) && (t == [] || !IsSpace(t[0]))
    ensures LStrip(pre + t) == t
    decreases |pre|
  {
    if pre == [] {
      assert pre + t == t;
    } else {
      assert (pre + t)[1..] == pre[1..] + t;
      LStripSpaces(pre[1..], t);
    }
  }

  lemma {:induction false} RStripSpaces(t: string, post: string)
    requires AllSpace(post) && (t == [] || !IsSpace(t[|t| - 1]))
    ensures RStrip(t + post) == t
    decreases |post|
  {
    if post == [] {
      assert t + post == t;
    } else {
      var u := t + post;
      assert u[..|u| - 1] == t + post[..|post| - 1];
      RStripSpaces(t, post[..|post| - 1]);
    }
  }

  /* ---------------- whitespace runs ---------------- */

  /** Every whitespace character is a plain space and no two are adjacent. */
  predicate SpacesCollapsed(s: string) {
    && (forall i :: 0 <= i < |s| && IsSpace(s[i]) ==> s[i] == ' ')
    && (forall i :: 0 <= i < |s| - 1 ==> !SpacePair(s, i))
  }

  /** Whitespace at `i` and at `i + 1`. */
  predicate SpacePair(s: string, i: nat)
    requires i < |s| - 1
  {
    IsSpace(s[i]) && IsSpace(s[i + 1])
  }

  /** The characters of `s` that are not whitespace, in order. */
  function NonSpace(s: string): string {
    if s == [] then []
    else (if IsSpace(s[0]) then [] else [s[0]]) + NonSpace(s[1..])
  }

  lemma {:induction false} NonSpaceLStrip(s: string)
    ensures NonSpace(LStrip(s)) == NonSpace(s)
    decreases |s|
  {
    if s != [] && IsSpace(s[0]) {
      NonSpaceLStrip(s[1..]);
    }
  }

  /** `re.sub(r'\s+', ' ', s)`: every maximal run of whitespace becomes one
      space; the other characters are kept, in order. */
  function CollapseSpaces(s: string): (r: string)
    ensures r == [] <==> s == []
    ensures s != [] ==> (IsSpace(r[0]) <==> IsSpace(s[0]))
    ensures NonSpace(r) == NonSpace(s)
    decreases |s|
  {
    if s == [] then []
    else if IsSpace(s[0]) then
      NonSpaceLStrip(s);
      [' '] + CollapseSpaces(LStrip(s))
    else [s[0]] + CollapseSpaces(s[1..])
  }

  /** A whitespace run between two texts becomes one space between their
      collapsed forms. */
  lemma {:induction false} CollapseJoin(a: string, sp: string, b: string)
    requires sp != [] && AllSpace(sp)
    requires a == [] || !IsSpace(a[|a| - 1])
    requires b == [] || !IsSpace(b[0])
    ensures CollapseSpaces(a + sp + b) == CollapseSpaces(a) + " " + CollapseSpaces(b)
    decreases |a|, 1
  {
    if a == [] {
      assert a + sp + b == sp + b;
      CollapseRun(sp, b);
    } else if IsSpace(a[0]) {
      CollapseJoinAtRun(a, sp, b);
    } else {
      CollapseJoinAtChar(a, sp, b);
    }
  }

  lemma {:induction false} CollapseJoinAtRun(a: string, sp: string, b: string)
    requires sp != [] && AllSpace(sp)
    requires a != [] && IsSpace(a[0]) && !IsSpace(a[|a| - 1])
    requires b == [] || !IsSpace(b[0])
    ensures CollapseSpaces(a + sp + b) == CollapseSpaces(a) + " " + CollapseSpaces(b)
    decreases |a|, 0
  {
    var t := LStrip(a);
    var x := sp + b;
    ConcatAssoc(a, sp, b);
    LStripAppend(a, x);
    ConcatAssoc(t, sp, b);
    assert t != [] && t[|t| - 1] == a[|a| - 1];
    CollapseJoin(t, sp, b);
    CollapseAtSpace(a);
    CollapseAtSpace(a + x);
    ConcatRegroup(" ", CollapseSpaces(t), " ", CollapseSpaces(b));
  }

  lemma ConcatAssoc(p: string, q: string, r: string)
    ensures p + q + r == p + (q + r)
  {
  }

  lemma ConcatRegroup(p: string, q: string, r: string, w: string)
    ensures p + (q + r + w) == p + q + r + w
  {
  }

  lemma CollapseAtSpace(s: string)
    requires s != [] && IsSpace(s[0])
    ensures CollapseSpaces(s) == " " + CollapseSpaces(LStrip(s))
  {
  }

  lemma {:induction false} CollapseJoinAtChar(a: string, sp: string, b: string)
    requires sp != [] && AllSpace(sp)
    requires a != [] && !IsSpace(a[0]) && !IsSpace(a[|a| - 1])
    requires b == [] || !IsSpace(b[0])
    ensures CollapseSpaces(a + sp + b) == CollapseSpaces(a) + " " + CollapseSpaces(b)
    decreases |a|, 0
  {
    var t := a[1..];
    var u := t + sp + b;
    assert a == [a[0]] + t && a + sp + b == [a[0]] + u;
    assert t == [] || t[|t| - 1] == a[|a| - 1];
    CollapseJoin(t, sp, b);
    CollapseCons(a[0], t);
    CollapseCons(a[0], u);
    ConcatRegroup([a[0]], CollapseSpaces(t), " ", CollapseSpaces(b));
  }

  lemma CollapseCons(c: char, u: string)
    requires !IsSpace(c)
    ensures CollapseSpaces([c] + u) == [c] + CollapseSpaces(u)
  {
    assert ([c] + u)[1..] == u;
  }

  /** A leading whitespace run becomes one space. */
  lemma CollapseRun(sp: string, b: string)
    requires sp != [] && AllSpace(sp)
    requires b == [] || !IsSpace(b[0])
    ensures CollapseSpaces(sp + b) == " " + CollapseSpaces(b)
  {
    assert (sp + b)[0] == sp[0];
    LStripSpaces(sp, b);
  }

  lemma {:induction false} LStripAppend(a: string, x: string)
    requires a != [] && !IsSpace(a[|a| - 1])
    ensures LStrip(a + x) == LStrip(a) + x
    decreases |a|
  {
    if IsSpace(a[0]) {
      assert (a + x)[1..] == a[1..] + x;
      LStripAppend(a[1..], x);
    }
  }

  /** One character in front of a collapsed text keeps it collapsed when it
      is not whitespace, or is a plain space before a non-space. */
  lemma ConsCollapsed(c: char, t: string)
    requires SpacesCollapsed(t)
    requires IsSpace(c) ==> c == ' ' && (t == [] || !IsSpace(t[0]))
    ensures SpacesCollapsed([c] + t)
  {
    var u := [c] + t;
    forall i | 0 <= i < |u| && IsSpace(u[i]) ensures u[i] == ' ' {
      if i > 0 {
        assert u[i] == t[i - 1];
      }
    }
    forall i | 0 <= i < |u| - 1 ensures !SpacePair(u, i) {
      if i > 0 {
        assert u[i] == t[i - 1] && u[i + 1] == t[i];
        assert !SpacePair(t, i - 1);
      }
    }
  }

  /** The rest of the input that `CollapseSpaces` goes on with after the
      first character or whitespace run. */
  function CollapseRest(s: string): (t: string)
    requires s != []
    ensures |t| < |s| && t == s[|s| - |t|..]
  {
    if IsSpace(s[0]) then LStrip(s) else s[1..]
  }

  lemma CollapseStep(s: string)
    requires s != []
    ensures CollapseSpaces(s) == [if IsSpace(s[0]) then ' ' else s[0]] + CollapseSpaces(CollapseRest(s))
    ensures IsSpace(s[0]) ==> CollapseRest(s) == [] || !IsSpace(CollapseRest(s)[0])
  {
  }

  /** The result has no whitespace but single plain spaces. */
  lemma {:induction false} CollapseShape(s: string)
    ensures SpacesCollapsed(CollapseSpaces(s))
    decreases |s|
  {
    if s != [] {
      var t := CollapseRest(s);
      CollapseShape(t);
      CollapseStep(s);
      ConsCollapsed(if IsSpace(s[0]) then ' ' else s[0], CollapseSpaces(t));
    }
  }

  /** The last character of the result is whitespace exactly when the
      input's is. */
  lemma {:induction false} CollapseLast(s: string)
    requires s != []
    ensures IsSpace(CollapseSpaces(s)[|CollapseSpaces(s)| - 1]) <==> IsSpace(s[|s| - 1])
    decreases |s|
  {
    var t := CollapseRest(s);
    CollapseStep(s);
    if t != [] {
      CollapseLast(t);
      assert t[|t| - 1] == s[|s| - 1];
    }
  }

  /** Collapsing adds no uppercase letter. */
  lemma {:induction false} CollapseNoUpper(s: string)
    requires NoUpper(s)
    ensures NoUpper(CollapseSpaces(s))
    decreases |s|
  {
    if s != [] {
      var t := CollapseRest(s);
      SliceKeepsNoUpper(s, |s| - |t|, |s|);
      assert s[|s| - |t|..|s|] == t;
      CollapseNoUpper(t);
      CollapseStep(s);
      var r := CollapseSpaces(s);
      forall i | 0 <= i < |r| ensures !IsUpper(r[i]) {
        if i > 0 {
          assert r[i] == CollapseSpaces(t)[i - 1];
        }
      }
    }
  }

  /** Text without whitespace has no run to collapse. */
  lemma {:induction false} CollapseWithoutSpaces(s: string)
    requires forall i :: 0 <= i < |s| ==> !IsSpace(s[i])
    ensures CollapseSpaces(s) == s
    decreases |s|
  {
    if s != [] {
      CollapseWithoutSpaces(s[1..]);
      assert s == [s[0]] + s[1..];
    }
  }

  /** Collapsing whitespace runs a second time changes nothing. */
  lemma {:induction false} CollapseOfCollapsed(s: string)
    requires SpacesCollapsed(s)
    ensures CollapseSpaces(s) == s
    decreases |s|
  {
    if s != [] {
      SliceKeepsSpacesCollapsed(s, 1, |s|);
      assert s[1..|s|] == s[1..];
      CollapseOfCollapsed(s[1..]);
      if IsSpace(s[0]) {
        assert s[1..] == [] || !IsSpace(s[1]) by {
          if |s| > 1 {
            assert !SpacePair(s, 0);
          }
        }
        assert LStrip(s) == s[1..];
      }
      assert s == [s[0]] + s[1..];
    }
  }

  lemma SliceKeepsSpacesCollapsed(s: string, a: nat, b: nat)
    requires a <= b <= |s| && SpacesCollapsed(s)
    ensures SpacesCollapsed(s[a..b])
  {
    var t := s[a..b];
    forall i | 0 <= i < |t| ensures IsSpace(t[i]) ==> t[i] == ' ' {
      assert t[i] == s[a + i];
    }
    forall i | 0 <= i < |t| - 1 ensures !SpacePair(t, i) {
      assert t[i] == s[a + i] && t[i + 1] == s[a + i + 1];
      assert !SpacePair(s, a + i);
    }
  }

  lemma SliceKeepsNoUpper(s: string, a: nat, b: nat)
    requires a <= b <= |s| && NoUpper(s)
    ensures NoUpper(s[a..b])
  {
    var t := s[a..b];
    forall i | 0 <= i < |t| ensures !IsUpper(t[i]) {
      assert t[i] == s[a + i];
    }
  }

  /** Collapsing the whitespace runs of a trimmed text leaves it single-spaced. */
  lemma CollapseTrimmed(s: string)
    requires Trimmed(s)
    ensures SingleSpaced(CollapseSpaces(s))
    ensures NoUpper(s) ==> NoUpper(CollapseSpaces(s))
  {
    CollapseShape(s);
    if s != [] {
      CollapseLast(s);
    }
    if NoUpper(s) {
      CollapseNoUpper(s);
    }
  }

  /** Stripping a lowercased text leaves it trimmed and lowercase. */
  lemma StripLowerClean(s: string)
    ensures Trimmed(Strip(Lower(s))) && NoUpper(Strip(Lower(s)))
  {
    StripNoUpper(Lower(s));
  }

  /** Collapsing then stripping yields a single-spaced string. */
  lemma CollapseStripSingleSpaced(s: string)
    ensures SingleSpaced(Strip(CollapseSpaces(s)))
    ensures NoUpper(s) ==> NoUpper(Strip(CollapseSpaces(s)))
  {
    CollapseShape(s);
    StripKeepsCollapsed(CollapseSpaces(s));
    if NoUpper(s) {
      CollapseNoUpper(s);
      StripNoUpper(CollapseSpaces(s));
    }
  }

  /** Stripping a collapsed text leaves it single-spaced. */
  lemma StripKeepsCollapsed(c: string)
    requires SpacesCollapsed(c)
    ensures SingleSpaced(Strip(c))
  {
    var a := StripOffset(c);
    var r := Strip(c);
    var b := a + |r|;
    assert r == c[a..b];
    SliceKeepsSpacesCollapsed(c, a, b);
  }

  /** Stripping adds no uppercase letter. */
  lemma StripNoUpper(s: string)
    requires NoUpper(s)
    ensures NoUpper(Strip(s))
  {
    var a := StripOffset(s);
    var r := Strip(s);
    var b := a + |r|;
    assert r == s[a..b];
    SliceKeepsNoUpper(s, a, b);
  }

  /* ---------------- digits ---------------- */

  function DigitValue(c: char): (d: nat)
    requires IsDigit(c)
    ensures d < 10
  {
    c as int - '0' as int
  }

  function DigitChar(d: nat): (c: char)
    requires d < 10
    ensures IsDigit(c) && DigitValue(c) == d
  {
    ('0' as int + d) as char
  }

  function Pow10(n: nat): (p: nat)
    ensures p >= 1
  {
    if n == 0 then 1 else 10 * Pow10(n - 1)
  }

  /** The number a string of decimal digits denotes (Python `int()` on it). */
  function DigitsValue(s: string): (v: nat)
    requires AllDigits(s)
    ensures v < Pow10(|s|)
  {
    if s == [] then 0 else DigitsValue(s[..|s| - 1]) * 10 + DigitValue(s[|s| - 1])
  }

  lemma {:induction false} DigitsValueAppend(a: string, b: string)
    requires AllDigits(a) && AllDigits(b)
    ensures AllDigits(a + b)
    ensures DigitsValue(a + b) == DigitsValue(a) * Pow10(|b|) + DigitsValue(b)
    decreases |b|
  {
    if b == [] {
      assert a + b == a;
    } else {
      var b' := b[..|b| - 1];
      assert (a + b)[..|a + b| - 1] == a + b';
      DigitsValueAppend(a, b');
      var x, y, p, d := DigitsValue(a), DigitsValue(b'), Pow10(|b'|), DigitValue(b[|b| - 1]);
      assert DigitsValue(a + b) == DigitsValue(a + b') * 10 + d;
      assert DigitsValue(b) == y * 10 + d;
      assert Pow10(|b|) == 10 * p;
      Regroup(x, p, y, d);
    }
  }

  lemma Regroup(x: int, p: int, y: int, d: int)
    ensures (x * p + y) * 10 + d == x * (10 * p) + (y * 10 + d)
  {
  }

  /** `str(n)` for a natural number: its shortest decimal numeral. */
  function NatText(n: nat): (s: string)
    ensures s != [] && AllDigits(s) && DigitsValue(s) == n
    ensures |s| > 1 ==> s[0] != '0'
  {
    if n < 10 then [DigitChar(n)]
    else
      var s := NatText(n / 10) + [DigitChar(n % 10)];
      assert s[..|s| - 1] == NatText(n / 10);
      s
  }

  /** `str(n)` for a Python int. */
  function IntText(n: int): (s: string)
    ensures s != [] && HasDigit(s)
    ensures n >= 0 ==> s == NatText(n)
    ensures n < 0 ==> s == "-" + NatText(-n)
  {
    var t := if n < 0 then "-" + NatText(-n) else NatText(n);
    assert IsDigit(t[|t| - 1]);
    t
  }

  /* ---------------- split ---------------- */

  /** `s.split(sep)` with a one-character separator. */
  function Split(s: string, sep: char): (parts: seq<string>)
    ensures |parts| >= 1
    ensures forall k :: 0 <= k < |parts| ==> sep !in parts[k]
  {
    if s == [] then [[]]
    else if s[0] == sep then [[]] + Split(s[1..], sep)
    else
      var rest := Split(s[1..], sep);
      [[s[0]] + rest[0]] + rest[1..]
  }

  /** `sep.join(parts)`. */
  function Join(parts: seq<string>, sep: char): string
    requires |parts| >= 1
  {
    if |parts| == 1 then parts[0] else parts[0] + [sep] + Join(parts[1..], sep)
  }

  /** Splitting on a separator cuts the text at each separator: a separator
      splits the parts of its two sides apart. */
  lemma {:induction false} SplitAppend(a: string, b: string, sep: char)
    ensures Split(a + [sep] + b, sep) == Split(a, sep) + Split(b, sep)
    decreases |a|
  {
    if a == [] {
      assert a + [sep] + b == [sep] + b;
      assert ([sep] + b)[1..] == b;
    } else {
      assert (a + [sep] + b)[1..] == a[1..] + [sep] + b;
      SplitAppend(a[1..], b, sep);
    }
  }

  /** Joining the parts of a split gives back the text. */
  lemma {:induction false} JoinSplit(s: string, sep: char)
    ensures Join(Split(s, sep), sep) == s
    decreases |s|
  {
    if s == [] {
    } else if s[0] == sep {
      JoinSplit(s[1..], sep);
      assert s == [] + [sep] + s[1..];
    } else {
      var rest := Split(s[1..], sep);
      JoinSplit(s[1..], sep);
      var parts := [[s[0]] + rest[0]] + rest[1..];
      if |rest| == 1 {
        assert Join(rest, sep) == rest[0];
      } else {
        assert parts[1..] == rest[1..];
        assert Join(rest, sep) == rest[0] + [sep] + Join(rest[1..], sep);
      }
    }
  }

  /** Splitting a join of separator-free parts gives back the parts. */
  lemma {:induction false} SplitJoin(parts: seq<string>, sep: char)
    requires |parts| >= 1
    requires forall k :: 0 <= k < |parts| ==> sep !in parts[k]
    ensures Split(Join(parts, sep), sep) == parts
    decreases |parts|
  {
    if |parts| == 1 {
      SplitWithoutSep(parts[0], sep);
    } else {
      SplitJoin(parts[1..], sep);
      SplitWithoutSep(parts[0], sep);
      SplitAppend(parts[0], Join(parts[1..], sep), sep);
      assert [parts[0]] + parts[1..] == parts;
    }
  }

  lemma {:induction false} SplitWithoutSep(s: string, sep: char)
    requires sep !in s
    ensures Split(s, sep) == [s]
    decreases |s|
  {
    if s != [] {
      SplitWithoutSep(s[1..], sep);
      assert [s[0]] + s[1..] == s;
    }
  }

}
