/**
  `parse_price`: turns a raw price cell (a string with a currency symbol or
  word, cent notation, stray characters, or a number) into a US dollar
  amount rounded to two decimals, converting Euro amounts at EUR_TO_USD.
 */
module Price {
  import opened Text
  import opened Values
  import opened Settings

  /* ---------------- the text that is parsed ---------------- */

  /** `str(price_str).strip()`, or None for a missing value or a NULL_VALUES entry. */
  function PriceText(v: Value): (r: Option<string>)
    requires v.IsScalar()
    ensures r.None? <==> v.Absent? || v in NULL_VALUES
    ensures r.Some? ==> r.value == Strip(ToStr(v))
  {
    if v.Absent? || v in NULL_VALUES then None else Some(Strip(ToStr(v)))
  }

  /** `re.search(r'[€]|EUR', s, re.IGNORECASE)`. */
  predicate IsEuroText(s: string) {
    '€' in s || ContainsIgnoreCase(s, "EUR")
  }

  /* ---------------- character filters ---------------- */

  predicate IsNumeric(c: char) { IsDigit(c) || c == '.' }

  predicate AllNumeric(s: string) { forall i :: 0 <= i < |s| ==> IsNumeric(s[i]) }

  /** `re.sub(r'[^\d.]', '', s)`: keeps the digits and the dots. */
  function KeepNumeric(s: string): (r: string)
    ensures AllNumeric(r)
  {
    if s == [] then []
    else (if IsNumeric(s[0]) then [s[0]] else []) + KeepNumeric(s[1..])
  }

  /** `re.sub(x, '', s)` for a single character `x`. */
  function RemoveChar(s: string, x: char): (r: string)
    ensures x !in r
  {
    if s == [] then []
    else (if s[0] == x then [] else [s[0]]) + RemoveChar(s[1..], x)
  }

  /** The digits of `s`, in order. */
  function OnlyDigits(s: string): (r: string)
    ensures AllDigits(r)
    ensures r != [] <==> HasDigit(s)
  {
    if s == [] then []
    else
      HasDigitCons(s);
      (if IsDigit(s[0]) then [s[0]] else []) + OnlyDigits(s[1..])
  }

  /** The digits that follow the first dot of `s` (none when there is no dot). */
  function DigitsAfterDot(s: string): (r: string)
    ensures AllDigits(r)
    ensures '.' !in s ==> r == []
  {
    if s == [] then []
    else if s[0] == '.' then OnlyDigits(s[1..])
    else DigitsAfterDot(s[1..])
  }

  /** The number a text of digits and dots denotes once everything but the
      first dot is ignored: all its digits, with as many fractional places
      as there are digits after the first dot. */
  function DigitsReading(s: string): (d: Decimal)
    ensures d.units >= 0
  {
    Decimal(DigitsValue(OnlyDigits(s)), |DigitsAfterDot(s)|)
  }

  /* ---------------- currency markers ---------------- */

  /** `re.sub(r'[€$]|EUR|USD', '', s, flags=re.IGNORECASE)`: scans left to
      right and deletes each marker it meets, resuming after it. */
  function StripCurrency(s: string): (r: string)
    ensures '€' !in r && '$' !in r
    ensures KeepNumeric(r) == KeepNumeric(s)
    ensures forall c :: c in r ==> c in s
    decreases |s|
  {
    if s == [] then []
    else if s[0] == '€' || s[0] == '$' then
      StripCurrency(s[1..])
    else if MatchesAt(s, 0, "EUR") || MatchesAt(s, 0, "USD") then
      KeepSkipsLetters(s);
      StripCurrency(s[3..])
    else
      var r := [s[0]] + StripCurrency(s[1..]);
      r
  }

  lemma KeepSkipsLetters(s: string)
    requires MatchesAt(s, 0, "EUR") || MatchesAt(s, 0, "USD")
    ensures KeepNumeric(s) == KeepNumeric(s[3..])
  {
    assert SameLetter(s[0], "EUR"[0]) || SameLetter(s[0], "USD"[0]);
    assert SameLetter(s[1], "EUR"[1]) || SameLetter(s[1], "USD"[1]);
    assert SameLetter(s[2], "EUR"[2]) || SameLetter(s[2], "USD"[2]);
    assert !IsNumeric(s[0]) && !IsNumeric(s[1]) && !IsNumeric(s[2]);
    assert KeepNumeric(s) == KeepNumeric(s[1..]);
    assert KeepNumeric(s[1..]) == KeepNumeric(s[1..][1..]);
    assert KeepNumeric(s[1..][1..]) == KeepNumeric(s[1..][1..][1..]);
    assert s[1..][1..][1..] == s[3..];
  }

  /** The text after `strip()`, marker removal and a second `strip()`. */
  function CleanedPrice(s: string): string {
    Strip(StripCurrency(s))
  }

  /* ---------------- cent notation ---------------- */

  /** The longest run of digits at the start of `s`. */
  function DigitRun(s: string): (d: string)
    ensures |d| <= |s| && d == s[..|d|] && AllDigits(d)
    ensures |d| == |s| || !IsDigit(s[|d|])
  {
    if s != [] && IsDigit(s[0]) then [s[0]] + DigitRun(s[1..]) else []
  }

  /** `(\d+)\s*¢\s*(\d+)` matched at the start of `s`: the dollar and cent digits. */
  function CentAt(s: string): (m: Option<(string, string)>)
    ensures m.Some? ==> m.value.0 != [] && m.value.1 != [] && AllDigits(m.value.0) && AllDigits(m.value.1)
    ensures m.Some? ==> s != [] && IsDigit(s[0]) && '¢' in s
  {
    var d := DigitRun(s);
    if d == [] then None
    else
      var t := LStrip(s[|d|..]);
      if t == [] || t[0] != '¢' then None
      else
        assert s[|s| - |t|] == '¢';
        var c := DigitRun(LStrip(t[1..]));
        if c == [] then None else Some((d, c))
  }

  /** `re.search(r'(\d+)\s*¢\s*(\d+)', s)`: the leftmost match. */
  function CentSearch(s: string): (m: Option<(string, string)>)
    ensures m.Some? ==> m.value.0 != [] && m.value.1 != [] && AllDigits(m.value.0) && AllDigits(m.value.1)
    ensures m.Some? ==> HasDigit(s) && '¢' in s
  {
    if s == [] then None
    else if CentAt(s).Some? then CentAt(s)
    else
      HasDigitCons(s);
      CentSearch(s[1..])
  }

  /** `(\d+)\s*¢\s*(\d+)` matches at the start of `s` with the groups `d`
      and `c`, `sp1` and `sp2` being the whitespace around the sign; `c` is
      followed by a non-digit or the end, as the greedy `\d+` leaves it. */
  predicate CentSplit(s: string, d: string, sp1: string, sp2: string, c: string) {
    var u := d + sp1 + "¢" + sp2 + c;
    && d != [] && AllDigits(d) && AllSpace(sp1) && AllSpace(sp2) && c != [] && AllDigits(c)
    && |u| <= |s| && s[..|u|] == u
    && (|u| == |s| || !IsDigit(s[|u|]))
  }

  /** The cent pattern matches at position `i`. */
  ghost predicate CentShapeAt(s: string, i: nat) {
    i <= |s| && exists d, sp1, sp2, c :: CentSplit(s[i..], d, sp1, sp2, c)
  }

  /* ---------------- the plain-number path ---------------- */

  function CountDots(s: string): nat {
    if s == [] then 0 else (if s[0] == '.' then 1 else 0) + CountDots(s[1..])
  }

  /** The index of the first dot, or `|s|`. */
  function FirstDot(s: string): (k: nat)
    ensures k <= |s| && '.' !in s[..k]
    ensures k < |s| ==> s[k] == '.'
    ensures k == |s| <==> '.' !in s
  {
    if s == [] || s[0] == '.' then 0
    else
      var k := 1 + FirstDot(s[1..]);
      assert s[..k] == [s[0]] + s[1..][..k - 1];
      k
  }

  /** `''.join(parts)`. */
  function Concat(parts: seq<string>): string {
    if parts == [] then [] else parts[0] + Concat(parts[1..])
  }

  /** `parts = s.split('.'); parts[0] + '.' + ''.join(parts[1:])`: keeps the
      first dot and drops the others. */
  function JoinFraction(t: string): (u: string)
    requires '.' in t
    ensures u == t[..FirstDot(t)] + "." + RemoveChar(t[FirstDot(t) + 1..], '.')
  {
    var parts := Split(t, '.');
    var k := FirstDot(t);
    assert t == t[..k] + ['.'] + t[k + 1..];
    SplitAppend(t[..k], t[k + 1..], '.');
    SplitWithoutSep(t[..k], '.');
    assert parts[1..] == Split(t[k + 1..], '.');
    ConcatSplit(t[k + 1..]);
    parts[0] + "." + Concat(parts[1..])
  }

  /** Python's `float(u)` on a text of digits with at most one dot: None
      (ValueError) when there is no digit at all. */
  function ParseFloat(u: string): (r: Option<Decimal>)
    requires AllNumeric(u) && CountDots(u) <= 1
    ensures r.Some? <==> HasDigit(u)
    ensures r.Some? ==> r.value == DigitsReading(u)
  {
    if !HasDigit(u) then None
    else
      var k := FirstDot(u);
      var whole := u[..k];
      NumericSlice(u, 0, k);
      DigitsWithoutDot(whole);
      if k < |u| then
        var frac := u[k + 1..];
        assert u == whole + "." + frac;
        DigitsAroundDot(whole, frac);
        Some(Decimal(DigitsValue(whole + frac), |frac|))
      else
        assert u == whole;
        Some(Decimal(DigitsValue(whole), 0))
  }

  /** The amount in a cleaned price text, before any conversion: the cent
      notation when it occurs, else every digit read around the first dot. */
  function ExtractAmount(cleaned: string): (r: Option<Decimal>)
    ensures r.Some? <==> HasDigit(cleaned)
    ensures r.Some? ==> r.value.units >= 0
    ensures CentSearch(cleaned).None? && HasDigit(cleaned) ==> r == Some(DigitsReading(cleaned))
    ensures CentSearch(cleaned).Some? ==>
      var (dollars, cents) := CentSearch(cleaned).value;
      r == Some(Decimal(DigitsValue(dollars + cents), |cents|))
  {
    match CentSearch(cleaned)
    case Some((dollars, cents)) =>
      DigitsValueAppend(dollars, cents);
      Some(Decimal(DigitsValue(dollars + cents), |cents|))
    case None =>
      var t := KeepNumeric(RemoveChar(cleaned, '¢'));
      KeepOfRemoved(cleaned);
      KeepReading(cleaned);
      KeepHasDigit(cleaned);
      if t == [] || t == "." then None
      else
        if CountDots(t) > 1 then
          JoinFractionReading(t);
          ParseFloat(JoinFraction(t))
        else
          ParseFloat(t)
  }

  /* ---------------- parse_price ---------------- */

  /** The amount a price cell states, in its own currency. */
  function RawAmount(v: Value): (r: Option<Decimal>)
    requires v.IsScalar()
  {
    match PriceText(v)
    case None => None
    case Some(s) => ExtractAmount(CleanedPrice(s))
  }

  /** The cell is a Euro price. */
  predicate IsEuro(v: Value)
    requires v.IsScalar()
  {
    PriceText(v).Some? && IsEuroText(PriceText(v).value)
  }

  /** `value * EUR_TO_USD`. */
  function ToUsd(a: Decimal): (r: Decimal)
    ensures SameValue(r, Decimal(a.units * 12, a.scale + 1))
  {
    Mul(a, EUR_TO_USD)
  }

  /** `parse_price(v)`: None when the cell is missing, a null token, or has
      no digit; else the amount, converted from Euro when the text mentions
      Euro, rounded to two decimals. */
  function ParsePrice(v: Value): (r: Option<Decimal>)
    requires v.IsScalar()
    ensures r.Some? <==> !v.Absent? && HasDigit(ToStr(v))
    ensures r.Some? ==> r.value.scale == 2 && r.value.units >= 0
  {
    PriceSomeIff(v);
    match RawAmount(v)
    case None => None
    case Some(a) =>
      var x := if IsEuro(v) then ToUsd(a) else a;
      Some(Round2(x))
  }

  /* ---------------- lemmas ---------------- */

  /** The result is the stated amount, multiplied by EUR_TO_USD when the
      text mentions Euro, to the nearest cent. */
  lemma ParsePriceAmount(v: Value)
    requires v.IsScalar() && RawAmount(v).Some?
    ensures ParsePrice(v).Some?
    ensures var a := RawAmount(v).value;
      WithinHalfCent(ParsePrice(v).value, if IsEuro(v) then Mul(a, EUR_TO_USD) else a)
  {
    var a := RawAmount(v).value;
    Round2Nearest(if IsEuro(v) then ToUsd(a) else a);
  }

  lemma PriceSomeIff(v: Value)
    requires v.IsScalar()
    ensures RawAmount(v).Some? <==> !v.Absent? && HasDigit(ToStr(v))
  {
    if v in NULL_VALUES && !v.Absent? {
      NullTokensHaveNoDigit(v);
    }
    if PriceText(v).Some? {
      var s := PriceText(v).value;
      StripHasDigit(ToStr(v));
      CleanedKeepsDigits(s);
    }
  }

  lemma NullTokensHaveNoDigit(v: Value)
    requires v in NULL_VALUES && !v.Absent?
    ensures !HasDigit(ToStr(v))
  {
    var s := v.s;
    forall i | 0 <= i < |s| ensures !IsDigit(s[i]) {
      if s == "NULL" {
        assert s[i] in "NULL";
      } else if s == "None" {
        assert s[i] in "None";
      }
    }
  }

  /** Marker removal and stripping neither add nor lose digits or dots. */
  lemma CleanedKeepsDigits(s: string)
    ensures KeepNumeric(CleanedPrice(s)) == KeepNumeric(s)
    ensures HasDigit(CleanedPrice(s)) <==> HasDigit(s)
  {
    var c := StripCurrency(s);
    KeepOfStrip(c);
    KeepHasDigit(CleanedPrice(s));
    KeepHasDigit(s);
  }

  lemma {:induction false} KeepHasDigit(s: string)
    ensures HasDigit(KeepNumeric(s)) <==> HasDigit(s)
    decreases |s|
  {
    if s != [] {
      KeepHasDigit(s[1..]);
      HasDigitCons(s);
      var h := if IsNumeric(s[0]) then [s[0]] else [];
      HasDigitAppend(h, KeepNumeric(s[1..]));
      if IsDigit(s[0]) {
        assert h[0] == s[0];
      }
    }
  }

  lemma {:induction false} KeepAppend(a: string, b: string)
    ensures KeepNumeric(a + b) == KeepNumeric(a) + KeepNumeric(b)
    decreases |a|
  {
    if a != [] {
      assert (a + b)[0] == a[0] && (a + b)[1..] == a[1..] + b;
      KeepAppend(a[1..], b);
      var h := if IsNumeric(a[0]) then [a[0]] else [];
      assert KeepNumeric(a + b) == h + (KeepNumeric(a[1..]) + KeepNumeric(b));
    } else {
      assert a + b == b;
    }
  }

  lemma {:induction false} KeepOfSpaces(s: string)
    requires forall i :: 0 <= i < |s| ==> IsSpace(s[i])
    ensures KeepNumeric(s) == []
    decreases |s|
  {
    if s != [] {
      KeepOfSpaces(s[1..]);
    }
  }

  lemma KeepOfStrip(s: string)
    ensures KeepNumeric(Strip(s)) == KeepNumeric(s)
  {
    StripIsPadded(s);
    KeepOfPadded(s, StripOffset(s), Strip(s));
  }

  lemma KeepOfPadded(s: string, a: nat, r: string)
    requires Padded(s, a, r)
    ensures KeepNumeric(r) == KeepNumeric(s)
  {
    var p, q := s[..a], s[a + |r|..];
    assert s == p + (r + q);
    forall i | 0 <= i < |p| ensures IsSpace(p[i]) {
      assert p[i] == s[i];
    }
    forall i | 0 <= i < |q| ensures IsSpace(q[i]) {
      assert q[i] == s[a + |r| + i];
    }
    KeepOfSpaces(p);
    KeepOfSpaces(q);
    KeepAppend(r, q);
    KeepAppend(p, r + q);
  }

  /** Deleting cent signs first changes nothing the digit filter keeps. */
  lemma {:induction false} KeepOfRemoved(s: string)
    ensures KeepNumeric(RemoveChar(s, '¢')) == KeepNumeric(s)
    decreases |s|
  {
    if s != [] {
      KeepOfRemoved(s[1..]);
      var h := if s[0] == '¢' then [] else [s[0]];
      KeepAppend(h, RemoveChar(s[1..], '¢'));
    }
  }

  /** The digit filter does not change how the digits read. */
  lemma {:induction false} KeepReading(s: string)
    ensures OnlyDigits(KeepNumeric(s)) == OnlyDigits(s)
    ensures DigitsAfterDot(KeepNumeric(s)) == DigitsAfterDot(s)
    decreases |s|
  {
    if s != [] {
      KeepReading(s[1..]);
      var k := KeepNumeric(s);
      if IsNumeric(s[0]) {
        assert k[0] == s[0] && k[1..] == KeepNumeric(s[1..]);
      } else {
        assert k == KeepNumeric(s[1..]);
      }
    }
  }

  lemma {:induction false} OnlyDigitsAppend(a: string, b: string)
    ensures OnlyDigits(a + b) == OnlyDigits(a) + OnlyDigits(b)
    decreases |a|
  {
    if a != [] {
      assert (a + b)[0] == a[0] && (a + b)[1..] == a[1..] + b;
      OnlyDigitsAppend(a[1..], b);
      var h := if IsDigit(a[0]) then [a[0]] else [];
      assert OnlyDigits(a + b) == h + (OnlyDigits(a[1..]) + OnlyDigits(b));
    } else {
      assert a + b == b;
    }
  }

  lemma {:induction false} OnlyDigitsOfDigits(s: string)
    requires AllDigits(s)
    ensures OnlyDigits(s) == s
    decreases |s|
  {
    if s != [] {
      OnlyDigitsOfDigits(s[1..]);
    }
  }

  lemma {:induction false} DigitsAfterDotAppend(a: string, b: string)
    requires '.' !in a
    ensures DigitsAfterDot(a + b) == DigitsAfterDot(b)
    decreases |a|
  {
    if a != [] {
      assert (a + b)[0] == a[0] && (a + b)[1..] == a[1..] + b;
      DigitsAfterDotAppend(a[1..], b);
    } else {
      assert a + b == b;
    }
  }

  lemma {:induction false} OnlyDigitsOfRemoved(s: string)
    ensures OnlyDigits(RemoveChar(s, '.')) == OnlyDigits(s)
    decreases |s|
  {
    if s != [] {
      OnlyDigitsOfRemoved(s[1..]);
      var h := if s[0] == '.' then [] else [s[0]];
      OnlyDigitsAppend(h, RemoveChar(s[1..], '.'));
    }
  }

  /** Joining the parts of a split without a separator deletes the separators. */
  lemma {:induction false} ConcatSplit(s: string)
    ensures Concat(Split(s, '.')) == RemoveChar(s, '.')
    decreases |s|
  {
    if s != [] {
      ConcatSplit(s[1..]);
      var rest := Split(s[1..], '.');
      if s[0] != '.' {
        assert Split(s, '.') == [[s[0]] + rest[0]] + rest[1..];
        assert Concat(rest) == rest[0] + Concat(rest[1..]);
      }
    }
  }

  /** `whole.frac` reads as the digits of both, with `frac` the fraction. */
  lemma DigitsAroundDot(w: string, f: string)
    requires AllDigits(w) && AllNumeric(f) && CountDots(w + "." + f) <= 1
    ensures AllDigits(f)
    ensures OnlyDigits(w + "." + f) == w + f && DigitsAfterDot(w + "." + f) == f
  {
    DotReading(w, f);
    CountDotsPositive(f);
    DigitsWithoutDot(f);
    OnlyDigitsOfDigits(w);
  }

  lemma NumericSlice(u: string, i: nat, j: nat)
    requires AllNumeric(u) && i <= j <= |u|
    ensures AllNumeric(u[i..j])
  {
    var w := u[i..j];
    forall m | 0 <= m < |w| ensures IsNumeric(w[m]) {
      assert w[m] == u[i + m];
    }
  }

  /** Digits and dots without a dot are digits, and read as themselves. */
  lemma DigitsWithoutDot(s: string)
    requires AllNumeric(s) && '.' !in s
    ensures AllDigits(s) && OnlyDigits(s) == s
  {
    forall i | 0 <= i < |s| ensures IsDigit(s[i]) {
      assert s[i] in s;
    }
    OnlyDigitsOfDigits(s);
  }

  /** How a dot between two texts reads. */
  lemma DotReading(w: string, f: string)
    requires '.' !in w
    ensures OnlyDigits(w + "." + f) == OnlyDigits(w) + OnlyDigits(f)
    ensures DigitsAfterDot(w + "." + f) == OnlyDigits(f)
    ensures CountDots(w + "." + f) == 1 + CountDots(f)
  {
    var t := "." + f;
    assert w + "." + f == w + t;
    assert t[0] == '.' && t[1..] == f;
    OnlyDigitsAppend(w, t);
    DigitsAfterDotAppend(w, t);
    CountDotsAppend(w, t);
    CountDotsZero(w);
  }

  lemma {:induction false} CountDotsAppend(a: string, b: string)
    ensures CountDots(a + b) == CountDots(a) + CountDots(b)
    decreases |a|
  {
    if a != [] {
      assert (a + b)[0] == a[0] && (a + b)[1..] == a[1..] + b;
      CountDotsAppend(a[1..], b);
    } else {
      assert a + b == b;
    }
  }

  lemma {:induction false} CountDotsZero(s: string)
    requires '.' !in s
    ensures CountDots(s) == 0
    decreases |s|
  {
    if s != [] {
      CountDotsZero(s[1..]);
    }
  }

  lemma {:induction false} CountDotsPositive(s: string)
    ensures '.' in s ==> CountDots(s) > 0
    decreases |s|
  {
    if s != [] {
      CountDotsPositive(s[1..]);
    }
  }

  /** Dropping every dot after the first leaves the reading unchanged and
      leaves exactly one dot. */
  lemma JoinFractionReading(t: string)
    requires AllNumeric(t) && CountDots(t) > 1
    ensures '.' in t
    ensures AllNumeric(JoinFraction(t)) && CountDots(JoinFraction(t)) == 1
    ensures OnlyDigits(JoinFraction(t)) == OnlyDigits(t)
    ensures DigitsAfterDot(JoinFraction(t)) == DigitsAfterDot(t)
  {
    CountDotsZeroIff(t);
    var k := FirstDot(t);
    var whole, rest := t[..k], t[k + 1..];
    AroundFirstDot(t);
    JoinFractionShape(whole, rest);
    JoinFractionDigits(whole, rest);
  }

  /** A text with a dot is what comes before its first dot, that dot, and the rest. */
  lemma AroundFirstDot(t: string)
    requires '.' in t
    ensures t == t[..FirstDot(t)] + "." + t[FirstDot(t) + 1..]
  {
    var k := FirstDot(t);
    assert t == t[..k] + [t[k]] + t[k + 1..];
  }

  /** Keeping the first dot and removing the others leaves digits and one dot. */
  lemma JoinFractionShape(whole: string, rest: string)
    requires AllNumeric(whole + "." + rest) && '.' !in whole
    ensures AllNumeric(whole + "." + RemoveChar(rest, '.'))
    ensures CountDots(whole + "." + RemoveChar(rest, '.')) == 1
  {
    var t := whole + "." + rest;
    var r := RemoveChar(rest, '.');
    assert whole == t[..|whole|] && rest == t[|whole| + 1..];
    NumericSlice(t, 0, |whole|);
    NumericSlice(t, |whole| + 1, |t|);
    RemoveKeepsNumeric(rest);
    NumericAroundDot(whole, r);
    DotReading(whole, r);
    CountDotsZero(r);
  }

  /** Removing the later dots does not change how the digits read. */
  lemma JoinFractionDigits(whole: string, rest: string)
    requires '.' !in whole
    ensures OnlyDigits(whole + "." + RemoveChar(rest, '.')) == OnlyDigits(whole + "." + rest)
    ensures DigitsAfterDot(whole + "." + RemoveChar(rest, '.')) == DigitsAfterDot(whole + "." + rest)
  {
    var r := RemoveChar(rest, '.');
    DotReading(whole, rest);
    DotReading(whole, r);
    OnlyDigitsOfRemoved(rest);
  }

  lemma NumericAroundDot(w: string, f: string)
    requires AllNumeric(w) && AllNumeric(f)
    ensures AllNumeric(w + "." + f)
  {
    var u := w + "." + f;
    forall i | 0 <= i < |u| ensures IsNumeric(u[i]) {
      if i < |w| {
        assert u[i] == w[i];
      } else if i > |w| {
        assert u[i] == f[i - |w| - 1];
      }
    }
  }

  lemma {:induction false} CountDotsZeroIff(s: string)
    ensures CountDots(s) == 0 <==> '.' !in s
    decreases |s|
  {
    if s != [] {
      CountDotsZeroIff(s[1..]);
    }
  }

  lemma {:induction false} RemoveKeepsNumeric(s: string)
    requires AllNumeric(s)
    ensures AllNumeric(RemoveChar(s, '.'))
    decreases |s|
  {
    if s != [] {
      RemoveKeepsNumeric(s[1..]);
    }
  }

  /* ---------------- what parse_price promises ---------------- */

  /** No currency sign and no letter. */
  predicate Plain(s: string) {
    forall i :: 0 <= i < |s| ==> s[i] != '€' && s[i] != '$' && !IsUpper(s[i]) && !IsLower(s[i])
  }

  lemma {:induction false} StripCurrencyPlain(s: string)
    requires Plain(s)
    ensures StripCurrency(s) == s
    decreases |s|
  {
    if s != [] {
      assert !SameLetter(s[0], "EUR"[0]) && !SameLetter(s[0], "USD"[0]);
      assert Plain(s[1..]) by {
        forall i | 0 <= i < |s[1..]| ensures s[1..][i] == s[i + 1] { }
      }
      StripCurrencyPlain(s[1..]);
    }
  }

  lemma PlainNotEuro(s: string)
    requires Plain(s)
    ensures !IsEuroText(s)
  {
    forall i: nat | i <= |s| ensures !MatchesAt(s, i, "EUR") {
      if i < |s| {
        assert !SameLetter(s[i], "EUR"[0]);
      }
    }
  }

  /** Reference reading: without cent notation, a price text with a digit
      reads as all its digits, with as many decimals as there are digits
      after its first dot; every other character is ignored. */
  lemma PlainReading(v: Value)
    requires v.IsScalar() && PriceText(v).Some?
    requires CentSearch(CleanedPrice(PriceText(v).value)).None?
    ensures var s := PriceText(v).value;
      RawAmount(v) == if HasDigit(s) then Some(DigitsReading(s)) else None
  {
    var s := PriceText(v).value;
    var c := CleanedPrice(s);
    CleanedKeepsDigits(s);
    KeepReading(s);
    KeepReading(c);
  }

  /** A price parsed, printed with `str` and parsed again comes back
      unchanged: every two-decimal non-negative amount is a fixed point. */
  lemma ParsePriceIdempotent(d: Decimal)
    requires d.scale == 2 && d.units >= 0
    ensures ParsePrice(Real(d)) == Some(d)
  {
    var whole, frac := DecimalTextShape(d);
    DecimalTextReads(d, whole, frac);
    RoundTwoPlaces(Decimal(DigitsValue(whole + frac), |frac|), d);
  }

  /** A float cell whose text is "<whole>.<frac>" reads as those digits,
      with `frac` the fraction, and is not a Euro price. */
  lemma DecimalTextReads(d: Decimal, whole: string, frac: string)
    requires DecimalText(d) == whole + "." + frac
    requires whole != [] && frac != [] && AllDigits(whole) && AllDigits(frac)
    ensures RawAmount(Real(d)) == Some(Decimal(DigitsValue(whole + frac), |frac|))
    ensures !IsEuro(Real(d))
  {
    var s := whole + "." + frac;
    DotText(whole, frac);
    StripOfTrimmed(s);
    assert PriceText(Real(d)) == Some(s);
    ReadCell(Real(d), s);
    DotAmount(whole, frac);
  }

  /** A cell with a price text is read from that text. */
  lemma ReadCell(v: Value, u: string)
    requires v.IsScalar() && PriceText(v) == Some(u)
    ensures RawAmount(v) == ExtractAmount(CleanedPrice(u))
    ensures IsEuro(v) <==> IsEuroText(u)
  {
  }

  /** "<whole>.<frac>" reads as the digits of both, with `frac` the fraction. */
  lemma DotAmount(whole: string, frac: string)
    requires whole != [] && frac != [] && AllDigits(whole) && AllDigits(frac)
    ensures ExtractAmount(CleanedPrice(whole + "." + frac)) == Some(Decimal(DigitsValue(whole + frac), |frac|))
    ensures !IsEuroText(whole + "." + frac)
  {
    var s := whole + "." + frac;
    DotText(whole, frac);
    StripOfTrimmed(s);
    StripCurrencyPlain(s);
    PlainNotEuro(s);
    assert CleanedPrice(s) == s;
    assert CentSearch(s).None?;
    DotReading(whole, frac);
    CountDotsZero(frac);
    DigitsAroundDot(whole, frac);
  }

  /** `str(x)` of a non-negative two-decimal amount: digits, a dot, and one
      or two digits that, read together, give the amount. */
  lemma DecimalTextShape(d: Decimal) returns (whole: string, frac: string)
    requires d.scale == 2 && d.units >= 0
    ensures DecimalText(d) == whole + "." + frac
    ensures whole != [] && frac != [] && AllDigits(whole) && AllDigits(frac) && |frac| <= 2
    ensures DigitsValue(whole + frac) * Pow10(2 - |frac|) == d.units
  {
    var n := Normalize(d);
    assert n.units >= 0 by {
      if n.units < 0 {
        NegativeProduct(n.units, Pow10(d.scale - n.scale));
      }
    }
    whole := NatText(n.units / Pow10(n.scale));
    frac := FractionText(n.units, n.scale);
    assert DecimalText(d) == whole + "." + frac;
    FractionValue(n.units, n.scale);
  }

  /** Whole part and fraction digits of `u / 10^k` read back as `u`. */
  lemma FractionValue(u: nat, k: nat)
    requires k <= 2
    ensures var w, f := NatText(u / Pow10(k)), FractionText(u, k);
      |f| <= 2 && DigitsValue(w + f) * Pow10(2 - |f|) == u * Pow10(2 - k)
  {
    var w, f := NatText(u / Pow10(k)), FractionText(u, k);
    DigitsValueAppend(w, f);
    var n := DigitsValue(w + f);
    if k == 0 {
      assert f == "0" && DigitsValue(f) == 0 && DigitsValue(w) == u;
      assert Pow10(0) == 1 && Pow10(1) == 10 && Pow10(2) == 100;
      assert n == u * 10;
    } else {
      FractionDigits(u, k);
      assert n == u;
    }
  }

  /** With one or two decimals, the whole part and the fraction digits
      together read as `u`. */
  lemma FractionDigits(u: nat, k: nat)
    requires 1 <= k <= 2
    ensures var w, f := NatText(u / Pow10(k)), FractionText(u, k);
      |f| == k && DigitsValue(w) * Pow10(|f|) + DigitsValue(f) == u
  {
    var p := Pow10(k);
    var f := FractionText(u, k);
    assert |f| == k && DigitsValue(f) == u % p;
    WholeAndRest(u, p);
  }

  /** The whole part and the remainder put together give the number back. */
  lemma WholeAndRest(u: nat, p: nat)
    requires p >= 1
    ensures u / p * p + u % p == u
  {
  }

  lemma DotText(whole: string, frac: string)
    requires whole != [] && frac != [] && AllDigits(whole) && AllDigits(frac)
    ensures var s := whole + "." + frac;
      Plain(s) && Trimmed(s) && HasDigit(s) && '¢' !in s
  {
    var s := whole + "." + frac;
    forall i | 0 <= i < |s| ensures IsNumeric(s[i]) {
      if i < |whole| {
        assert s[i] == whole[i];
      } else if i > |whole| {
        assert s[i] == frac[i - |whole| - 1];
      }
    }
    assert s[0] == whole[0] && s[|s| - 1] == frac[|frac| - 1];
  }

  /** Rounding an amount with at most two decimals to two decimals keeps it. */
  lemma RoundTwoPlaces(x: Decimal, d: Decimal)
    requires x.scale <= 2 && d.scale == 2 && x.units * Pow10(2 - x.scale) == d.units
    ensures Round2(x) == d
  {
    var r := Round2(x);
    assert r.units * Pow10(x.scale) == x.units * Pow10(2);
    assert Pow10(1) == 10 && Pow10(2) == 100;
    if x.scale == 0 {
      assert r.units == x.units * 100;
    } else if x.scale == 1 {
      assert r.units * 10 == x.units * 100;
    } else {
      assert r.units * 100 == x.units * 100;
    }
  }

  lemma NegativeProduct(a: int, b: nat)
    requires a < 0 && b >= 1
    ensures a * b < 0
  {
  }

  /* ---------- currency markers in front of an amount ---------- */

  const CURRENCY_MARKERS: seq<string> := ["€", "$", "EUR", "USD"]

  /** A currency sign or code written in front of an amount is ignored,
      and marks the price as Euro exactly when it is "€" or "EUR". */
  lemma CurrencyPrefix(m: string, s: string)
    requires m in CURRENCY_MARKERS
    requires s == [] || !IsSpace(s[0])
    requires Text(s) !in NULL_VALUES
    ensures RawAmount(Text(m + s)) == RawAmount(Text(s))
    ensures IsEuro(Text(m + s)) <==> m == "€" || m == "EUR" || IsEuro(Text(s))
  {
    var x := Strip(s);
    MarkedNotNull(m, s);
    StripPrefixed(m, s);
    ReadText(m + s, m + x);
    ReadText(s, x);
    StripCurrencyPrefixed(m, x);
    EuroTextPrefixed(m, x);
  }

  /** A text cell that is not a null spelling is read from its stripped text. */
  lemma ReadText(t: string, u: string)
    requires Text(t) !in NULL_VALUES && Strip(t) == u
    ensures RawAmount(Text(t)) == ExtractAmount(CleanedPrice(u))
    ensures IsEuro(Text(t)) <==> IsEuroText(u)
  {
  }

  lemma MarkedNotNull(m: string, s: string)
    requires m in CURRENCY_MARKERS
    ensures Text(m + s) !in NULL_VALUES
  {
    assert (m + s)[0] == m[0];
  }

  lemma StripPrefixed(m: string, s: string)
    requires m in CURRENCY_MARKERS
    requires s == [] || !IsSpace(s[0])
    ensures Strip(m + s) == m + Strip(s)
  {
    assert m != [] && Trimmed(m);
    StripTrimmedPrefix(m, s);
  }

  /** Text without surrounding whitespace in front of a text that does
      not start with whitespace is kept whole by the left strip. */
  lemma StripTrimmedPrefix(m: string, s: string)
    requires m != [] && Trimmed(m)
    requires s == [] || !IsSpace(s[0])
    ensures Strip(m + s) == m + Strip(s)
  {
    assert (m + s)[0] == m[0];
    assert LStrip(m + s) == m + s;
    assert LStrip(s) == s;
    RStripAppend(m, s);
  }

  lemma {:induction false} RStripAppend(a: string, b: string)
    requires a != [] && !IsSpace(a[|a| - 1])
    ensures RStrip(a + b) == a + RStrip(b)
    decreases |b|
  {
    if b == [] {
      assert a + b == a;
    } else if IsSpace(b[|b| - 1]) {
      assert (a + b)[..|a + b| - 1] == a + b[..|b| - 1];
      RStripAppend(a, b[..|b| - 1]);
    } else {
      assert (a + b)[|a + b| - 1] == b[|b| - 1];
    }
  }

  lemma StripCurrencyPrefixed(m: string, x: string)
    requires m in CURRENCY_MARKERS
    ensures StripCurrency(m + x) == StripCurrency(x)
  {
    var t := m + x;
    if m == "€" || m == "$" {
      assert t[0] == m[0] && t[1..] == x;
    } else {
      assert t[0] == m[0] && t[1] == m[1] && t[2] == m[2] && t[3..] == x;
      assert MatchesAt(t, 0, m);
    }
  }

  lemma EuroTextPrefixed(m: string, x: string)
    requires m in CURRENCY_MARKERS
    ensures IsEuroText(m + x) <==> m == "€" || m == "EUR" || IsEuroText(x)
  {
    var t := m + x;
    assert '€' in t <==> '€' in m || '€' in x;
    if m == "EUR" {
      assert MatchesAt(t, 0, "EUR");
    } else {
      if ContainsIgnoreCase(t, "EUR") {
        var i: nat :| i <= |t| && MatchesAt(t, i, "EUR");
        assert SameLetter(t[i], "EUR"[0]);
        assert MatchesAt(x, i - |m|, "EUR") by {
          forall j | 0 <= j < 3 ensures SameLetter(x[i - |m| + j], "EUR"[j]) {
            assert x[i - |m| + j] == t[i + j];
          }
        }
      }
      if ContainsIgnoreCase(x, "EUR") {
        var i: nat :| i <= |x| && MatchesAt(x, i, "EUR");
        assert MatchesAt(t, i + |m|, "EUR") by {
          forall j | 0 <= j < 3 ensures SameLetter(t[i + |m| + j], "EUR"[j]) {
            assert t[i + |m| + j] == x[i + j];
          }
        }
      }
    }
  }

  /* ---------- cent notation and commas ---------- */

  lemma {:induction false} DigitRunExact(d: string, rest: string)
    requires AllDigits(d) && (rest == [] || !IsDigit(rest[0]))
    ensures DigitRun(d + rest) == d
    decreases |d|
  {
    if d == [] {
      assert d + rest == rest;
    } else {
      assert (d + rest)[0] == d[0] && (d + rest)[1..] == d[1..] + rest;
      DigitRunExact(d[1..], rest);
    }
  }

  /** "<dollars>¢<cents>" reads as the number written "<dollars>.<cents>",
      and is not a Euro price. */
  lemma CentNotation(d: string, c: string)
    requires d != [] && c != [] && AllDigits(d) && AllDigits(c)
    ensures RawAmount(Text(d + "¢" + c)) == Some(Decimal(DigitsValue(d + c), |c|))
    ensures !IsEuro(Text(d + "¢" + c))
  {
    var s := d + "¢" + c;
    CentText(d, c);
    PlainPrice(s);
    CentFound(d, c);
    CentReading(s, d, c);
  }

  lemma CentReading(s: string, d: string, c: string)
    requires s != [] && CentAt(s) == Some((d, c))
    ensures ExtractAmount(s) == Some(Decimal(DigitsValue(d + c), |c|))
  {
    assert CentSearch(s) == Some((d, c));
  }

  lemma CentText(d: string, c: string)
    requires d != [] && c != [] && AllDigits(d) && AllDigits(c)
    ensures var s := d + "¢" + c; Plain(s) && Trimmed(s) && IsDigit(s[0])
  {
    var s := d + "¢" + c;
    forall i | 0 <= i < |s| ensures IsDigit(s[i]) || s[i] == '¢' {
      if i < |d| {
        assert s[i] == d[i];
      } else if i > |d| {
        assert s[i] == c[i - |d| - 1];
      }
    }
    assert s[0] == d[0] && s[|s| - 1] == c[|c| - 1];
  }

  lemma CentFound(d: string, c: string)
    requires d != [] && c != [] && AllDigits(d) && AllDigits(c)
    ensures CentAt(d + "¢" + c) == Some((d, c))
  {
    var s := d + "¢" + c;
    var t := "¢" + c;
    assert s == d + t;
    DigitRunExact(d, t);
    assert s[|d|..] == t;
    assert !IsSpace(t[0]);
    assert t[1..] == c;
    assert !IsSpace(c[0]);
    assert c + [] == c;
    DigitRunExact(c, []);
    CentAtIntro(s, d, t, c);
  }

  lemma CentAtIntro(s: string, d: string, t: string, c: string)
    requires d != [] && DigitRun(s) == d
    requires t != [] && LStrip(s[|d|..]) == t && t[0] == '¢'
    requires c != [] && DigitRun(LStrip(t[1..])) == c
    ensures CentAt(s) == Some((d, c))
  {
  }

  /** The text split around a cent match: dollars, whitespace, the sign,
      whitespace, cents and what follows. */
  lemma CentNest(s: string, d: string, sp1: string, sp2: string, c: string)
    requires CentSplit(s, d, sp1, sp2, c)
    ensures var u := d + sp1 + "¢" + sp2 + c;
      s == d + (sp1 + (['¢'] + (sp2 + (c + s[|u|..]))))
  {
    var u := d + sp1 + "¢" + sp2 + c;
    assert s == u + s[|u|..];
  }

  lemma CentUnnest(s: string, d: string, sp1: string, sp2: string, c: string, rest: string)
    requires s == d + (sp1 + (['¢'] + (sp2 + (c + rest))))
    ensures var u := d + sp1 + "¢" + sp2 + c;
      |u| <= |s| && s[..|u|] == u && s[|u|..] == rest
  {
    var u := d + sp1 + "¢" + sp2 + c;
    assert s == u + rest;
  }

  /** A cent match at the start is what `CentAt` finds. */
  lemma CentAtComplete(s: string, d: string, sp1: string, sp2: string, c: string)
    requires CentSplit(s, d, sp1, sp2, c)
    ensures CentAt(s) == Some((d, c))
  {
    var u := d + sp1 + "¢" + sp2 + c;
    CentNest(s, d, sp1, sp2, c);
    CentAtParts(d, sp1, sp2, c, s[|u|..]);
  }

  lemma CentAtParts(d: string, sp1: string, sp2: string, c: string, rest: string)
    requires d != [] && AllDigits(d) && AllSpace(sp1) && AllSpace(sp2) && c != [] && AllDigits(c)
    requires rest == [] || !IsDigit(rest[0])
    ensures CentAt(d + (sp1 + (['¢'] + (sp2 + (c + rest))))) == Some((d, c))
  {
    var t := ['¢'] + (sp2 + (c + rest));
    var x := sp1 + t;
    var s := d + x;
    RunHead(sp1, t);
    DigitRunExact(d, x);
    assert s[|d|..] == x;
    LStripSpaces(sp1, t);
    CentsAfterSign(sp2, c, rest);
    CentAtIntro(s, d, t, c);
  }

  lemma CentsAfterSign(sp2: string, c: string, rest: string)
    requires AllSpace(sp2) && c != [] && AllDigits(c)
    requires rest == [] || !IsDigit(rest[0])
    ensures var t := ['¢'] + (sp2 + (c + rest)); DigitRun(LStrip(t[1..])) == c
  {
    var v := c + rest;
    assert (['¢'] + (sp2 + v))[1..] == sp2 + v;
    assert v[0] == c[0];
    LStripSpaces(sp2, v);
    DigitRunExact(c, rest);
  }

  /** The first character of `a + t` is the first of `a`, or of `t` when `a` is empty. */
  lemma RunHead(a: string, t: string)
    requires t != []
    ensures (a + t)[0] == if a == [] then t[0] else a[0]
  {
  }

  /** Whitespace run and rest. */
  lemma LStripSplit(x: string)
    ensures var t := LStrip(x); x == x[..|x| - |t|] + t && AllSpace(x[..|x| - |t|])
  {
    var t := LStrip(x);
    assert x == x[..|x| - |t|] + x[|x| - |t|..];
  }

  /** Digit run and rest. */
  lemma DigitRunSplit(v: string)
    ensures var c := DigitRun(v); var rest := v[|c|..];
      v == c + rest && (rest == [] || !IsDigit(rest[0]))
  {
    var c := DigitRun(v);
    assert v == v[..|c|] + v[|c|..];
  }

  /** What `CentAt` finds is a cent match at the start. */
  lemma CentAtSound(s: string)
    requires CentAt(s).Some?
    ensures exists sp1, sp2 :: CentSplit(s, CentAt(s).value.0, sp1, sp2, CentAt(s).value.1)
  {
    var sp1, sp2, rest := CentAtPieces(s);
    CentSplitIntro(s, CentAt(s).value.0, sp1, sp2, CentAt(s).value.1, rest);
  }

  /** The whitespace around the sign and the rest after the cents, when
      `CentAt` finds a match. */
  lemma CentAtPieces(s: string) returns (sp1: string, sp2: string, rest: string)
    requires CentAt(s).Some?
    ensures var (d, c) := CentAt(s).value;
      && AllSpace(sp1) && AllSpace(sp2) && (rest == [] || !IsDigit(rest[0]))
      && s == d + (sp1 + (['¢'] + (sp2 + (c + rest))))
  {
    var d := DigitRun(s);
    var x := s[|d|..];
    var t := LStrip(x);
    CentAtSteps(s);
    var y := t[1..];
    var v := LStrip(y);
    var c := DigitRun(v);
    DigitRunSplit(s);
    LStripSplit(x);
    LStripSplit(y);
    DigitRunSplit(v);
    HeadTail(t);
    sp1 := x[..|x| - |t|];
    sp2 := y[..|y| - |v|];
    rest := v[|c|..];
  }

  lemma HeadTail(t: string)
    requires t != []
    ensures t == [t[0]] + t[1..]
  {
  }

  /** The steps `CentAt` takes when it finds a match. */
  lemma CentAtSteps(s: string)
    requires CentAt(s).Some?
    ensures var d := DigitRun(s); var t := LStrip(s[|d|..]);
      && d != [] && t != [] && t[0] == '¢'
      && CentAt(s).value == (d, DigitRun(LStrip(t[1..])))
  {
  }

  lemma CentSplitIntro(s: string, d: string, sp1: string, sp2: string, c: string, rest: string)
    requires d != [] && AllDigits(d) && AllSpace(sp1) && AllSpace(sp2) && c != [] && AllDigits(c)
    requires s == d + (sp1 + (['¢'] + (sp2 + (c + rest))))
    requires rest == [] || !IsDigit(rest[0])
    ensures CentSplit(s, d, sp1, sp2, c)
  {
    CentUnnest(s, d, sp1, sp2, c, rest);
    var u := d + sp1 + "¢" + sp2 + c;
    if rest != [] {
      assert s[|u|] == rest[0];
    }
  }

  /** The pattern matches at the start exactly when `CentAt` finds it. */
  lemma CentShapeAtStart(s: string)
    ensures CentShapeAt(s, 0) <==> CentAt(s).Some?
  {
    assert s[0..] == s;
    if CentAt(s).Some? {
      CentAtSound(s);
    }
    if CentShapeAt(s, 0) {
      var d, sp1, sp2, c :| CentSplit(s, d, sp1, sp2, c);
      CentAtComplete(s, d, sp1, sp2, c);
    }
  }

  lemma CentShapeShift(s: string, i: nat)
    requires s != []
    ensures CentShapeAt(s[1..], i) <==> CentShapeAt(s, i + 1)
  {
    if i <= |s[1..]| {
      assert s[1..][i..] == s[i + 1..];
    }
  }

  /** `CentSearch` finds nothing exactly when the pattern matches nowhere. */
  lemma CentSearchNone(s: string)
    ensures CentSearch(s).None? <==> forall i: nat :: !CentShapeAt(s, i)
  {
    if CentSearch(s).Some? {
      var i := CentSearchAt(s);
      CentShapeAtStart(s[i..]);
      assert s[i..][0..] == s[i..];
      assert CentShapeAt(s, i);
    } else {
      NoCentShape(s);
    }
  }

  lemma {:induction false} NoCentShape(s: string)
    requires CentSearch(s).None?
    ensures forall i: nat :: !CentShapeAt(s, i)
    decreases |s|
  {
    if s == [] {
      forall i: nat ensures !CentShapeAt(s, i) {
      }
    } else {
      CentShapeAtStart(s);
      NoCentShape(s[1..]);
      forall i: nat | 0 < i ensures !CentShapeAt(s, i) {
        CentShapeShift(s, i - 1);
      }
    }
  }

  /** What `CentSearch` finds are the groups of the leftmost match. */
  lemma CentSearchLeftmost(s: string, d: string, c: string)
    requires CentSearch(s) == Some((d, c))
    ensures exists i: nat, sp1, sp2 ::
      && i <= |s| && CentSplit(s[i..], d, sp1, sp2, c)
      && (forall j: nat :: j < i ==> !CentShapeAt(s, j))
  {
    var i := CentSearchAt(s);
    CentAtSound(s[i..]);
    var sp1, sp2 :| CentSplit(s[i..], d, sp1, sp2, c);
  }

  /** The position `CentSearch` stops at: no match before it, and `CentAt` finds one there. */
  lemma {:induction false} CentSearchAt(s: string) returns (i: nat)
    requires CentSearch(s).Some?
    ensures i <= |s| && CentAt(s[i..]) == CentSearch(s)
    ensures forall j: nat :: j < i ==> !CentShapeAt(s, j)
    decreases |s|
  {
    if CentAt(s).Some? {
      i := 0;
      assert s[0..] == s;
    } else {
      var k := CentSearchAt(s[1..]);
      i := k + 1;
      assert s[1..][k..] == s[i..];
      CentShapeAtStart(s);
      NoCentShapeShift(s, k);
    }
  }

  /** No match in the first `k` positions after the first character, nor at
      it: no match in the first `k + 1` positions. */
  lemma NoCentShapeShift(s: string, k: nat)
    requires s != [] && !CentShapeAt(s, 0)
    requires forall j: nat :: j < k ==> !CentShapeAt(s[1..], j)
    ensures forall j: nat :: j < k + 1 ==> !CentShapeAt(s, j)
  {
    forall j: nat | 0 < j < k + 1 ensures !CentShapeAt(s, j) {
      CentShapeShift(s, j - 1);
    }
  }

  /** The leftmost match is what `CentSearch` finds. */
  lemma {:induction false} CentSearchFinds(s: string, i: nat, d: string, sp1: string, sp2: string, c: string)
    requires i <= |s| && CentSplit(s[i..], d, sp1, sp2, c)
    requires forall j: nat :: j < i ==> !CentShapeAt(s, j)
    ensures CentSearch(s) == Some((d, c))
    decreases i
  {
    if i == 0 {
      assert s[0..] == s;
      CentAtComplete(s, d, sp1, sp2, c);
    } else {
      assert !CentShapeAt(s, 0);
      CentShapeAtStart(s);
      assert s[1..][i - 1..] == s[i..];
      forall j: nat | j < i - 1 ensures !CentShapeAt(s[1..], j) {
        CentShapeShift(s, j);
      }
      CentSearchFinds(s[1..], i - 1, d, sp1, sp2, c);
    }
  }

  /** Wherever the cent notation first occurs in the cleaned text, with any
      whitespace around the sign, the amount is `<dollars>.<cents>`. */
  lemma ExtractCentAmount(s: string, i: nat, d: string, sp1: string, sp2: string, c: string)
    requires i <= |s| && CentSplit(s[i..], d, sp1, sp2, c)
    requires forall j: nat :: j < i ==> !CentShapeAt(s, j)
    ensures ExtractAmount(s) == Some(Decimal(DigitsValue(d + c), |c|))
  {
    CentSearchFinds(s, i, d, sp1, sp2, c);
  }

  /** Every cent match starts with a digit. */
  lemma CentShapeStartsWithDigit(s: string, j: nat)
    requires CentShapeAt(s, j)
    ensures j < |s| && IsDigit(s[j])
  {
    var d, sp1, sp2, c :| CentSplit(s[j..], d, sp1, sp2, c);
    var u := d + sp1 + "¢" + sp2 + c;
    assert s[j..][0] == u[0] == d[0];
  }

  lemma CentAssoc(a: string, d: string, sp1: string, sp2: string, c: string, b: string)
    ensures a + d + sp1 + "¢" + sp2 + c + b == a + (d + (sp1 + (['¢'] + (sp2 + (c + b)))))
  {
  }

  /** After a text with no digit, the cent notation with any whitespace
      around the sign reads as `<dollars>.<cents>`. */
  lemma ExtractCentAfterText(a: string, d: string, sp1: string, sp2: string, c: string, b: string)
    requires !HasDigit(a)
    requires d != [] && AllDigits(d) && AllSpace(sp1) && AllSpace(sp2) && c != [] && AllDigits(c)
    requires b == [] || !IsDigit(b[0])
    ensures ExtractAmount(a + d + sp1 + "¢" + sp2 + c + b) == Some(Decimal(DigitsValue(d + c), |c|))
  {
    var m := d + (sp1 + (['¢'] + (sp2 + (c + b))));
    var s := a + m;
    CentAssoc(a, d, sp1, sp2, c, b);
    assert s[|a|..] == m;
    CentSplitIntro(m, d, sp1, sp2, c, b);
    forall j: nat | j < |a| ensures !CentShapeAt(s, j) {
      if CentShapeAt(s, j) {
        CentShapeStartsWithDigit(s, j);
        assert false;
      }
    }
    ExtractCentAmount(s, |a|, d, sp1, sp2, c);
  }

  /** "3 ¢ 50" reads as 3.50. */
  lemma CentWithSpaces(s: string)
    requires s == "3 ¢ 50"
    ensures ExtractAmount(s) == Some(Decimal(350, 2))
  {
    WithSpacesParts(s);
    ExtractCentAfterText("", "3", " ", " ", "50", "");
    DigitsValueOf350();
  }

  lemma WithSpacesParts(s: string)
    requires s == "3 ¢ 50"
    ensures !HasDigit("") && "" + "3" + " " + "¢" + " " + "50" + "" == s
    ensures AllDigits("3") && AllDigits("50") && AllSpace(" ")
  {
  }

  lemma DigitsValueOf350()
    ensures "3" + "50" == "350" && DigitsValue("350") == 350
  {
    assert "350"[..2] == "35" && "35"[..1] == "3" && "3"[..0] == "";
  }

  /** In "1 3¢5" the first digit is not followed by the sign, so the match
      starts at the "3": the amount is 3.5. */
  lemma CentAfterNumber(s: string)
    requires s == "1 3¢5"
    ensures ExtractAmount(s) == Some(Decimal(35, 1))
  {
    NoCentAtNumber(s);
    forall j: nat | j < 2 ensures !CentShapeAt(s, j) {
      if j == 0 {
        CentShapeAtStart(s);
      } else if CentShapeAt(s, j) {
        CentShapeStartsWithDigit(s, j);
        assert false;
      }
    }
    AfterNumberParts(s);
    CentSplitIntro(s[2..], "3", "", "", "5", "");
    ExtractCentAmount(s, 2, "3", "", "", "5");
    DigitsValueOf35();
  }

  lemma AfterNumberParts(s: string)
    requires s == "1 3¢5"
    ensures s[2..] == "3" + ("" + (['¢'] + ("" + ("5" + ""))))
    ensures !IsDigit(s[1])
  {
  }

  /** A digit run followed by optional whitespace and then anything but
      the cent sign starts no cent match. */
  lemma CentAtNoSign(d: string, sp: string, t: string)
    requires d != [] && AllDigits(d) && AllSpace(sp)
    requires t != [] && !IsSpace(t[0]) && t[0] != '¢'
    requires sp != [] || !IsDigit(t[0])
    ensures CentAt(d + (sp + t)).None?
  {
    var x := sp + t;
    RunHead(sp, t);
    DigitRunExact(d, x);
    assert (d + x)[|d|..] == x;
    LStripSpaces(sp, t);
  }

  /** The "1" in "1 3¢5" is not followed by the cent sign. */
  lemma NoCentAtNumber(s: string)
    requires s == "1 3¢5"
    ensures CentAt(s).None?
  {
    assert s == "1" + (" " + "3¢5");
    CentAtNoSign("1", " ", "3¢5");
  }

  /** A plain text that starts with a digit is parsed as it stands. */
  lemma PlainPrice(s: string)
    requires Plain(s) && Trimmed(s) && s != [] && IsDigit(s[0])
    ensures PriceText(Text(s)) == Some(s)
    ensures CleanedPrice(s) == s
    ensures !IsEuro(Text(s))
  {
    assert Text(s) !in NULL_VALUES;
    StripOfTrimmed(s);
    StripCurrencyPlain(s);
    PlainNotEuro(s);
  }

  /** A comma is not a decimal separator: "<a>,<b>" reads as the whole
      number "<a><b>". */
  lemma CommaIgnored(a: string, b: string)
    requires a != [] && AllDigits(a) && AllDigits(b)
    ensures RawAmount(Text(a + "," + b)) == Some(Decimal(DigitsValue(a + b), 0))
  {
    var s := a + "," + b;
    CommaText(a, b);
    PlainPrice(s);
    assert CentSearch(CleanedPrice(s)).None?;
    PlainReading(Text(s));
    assert RawAmount(Text(s)) == Some(DigitsReading(s));
    CommaReading(a, b);
  }

  lemma CommaReading(a: string, b: string)
    requires AllDigits(a) && AllDigits(b)
    ensures OnlyDigits(a + "," + b) == a + b
  {
    DigitsThenComma(a);
    OnlyDigitsAppend(a + ",", b);
    OnlyDigitsOfDigits(b);
  }

  lemma DigitsThenComma(a: string)
    requires AllDigits(a)
    ensures OnlyDigits(a + ",") == a
  {
    OnlyDigitsAppend(a, ",");
    assert OnlyDigits(",") == [] by { assert ","[1..] == []; }
    OnlyDigitsOfDigits(a);
  }

  lemma CommaText(a: string, b: string)
    requires a != [] && AllDigits(a) && AllDigits(b)
    ensures var s := a + "," + b;
      Plain(s) && Trimmed(s) && IsDigit(s[0]) && HasDigit(s) && '¢' !in s && '.' !in s
  {
    var s := a + "," + b;
    forall i | 0 <= i < |s| ensures IsDigit(s[i]) || s[i] == ',' {
      if i < |a| {
        assert s[i] == a[i];
      } else if i > |a| {
        assert s[i] == b[i - |a| - 1];
      }
    }
    assert s[0] == a[0];
    if b != [] {
      assert s[|s| - 1] == b[|b| - 1];
    }
  }

  /** Dots after the first are ignored: "<a>.<b>.<c>" reads as "<a>.<bc>". */
  lemma ExtraDotsIgnored(a: string, b: string, c: string)
    requires a != [] && c != [] && AllDigits(a) && AllDigits(b) && AllDigits(c)
    ensures RawAmount(Text(a + "." + (b + "." + c))) == Some(Decimal(DigitsValue(a + (b + c)), |b + c|))
  {
    var bc := b + "." + c;
    var s := a + "." + bc;
    TwoDotText(a, b, c);
    PlainPrice(s);
    PlainReading(Text(s));
    assert RawAmount(Text(s)) == Some(DigitsReading(s));
    TwoDotReading(a, b, c);
    assert DigitsReading(s) == Decimal(DigitsValue(a + (b + c)), |b + c|);
  }

  lemma TwoDotReading(a: string, b: string, c: string)
    requires AllDigits(a) && AllDigits(b) && AllDigits(c)
    ensures OnlyDigits(a + "." + (b + "." + c)) == a + (b + c)
    ensures DigitsAfterDot(a + "." + (b + "." + c)) == b + c
  {
    var bc := b + "." + c;
    NoDotInDigits(a);
    NoDotInDigits(b);
    DotReading(b, c);
    OnlyDigitsOfDigits(b);
    OnlyDigitsOfDigits(c);
    assert OnlyDigits(bc) == b + c;
    DotReading(a, bc);
    OnlyDigitsOfDigits(a);
    assert OnlyDigits(a + "." + bc) == a + (b + c);
    assert DigitsAfterDot(a + "." + bc) == b + c;
  }

  lemma TwoDotText(a: string, b: string, c: string)
    requires a != [] && c != [] && AllDigits(a) && AllDigits(b) && AllDigits(c)
    ensures var s := a + "." + (b + "." + c);
      Plain(s) && Trimmed(s) && IsDigit(s[0]) && HasDigit(s) && '¢' !in s
  {
    var s := a + "." + (b + "." + c);
    forall i | 0 <= i < |s| ensures IsNumeric(s[i]) {
      if i < |a| {
        assert s[i] == a[i];
      } else if |a| < i < |a| + 1 + |b| {
        assert s[i] == b[i - |a| - 1];
      } else if i > |a| + 1 + |b| {
        assert s[i] == c[i - |a| - |b| - 2];
      }
    }
    assert s[0] == a[0] && s[|s| - 1] == c[|c| - 1];
  }

  lemma NoDotInDigits(a: string)
    requires AllDigits(a)
    ensures '.' !in a
  {
  }

  /** "3¢5" reads as 3.5, i.e. 3.50 dollars, not 3.05. */
  lemma CentsReadAsDecimals()
    ensures ParsePrice(Text("3¢5")) == Some(Decimal(350, 2))
  {
    assert "3¢5" == "3" + "¢" + "5";
    assert AllDigits("3") && AllDigits("5");
    CentNotation("3", "5");
    DigitsValueOf35();
    assert RawAmount(Text("3¢5")) == Some(Decimal(35, 1));
    assert Pow10(1) == 10;
    RoundTwoPlaces(Decimal(35, 1), Decimal(350, 2));
  }

  /** "€12,50" is twelve hundred and fifty Euro: 1500.00 dollars. */
  lemma EuroWithComma()
    ensures ParsePrice(Text("€12,50")) == Some(Decimal(150000, 2))
  {
    var v := Text("€12,50");
    assert "€12,50" == "€" + "12,50";
    assert "12,50" == "12" + "," + "50";
    assert "12" + "50" == "1250";
    assert AllDigits("12") && AllDigits("50");
    CurrencyPrefix("€", "12,50");
    CommaIgnored("12", "50");
    DigitsValueOf1250();
    assert RawAmount(v) == Some(Decimal(1250, 0));
    assert IsEuro(v);
    assert Pow10(1) == 10;
    RoundTwoPlaces(Decimal(15000, 1), Decimal(150000, 2));
  }

  lemma DigitsValueOf35()
    ensures "3" + "5" == "35" && AllDigits("35") && DigitsValue("35") == 35
  {
    assert "35"[..1] == "3" && "3"[..0] == "";
  }

  lemma DigitsValueOf1250()
    ensures AllDigits("1250") && DigitsValue("1250") == 1250
  {
    assert "1250"[..3] == "125" && "125"[..2] == "12" && "12"[..1] == "1" && "1"[..0] == "";
  }
}
