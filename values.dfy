/**
  The data the transformation stage works on: exact decimal amounts,
  calendar timestamps, the dynamically typed cell values of a data frame,
  and frames themselves (an ordered column list and a sequence of rows).
 */
module Values {
  import opened Text

  /** A result that may be missing (Python's `Optional`). */
  datatype Option<T> = None | Some(value: T)

  /* ---------------- exact decimals ---------------- */

  /** The number `units / 10^scale`. Floats of the source are modelled by
      the exact decimal they were written as. */
  datatype Decimal = Decimal(units: int, scale: nat)

  /** Two decimals denote the same number. */
  predicate SameValue(a: Decimal, b: Decimal) {
    a.units * Pow10(b.scale) == b.units * Pow10(a.scale)
  }

  /** Exact product. */
  function Mul(a: Decimal, b: Decimal): (r: Decimal)
    ensures r.units == a.units * b.units && r.scale == a.scale + b.scale
  {
    Decimal(a.units * b.units, a.scale + b.scale)
  }

  /** Rounding to two fractional digits, ties to the even neighbour, as
      Python's `round(x, 2)` does on the exact value. */
  function Round2(d: Decimal): (r: Decimal)
    ensures r.scale == 2
    ensures d.scale <= 2 ==> SameValue(r, d)
    ensures d.scale > 2 ==>
      var p: int := Pow10(d.scale - 2);
      var err := r.units * p - d.units;
      && 2 * err <= p && -p <= 2 * err
      && (2 * err == p || 2 * err == -p ==> r.units % 2 == 0)
    ensures d.units >= 0 ==> r.units >= 0
  {
    if d.scale <= 2 then
      var r := Decimal(d.units * Pow10(2 - d.scale), 2);
      assert SameValue(r, d) by { ScaleUp(d); }
      if d.units >= 0 then NonNegProduct(d.units, Pow10(2 - d.scale)); r else r
    else
      var p := Pow10(d.scale - 2);
      var q, rem := d.units / p, d.units % p;
      var up := 2 * rem > p || (2 * rem == p && q % 2 == 1);
      var r := Decimal(if up then q + 1 else q, 2);
      RoundingError(d.units, p, up);
      r
  }

  lemma ScaleUp(d: Decimal)
    requires d.scale <= 2
    ensures d.units * Pow10(2 - d.scale) * Pow10(d.scale) == d.units * Pow10(2)
  {
    if d.scale == 0 {
    } else if d.scale == 1 {
      assert Pow10(1) == 10;
    } else {
      assert Pow10(2) == 100;
    }
  }

  lemma NonNegProduct(a: int, b: nat)
    requires a >= 0
    ensures a * b >= 0
  {
  }

  /** Rounding `u / p` down or up leaves an error of at most half of `p`. */
  lemma RoundingError(u: int, p: int, up: bool)
    requires p >= 1
    requires up == (2 * (u % p) > p || (2 * (u % p) == p && (u / p) % 2 == 1))
    ensures var r := if up then u / p + 1 else u / p;
      && 2 * (r * p - u) <= p && -p <= 2 * (r * p - u)
      && (2 * (r * p - u) == p || 2 * (r * p - u) == -p ==> r % 2 == 0)
      && (u >= 0 ==> r >= 0)
  {
    RoundedNear(u, p, u / p, u % p, up);
  }

  lemma RoundedNear(u: int, p: int, q: int, rem: int, up: bool)
    requires p >= 1 && u == q * p + rem && 0 <= rem < p
    requires up == (2 * rem > p || (2 * rem == p && q % 2 == 1))
    ensures var r := if up then q + 1 else q;
      && 2 * (r * p - u) <= p && -p <= 2 * (r * p - u)
      && (2 * (r * p - u) == p || 2 * (r * p - u) == -p ==> r % 2 == 0)
      && (u >= 0 ==> r >= 0)
  {
    var r := if up then q + 1 else q;
    assert r * p == q * p + (if up then p else 0);
    NegativeTimesPositive(q, p);
  }

  lemma NegativeTimesPositive(q: int, p: int)
    requires p >= 1
    ensures q < 0 ==> q * p <= -p
  {
    if q < 0 {
      assert q * p == -((-q) * p);
      assert (-q) * p >= p;
    }
  }

  /** `r` is `x` to the cent: two decimals, and no more than half a cent away. */
  predicate WithinHalfCent(r: Decimal, x: Decimal) {
    var p: int := Pow10(x.scale);
    r.scale == 2 && -p <= 2 * (r.units * p - x.units * 100) <= p
  }

  /** Rounding to two decimals never moves a number by more than half a cent. */
  lemma Round2Nearest(x: Decimal)
    ensures WithinHalfCent(Round2(x), x)
  {
    var r := Round2(x);
    assert Pow10(2) == 100;
    if x.scale > 2 {
      var p: int := Pow10(x.scale - 2);
      assert Pow10(x.scale) == 100 * p by {
        assert Pow10(x.scale) == 10 * Pow10(x.scale - 1);
        assert Pow10(x.scale - 1) == 10 * Pow10(x.scale - 2);
      }
      var err := r.units * p - x.units;
      assert r.units * (100 * p) - x.units * 100 == 100 * err;
    }
  }

  /** Removes trailing fractional zeros: the shortest spelling of the same number. */
  function Normalize(d: Decimal): (r: Decimal)
    ensures r.scale <= d.scale
    ensures r.units * Pow10(d.scale - r.scale) == d.units
    ensures r.scale == 0 || r.units % 10 != 0
    decreases d.scale
  {
    if d.scale > 0 && d.units % 10 == 0 then
      var r := Normalize(Decimal(d.units / 10, d.scale - 1));
      assert r.units * Pow10(d.scale - 1 - r.scale) == d.units / 10;
      assert Pow10(d.scale - r.scale) == 10 * Pow10(d.scale - 1 - r.scale);
      r
    else d
  }

  /** `n` written with exactly `width` digits, zero-padded on the left. */
  function Pad(n: nat, width: nat): (s: string)
    requires width >= 1 && n < Pow10(width)
    ensures |s| == width && AllDigits(s) && DigitsValue(s) == n
  {
    NatTextLength(n, width);
    var t := NatText(n);
    var zeros := seq(width - |t|, _ => '0');
    assert AllDigits(zeros) && DigitsValue(zeros) == 0 by { ZerosValue(zeros); }
    DigitsValueAppend(zeros, t);
    zeros + t
  }

  lemma {:induction false} NatTextLength(n: nat, width: nat)
    requires width >= 1 && n < Pow10(width)
    ensures |NatText(n)| <= width
    decreases width
  {
    if n >= 10 {
      NatTextLength(n / 10, width - 1);
    }
  }

  lemma {:induction false} ZerosValue(z: string)
    requires forall i :: 0 <= i < |z| ==> z[i] == '0'
    ensures AllDigits(z) && DigitsValue(z) == 0
    decreases |z|
  {
    if z != [] {
      ZerosValue(z[..|z| - 1]);
    }
  }

  /** Python's `str(x)` for a float `x` in positional notation: the shortest
      numeral, with at least one fractional digit. */
  function DecimalText(d: Decimal): (s: string)
    ensures HasDigit(s)
  {
    var n := Normalize(d);
    var a := if n.units < 0 then -n.units else n.units;
    var whole := NatText(Quotient(a, Pow10(n.scale)));
    var frac := FractionText(a, n.scale);
    var head := (if n.units < 0 then "-" else "") + whole + ".";
    assert IsDigit(frac[0]);
    HasDigitAppend(head, frac);
    head + frac
  }

  /** `a // p` on naturals. */
  function Quotient(a: nat, p: nat): (q: nat)
    requires p >= 1
    ensures q * p <= a < q * p + p
  {
    a / p
  }

  /** The fractional digits of `a / 10^scale`: `scale` of them, or "0" when there are none. */
  function FractionText(a: nat, scale: nat): (f: string)
    ensures f != [] && AllDigits(f)
  {
    if scale == 0 then "0" else Pad(a % Pow10(scale), scale)
  }

  /* ---------------- timestamps ---------------- */

  datatype Moment = Moment(year: int, month: int, day: int, hour: int, minute: int, second: int, micro: int)

  predicate IsLeapYear(y: int) { y % 4 == 0 && (y % 100 != 0 || y % 400 == 0) }

  function DaysInMonth(y: int, m: int): int {
    if m == 2 then (if IsLeapYear(y) then 29 else 28)
    else if m == 4 || m == 6 || m == 9 || m == 11 then 30
    else 31
  }

  /** The moments a Python `datetime` can hold. */
  predicate IsCalendarMoment(t: Moment) {
    && 1 <= t.year <= 9999 && 1 <= t.month <= 12 && 1 <= t.day <= DaysInMonth(t.year, t.month)
    && 0 <= t.hour < 24 && 0 <= t.minute < 60 && 0 <= t.second < 60 && 0 <= t.micro < 1000000
  }

  /** A naive calendar date and time, as returned by the date parser. */
  type DateTime = t: Moment | IsCalendarMoment(t) witness Moment(1970, 1, 1, 0, 0, 0, 0)

  function Key(t: Moment): seq<int> { [t.year, t.month, t.day, t.hour, t.minute, t.second, t.micro] }

  /** Lexicographic order on the seven fields, i.e. chronological order. */
  predicate NotLater(a: Moment, b: Moment) { LexLeq(Key(a), Key(b)) }

  predicate LexLeq(a: seq<int>, b: seq<int>)
    requires |a| == |b|
  {
    a == [] || a[0] < b[0] || (a[0] == b[0] && LexLeq(a[1..], b[1..]))
  }

  /** The earliest and latest datetimes a pandas `Timestamp` (a signed 64-bit
      count of nanoseconds since 1970) can represent at microsecond precision. */
  const TIMESTAMP_MIN: Moment := Moment(1677, 9, 21, 0, 12, 43, 145225)
  const TIMESTAMP_MAX: Moment := Moment(2262, 4, 11, 23, 47, 16, 854775)

  /** The datetimes a nanosecond-resolution `Timestamp` can hold. Before
      pandas 2.0, `pd.Timestamp(dt)` fails with an out-of-bounds error
      outside this range. From pandas 2.0 on it keeps the microsecond
      resolution of a `datetime` and accepts every datetime, so this bound
      no longer applies. */
  predicate InTimestampRange(t: Moment) {
    NotLater(TIMESTAMP_MIN, t) && NotLater(t, TIMESTAMP_MAX)
  }

  /* ---------------- cell values ---------------- */

  /** One cell of a data frame. */
  datatype Value =
    | Absent                      // None, NaN or NaT
    | Text(s: string)             // a Python str
    | Int(i: int)                 // a Python int
    | Real(d: Decimal)            // a Python float, by its exact decimal value
    | Stamp(t: DateTime)          // a pandas Timestamp
    | Names(names: set<string>)   // a frozenset of strings
  {
    /** The values a loader hands over: a string, a number, or nothing. */
    predicate IsScalar() { Absent? || Text? || Int? || Real? }
  }

  /** Python's `str(x)` on a scalar. */
  function ToStr(v: Value): (s: string)
    requires v.IsScalar()
  {
    match v
    case Absent => "nan"
    case Text(s) => s
    case Int(i) => IntText(i)
    case Real(d) => DecimalText(d)
  }

  /* ---------------- frames ---------------- */

  type Row = map<string, Value>

  /** A pandas DataFrame: ordered column labels and one mapping per row. */
  datatype Frame = Frame(columns: seq<string>, rows: seq<Row>)

  /** Every row has exactly the frame's columns, and no label repeats. */
  predicate WellFormed(f: Frame) {
    && (forall i, j :: 0 <= i < j < |f.columns| ==> f.columns[i] != f.columns[j])
    && (forall k :: 0 <= k < |f.rows| ==> f.rows[k].Keys == set c | c in f.columns)
  }

  /** `row[c]`, with a missing label read as NaN. */
  function Get(r: Row, c: string): Value {
    if c in r then r[c] else Absent
  }

  predicate HasColumns(f: Frame, cs: seq<string>) {
    forall c :: c in cs ==> c in f.columns
  }

  /** Every cell of the named columns is a loader scalar. */
  predicate ScalarColumns(f: Frame, cs: seq<string>) {
    forall k, c :: 0 <= k < |f.rows| && c in cs ==> Get(f.rows[k], c).IsScalar()
  }

  /** `df[c] = vals`: replaces the column, or appends it when new. */
  function WithColumn(f: Frame, c: string, vals: seq<Value>): (g: Frame)
    requires |vals| == |f.rows|
    ensures |g.rows| == |f.rows|
    ensures g.columns == if c in f.columns then f.columns else f.columns + [c]
    ensures forall k :: 0 <= k < |g.rows| ==> g.rows[k] == f.rows[k][c := vals[k]]
    ensures WellFormed(f) ==> WellFormed(g)
  {
    Frame(if c in f.columns then f.columns else f.columns + [c],
          seq(|f.rows|, k requires 0 <= k < |f.rows| => f.rows[k][c := vals[k]]))
  }
}
