/**
  The three table transformations and their composition. Each one copies
  its input frame, replaces the raw null spellings in some columns, and
  adds derived columns computed cell by cell from the cleaned ones; the
  orders transformation then drops the rows that lack an essential field.

  Frames are values here, so "copies its input and never changes it" holds
  by construction. Each transformation is a method that builds the result
  column by column, as the source does, and is proved equal to a
  specification that describes the result row by row.
 */
module Transform {
  import opened Text
  import opened Values
  import opened Nulls
  import opened Price
  import opened Timestamp
  import opened Names
  import opened Authors

  /* ---------------- derived cells ---------------- */

  /** `re.sub(r'[^\d]', '', str(x)) if pd.notna(x) else None`: the digits of a phone number. */
  function PhoneKey(v: Value): (r: Value)
    requires v.IsScalar()
    ensures r.Absent? <==> v.Absent?
    ensures r.Absent? || (r.Text? && AllDigits(r.s))
  {
    if v.Absent? then Absent else Text(OnlyDigits(ToStr(v)))
  }

  /** Separators carrying no digit do not change a phone key. */
  lemma PhoneKeyIgnoresSeparators(a: string, sep: string, b: string)
    requires !HasDigit(sep)
    ensures PhoneKey(Text(a + sep + b)) == PhoneKey(Text(a + b))
  {
    var da, ds, db := OnlyDigits(a), OnlyDigits(sep), OnlyDigits(b);
    assert ds == [];
    OnlyDigitsAppend(a + sep, b);
    OnlyDigitsAppend(a, sep);
    OnlyDigitsAppend(a, b);
    assert OnlyDigits(a + sep) == da;
    assert OnlyDigits(a + sep + b) == da + db;
  }

  /** A phone key is its own key. */
  lemma PhoneKeyIdempotent(v: Value)
    requires v.IsScalar()
    ensures PhoneKey(PhoneKey(v)) == PhoneKey(v)
  {
    if !v.Absent? {
      OnlyDigitsOfDigits(OnlyDigits(ToStr(v)));
    }
  }

  /** A phone number stored as a float, e.g. 5551234 read as 5551234.0,
      keeps the digit of its ".0" in its key. */
  lemma FloatPhoneGainsZero(n: nat)
    ensures PhoneKey(Real(Decimal(n, 0))) == Text(NatText(n) + "0")
  {
    var t := NatText(n);
    WholeFloatText(n);
    assert ToStr(Real(Decimal(n, 0))) == t + "." + "0";
    OnlyDigitsAppend(t + ".", "0");
    OnlyDigitsAppend(t, ".");
    OnlyDigitsOfDigits(t);
    assert OnlyDigits(".") == [];
    assert OnlyDigits("0") == "0";
    assert OnlyDigits(t + ".") == t;
  }

  /** `str(float(n))` for a whole number `n` is its digits followed by ".0". */
  lemma WholeFloatText(n: nat)
    ensures DecimalText(Decimal(n, 0)) == NatText(n) + "." + "0"
  {
    var d := Decimal(n, 0);
    assert Normalize(d) == d;
    assert Pow10(0) == 1;
    assert FractionText(n, 0) == "0";
  }

  /** `df['email'].str.lower().str.strip()`: strings are lowercased and
      stripped; anything else becomes NaN. */
  function EmailKey(v: Value): (r: Value)
    ensures r.Absent? <==> !v.Text?
    ensures r.Absent? || (r.Text? && NoUpper(r.s) && Trimmed(r.s))
  {
    if v.Text? then
      StripLowerClean(v.s);
      Text(Strip(Lower(v.s)))
    else Absent
  }

  /** Normalizing an email twice is normalizing it once. */
  lemma EmailKeyIdempotent(v: Value)
    ensures EmailKey(EmailKey(v)) == EmailKey(v)
  {
    if v.Text? {
      var e := EmailKey(v).s;
      LowerOfLower(e);
      StripOfTrimmed(e);
    }
  }

  /** `df['name'].apply(normalize_name)`, with None stored as NaN. */
  function NameKey(v: Value): (r: Value)
    requires v.IsScalar()
    ensures v.Absent? ==> r.Absent?
    ensures r.Absent? || (r.Text? && r.s != [] && NoUpper(r.s) && SingleSpaced(r.s))
  {
    NormalizedNameShape(v);
    match NormalizedName(v)
    case None => Absent
    case Some(t) => Text(t)
  }

  /** `re.sub(r'\s+', ' ', str(x).lower().strip()) if pd.notna(x) else None` */
  function AddressKey(v: Value): (r: Value)
    requires v.IsScalar()
    ensures r.Absent? <==> v.Absent?
    ensures r.Absent? || (r.Text? && SingleSpaced(r.s) && NoUpper(r.s))
  {
    if v.Absent? then Absent
    else
      var t := Strip(Lower(ToStr(v)));
      StripLowerClean(ToStr(v));
      CollapseTrimmed(t);
      Text(CollapseSpaces(t))
  }

  /** Normalizing an address twice is normalizing it once. */
  lemma AddressKeyIdempotent(v: Value)
    requires v.IsScalar()
    ensures AddressKey(AddressKey(v)) == AddressKey(v)
  {
    if !v.Absent? {
      var a := AddressKey(v).s;
      LowerOfLower(a);
      StripOfTrimmed(a);
      CollapseOfCollapsed(a);
    }
  }

  /** `df['unit_price'].apply(parse_price)`, with None stored as NaN. */
  function PriceCell(v: Value): (r: Value)
    requires v.IsScalar()
    ensures r.Absent? <==> v.Absent? || !HasDigit(ToStr(v))
    ensures r.Absent? || (r.Real? && r.d.scale == 2 && r.d.units >= 0)
  {
    match ParsePrice(v)
    case None => Absent
    case Some(d) => Real(d)
  }

  /** `df['timestamp'].apply(parse_timestamp)`, with None stored as NaT. */
  function StampCell(v: Value, parse: DateParser): (r: Value)
    requires v.IsScalar()
    ensures r.Absent? <==> ParseTimestamp(v, parse).None?
    ensures r.Absent? || (r.Stamp? && InTimestampRange(r.t))
  {
    match ParseTimestamp(v, parse)
    case None => Absent
    case Some(t) => Stamp(t)
  }

  /** `x.strftime('%Y-%m-%d') if pd.notna(x) else None` */
  function DateCell(stamp: Value): (r: Value)
    ensures r.Absent? <==> !stamp.Stamp?
    ensures r.Absent? || (r.Text? && |r.s| == 10)
  {
    if stamp.Stamp? then Text(FormatDate(stamp.t)) else Absent
  }

  /** The number a numeric cell holds. */
  function Amount(v: Value): Decimal
    requires v.Int? || v.Real?
  {
    if v.Int? then Decimal(v.i, 0) else v.d
  }

  /** `quantity * unit_price_usd` for one row: NaN when either side is NaN. */
  function PaidPrice(quantity: Value, price: Value): (r: Value)
    requires quantity.Absent? || quantity.Int? || quantity.Real?
    requires price.Absent? || price.Real?
    ensures r.Absent? <==> quantity.Absent? || price.Absent?
    ensures r.Real? ==> SameValue(r.d, Mul(Amount(quantity), Amount(price)))
  {
    if quantity.Absent? || price.Absent? then Absent
    else Real(Mul(Amount(quantity), Amount(price)))
  }

  /** An optional sign followed by at least one digit. */
  predicate IntegerText(s: string) {
    || (s != [] && AllDigits(s))
    || (|s| >= 2 && (s[0] == '-' || s[0] == '+') && AllDigits(s[1..]))
  }

  function IntegerValue(s: string): int
    requires IntegerText(s)
  {
    if s[0] == '-' then 0 - DigitsValue(s[1..])
    else if s[0] == '+' then DigitsValue(s[1..])
    else DigitsValue(s)
  }

  /** A float that holds a whole number. */
  predicate Whole(d: Decimal) { d.units % Pow10(d.scale) == 0 }

  /** An id cell `astype('Int64')` accepts after `pd.to_numeric`: a float id must be whole. */
  predicate IdReadable(v: Value) {
    v.IsScalar() && (v.Real? ==> Whole(v.d))
  }

  /** `pd.to_numeric(x, errors='coerce')` followed by `.astype('Int64')` on
      one cell: integers stay, whole floats become integers, text of an
      optionally signed digit string is read, and any other text becomes
      missing. Text that `pd.to_numeric` would read as a float ("12.0",
      "1e3", "3.5") is treated as unreadable here, so it too becomes missing. */
  function CoerceId(v: Value): (r: Value)
    requires IdReadable(v)
    ensures r.Absent? || r.Int?
    ensures v.Int? ==> r == v
    ensures v.Absent? ==> r.Absent?
    ensures v.Real? ==> r.Int? && r.i * Pow10(v.d.scale) == v.d.units
    ensures v.Text? ==> (r.Int? <==> IntegerText(v.s))
    ensures v.Text? && r.Int? ==> r.i == IntegerValue(v.s)
  {
    match v
    case Absent => Absent
    case Int(i) => Int(i)
    case Real(d) => Int(d.units / Pow10(d.scale))
    case Text(s) => if IntegerText(s) then Int(IntegerValue(s)) else Absent
  }

  /** Reading back the text of an integer id gives the id. */
  lemma CoerceIdRoundTrip(i: int)
    ensures CoerceId(Text(IntText(i))) == Int(i)
  {
    var s := IntText(i);
    if i < 0 {
      assert s[1..] == NatText(-i);
      assert s[0] == '-';
    } else {
      assert s[0] != '-' && s[0] != '+' by { assert IsDigit(s[0]); }
    }
  }

  /** Coercing twice is coercing once. */
  lemma CoerceIdIdempotent(v: Value)
    requires IdReadable(v)
    ensures CoerceId(CoerceId(v)) == CoerceId(v)
  {
  }

  /** `df['author'].apply(create_author_set)`, with None stored as NaN. */
  function AuthorCell(v: Value): (r: Value)
    requires v.IsScalar()
    ensures r.Absent? <==> AuthorSet(v).None?
    ensures r.Absent? || (r.Names? && r.names != {})
  {
    match AuthorSet(v)
    case None => Absent
    case Some(names) =>
      AuthorsClean(v);
      Names(names)
  }

  /* ---------------- columns ---------------- */

  /** The column list after `df[c] = ...` for each of `cs` in turn. */
  function Extend(columns: seq<string>, cs: seq<string>): (r: seq<string>)
    ensures forall c :: c in r <==> c in columns || c in cs
    decreases |cs|
  {
    if cs == [] then columns
    else Extend(if cs[0] in columns then columns else columns + [cs[0]], cs[1..])
  }

  /** Setting one label of a row leaves the others. */
  lemma GetOther(r: Row, c: string, v: Value, x: string)
    requires x != c
    ensures Get(r[c := v], x) == Get(r, x)
  {
  }

  /** Adding a list of columns is adding its first, then the rest. */
  lemma ExtendFirst(columns: seq<string>, cs: seq<string>)
    requires cs != []
    ensures Extend(columns, cs) == Extend(Extend(columns, [cs[0]]), cs[1..])
  {
    var c1 := if cs[0] in columns then columns else columns + [cs[0]];
    assert [cs[0]][1..] == [];
    assert Extend(columns, [cs[0]]) == Extend(c1, []);
  }

  /** Adding four columns one at a time is adding them as a list. */
  lemma ExtendOneByOne(columns: seq<string>, a: string, b: string, c: string, d: string)
    ensures Extend(Extend(Extend(Extend(columns, [a]), [b]), [c]), [d]) == Extend(columns, [a, b, c, d])
  {
    var cs := [a, b, c, d];
    var c1 := Extend(columns, [a]);
    var c2 := Extend(c1, [b]);
    var c3 := Extend(c2, [c]);
    ExtendFirst(columns, cs);
    assert cs[1..] == [b, c, d];
    ExtendFirst(c1, [b, c, d]);
    assert [b, c, d][1..] == [c, d];
    ExtendFirst(c2, [c, d]);
    assert [c, d][1..] == [d];
  }

  /** `df[dst] = df[src].apply(g)`: a new column computed cell by cell from another. */
  function AddDerived(f: Frame, src: string, dst: string, g: Value --> Value): (h: Frame)
    requires forall k :: 0 <= k < |f.rows| ==> g.requires(Get(f.rows[k], src))
    ensures h.columns == Extend(f.columns, [dst])
    ensures |h.rows| == |f.rows|
    ensures forall k :: 0 <= k < |h.rows| ==> h.rows[k] == f.rows[k][dst := g(Get(f.rows[k], src))]
    ensures WellFormed(f) ==> WellFormed(h)
  {
    WithColumn(f, dst, seq(|f.rows|, k requires 0 <= k < |f.rows| => g(Get(f.rows[k], src))))
  }

  /** Every cell of column `c` is a loader scalar. */
  predicate ScalarColumn(f: Frame, c: string) {
    forall k :: 0 <= k < |f.rows| ==> Get(f.rows[k], c).IsScalar()
  }

  /** Adding a derived column leaves the cells of every other column as they were. */
  lemma DerivedKeeps(f: Frame, src: string, dst: string, g: Value --> Value, c: string)
    requires forall k :: 0 <= k < |f.rows| ==> g.requires(Get(f.rows[k], src))
    requires c != dst
    ensures forall k :: 0 <= k < |f.rows| ==> Get(AddDerived(f, src, dst, g).rows[k], c) == Get(f.rows[k], c)
  {
  }

  /** `df[dst] = df[a] * df[b]`-style: a new column computed cell by cell from two others. */
  function AddCombined(f: Frame, a: string, b: string, dst: string, g: (Value, Value) --> Value): (h: Frame)
    requires forall k :: 0 <= k < |f.rows| ==> g.requires(Get(f.rows[k], a), Get(f.rows[k], b))
    ensures h.columns == Extend(f.columns, [dst])
    ensures |h.rows| == |f.rows|
    ensures forall k :: 0 <= k < |h.rows| ==> h.rows[k] == f.rows[k][dst := g(Get(f.rows[k], a), Get(f.rows[k], b))]
    ensures WellFormed(f) ==> WellFormed(h)
  {
    WithColumn(f, dst, seq(|f.rows|, k requires 0 <= k < |f.rows| => g(Get(f.rows[k], a), Get(f.rows[k], b))))
  }

  /** No cell of the `subset` columns is NaN. */
  predicate HasAll(r: Row, subset: seq<string>) {
    forall c :: c in subset ==> !Get(r, c).Absent?
  }

  /** The rows with no NaN in `subset`, in their original order. */
  function KeepRows(rows: seq<Row>, subset: seq<string>): (kept: seq<Row>)
    ensures |kept| <= |rows|
    ensures forall r :: r in kept ==> r in rows && HasAll(r, subset)
  {
    if rows == [] then []
    else (if HasAll(rows[0], subset) then [rows[0]] else []) + KeepRows(rows[1..], subset)
  }

  /** `df.dropna(subset=subset)`. */
  function DropNa(f: Frame, subset: seq<string>): (h: Frame)
    ensures h.columns == f.columns
    ensures WellFormed(f) ==> WellFormed(h)
  {
    KeptKeys(f, subset);
    Frame(f.columns, KeepRows(f.rows, subset))
  }

  lemma KeptKeys(f: Frame, subset: seq<string>)
    ensures WellFormed(f) ==> WellFormed(Frame(f.columns, KeepRows(f.rows, subset)))
  {
    if WellFormed(f) {
      var kept := KeepRows(f.rows, subset);
      forall k | 0 <= k < |kept| ensures kept[k].Keys == set c | c in f.columns {
        assert kept[k] in f.rows;
        var j :| 0 <= j < |f.rows| && f.rows[j] == kept[k];
      }
    }
  }

  /** Filtering a concatenation filters each part and keeps them in order,
      so the kept rows appear in the order they had. */
  lemma {:induction false} KeepRowsAppend(a: seq<Row>, b: seq<Row>, subset: seq<string>)
    ensures KeepRows(a + b, subset) == KeepRows(a, subset) + KeepRows(b, subset)
  {
    if a == [] {
      assert a + b == b;
    } else {
      assert (a + b)[1..] == a[1..] + b;
      KeepRowsAppend(a[1..], b, subset);
    }
  }

  /** A row is kept exactly when it is in the input and has every `subset` cell. */
  lemma {:induction false} KeepRowsMember(rows: seq<Row>, subset: seq<string>, r: Row)
    ensures r in KeepRows(rows, subset) <==> r in rows && HasAll(r, subset)
  {
    if rows != [] {
      KeepRowsMember(rows[1..], subset, r);
      assert r in rows <==> r == rows[0] || r in rows[1..];
    }
  }

  /** Dropping twice is dropping once. */
  lemma {:induction false} KeepRowsIdempotent(rows: seq<Row>, subset: seq<string>)
    ensures KeepRows(KeepRows(rows, subset), subset) == KeepRows(rows, subset)
  {
    if rows != [] {
      var head := if HasAll(rows[0], subset) then [rows[0]] else [];
      KeepRowsAppend(head, KeepRows(rows[1..], subset), subset);
      KeepRowsIdempotent(rows[1..], subset);
      if HasAll(rows[0], subset) {
        assert [rows[0]][1..] == [];
        assert KeepRows([rows[0]], subset) == [rows[0]] + KeepRows([], subset);
      }
    }
  }

  /** A cell of a sanitized row: sanitized when its column is a target. */
  lemma CleanRowGet(r: Row, targets: set<string>, x: string)
    ensures Get(CleanRow(r, targets), x) == if x in targets then Sanitize(Get(r, x)) else Get(r, x)
  {
  }

  /** A sanitized cell is still a loader scalar. */
  lemma CleanRowScalar(r: Row, targets: set<string>, c: string)
    requires Get(r, c).IsScalar()
    ensures Get(CleanRow(r, targets), c).IsScalar()
  {
  }

  lemma CleanedScalar(df: Frame, columns: seq<string>, cs: seq<string>)
    requires ScalarColumns(df, cs)
    ensures ScalarColumns(Cleaned(df, columns), cs)
  {
    var g := Cleaned(df, columns);
    forall k, c | 0 <= k < |g.rows| && c in cs ensures Get(g.rows[k], c).IsScalar() {
      CleanRowScalar(df.rows[k], Targets(df, columns), c);
    }
  }

  /* ---------------- users ---------------- */

  const USER_CLEAN: seq<string> := ["name", "address", "phone", "email"]
  const USER_NEW: seq<string> := ["phone_normalized", "email_normalized", "name_normalized", "address_normalized"]

  /** One row of `transform_users`' result, from the input row. */
  function UserRow(r: Row, targets: set<string>): Row
    requires forall c :: c in USER_CLEAN ==> Get(r, c).IsScalar()
  {
    var c := CleanRow(r, targets);
    CleanRowScalar(r, targets, "phone");
    CleanRowScalar(r, targets, "name");
    CleanRowScalar(r, targets, "address");
    c["phone_normalized" := PhoneKey(Get(c, "phone"))]
     ["email_normalized" := EmailKey(Get(c, "email"))]
     ["name_normalized" := NameKey(Get(c, "name"))]
     ["address_normalized" := AddressKey(Get(c, "address"))]
  }

  /** The four normalized columns added one after another give `UserRow`. */
  lemma UserRowSteps(r: Row, targets: set<string>, c: Row, r1: Row, r2: Row, r3: Row)
    requires forall x :: x in USER_CLEAN ==> Get(r, x).IsScalar()
    requires c == CleanRow(r, targets)
    requires Get(c, "phone").IsScalar() && r1 == c["phone_normalized" := PhoneKey(Get(c, "phone"))]
    requires r2 == r1["email_normalized" := EmailKey(Get(r1, "email"))]
    requires Get(r2, "name").IsScalar() && r3 == r2["name_normalized" := NameKey(Get(r2, "name"))]
    requires Get(r3, "address").IsScalar()
    ensures r3["address_normalized" := AddressKey(Get(r3, "address"))] == UserRow(r, targets)
  {
    GetOther(c, "phone_normalized", PhoneKey(Get(c, "phone")), "email");
    GetOther(r1, "email_normalized", EmailKey(Get(r1, "email")), "name");
    GetOther(c, "phone_normalized", PhoneKey(Get(c, "phone")), "name");
    GetOther(r2, "name_normalized", NameKey(Get(r2, "name")), "address");
    GetOther(r1, "email_normalized", EmailKey(Get(r1, "email")), "address");
    GetOther(c, "phone_normalized", PhoneKey(Get(c, "phone")), "address");
  }

  /** The frame after the four column assignments is `UsersSpec`. */
  lemma UsersSteps(users: Frame, clean: Frame, d1: Frame, d2: Frame, d3: Frame, df: Frame)
    requires ScalarColumns(users, USER_CLEAN)
    requires clean == Cleaned(users, USER_CLEAN)
    requires ScalarColumn(clean, "phone") && d1 == AddDerived(clean, "phone", "phone_normalized", PhoneKey)
    requires d2 == AddDerived(d1, "email", "email_normalized", EmailKey)
    requires ScalarColumn(d2, "name") && d3 == AddDerived(d2, "name", "name_normalized", NameKey)
    requires ScalarColumn(d3, "address") && df == AddDerived(d3, "address", "address_normalized", AddressKey)
    ensures df == UsersSpec(users)
  {
    var spec := UsersSpec(users);
    forall k | 0 <= k < |df.rows| ensures df.rows[k] == spec.rows[k] {
      UserRowSteps(users.rows[k], Targets(users, USER_CLEAN), clean.rows[k], d1.rows[k], d2.rows[k], d3.rows[k]);
    }
    assert df.rows == spec.rows;
    ExtendOneByOne(users.columns, "phone_normalized", "email_normalized", "name_normalized", "address_normalized");
  }

  /** The cleaned users frame is well formed and its contact cells are scalars. */
  lemma CleanedUsers(users: Frame)
    requires WellFormed(users) && ScalarColumns(users, USER_CLEAN)
    ensures WellFormed(Cleaned(users, USER_CLEAN))
    ensures ScalarColumn(Cleaned(users, USER_CLEAN), "phone")
    ensures ScalarColumn(Cleaned(users, USER_CLEAN), "name")
    ensures ScalarColumn(Cleaned(users, USER_CLEAN), "address")
  {
    CleanedScalar(users, USER_CLEAN, USER_CLEAN);
    CleanedWellFormed(users, USER_CLEAN);
    assert "phone" in USER_CLEAN && "name" in USER_CLEAN && "address" in USER_CLEAN;
  }

  /** What `transform_users(users_df)` returns. */
  function UsersSpec(users: Frame): Frame
    requires ScalarColumns(users, USER_CLEAN)
  {
    var targets := Targets(users, USER_CLEAN);
    Frame(Extend(users.columns, USER_NEW),
          seq(|users.rows|, k requires 0 <= k < |users.rows| => UserRow(users.rows[k], targets)))
  }

  /** A listed column the frame has is cleaned in every row. */
  lemma TargetCell(df: Frame, columns: seq<string>, k: nat, c: string)
    requires k < |df.rows| && c in columns && c in df.columns
    ensures Get(CleanRow(df.rows[k], Targets(df, columns)), c) == Sanitize(Get(df.rows[k], c))
  {
  }

  /** The four new cells of a user row are the keys of its cleaned contact cells. */
  lemma UserRowKeys(r: Row, targets: set<string>, c: Row)
    requires forall c :: c in USER_CLEAN ==> Get(r, c).IsScalar()
    requires c == CleanRow(r, targets)
    requires Get(c, "phone").IsScalar() && Get(c, "name").IsScalar() && Get(c, "address").IsScalar()
    ensures var row := UserRow(r, targets);
      && Get(row, "phone_normalized") == PhoneKey(Get(c, "phone"))
      && Get(row, "email_normalized") == EmailKey(Get(c, "email"))
      && Get(row, "name_normalized") == NameKey(Get(c, "name"))
      && Get(row, "address_normalized") == AddressKey(Get(c, "address"))
  {
    var r1 := c["phone_normalized" := PhoneKey(Get(c, "phone"))];
    var r2 := r1["email_normalized" := EmailKey(Get(c, "email"))];
    var r3 := r2["name_normalized" := NameKey(Get(c, "name"))];
    var a := AddressKey(Get(c, "address"));
    GetOther(r3, "address_normalized", a, "name_normalized");
    GetOther(r3, "address_normalized", a, "email_normalized");
    GetOther(r2, "name_normalized", NameKey(Get(c, "name")), "email_normalized");
    GetOther(r3, "address_normalized", a, "phone_normalized");
    GetOther(r2, "name_normalized", NameKey(Get(c, "name")), "phone_normalized");
    GetOther(r1, "email_normalized", EmailKey(Get(c, "email")), "phone_normalized");
  }

  /** Every contact column of a user row is cleaned, then normalized:
      the phone, address and email keys are NaN exactly when the raw cell
      is a null spelling (the email also when it is not a string), and a
      null name never yields a name key. */
  lemma UserKeys(users: Frame, k: nat)
    requires HasColumns(users, USER_CLEAN) && ScalarColumns(users, USER_CLEAN) && k < |users.rows|
    ensures var row, u := UsersSpec(users).rows[k], users.rows[k];
      && (Get(row, "phone_normalized").Absent? <==> IsNullLike(Get(u, "phone")))
      && (Get(row, "email_normalized").Absent? <==> IsNullLike(Get(u, "email")) || !Get(u, "email").Text?)
      && (IsNullLike(Get(u, "name")) ==> Get(row, "name_normalized").Absent?)
      && (Get(row, "address_normalized").Absent? <==> IsNullLike(Get(u, "address")))
  {
    var targets := Targets(users, USER_CLEAN);
    assert "phone" in USER_CLEAN && "name" in USER_CLEAN && "address" in USER_CLEAN && "email" in USER_CLEAN;
    CleanRowScalar(users.rows[k], targets, "phone");
    CleanRowScalar(users.rows[k], targets, "name");
    CleanRowScalar(users.rows[k], targets, "address");
    UserRowKeys(users.rows[k], targets, CleanRow(users.rows[k], targets));
    TargetCell(users, USER_CLEAN, k, "phone");
    TargetCell(users, USER_CLEAN, k, "email");
    TargetCell(users, USER_CLEAN, k, "name");
    TargetCell(users, USER_CLEAN, k, "address");
  }

  /** `transform_users` drops no row, and a user row keeps every cell
      outside the contact columns and the four new ones. */
  lemma UsersKeepOtherCells(users: Frame, k: nat, col: string)
    requires ScalarColumns(users, USER_CLEAN) && k < |users.rows|
    requires col !in USER_CLEAN && col !in USER_NEW
    ensures |UsersSpec(users).rows| == |users.rows|
    ensures Get(UsersSpec(users).rows[k], col) == Get(users.rows[k], col)
  {
  }

  /** `transform_users`: cleans the four contact columns, then adds the
      four normalized columns one after another. */
  method TransformUsers(users: Frame) returns (df: Frame)
    requires WellFormed(users) && HasColumns(users, USER_CLEAN) && ScalarColumns(users, USER_CLEAN)
    ensures df == UsersSpec(users)
    ensures WellFormed(df)
  {
    df := CleanNullValues(users, USER_CLEAN);
    ghost var clean := df;
    CleanedUsers(users);
    df := AddDerived(df, "phone", "phone_normalized", PhoneKey);
    ghost var d1 := df;
    DerivedKeeps(clean, "phone", "phone_normalized", PhoneKey, "name");
    DerivedKeeps(clean, "phone", "phone_normalized", PhoneKey, "address");
    df := AddDerived(df, "email", "email_normalized", EmailKey);
    ghost var d2 := df;
    DerivedKeeps(d1, "email", "email_normalized", EmailKey, "name");
    DerivedKeeps(d1, "email", "email_normalized", EmailKey, "address");
    df := AddDerived(df, "name", "name_normalized", NameKey);
    ghost var d3 := df;
    DerivedKeeps(d2, "name", "name_normalized", NameKey, "address");
    df := AddDerived(df, "address", "address_normalized", AddressKey);
    UsersSteps(users, clean, d1, d2, d3, df);
  }

  /* ---------------- orders ---------------- */

  const ORDER_CLEAN: seq<string> := ["unit_price", "timestamp", "shipping"]
  const ORDER_NEW: seq<string> := ["unit_price_usd", "parsed_timestamp", "date", "paid_price"]
  const ORDER_REQUIRED: seq<string> := ["unit_price_usd", "date", "user_id", "book_id"]

  /** A quantity cell that can be multiplied: a number or NaN. */
  predicate Numeric(v: Value) { v.Absent? || v.Int? || v.Real? }

  /** What `transform_orders` needs of an input row: the price and
      timestamp are loader scalars and the quantity can be multiplied. */
  predicate OrderCells(r: Row) {
    Get(r, "unit_price").IsScalar() && Get(r, "timestamp").IsScalar() && Numeric(Get(r, "quantity"))
  }

  /** Sanitizing keeps what `transform_orders` needs of a row. */
  lemma CleanRowOrderCells(r: Row, targets: set<string>)
    requires OrderCells(r)
    ensures OrderCells(CleanRow(r, targets))
  {
    CleanRowScalar(r, targets, "unit_price");
    CleanRowScalar(r, targets, "timestamp");
  }

  /** `parse_timestamp` with the parser fixed, as `apply` calls it. */
  function StampWith(parse: DateParser): Value --> Value {
    (v: Value) requires v.IsScalar() => StampCell(v, parse)
  }

  /** One row of `transform_orders`' result before the drop, from the input row. */
  function OrderRow(r: Row, targets: set<string>, parse: DateParser): Row
    requires OrderCells(r)
  {
    var c := CleanRow(r, targets);
    CleanRowOrderCells(r, targets);
    var price := PriceCell(Get(c, "unit_price"));
    var stamp := StampCell(Get(c, "timestamp"), parse);
    c["unit_price_usd" := price]
     ["parsed_timestamp" := stamp]
     ["date" := DateCell(stamp)]
     ["paid_price" := PaidPrice(Get(c, "quantity"), price)]
  }

  /** Every input row with its cleaned and derived cells, before the drop. */
  function OrderRows(rows: seq<Row>, targets: set<string>, parse: DateParser): (out: seq<Row>)
    requires forall k :: 0 <= k < |rows| ==> OrderCells(rows[k])
    ensures |out| == |rows|
    ensures forall k :: 0 <= k < |rows| ==> out[k] == OrderRow(rows[k], targets, parse)
  {
    seq(|rows|, k requires 0 <= k < |rows| => OrderRow(rows[k], targets, parse))
  }

  /** What `transform_orders(orders_df)` returns. */
  function OrdersSpec(orders: Frame, parse: DateParser): Frame
    requires forall k :: 0 <= k < |orders.rows| ==> OrderCells(orders.rows[k])
  {
    Frame(Extend(orders.columns, ORDER_NEW),
          KeepRows(OrderRows(orders.rows, Targets(orders, ORDER_CLEAN), parse), ORDER_REQUIRED))
  }

  /** The four derived columns added one after another give `OrderRow`. */
  lemma OrderRowSteps(r: Row, targets: set<string>, parse: DateParser, c: Row, r1: Row, r2: Row, r3: Row)
    requires OrderCells(r) && c == CleanRow(r, targets)
    requires Get(c, "unit_price").IsScalar() && r1 == c["unit_price_usd" := PriceCell(Get(c, "unit_price"))]
    requires Get(r1, "timestamp").IsScalar() && r2 == r1["parsed_timestamp" := StampCell(Get(r1, "timestamp"), parse)]
    requires r3 == r2["date" := DateCell(Get(r2, "parsed_timestamp"))]
    requires Numeric(Get(r3, "quantity")) && (Get(r3, "unit_price_usd").Absent? || Get(r3, "unit_price_usd").Real?)
    ensures r3["paid_price" := PaidPrice(Get(r3, "quantity"), Get(r3, "unit_price_usd"))] == OrderRow(r, targets, parse)
  {
    var price := PriceCell(Get(c, "unit_price"));
    var stamp := StampCell(Get(c, "timestamp"), parse);
    GetOther(c, "unit_price_usd", price, "timestamp");
    GetOther(c, "unit_price_usd", price, "quantity");
    GetOther(r1, "parsed_timestamp", stamp, "quantity");
    GetOther(r2, "date", DateCell(stamp), "quantity");
    GetOther(r1, "parsed_timestamp", stamp, "unit_price_usd");
    GetOther(r2, "date", DateCell(stamp), "unit_price_usd");
  }

  /** The cleaned orders frame is well formed and keeps what the derived columns need. */
  lemma CleanedOrders(orders: Frame)
    requires WellFormed(orders) && forall k :: 0 <= k < |orders.rows| ==> OrderCells(orders.rows[k])
    ensures WellFormed(Cleaned(orders, ORDER_CLEAN))
    ensures forall k :: 0 <= k < |orders.rows| ==> OrderCells(Cleaned(orders, ORDER_CLEAN).rows[k])
  {
    CleanedWellFormed(orders, ORDER_CLEAN);
    forall k | 0 <= k < |orders.rows| ensures OrderCells(Cleaned(orders, ORDER_CLEAN).rows[k]) {
      CleanRowOrderCells(orders.rows[k], Targets(orders, ORDER_CLEAN));
    }
  }

  /** Each column assignment of `transform_orders` finds the cells it reads
      in the shape it needs. */
  lemma OrderColumnsReady(clean: Frame, parse: DateParser)
    requires forall k :: 0 <= k < |clean.rows| ==> OrderCells(clean.rows[k])
    ensures ScalarColumn(clean, "unit_price")
    ensures var d1 := AddDerived(clean, "unit_price", "unit_price_usd", PriceCell);
      && ScalarColumn(d1, "timestamp")
      && var d2 := AddDerived(d1, "timestamp", "parsed_timestamp", StampWith(parse));
         var d3 := AddDerived(d2, "parsed_timestamp", "date", DateCell);
         forall k :: 0 <= k < |d3.rows| ==> PaidPrice.requires(Get(d3.rows[k], "quantity"), Get(d3.rows[k], "unit_price_usd"))
  {
    var d1 := AddDerived(clean, "unit_price", "unit_price_usd", PriceCell);
    DerivedKeeps(clean, "unit_price", "unit_price_usd", PriceCell, "timestamp");
    DerivedKeeps(clean, "unit_price", "unit_price_usd", PriceCell, "quantity");
    var d2 := AddDerived(d1, "timestamp", "parsed_timestamp", StampWith(parse));
    DerivedKeeps(d1, "timestamp", "parsed_timestamp", StampWith(parse), "quantity");
    DerivedKeeps(d1, "timestamp", "parsed_timestamp", StampWith(parse), "unit_price_usd");
    DerivedKeeps(d2, "parsed_timestamp", "date", DateCell, "quantity");
    DerivedKeeps(d2, "parsed_timestamp", "date", DateCell, "unit_price_usd");
  }

  /** The frame after the four column assignments and the drop is `OrdersSpec`. */
  lemma OrdersSteps(orders: Frame, parse: DateParser, clean: Frame, d1: Frame, d2: Frame, d3: Frame, d4: Frame)
    requires forall k :: 0 <= k < |orders.rows| ==> OrderCells(orders.rows[k])
    requires clean == Cleaned(orders, ORDER_CLEAN) && WellFormed(clean)
    requires ScalarColumn(clean, "unit_price") && d1 == AddDerived(clean, "unit_price", "unit_price_usd", PriceCell)
    requires ScalarColumn(d1, "timestamp") && d2 == AddDerived(d1, "timestamp", "parsed_timestamp", StampWith(parse))
    requires d3 == AddDerived(d2, "parsed_timestamp", "date", DateCell)
    requires forall k :: 0 <= k < |d3.rows| ==> PaidPrice.requires(Get(d3.rows[k], "quantity"), Get(d3.rows[k], "unit_price_usd"))
    requires d4 == AddCombined(d3, "quantity", "unit_price_usd", "paid_price", PaidPrice)
    ensures DropNa(d4, ORDER_REQUIRED) == OrdersSpec(orders, parse)
    ensures WellFormed(DropNa(d4, ORDER_REQUIRED))
  {
    var targets := Targets(orders, ORDER_CLEAN);
    var rows := OrderRows(orders.rows, targets, parse);
    forall k | 0 <= k < |d4.rows| ensures d4.rows[k] == rows[k] {
      OrderRowSteps(orders.rows[k], targets, parse, clean.rows[k], d1.rows[k], d2.rows[k], d3.rows[k]);
    }
    assert d4.rows == rows;
    ExtendOneByOne(orders.columns, "unit_price_usd", "parsed_timestamp", "date", "paid_price");
  }

  /** The four new cells of an order row, read from its cleaned cells. */
  lemma OrderRowCells(r: Row, targets: set<string>, parse: DateParser, c: Row)
    requires OrderCells(r) && c == CleanRow(r, targets) && OrderCells(c)
    ensures var row, price, stamp := OrderRow(r, targets, parse), PriceCell(Get(c, "unit_price")), StampCell(Get(c, "timestamp"), parse);
      && Get(row, "unit_price_usd") == price
      && Get(row, "parsed_timestamp") == stamp
      && Get(row, "date") == DateCell(stamp)
      && Get(row, "paid_price") == PaidPrice(Get(c, "quantity"), price)
      && Get(row, "quantity") == Get(c, "quantity")
  {
    var price := PriceCell(Get(c, "unit_price"));
    var stamp := StampCell(Get(c, "timestamp"), parse);
    var r1 := c["unit_price_usd" := price];
    var r2 := r1["parsed_timestamp" := stamp];
    var r3 := r2["date" := DateCell(stamp)];
    var paid := PaidPrice(Get(c, "quantity"), price);
    GetOther(r3, "paid_price", paid, "date");
    GetOther(r3, "paid_price", paid, "parsed_timestamp");
    GetOther(r2, "date", DateCell(stamp), "parsed_timestamp");
    GetOther(r3, "paid_price", paid, "unit_price_usd");
    GetOther(r2, "date", DateCell(stamp), "unit_price_usd");
    GetOther(r1, "parsed_timestamp", stamp, "unit_price_usd");
    GetOther(r3, "paid_price", paid, "quantity");
    GetOther(r2, "date", DateCell(stamp), "quantity");
    GetOther(r1, "parsed_timestamp", stamp, "quantity");
    GetOther(c, "unit_price_usd", price, "quantity");
  }

  /** In every order row the date is NaN exactly when the parsed timestamp
      is, and is otherwise that timestamp's `YYYY-MM-DD`; the paid price is
      NaN exactly when the quantity or the USD price is, and is otherwise
      their product. */
  lemma OrderRowDerived(r: Row, targets: set<string>, parse: DateParser)
    requires OrderCells(r)
    ensures var row := OrderRow(r, targets, parse);
      && (Get(row, "date").Absent? <==> Get(row, "parsed_timestamp").Absent?)
      && (Get(row, "parsed_timestamp").Stamp? ==> Get(row, "date") == Text(FormatDate(Get(row, "parsed_timestamp").t)))
      && (Get(row, "paid_price").Absent? <==> Get(row, "quantity").Absent? || Get(row, "unit_price_usd").Absent?)
      && (Get(row, "paid_price").Real? ==>
            Get(row, "unit_price_usd").Real? && Numeric(Get(row, "quantity")) && !Get(row, "quantity").Absent? &&
            SameValue(Get(row, "paid_price").d, Mul(Amount(Get(row, "quantity")), Get(row, "unit_price_usd").d)))
  {
    CleanRowOrderCells(r, targets);
    OrderRowCells(r, targets, parse, CleanRow(r, targets));
  }

  /** `transform_orders` cleans no column but the price, timestamp and shipping. */
  lemma OrderTargets(orders: Frame, x: string)
    requires x != "unit_price" && x != "timestamp" && x != "shipping"
    ensures x !in Targets(orders, ORDER_CLEAN)
  {
  }

  /** A listed column the frame has, other than the three cleaned ones, is
      never touched: `user_id` and `book_id` reach the drop as loaded. */
  lemma OrderIdsUntouched(orders: Frame, k: nat)
    requires k < |orders.rows|
    ensures Get(CleanRow(orders.rows[k], Targets(orders, ORDER_CLEAN)), "user_id") == Get(orders.rows[k], "user_id")
    ensures Get(CleanRow(orders.rows[k], Targets(orders, ORDER_CLEAN)), "book_id") == Get(orders.rows[k], "book_id")
  {
    assert "user_id" !in Targets(orders, ORDER_CLEAN);
    assert "book_id" !in Targets(orders, ORDER_CLEAN);
  }

  /** `dropna(subset=[...])` on the four essential columns, cell by cell. */
  lemma RequiredCells(row: Row)
    ensures HasAll(row, ORDER_REQUIRED) <==>
      && !Get(row, "unit_price_usd").Absent? && !Get(row, "date").Absent?
      && !Get(row, "user_id").Absent? && !Get(row, "book_id").Absent?
  {
    assert ORDER_REQUIRED == ["unit_price_usd", "date", "user_id", "book_id"];
    assert forall c :: c in ORDER_REQUIRED <==> c == "unit_price_usd" || c == "date" || c == "user_id" || c == "book_id";
  }

  /** An order row keeps every field of the input row, sanitized when its
      column was cleaned and as loaded otherwise, and adds the four new ones. */
  lemma OrderRowOther(r: Row, targets: set<string>, parse: DateParser, x: string)
    requires OrderCells(r)
    requires x != "unit_price_usd" && x != "parsed_timestamp" && x != "date" && x != "paid_price"
    ensures OrderRow(r, targets, parse).Keys == r.Keys + {"unit_price_usd", "parsed_timestamp", "date", "paid_price"}
    ensures Get(OrderRow(r, targets, parse), x) == if x in targets then Sanitize(Get(r, x)) else Get(r, x)
  {
    var c := CleanRow(r, targets);
    CleanRowOrderCells(r, targets);
    var price := PriceCell(Get(c, "unit_price"));
    var stamp := StampCell(Get(c, "timestamp"), parse);
    var r1 := c["unit_price_usd" := price];
    var r2 := r1["parsed_timestamp" := stamp];
    var r3 := r2["date" := DateCell(stamp)];
    var paid := PaidPrice(Get(c, "quantity"), price);
    assert OrderRow(r, targets, parse) == r3["paid_price" := paid];
    OrderRowKeys(r, targets, parse);
    GetOther(r3, "paid_price", paid, x);
    GetOther(r2, "date", DateCell(stamp), x);
    GetOther(r1, "parsed_timestamp", stamp, x);
    GetOther(c, "unit_price_usd", price, x);
    CleanRowGet(r, targets, x);
  }

  /** An order row has the input row's labels and the four new ones. */
  lemma OrderRowKeys(r: Row, targets: set<string>, parse: DateParser)
    requires OrderCells(r)
    ensures OrderRow(r, targets, parse).Keys == r.Keys + {"unit_price_usd", "parsed_timestamp", "date", "paid_price"}
  {
    var c := CleanRow(r, targets);
    CleanRowOrderCells(r, targets);
    assert c.Keys == r.Keys;
  }

  /** An order row survives the drop exactly when its sanitized price
      parses, its sanitized timestamp parses, and it names a user and a book. */
  lemma OrderKeptIff(orders: Frame, parse: DateParser, k: nat)
    requires HasColumns(orders, ["unit_price", "timestamp"])
    requires k < |orders.rows| && OrderCells(orders.rows[k])
    ensures var u := orders.rows[k];
      HasAll(OrderRow(u, Targets(orders, ORDER_CLEAN), parse), ORDER_REQUIRED) <==>
        && ParsePrice(Sanitize(Get(u, "unit_price"))).Some?
        && ParseTimestamp(Sanitize(Get(u, "timestamp")), parse).Some?
        && !Get(u, "user_id").Absent? && !Get(u, "book_id").Absent?
  {
    var u := orders.rows[k];
    var targets := Targets(orders, ORDER_CLEAN);
    var c := CleanRow(u, targets);
    var row := OrderRow(u, targets, parse);
    CleanRowOrderCells(u, targets);
    OrderRowCells(u, targets, parse, c);
    TargetCell(orders, ORDER_CLEAN, k, "unit_price");
    TargetCell(orders, ORDER_CLEAN, k, "timestamp");
    OrderIdsUntouched(orders, k);
    OrderRowOther(u, targets, parse, "user_id");
    OrderRowOther(u, targets, parse, "book_id");
    RequiredCells(row);
  }

  /** Every order `transform_orders` keeps has a USD price with two
      decimals, a `YYYY-MM-DD` date, a user and a book. */
  lemma OrdersKeptComplete(orders: Frame, parse: DateParser, row: Row)
    requires forall k :: 0 <= k < |orders.rows| ==> OrderCells(orders.rows[k])
    requires row in OrdersSpec(orders, parse).rows
    ensures Get(row, "unit_price_usd").Real? && Get(row, "unit_price_usd").d.scale == 2
    ensures Get(row, "date").Text? && |Get(row, "date").s| == 10
    ensures !Get(row, "user_id").Absent? && !Get(row, "book_id").Absent?
  {
    var targets := Targets(orders, ORDER_CLEAN);
    var rows := OrderRows(orders.rows, targets, parse);
    assert row in rows && HasAll(row, ORDER_REQUIRED);
    var k :| 0 <= k < |rows| && rows[k] == row;
    var u := orders.rows[k];
    CleanRowOrderCells(u, targets);
    OrderRowCells(u, targets, parse, CleanRow(u, targets));
    RequiredCells(row);
  }

  /** A complete order whose quantity is NaN is kept, with a NaN paid price. */
  lemma PaidPriceNotRequired(orders: Frame, parse: DateParser, k: nat)
    requires HasColumns(orders, ["unit_price", "timestamp"])
    requires forall j :: 0 <= j < |orders.rows| ==> OrderCells(orders.rows[j])
    requires k < |orders.rows| && OrderCells(orders.rows[k])
    requires var u := orders.rows[k];
      && ParsePrice(Sanitize(Get(u, "unit_price"))).Some?
      && ParseTimestamp(Sanitize(Get(u, "timestamp")), parse).Some?
      && !Get(u, "user_id").Absent? && !Get(u, "book_id").Absent?
      && Get(u, "quantity").Absent?
    ensures var row := OrderRow(orders.rows[k], Targets(orders, ORDER_CLEAN), parse);
      row in OrdersSpec(orders, parse).rows && Get(row, "paid_price").Absent?
  {
    var u := orders.rows[k];
    var targets := Targets(orders, ORDER_CLEAN);
    var rows := OrderRows(orders.rows, targets, parse);
    OrderKeptIff(orders, parse, k);
    OrderRowDerived(u, targets, parse);
    OrderRowOther(u, targets, parse, "quantity");
    OrderTargets(orders, "quantity");
    KeepRowsMember(rows, ORDER_REQUIRED, rows[k]);
  }

  /** `transform_orders` treats the rows one by one and keeps their order:
      the result for two blocks of rows stacked is the result for the first
      block followed by the result for the second. */
  lemma OrdersInOrder(columns: seq<string>, a: seq<Row>, b: seq<Row>, parse: DateParser)
    requires forall k :: 0 <= k < |a| ==> OrderCells(a[k])
    requires forall k :: 0 <= k < |b| ==> OrderCells(b[k])
    ensures forall k :: 0 <= k < |a + b| ==> OrderCells((a + b)[k])
    ensures OrdersSpec(Frame(columns, a + b), parse).rows ==
      OrdersSpec(Frame(columns, a), parse).rows + OrdersSpec(Frame(columns, b), parse).rows
  {
    AppendOrderCells(a, b);
    var targets := Targets(Frame(columns, a + b), ORDER_CLEAN);
    assert Targets(Frame(columns, a), ORDER_CLEAN) == targets;
    assert Targets(Frame(columns, b), ORDER_CLEAN) == targets;
    OrderRowsAppend(a, b, targets, parse);
    KeepRowsAppend(OrderRows(a, targets, parse), OrderRows(b, targets, parse), ORDER_REQUIRED);
  }

  lemma AppendOrderCells(a: seq<Row>, b: seq<Row>)
    requires forall k :: 0 <= k < |a| ==> OrderCells(a[k])
    requires forall k :: 0 <= k < |b| ==> OrderCells(b[k])
    ensures forall k :: 0 <= k < |a + b| ==> OrderCells((a + b)[k])
  {
    forall k | 0 <= k < |a + b| ensures OrderCells((a + b)[k]) {
      if k < |a| {
        assert (a + b)[k] == a[k];
      } else {
        assert (a + b)[k] == b[k - |a|];
      }
    }
  }

  /** Deriving the order cells of stacked rows derives each block's. */
  lemma OrderRowsAppend(a: seq<Row>, b: seq<Row>, targets: set<string>, parse: DateParser)
    requires forall k :: 0 <= k < |a| ==> OrderCells(a[k])
    requires forall k :: 0 <= k < |b| ==> OrderCells(b[k])
    requires forall k :: 0 <= k < |a + b| ==> OrderCells((a + b)[k])
    ensures OrderRows(a + b, targets, parse) == OrderRows(a, targets, parse) + OrderRows(b, targets, parse)
  {
    var all := OrderRows(a + b, targets, parse);
    var ra := OrderRows(a, targets, parse);
    var rb := OrderRows(b, targets, parse);
    forall k | 0 <= k < |all| ensures all[k] == (ra + rb)[k] {
      if k < |a| {
        assert (a + b)[k] == a[k] && (ra + rb)[k] == ra[k];
      } else {
        assert (a + b)[k] == b[k - |a|] && (ra + rb)[k] == rb[k - |a|];
      }
    }
    assert |all| == |ra + rb|;
  }

  /** `transform_orders`: cleans the price, timestamp and shipping columns,
      adds the USD price, the parsed timestamp, its date and the paid
      price, then drops the rows missing a price, date, user or book. */
  method TransformOrders(orders: Frame, parse: DateParser) returns (df: Frame)
    requires WellFormed(orders)
    requires HasColumns(orders, ["unit_price", "timestamp", "quantity", "user_id", "book_id"])
    requires forall k :: 0 <= k < |orders.rows| ==> OrderCells(orders.rows[k])
    ensures df == OrdersSpec(orders, parse)
    ensures WellFormed(df)
  {
    df := CleanNullValues(orders, ORDER_CLEAN);
    ghost var clean := df;
    CleanedOrders(orders);
    OrderColumnsReady(clean, parse);
    df := AddDerived(df, "unit_price", "unit_price_usd", PriceCell);
    ghost var d1 := df;
    df := AddDerived(df, "timestamp", "parsed_timestamp", StampWith(parse));
    ghost var d2 := df;
    df := AddDerived(df, "parsed_timestamp", "date", DateCell);
    ghost var d3 := df;
    df := AddCombined(df, "quantity", "unit_price_usd", "paid_price", PaidPrice);
    ghost var d4 := df;
    df := DropNa(df, ORDER_REQUIRED);
    OrdersSteps(orders, parse, clean, d1, d2, d3, d4);
  }

  /* ---------------- books ---------------- */

  const BOOK_CLEAN: seq<string> := ["title", "author", "genre", "publisher", "year"]

  /** What `transform_books` needs of an input row: an id `pd.to_numeric`
      reads and `astype('Int64')` accepts, and a loader scalar author. */
  predicate BookCells(r: Row) {
    IdReadable(Get(r, "id")) && Get(r, "author").IsScalar()
  }

  /** Sanitizing keeps what `transform_books` needs of a row. */
  lemma CleanRowBookCells(r: Row, targets: set<string>)
    requires BookCells(r)
    ensures BookCells(CleanRow(r, targets))
  {
    CleanRowScalar(r, targets, "id");
    CleanRowScalar(r, targets, "author");
  }

  /** One row of `transform_books`' result, from the input row. */
  function BookRow(r: Row, targets: set<string>): Row
    requires BookCells(r)
  {
    var c := CleanRow(r, targets);
    CleanRowBookCells(r, targets);
    c["id" := CoerceId(Get(c, "id"))]
     ["author_set" := AuthorCell(Get(c, "author"))]
  }

  /** What `transform_books(books_df)` returns. */
  function BooksSpec(books: Frame): Frame
    requires forall k :: 0 <= k < |books.rows| ==> BookCells(books.rows[k])
  {
    var targets := Targets(books, BOOK_CLEAN);
    Frame(Extend(books.columns, ["id", "author_set"]),
          seq(|books.rows|, k requires 0 <= k < |books.rows| => BookRow(books.rows[k], targets)))
  }

  /** Adding two columns one at a time is adding them as a list. */
  lemma ExtendTwo(columns: seq<string>, a: string, b: string)
    ensures Extend(Extend(columns, [a]), [b]) == Extend(columns, [a, b])
  {
    ExtendFirst(columns, [a, b]);
    assert [a, b][1..] == [b];
  }

  /** Each column assignment of `transform_books` finds the cells it reads
      in the shape it needs. */
  lemma BookColumnsReady(clean: Frame)
    requires forall k :: 0 <= k < |clean.rows| ==> BookCells(clean.rows[k])
    ensures forall k :: 0 <= k < |clean.rows| ==> IdReadable(Get(clean.rows[k], "id"))
    ensures ScalarColumn(AddDerived(clean, "id", "id", CoerceId), "author")
  {
    DerivedKeeps(clean, "id", "id", CoerceId, "author");
  }

  /** The frame after the two column assignments is `BooksSpec`. */
  lemma BooksSteps(books: Frame, clean: Frame, d1: Frame, df: Frame)
    requires forall k :: 0 <= k < |books.rows| ==> BookCells(books.rows[k])
    requires clean == Cleaned(books, BOOK_CLEAN) && WellFormed(clean)
    requires forall k :: 0 <= k < |clean.rows| ==> IdReadable(Get(clean.rows[k], "id"))
    requires d1 == AddDerived(clean, "id", "id", CoerceId)
    requires ScalarColumn(d1, "author") && df == AddDerived(d1, "author", "author_set", AuthorCell)
    ensures df == BooksSpec(books)
    ensures WellFormed(df)
  {
    var spec := BooksSpec(books);
    var targets := Targets(books, BOOK_CLEAN);
    forall k | 0 <= k < |df.rows| ensures df.rows[k] == spec.rows[k] {
      var c := clean.rows[k];
      GetOther(c, "id", CoerceId(Get(c, "id")), "author");
    }
    assert df.rows == spec.rows;
    ExtendTwo(books.columns, "id", "author_set");
  }

  /** A book row's id is the coerced id as loaded (the id column is never
      cleaned), its author set is read from the sanitized author, and every
      other field is kept, sanitized when its column was cleaned. */
  lemma BookRowCells(r: Row, targets: set<string>, x: string)
    requires BookCells(r) && "id" !in targets
    requires x != "id" && x != "author_set"
    ensures var row := BookRow(r, targets);
      && row.Keys == r.Keys + {"id", "author_set"}
      && Get(row, "id") == CoerceId(Get(r, "id"))
      && Get(row, "author_set") == AuthorCell(if "author" in targets then Sanitize(Get(r, "author")) else Get(r, "author"))
      && Get(row, x) == if x in targets then Sanitize(Get(r, x)) else Get(r, x)
  {
    var c := CleanRow(r, targets);
    CleanRowBookCells(r, targets);
    var id := CoerceId(Get(c, "id"));
    var r1 := c["id" := id];
    var a := AuthorCell(Get(c, "author"));
    assert BookRow(r, targets) == r1["author_set" := a];
    assert c.Keys == r.Keys;
    CleanRowGet(r, targets, "id");
    CleanRowGet(r, targets, "author");
    CleanRowGet(r, targets, x);
    GetOther(r1, "author_set", a, "id");
    GetOther(r1, "author_set", a, x);
    GetOther(c, "id", id, x);
  }

  /** `transform_books` drops no row; every id is an integer or NaN, and the
      author set is NaN exactly when `create_author_set` gives None for the
      sanitized author. */
  lemma BooksCells(books: Frame, k: nat)
    requires HasColumns(books, ["author"])
    requires forall j :: 0 <= j < |books.rows| ==> BookCells(books.rows[j])
    requires k < |books.rows|
    ensures |BooksSpec(books).rows| == |books.rows|
    ensures var row, u := BooksSpec(books).rows[k], books.rows[k];
      && (Get(row, "id").Int? || Get(row, "id").Absent?)
      && (Get(u, "id").Int? ==> Get(row, "id") == Get(u, "id"))
      && (Get(row, "author_set").Absent? <==> AuthorSet(Sanitize(Get(u, "author"))).None?)
  {
    var targets := Targets(books, BOOK_CLEAN);
    assert "id" !in targets;
    assert "author" in targets;
    BookRowCells(books.rows[k], targets, "author");
  }

  /** `transform_books`: cleans the descriptive columns, turns the id into
      a nullable integer, and adds the set of normalized authors. */
  method TransformBooks(books: Frame) returns (df: Frame)
    requires WellFormed(books) && HasColumns(books, ["id", "author"])
    requires forall k :: 0 <= k < |books.rows| ==> BookCells(books.rows[k])
    ensures df == BooksSpec(books)
    ensures WellFormed(df)
  {
    df := CleanNullValues(books, BOOK_CLEAN);
    ghost var clean := df;
    CleanedWellFormed(books, BOOK_CLEAN);
    forall k | 0 <= k < |books.rows| ensures BookCells(clean.rows[k]) {
      CleanRowBookCells(books.rows[k], Targets(books, BOOK_CLEAN));
    }
    BookColumnsReady(clean);
    df := AddDerived(df, "id", "id", CoerceId);
    ghost var d1 := df;
    df := AddDerived(df, "author", "author_set", AuthorCell);
    BooksSteps(books, clean, d1, df);
  }

  /* ---------------- all three ---------------- */

  /** `transform_all`: the three transformations, each on its own frame. */
  method TransformAll(users: Frame, orders: Frame, books: Frame, parse: DateParser)
    returns (u: Frame, o: Frame, b: Frame)
    requires WellFormed(users) && HasColumns(users, USER_CLEAN) && ScalarColumns(users, USER_CLEAN)
    requires WellFormed(orders)
    requires HasColumns(orders, ["unit_price", "timestamp", "quantity", "user_id", "book_id"])
    requires forall k :: 0 <= k < |orders.rows| ==> OrderCells(orders.rows[k])
    requires WellFormed(books) && HasColumns(books, ["id", "author"])
    requires forall k :: 0 <= k < |books.rows| ==> BookCells(books.rows[k])
    ensures u == UsersSpec(users) && o == OrdersSpec(orders, parse) && b == BooksSpec(books)
    ensures WellFormed(u) && WellFormed(o) && WellFormed(b)
  {
    u := TransformUsers(users);
    o := TransformOrders(orders, parse);
    b := TransformBooks(books);
  }
}
