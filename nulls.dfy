/**
  `clean_null_values`: replaces the raw spellings of "no value" in chosen
  columns of a frame by NaN, on a copy of the frame.
 */
module Nulls {
  import opened Text
  import opened Values
  import opened Settings

  /** The stripped strings the second pass turns into NaN (case-sensitive). */
  const NULL_STRINGS: seq<string> := ["", "nan", "NaN", "NULL", "None"]

  /** First pass on one cell: `replace(NULL_VALUES, np.nan)`, exact matches only. */
  function ReplaceNullToken(v: Value): (r: Value)
    ensures r.Absent? <==> v in NULL_VALUES
    ensures r.Absent? || r == v
  {
    if v in NULL_VALUES then Absent else v
  }

  /** Second pass on one cell: a string whose `strip()` is one of NULL_STRINGS becomes NaN. */
  function BlankToNull(v: Value): (r: Value)
    ensures r.Absent? <==> v.Absent? || (v.Text? && Strip(v.s) in NULL_STRINGS)
    ensures r.Absent? || r == v
  {
    if v.Text? && Strip(v.s) in NULL_STRINGS then Absent else v
  }

  /** The values `clean_null_values` treats as missing. */
  predicate IsNullLike(v: Value) {
    v in NULL_VALUES || (v.Text? && Strip(v.s) in NULL_STRINGS)
  }

  /** Both passes on one cell. */
  function Sanitize(v: Value): (r: Value)
    ensures r.Absent? <==> IsNullLike(v)
    ensures r.Absent? || r == v
  {
    BlankToNull(ReplaceNullToken(v))
  }

  /** Sanitizing is idempotent: a sanitized value is never null-like unless absent. */
  lemma SanitizeIdempotent(v: Value)
    ensures Sanitize(Sanitize(v)) == Sanitize(v)
  {
  }

  /** Every string of NULL_VALUES is also caught by the stripped-string rule,
      so a value is null-like exactly when it is missing or a string whose
      `strip()` is one of NULL_STRINGS. */
  lemma NullLikeIff(v: Value)
    ensures IsNullLike(v) <==> v.Absent? || (v.Text? && Strip(v.s) in NULL_STRINGS)
  {
    if v in NULL_VALUES && v.Text? {
      var s := v.s;
      if s == " " || s == "\t" {
        StripEmptyIff(s);
        assert Strip(s) == "";
      } else {
        StripOfTrimmed(s);
      }
    }
  }

  /** The rule is case-sensitive: "null" and "NONE" are not null spellings. */
  lemma NullSpellingsCaseSensitive()
    ensures Sanitize(Text("null")) == Text("null")
    ensures Sanitize(Text("NONE")) == Text("NONE")
  {
    KeptSpelling("null");
    KeptSpelling("NONE");
  }

  /** A trimmed four-letter string other than "NULL" and "None" is kept. */
  lemma KeptSpelling(s: string)
    requires |s| == 4 && Trimmed(s) && s != "NULL" && s != "None"
    ensures Sanitize(Text(s)) == Text(s)
  {
    StripOfTrimmed(s);
    assert s !in NULL_STRINGS;
    assert Text(s) !in NULL_VALUES;
  }

  /** Surrounding whitespace does not hide a null spelling. */
  lemma NullSpellingsStripped()
    ensures Sanitize(Text(" nan ")) == Absent
  {
    var s := " nan ";
    assert IsSpace(s[0]) && s[1..] == "nan ";
    assert !IsSpace("nan "[0]);
    assert LStrip(s) == "nan ";
    assert IsSpace("nan "[3]) && "nan "[..3] == "nan";
    assert !IsSpace("nan"[2]);
    assert RStrip("nan ") == "nan";
    assert Strip(s) == "nan";
    assert Text(s) !in NULL_VALUES;
  }

  /* ---------------- frames ---------------- */

  /** The columns a call touches: the listed ones (all, when the list is
      empty) that the frame has. */
  function Targets(df: Frame, columns: seq<string>): (t: set<string>)
    ensures forall c :: c in t <==> c in df.columns && (columns == [] || c in columns)
  {
    set c | c in (if columns == [] then df.columns else columns) && c in df.columns
  }

  function CleanRow(r: Row, targets: set<string>): (r': Row)
    ensures r'.Keys == r.Keys
  {
    map c | c in r :: if c in targets then Sanitize(r[c]) else r[c]
  }

  /** The frame with every cell of the target columns sanitized. */
  function CleanedOn(df: Frame, targets: set<string>): (g: Frame)
    ensures g.columns == df.columns && |g.rows| == |df.rows|
    ensures forall k :: 0 <= k < |g.rows| ==> g.rows[k] == CleanRow(df.rows[k], targets)
  {
    Frame(df.columns, seq(|df.rows|, k requires 0 <= k < |df.rows| => CleanRow(df.rows[k], targets)))
  }

  /** What `clean_null_values(df, columns)` returns. */
  function Cleaned(df: Frame, columns: seq<string>): Frame {
    CleanedOn(df, Targets(df, columns))
  }

  /** `df[c] = df[c].<g>`: applies `g` to every cell of column `c`. */
  function MapColumn(f: Frame, c: string, g: Value -> Value): (h: Frame)
    ensures h.columns == f.columns && |h.rows| == |f.rows|
  {
    Frame(f.columns, seq(|f.rows|, k requires 0 <= k < |f.rows| =>
      if c in f.rows[k] then f.rows[k][c := g(f.rows[k][c])] else f.rows[k]))
  }

  /** `clean_null_values(df, columns)`: copies the frame, then for each
      listed column the frame has, runs the exact-token pass and the
      stripped-string pass over it. */
  method CleanNullValues(df: Frame, columns: seq<string>) returns (out: Frame)
    ensures out == Cleaned(df, columns)
  {
    out := df;
    CleanedOnNothing(df);
    var cols := if columns == [] then df.columns else columns;
    assert (set c | c in cols[..0] && c in df.columns) == {};
    for k := 0 to |cols|
      invariant out == CleanedOn(df, set c | c in cols[..k] && c in df.columns)
    {
      var col := cols[k];
      ghost var done := set c | c in cols[..k] && c in df.columns;
      assert (set c | c in cols[..k + 1] && c in df.columns)
        == if col in df.columns then done + {col} else done;
      if col in out.columns {
        out := MapColumn(out, col, ReplaceNullToken);
        out := MapColumn(out, col, BlankToNull);
        CleanOneMore(df, done, col);
      }
    }
    assert cols[..|cols|] == cols;
  }

  lemma CleanedOnNothing(df: Frame)
    ensures CleanedOn(df, {}) == df
  {
    var g := CleanedOn(df, {});
    forall k | 0 <= k < |df.rows| ensures g.rows[k] == df.rows[k] {
      assert CleanRow(df.rows[k], {}) == df.rows[k];
    }
  }

  /** Running both passes over one more column extends the cleaned set by it. */
  lemma CleanOneMore(df: Frame, done: set<string>, col: string)
    ensures MapColumn(MapColumn(CleanedOn(df, done), col, ReplaceNullToken), col, BlankToNull)
         == CleanedOn(df, done + {col})
  {
    var a := CleanedOn(df, done);
    var h := MapColumn(MapColumn(a, col, ReplaceNullToken), col, BlankToNull);
    var g := CleanedOn(df, done + {col});
    forall k | 0 <= k < |df.rows| ensures h.rows[k] == g.rows[k] {
      var r := df.rows[k];
      forall c | c in r ensures h.rows[k][c] == g.rows[k][c] {
        if c == col {
          SanitizeIdempotent(r[c]);
        }
      }
      assert h.rows[k].Keys == g.rows[k].Keys;
    }
  }

  /* ---------------- what clean_null_values promises ---------------- */

  /** A listed, existing column's cell becomes NaN exactly when it was
      null-like and is otherwise kept; every other cell is kept. */
  lemma CleanedCell(df: Frame, columns: seq<string>, k: nat, c: string)
    requires k < |df.rows| && c in df.rows[k]
    ensures c in Cleaned(df, columns).rows[k]
    ensures var v, w := df.rows[k][c], Cleaned(df, columns).rows[k][c];
      if c in df.columns && (columns == [] || c in columns)
      then (w.Absent? <==> IsNullLike(v)) && (w.Absent? || w == v)
      else w == v
  {
  }

  /** An empty column list means every column. */
  lemma EmptyMeansAll(df: Frame)
    ensures Cleaned(df, []) == Cleaned(df, df.columns)
  {
    assert Targets(df, []) == Targets(df, df.columns);
  }

  /** Cleaning twice is cleaning once. */
  lemma CleanedIdempotent(df: Frame, columns: seq<string>)
    ensures Cleaned(Cleaned(df, columns), columns) == Cleaned(df, columns)
  {
    var once := Cleaned(df, columns);
    var twice := Cleaned(once, columns);
    var t := Targets(df, columns);
    assert Targets(once, columns) == t;
    forall k | 0 <= k < |df.rows| ensures twice.rows[k] == once.rows[k] {
      forall c | c in df.rows[k] ensures twice.rows[k][c] == once.rows[k][c] {
        SanitizeIdempotent(df.rows[k][c]);
      }
    }
  }

  /** Cleaning keeps a frame well-formed. */
  lemma CleanedWellFormed(df: Frame, columns: seq<string>)
    requires WellFormed(df)
    ensures WellFormed(Cleaned(df, columns))
  {
  }
}
