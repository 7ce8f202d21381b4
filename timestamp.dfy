/**
  `parse_timestamp`: rewrites a raw timestamp text into a form the date
  parser accepts (separators, A.M./P.M. spellings, the ISO `T`), asks the
  parser for a month-first reading and, only when that fails, for a
  day-first one. The date parser itself (`dateutil.parser.parse` with
  `fuzzy=True`) is a parameter of the model.
 */
module Timestamp {
  import opened Text
  import opened Values
  import opened Settings

  /** The date parser: text and `dayfirst` flag to a datetime, or None where it raises. */
  type DateParser = (string, bool) -> Option<DateTime>

  /* ---------------- the rewrites ---------------- */

  /** `re.sub(x, y, s)` for single characters, case-sensitive. */
  function ReplaceChar(s: string, x: char, y: char): (r: string)
    ensures |r| == |s|
    ensures forall i :: 0 <= i < |s| ==> r[i] == if s[i] == x then y else s[i]
  {
    if s == [] then [] else [if s[0] == x then y else s[0]] + ReplaceChar(s[1..], x, y)
  }

  /** The characters that are neither whitespace nor commas. */
  function Squeeze(s: string): string {
    if s == [] then []
    else (if IsSpace(s[0]) || s[0] == ',' then [] else [s[0]]) + Squeeze(s[1..])
  }

  /** `re.sub(r',\s*', ' ', s)`: a comma and the whitespace after it become one space. */
  function CommaToSpace(s: string): (r: string)
    ensures ',' !in r
    ensures forall c :: c in r ==> c in s || c == ' '
    ensures Squeeze(r) == Squeeze(s)
    decreases |s|
  {
    if s == [] then []
    else if s[0] == ',' then
      var t := LStrip(s[1..]);
      SqueezeLStrip(s[1..]);
      " " + CommaToSpace(t)
    else
      [s[0]] + CommaToSpace(s[1..])
  }

  lemma {:induction false} SqueezeLStrip(s: string)
    ensures Squeeze(LStrip(s)) == Squeeze(s)
    decreases |s|
  {
    if s != [] && IsSpace(s[0]) {
      SqueezeLStrip(s[1..]);
    }
  }

  /** "A.M." or "P.M." */
  function Dotted(l: char): string { [l, '.', 'M', '.'] }

  /** `re.sub(r'A\.M\.', 'AM', s, flags=re.IGNORECASE)` for `l` = 'A', and the
      same for 'P': each dotted spelling, in any case, becomes "AM" / "PM". */
  function Undot(s: string, l: char): (r: string)
    ensures forall c :: c in r ==> c in s || c == l || c == 'M'
    decreases |s|
  {
    if s == [] then []
    else if MatchesAt(s, 0, Dotted(l)) then [l, 'M'] + Undot(s[4..], l)
    else [s[0]] + Undot(s[1..], l)
  }

  /** `re.sub(r'\s+am\b', ' AM', s, flags=re.IGNORECASE)` for `w` = "am" and
      `rep` = " AM" (and the same for "pm"): a whitespace run followed by
      the word, in any case, ending at a word boundary. */
  function Respace(s: string, w: string, rep: string): (r: string)
    requires w != []
    ensures forall c :: c in r ==> c in s || c in rep
    decreases |s|
  {
    if s == [] then []
    else if IsSpace(s[0]) && SuffixAfterRun(LStrip(s), w) then
      var t := LStrip(s);
      rep + Respace(t[|w|..], w, rep)
    else
      [s[0]] + Respace(s[1..], w, rep)
  }

  /** `w` starts `t`, in any case, and ends at a word boundary. */
  predicate SuffixAfterRun(t: string, w: string) {
    MatchesAt(t, 0, w) && (|t| == |w| || !IsWordChar(t[|w|]))
  }

  /** The whole chain of rewrites applied to the stripped text: no semicolon,
      comma or `T` is left, and no dotted "A.M."/"P.M." spelling in any case. */
  function Prepare(s: string): (r: string)
    ensures ';' !in r && ',' !in r && 'T' !in r
    ensures !ContainsIgnoreCase(r, Dotted('A')) && !ContainsIgnoreCase(r, Dotted('P'))
  {
    var s1 := ReplaceChar(s, ';', ' ');
    var s2 := CommaToSpace(s1);
    var s4 := Undotted(s2);
    var s6 := Respaced(s4);
    ReplaceCharEffect(s, ';', ' ', ';');
    ReplaceCharEffect(s6, 'T', ' ', ';');
    ReplaceCharEffect(s6, 'T', ' ', ',');
    ReplaceCharEffect(s6, 'T', ' ', 'T');
    NoDottedLeft(s2);
    ReplaceChar(s6, 'T', ' ')
  }

  /** The rewrites after the comma rewrite leave no dotted spelling of either letter. */
  lemma NoDottedLeft(s: string)
    ensures var r := ReplaceChar(Respaced(Undotted(s)), 'T', ' ');
      !ContainsIgnoreCase(r, Dotted('A')) && !ContainsIgnoreCase(r, Dotted('P'))
  {
    var s6 := Respaced(Undotted(s));
    ReplaceKeepsNone(s6, 'T', ' ', Dotted('A'));
    ReplaceKeepsNone(s6, 'T', ' ', Dotted('P'));
  }

  /** The two dotted rewrites, "A.M." then "P.M.": no dotted spelling of
      either letter is left. */
  function Undotted(s: string): (r: string)
    ensures forall c :: c in r ==> c in s || c == 'A' || c == 'P' || c == 'M'
    ensures !ContainsIgnoreCase(r, Dotted('A')) && !ContainsIgnoreCase(r, Dotted('P'))
  {
    UndotsLeaveNone(s, 'A');
    UndotsLeaveNone(s, 'P');
    Undot(Undot(s, 'A'), 'P')
  }

  /** The two whitespace rewrites, "am" then "pm": they create no dotted spelling. */
  function Respaced(s: string): (r: string)
    ensures forall c :: c in r ==> c in s || c == ' ' || c == 'A' || c == 'P' || c == 'M'
    ensures ContainsIgnoreCase(r, Dotted('A')) ==> ContainsIgnoreCase(s, Dotted('A'))
    ensures ContainsIgnoreCase(r, Dotted('P')) ==> ContainsIgnoreCase(s, Dotted('P'))
  {
    RespacesKeepNone(s, 'A');
    RespacesKeepNone(s, 'P');
    Respace(Respace(s, "am", " AM"), "pm", " PM")
  }

  /** After replacing `x` by `y`, a character `c` other than `y` occurs only
      if it occurred before and is not `x`. */
  lemma ReplaceCharEffect(s: string, x: char, y: char, c: char)
    requires c != y
    ensures c in ReplaceChar(s, x, y) ==> c in s && c != x
  {
    var r := ReplaceChar(s, x, y);
    if c in r {
      var i :| 0 <= i < |r| && r[i] == c;
      assert r[i] == if s[i] == x then y else s[i];
    }
  }

  /* ---------------- the two attempts ---------------- */

  /** `pd.Timestamp(date_parser.parse(text, fuzzy=True, dayfirst=dayfirst))`:
      fails when the parser fails or the datetime lies outside the range a
      pandas Timestamp can hold. */
  function Attempt(parse: DateParser, text: string, dayfirst: bool): (r: Option<DateTime>)
    ensures r.Some? <==> parse(text, dayfirst).Some? && InTimestampRange(parse(text, dayfirst).value)
    ensures r.Some? ==> r.value == parse(text, dayfirst).value
  {
    match parse(text, dayfirst)
    case None => None
    case Some(t) => if InTimestampRange(t) then Some(t) else None
  }

  /** The text the parser is given, or None for a missing value or a NULL_VALUES entry. */
  function PreparedText(v: Value): (r: Option<string>)
    requires v.IsScalar()
    ensures r.None? <==> v.Absent? || v in NULL_VALUES
    ensures r.Some? ==> ';' !in r.value && ',' !in r.value && 'T' !in r.value
  {
    if v.Absent? || v in NULL_VALUES then None else Some(Prepare(Strip(ToStr(v))))
  }

  /** `parse_timestamp(v)`. */
  function ParseTimestamp(v: Value, parse: DateParser): (r: Option<DateTime>)
    requires v.IsScalar()
    ensures PreparedText(v).None? ==> r.None?
    ensures r.Some? ==> InTimestampRange(r.value)
    ensures PreparedText(v).Some? ==>
      var text := PreparedText(v).value;
      && (Attempt(parse, text, false).Some? ==> r == Attempt(parse, text, false))
      && (Attempt(parse, text, false).None? ==> r == Attempt(parse, text, true))
    ensures r.None? <==> (PreparedText(v).None? ||
      (Attempt(parse, PreparedText(v).value, false).None? && Attempt(parse, PreparedText(v).value, true).None?))
  {
    match PreparedText(v)
    case None => None
    case Some(text) =>
      match Attempt(parse, text, false)
      case Some(t) => Some(t)
      case None => Attempt(parse, text, true)
  }

  /** `x.strftime('%Y-%m-%d')`. Every year a pandas Timestamp can hold has
      four digits. */
  function FormatDate(t: DateTime): (r: string)
    ensures |r| == 10 && r[4] == '-' && r[7] == '-'
  {
    Pad(t.year, 4) + "-" + Pad(t.month, 2) + "-" + Pad(t.day, 2)
  }

  /* ---------------- what parse_timestamp promises ---------------- */

  /** The formatted date reads back as the year, month and day it was made from. */
  lemma FormatDateRoundTrip(t: DateTime)
    ensures var r := FormatDate(t);
      && AllDigits(r[0..4]) && AllDigits(r[5..7]) && AllDigits(r[8..10])
      && DigitsValue(r[0..4]) == t.year && DigitsValue(r[5..7]) == t.month && DigitsValue(r[8..10]) == t.day
  {
    var y, m, d := Pad(t.year, 4), Pad(t.month, 2), Pad(t.day, 2);
    var r := FormatDate(t);
    assert r == y + "-" + m + "-" + d;
    assert r[0..4] == y && r[5..7] == m && r[8..10] == d;
  }

  /** Two dates format to the same text exactly when they fall on the same day. */
  lemma FormatDateSameDay(a: DateTime, b: DateTime)
    ensures FormatDate(a) == FormatDate(b) <==> a.year == b.year && a.month == b.month && a.day == b.day
  {
    FormatDateRoundTrip(a);
    FormatDateRoundTrip(b);
  }

  /* ---------------- what the rewrites promise ---------------- */

  /** ".M." at the start of `s`, ignoring case: what follows the letter of a
      dotted spelling. */
  predicate DotM(s: string) {
    |s| >= 3 && s[0] == '.' && SameLetter(s[1], 'M') && s[2] == '.'
  }

  /** A dotted spelling starts `s` exactly when its letter does and ".M." follows. */
  lemma DottedAt(s: string, x: char)
    requires s != []
    ensures MatchesAt(s, 0, Dotted(x)) <==> SameLetter(s[0], x) && DotM(s[1..])
  {
    var p := Dotted(x);
    if SameLetter(s[0], x) && DotM(s[1..]) {
      assert s[1] == s[1..][0] && s[2] == s[1..][1] && s[3] == s[1..][2];
      forall j | 0 <= j < |p| ensures SameLetter(s[j], p[j]) {
      }
    }
    if MatchesAt(s, 0, p) {
      assert SameLetter(s[0], p[0]) && SameLetter(s[1], p[1]) && SameLetter(s[2], p[2]) && SameLetter(s[3], p[3]);
      assert s[1..][0] == s[1] && s[1..][1] == s[2] && s[1..][2] == s[3];
      OnlyPeriodMatchesPeriod(s[1]);
      OnlyPeriodMatchesPeriod(s[3]);
    }
  }

  lemma OnlyPeriodMatchesPeriod(c: char)
    ensures SameLetter(c, '.') ==> c == '.'
  {
  }

  lemma MatchesHead(s: string, i: nat, p: string)
    requires p != [] && MatchesAt(s, i, p)
    ensures SameLetter(s[i], p[0])
  {
    assert SameLetter(s[i + 0], p[0]);
  }

  /** An occurrence in a suffix is an occurrence in the whole text. */
  lemma SuffixOccurrence(s: string, k: nat, p: string)
    requires k <= |s|
    ensures ContainsIgnoreCase(s[k..], p) ==> ContainsIgnoreCase(s, p)
  {
    if ContainsIgnoreCase(s[k..], p) {
      var i: nat :| i <= |s[k..]| && MatchesAt(s[k..], i, p);
      forall j | 0 <= j < |p| ensures SameLetter(s[k + i + j], p[j]) {
        assert s[k + i + j] == s[k..][i + j];
      }
      assert MatchesAt(s, k + i, p);
    }
  }

  /** A dotted spelling in `[c] + r` starts at `c` or lies in `r`. */
  lemma ConsOccurrence(c: char, r: string, x: char)
    ensures ContainsIgnoreCase([c] + r, Dotted(x)) ==>
      (SameLetter(c, x) && DotM(r)) || ContainsIgnoreCase(r, Dotted(x))
  {
    var u := [c] + r;
    if ContainsIgnoreCase(u, Dotted(x)) {
      var i: nat :| i <= |u| && MatchesAt(u, i, Dotted(x));
      if i == 0 {
        DottedAt(u, x);
        assert u[1..] == r;
      } else {
        MatchShift(u, [c], r, i, Dotted(x));
      }
    }
  }

  /** A dotted spelling in `rep + r` lies in `r` when `rep` has no period and
      does not end in the spelling's letter. */
  lemma RepOccurrence(rep: string, r: string, x: char)
    requires rep != [] && '.' !in rep && !SameLetter(rep[|rep| - 1], x)
    ensures ContainsIgnoreCase(rep + r, Dotted(x)) ==> ContainsIgnoreCase(r, Dotted(x))
  {
    var u := rep + r;
    var p := Dotted(x);
    if ContainsIgnoreCase(u, p) {
      var i: nat :| i <= |u| && MatchesAt(u, i, p);
      if i + 1 < |rep| {
        assert SameLetter(u[i + 1], p[1]);
        OnlyPeriodMatchesPeriod(rep[i + 1]);
        assert false;
      } else if i + 1 == |rep| {
        MatchesHead(u, i, p);
        assert false;
      }
      MatchShift(u, rep, r, i, p);
    }
  }

  /** A dotted spelling in the rewrite of `s` was already in `s`, and is not
      the one the rewrite removes. */
  lemma {:induction false} UndotKeepsNone(s: string, l: char, x: char)
    requires l == 'A' || l == 'P'
    requires x == 'A' || x == 'P'
    ensures ContainsIgnoreCase(Undot(s, l), Dotted(x)) ==> x != l && ContainsIgnoreCase(s, Dotted(x))
    decreases |s|
  {
    if s != [] {
      if MatchesAt(s, 0, Dotted(l)) {
        var r' := Undot(s[4..], l);
        assert Undot(s, l) == [l, 'M'] + r';
        RepOccurrence([l, 'M'], r', x);
        UndotKeepsNone(s[4..], l, x);
        SuffixOccurrence(s, 4, Dotted(x));
      } else {
        var r' := Undot(s[1..], l);
        assert Undot(s, l) == [s[0]] + r';
        ConsOccurrence(s[0], r', x);
        if DotM(r') {
          UndotDotM(s[1..], l);
          DottedAt(s, x);
        }
        UndotKeepsNone(s[1..], l, x);
        SuffixOccurrence(s, 1, Dotted(x));
      }
    }
  }

  /** After the dotted rewrite no dotted spelling of its letter is left, in any case. */
  lemma UndotLeavesNone(s: string, l: char)
    requires l == 'A' || l == 'P'
    ensures !ContainsIgnoreCase(Undot(s, l), Dotted(l))
  {
    UndotKeepsNone(s, l, l);
  }

  /** Text without the dotted spelling is left as it is. */
  lemma {:induction false} UndotUnchanged(s: string, l: char)
    requires !ContainsIgnoreCase(s, Dotted(l))
    ensures Undot(s, l) == s
    decreases |s|
  {
    if s != [] {
      assert !MatchesAt(s, 0, Dotted(l));
      SuffixOccurrence(s, 1, Dotted(l));
      UndotUnchanged(s[1..], l);
      assert s == [s[0]] + s[1..];
    }
  }

  /** The dotted spelling at the front becomes the letter and "M". */
  lemma UndotRewrites(v: string, b: string, l: char)
    requires |v| == 4 && MatchesAt(v, 0, Dotted(l))
    ensures Undot(v + b, l) == [l, 'M'] + Undot(b, l)
  {
    var s := v + b;
    assert MatchesAt(s, 0, Dotted(l)) by {
      forall j | 0 <= j < 4 ensures SameLetter(s[j], Dotted(l)[j]) {
        assert s[j] == v[j];
      }
    }
    assert s[4..] == b;
  }

  /** An occurrence past a prefix is an occurrence in the rest. */
  lemma MatchShift(r: string, a: string, b: string, i: nat, p: string)
    requires r == a + b && |a| <= i <= |r|
    ensures MatchesAt(r, i, p) ==> MatchesAt(b, i - |a|, p)
  {
    if MatchesAt(r, i, p) {
      forall j | 0 <= j < |p| ensures SameLetter(b[i - |a| + j], p[j]) {
        assert b[i - |a| + j] == r[i + j];
      }
    }
  }

  /** The first character of a rewritten text is the rewrite's "A"/"P", or the original's. */
  lemma UndotHead(x: string, l: char)
    requires x != []
    ensures Undot(x, l) != []
    ensures MatchesAt(x, 0, Dotted(l)) ==> Undot(x, l)[0] == l
    ensures !MatchesAt(x, 0, Dotted(l)) ==> Undot(x, l)[0] == x[0] && Undot(x, l)[1..] == Undot(x[1..], l)
  {
  }

  /** A rewritten text starts with ".M." only when the original does. */
  lemma UndotDotM(s: string, l: char)
    requires l == 'A' || l == 'P'
    ensures DotM(Undot(s, l)) ==> DotM(s)
  {
    var r := Undot(s, l);
    if DotM(r) {
      UndotHead(s, l);
      assert !SameLetter(l, '.');
      var r1 := Undot(s[1..], l);
      UndotHead(s[1..], l);
      assert !SameLetter(l, 'M');
      assert s[1..][1..] == s[2..];
      var r2 := Undot(s[2..], l);
      UndotHead(s[2..], l);
    }
  }

  /** The first character of a respaced text: whitespace stays whitespace,
      anything else is copied with the rest respaced. */
  lemma RespaceHead(s: string, w: string, rep: string)
    requires s != [] && w != [] && rep != [] && IsSpace(rep[0])
    ensures Respace(s, w, rep) != []
    ensures IsSpace(s[0]) ==> IsSpace(Respace(s, w, rep)[0])
    ensures !IsSpace(s[0]) ==> Respace(s, w, rep) == [s[0]] + Respace(s[1..], w, rep)
  {
  }

  /** A respaced text starts with ".M." only when the original does. */
  lemma RespaceDotM(s: string, w: string, rep: string)
    requires w != [] && rep != [] && IsSpace(rep[0])
    ensures DotM(Respace(s, w, rep)) ==> DotM(s)
  {
    if DotM(Respace(s, w, rep)) {
      RespaceHead(s, w, rep);
      RespaceHead(s[1..], w, rep);
      assert s[1..][1..] == s[2..];
      RespaceHead(s[2..], w, rep);
    }
  }

  /** Respacing creates no dotted spelling when the replacement starts with
      whitespace, has no period and does not end in the spelling's letter. */
  lemma {:induction false} RespaceKeepsNone(s: string, w: string, rep: string, x: char)
    requires w != [] && rep != [] && IsSpace(rep[0])
    requires '.' !in rep && !SameLetter(rep[|rep| - 1], x)
    ensures ContainsIgnoreCase(Respace(s, w, rep), Dotted(x)) ==> ContainsIgnoreCase(s, Dotted(x))
    decreases |s|
  {
    if s != [] {
      if IsSpace(s[0]) && SuffixAfterRun(LStrip(s), w) {
        var t := LStrip(s);
        var k := |s| - |t| + |w|;
        assert t[|w|..] == s[k..];
        RepOccurrence(rep, Respace(s[k..], w, rep), x);
        RespaceKeepsNone(s[k..], w, rep, x);
        SuffixOccurrence(s, k, Dotted(x));
      } else {
        var r' := Respace(s[1..], w, rep);
        ConsOccurrence(s[0], r', x);
        if DotM(r') {
          RespaceDotM(s[1..], w, rep);
          DottedAt(s, x);
        }
        RespaceKeepsNone(s[1..], w, rep, x);
        SuffixOccurrence(s, 1, Dotted(x));
      }
    }
  }

  /** A whitespace run at `i` followed by the word `w`, in any case, ending at
      a word boundary: where `\s+am\b` matches. */
  predicate RunThenWord(s: string, i: nat, w: string) {
    i < |s| && IsSpace(s[i]) && SuffixAfterRun(LStrip(s[i..]), w)
  }

  /** A whitespace run, the word in any case and a word boundary become the replacement. */
  lemma RespaceRewrites(sp: string, v: string, b: string, w: string, rep: string)
    requires sp != [] && AllSpace(sp)
    requires w != [] && IsWordChar(w[0]) && |v| == |w| && MatchesAt(v, 0, w)
    requires b == [] || !IsWordChar(b[0])
    ensures Respace(sp + v + b, w, rep) == rep + Respace(b, w, rep)
  {
    var t := v + b;
    var s := sp + v + b;
    assert s == sp + t && s[0] == sp[0];
    WordThenBoundary(v, b, w);
    LStripSpaces(sp, t);
    RespaceAtRun(s, t, w, rep);
  }

  /** One rewrite step at a whitespace run followed by the word. */
  lemma RespaceAtRun(s: string, t: string, w: string, rep: string)
    requires w != [] && s != [] && IsSpace(s[0]) && LStrip(s) == t && SuffixAfterRun(t, w)
    ensures Respace(s, w, rep) == rep + Respace(t[|w|..], w, rep)
  {
  }

  /** The word in any case followed by a word boundary. */
  lemma WordThenBoundary(v: string, b: string, w: string)
    requires w != [] && IsWordChar(w[0]) && |v| == |w| && MatchesAt(v, 0, w)
    requires b == [] || !IsWordChar(b[0])
    ensures !IsSpace((v + b)[0]) && SuffixAfterRun(v + b, w) && (v + b)[|w|..] == b
  {
    var t := v + b;
    assert SameLetter(v[0], w[0]);
    assert MatchesAt(t, 0, w) by {
      forall j | 0 <= j < |w| ensures SameLetter(t[j], w[j]) {
        assert t[j] == v[j];
      }
    }
    if b != [] {
      assert t[|w|] == b[0];
    }
    assert t[|w|..] == b;
  }

  /** Text with no whitespace run followed by the word is left as it is. */
  lemma {:induction false} RespaceUnchanged(s: string, w: string, rep: string)
    requires w != []
    requires forall i: nat :: !RunThenWord(s, i, w)
    ensures Respace(s, w, rep) == s
    decreases |s|
  {
    if s != [] {
      assert !RunThenWord(s, 0, w) && s[0..] == s;
      forall i: nat ensures !RunThenWord(s[1..], i, w) {
        RunThenWordShift(s, i, w);
      }
      RespaceUnchanged(s[1..], w, rep);
      assert s == [s[0]] + s[1..];
    }
  }

  lemma RunThenWordShift(s: string, i: nat, w: string)
    requires s != []
    ensures RunThenWord(s[1..], i, w) == RunThenWord(s, i + 1, w)
  {
    if i < |s[1..]| {
      assert s[1..][i..] == s[i + 1..];
    }
  }

  /** Replacing characters by whitespace creates no occurrence of a text without whitespace. */
  lemma ReplaceKeepsNone(s: string, c: char, y: char, p: string)
    requires IsSpace(y) && forall j :: 0 <= j < |p| ==> !IsSpace(p[j])
    ensures ContainsIgnoreCase(ReplaceChar(s, c, y), p) ==> ContainsIgnoreCase(s, p)
  {
    var r := ReplaceChar(s, c, y);
    if ContainsIgnoreCase(r, p) {
      var i: nat :| i <= |r| && MatchesAt(r, i, p);
      forall j | 0 <= j < |p| ensures SameLetter(s[i + j], p[j]) {
        assert SameLetter(r[i + j], p[j]);
        assert IsSpace(LowerChar(y)) && !IsSpace(LowerChar(p[j]));
      }
      assert MatchesAt(s, i, p);
    }
  }

  /** No dotted spelling of either letter survives the two dotted rewrites. */
  lemma UndotsLeaveNone(s: string, x: char)
    requires x == 'A' || x == 'P'
    ensures !ContainsIgnoreCase(Undot(Undot(s, 'A'), 'P'), Dotted(x))
  {
    UndotKeepsNone(s, 'A', x);
    UndotKeepsNone(Undot(s, 'A'), 'P', x);
  }

  /** The replacements " AM" and " PM" start with whitespace, have no period
      and do not end in the letter of a dotted spelling. */
  lemma SpacedReplacement(rep: string, x: char)
    requires rep == " AM" || rep == " PM"
    requires x == 'A' || x == 'P'
    ensures rep != [] && IsSpace(rep[0]) && '.' !in rep && !SameLetter(rep[|rep| - 1], x)
  {
  }

  /** The two whitespace rewrites create no dotted spelling. */
  lemma RespacesKeepNone(s: string, x: char)
    requires x == 'A' || x == 'P'
    ensures ContainsIgnoreCase(Respace(Respace(s, "am", " AM"), "pm", " PM"), Dotted(x)) ==>
      ContainsIgnoreCase(s, Dotted(x))
  {
    SpacedReplacement(" AM", x);
    SpacedReplacement(" PM", x);
    RespaceKeepsNone(s, "am", " AM", x);
    RespaceKeepsNone(Respace(s, "am", " AM"), "pm", " PM", x);
  }
}
