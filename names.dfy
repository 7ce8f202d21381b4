/**
  `normalize_name`: lowercases a person's name, deletes the listed titles
  and suffixes wherever they stand as whole words, and collapses the
  whitespace left behind.

  Each title is a regular expression of one of two shapes, `\bW\.?\b` or
  `\bW\b` for a fixed word `W`, and `\bc+\b`-like runs of one letter. A
  `re.sub` pass deletes, from left to right, the longest text matching the
  title that starts at a word boundary and ends at one; the search resumes
  after each deletion, and the boundaries are those of the text the pass
  started from. The text is lowercase by the time the titles run, so the
  `re.IGNORECASE` flag is modelled as exact comparison.
 */
module Names {
  import opened Text
  import opened Values

  /** One title or suffix pattern. */
  datatype Pattern =
    | Word(w: string, dot: bool)    // `\bw\.?\b` when `dot`, else `\bw\b`
    | Repeat(c: char, least: nat)   // `\b` then at least `least` copies of `c`, then `\b`

  predicate ValidTitle(p: Pattern) {
    match p
    case Word(w, _) => w != []
    case Repeat(c, least) => IsWordChar(c) && least >= 1
  }

  /** A pattern that matches only non-empty text. */
  type Title = p: Pattern | ValidTitle(p) witness Word("mr", true)

  /** The titles of `normalize_name`, in the order they are applied, one
      constant per line of the source list. */
  const TITLES: seq<Title> := COURTESY + OFFICES + HONOURS + SUFFIXES + DEGREES + LAST_TITLES

  const COURTESY: seq<Title> :=
    [Word("mr", true), Word("mrs", true), Word("ms", true), Word("dr", true), Word("prof", true)]
  const OFFICES: seq<Title> :=
    [Word("rev", true), Word("fr", true), Word("msgr", true), Word("gov", true), Word("rep", true)]
  const HONOURS: seq<Title> :=
    [Word("sen", true), Word("amb", true), Word("the hon", true), Word("esq", true)]
  const SUFFIXES: seq<Title> :=
    [Word("jr", true), Word("sr", true), Repeat('i', 1), Repeat('i', 2), Repeat('i', 3),
     Word("iv", false), Word("v", false)]
  const DEGREES: seq<Title> :=
    [Word("phd", false), Word("md", false), Word("dds", false), Word("do", false),
     Word("dvm", false), Word("cpa", false)]
  const LAST_TITLES: seq<Title> :=
    [Word("lld", false), Word("dc", false), Word("vm", false), Word("ret", true), Word("miss", false)]

  /* ---------------- one match ---------------- */

  /** `\b` at position `i`: exactly one of the characters around it is a word character. */
  predicate Boundary(s: string, i: nat)
    requires i <= |s|
  {
    (i > 0 && IsWordChar(s[i - 1])) != (i < |s| && IsWordChar(s[i]))
  }

  /** `t` is a spelling of the title, ignoring the boundaries. */
  predicate Spells(t: string, p: Pattern) {
    match p
    case Word(w, dot) => t == w || (dot && t == w + ".")
    case Repeat(c, least) => |t| >= least && forall k :: 0 <= k < |t| ==> t[k] == c
  }

  /** The title occurs in `s` as `s[i..i + m]`, with a word boundary on both sides. */
  predicate Occurs(s: string, i: nat, m: nat, p: Pattern) {
    && 0 < m && i + m <= |s|
    && Boundary(s, i) && Boundary(s, i + m)
    && Spells(s[i..i + m], p)
  }

  /** How many copies of `c` start at position `i`. */
  function RunLength(s: string, i: nat, c: char): (n: nat)
    requires i <= |s|
    ensures i + n <= |s|
    ensures forall k :: i <= k < i + n ==> s[k] == c
    ensures i + n == |s| || s[i + n] != c
    decreases |s| - i
  {
    if i < |s| && s[i] == c then 1 + RunLength(s, i + 1, c) else 0
  }

  /** The length of the text the title's regular expression matches at
      position `i`, or 0 when it does not match there: the longest
      boundary-delimited occurrence starting at `i`. */
  function MatchLen(s: string, i: nat, p: Title): (n: nat)
    requires i <= |s|
    ensures n == 0 || Occurs(s, i, n, p)
    ensures forall m :: n < m ==> !Occurs(s, i, m, p)
  {
    if !Boundary(s, i) then 0
    else match p
      case Word(w, dot) => WordMatchLen(s, i, w, dot)
      case Repeat(c, least) => RepeatMatchLen(s, i, c, least)
  }

  /** `MatchLen` for `\bw\.?\b` (or `\bw\b`) at a word boundary. */
  function WordMatchLen(s: string, i: nat, w: string, dot: bool): (n: nat)
    requires i <= |s| && w != [] && Boundary(s, i)
    ensures n == 0 || Occurs(s, i, n, Word(w, dot))
    ensures forall m :: n < m ==> !Occurs(s, i, m, Word(w, dot))
  {
    var e := i + |w|;
    if !(e <= |s| && s[i..e] == w) then
      WordAbsent(s, i, w, dot);
      0
    else if dot && e < |s| && s[e] == '.' && Boundary(s, e + 1) then
      assert s[i..e + 1] == w + ".";
      e + 1 - i
    else
      WordWithoutDot(s, i, w, dot);
      if Boundary(s, e) then |w| else 0
  }

  /** Without `w` at `i`, the title does not occur there. */
  lemma WordAbsent(s: string, i: nat, w: string, dot: bool)
    requires i <= |s| && !(i + |w| <= |s| && s[i..i + |w|] == w)
    ensures forall m :: !Occurs(s, i, m, Word(w, dot))
  {
    forall m ensures !Occurs(s, i, m, Word(w, dot)) {
      if Occurs(s, i, m, Word(w, dot)) {
        OccursSpellsWord(s, i, m, w, dot);
      }
    }
  }

  /** Every occurrence of `\bw\.?\b` begins with `w`. */
  lemma OccursSpellsWord(s: string, i: nat, m: nat, w: string, dot: bool)
    requires Occurs(s, i, m, Word(w, dot))
    ensures i + |w| <= |s| && s[i..i + |w|] == w
  {
    var t := s[i..i + m];
    if t != w {
      assert t == w + ".";
    }
    assert t[..|w|] == w;
    assert s[i..i + |w|] == t[..|w|];
  }

  /** When the dotted spelling does not occur, only `w` itself can. */
  lemma WordWithoutDot(s: string, i: nat, w: string, dot: bool)
    requires i + |w| <= |s| && s[i..i + |w|] == w
    requires !(dot && i + |w| < |s| && s[i + |w|] == '.' && Boundary(s, i + |w| + 1))
    ensures forall m :: Occurs(s, i, m, Word(w, dot)) ==> m == |w| && Boundary(s, i + |w|)
  {
    forall m | Occurs(s, i, m, Word(w, dot)) ensures m == |w| {
      if m != |w| {
        OccursDotted(s, i, m, w, dot);
      }
    }
  }

  /** An occurrence of `\bw\.?\b` longer than `w` is `w` and its period. */
  lemma OccursDotted(s: string, i: nat, m: nat, w: string, dot: bool)
    requires Occurs(s, i, m, Word(w, dot)) && m != |w|
    ensures dot && m == |w| + 1 && s[i + |w|] == '.' && Boundary(s, i + |w| + 1)
  {
    assert s[i..i + m] == w + ".";
    assert s[i..i + m][|w|] == s[i + |w|];
  }

  /** `MatchLen` for a run of one letter at a word boundary. */
  function RepeatMatchLen(s: string, i: nat, c: char, least: nat): (n: nat)
    requires i <= |s| && IsWordChar(c) && least >= 1 && Boundary(s, i)
    ensures n == 0 || Occurs(s, i, n, Repeat(c, least))
    ensures forall m :: n < m ==> !Occurs(s, i, m, Repeat(c, least))
  {
    var n := RunLength(s, i, c);
    RepeatLongest(s, i, c, least, n);
    if n >= least && Boundary(s, i + n) then
      assert Spells(s[i..i + n], Repeat(c, least));
      n
    else 0
  }

  /** Only the maximal run of `c` at `i` can be a boundary-delimited occurrence. */
  lemma RepeatLongest(s: string, i: nat, c: char, least: nat, n: nat)
    requires IsWordChar(c) && least >= 1 && i <= |s|
    requires n == RunLength(s, i, c)
    ensures forall m :: Occurs(s, i, m, Repeat(c, least)) ==> m == n && n >= least && Boundary(s, i + n)
  {
    forall m: nat | Occurs(s, i, m, Repeat(c, least))
      ensures m == n
    {
    }
  }

  /* ---------------- one pass ---------------- */

  /** `re.sub(title, '', s)` from position `i` on: each match found scanning
      left to right is deleted and the scan resumes after it. */
  function SubFrom(s: string, p: Title, i: nat): (r: string)
    requires i <= |s|
    ensures |r| <= |s| - i
    ensures (forall k :: i <= k < |s| ==> !IsUpper(s[k])) ==> NoUpper(r)
    decreases |s| - i
  {
    if i == |s| then []
    else
      var n := MatchLen(s, i, p);
      if n > 0 then SubFrom(s, p, i + n)
      else [s[i]] + SubFrom(s, p, i + 1)
  }

  /** `re.sub(title, '', s)`. */
  function Sub(s: string, p: Title): (r: string)
    ensures |r| <= |s|
    ensures NoUpper(s) ==> NoUpper(r)
  {
    SubFrom(s, p, 0)
  }

  /** Where the title never occurs as a whole word, a pass changes nothing. */
  lemma {:induction false} SubFromUnchanged(s: string, p: Title, i: nat)
    requires i <= |s|
    requires forall j, m :: i <= j ==> !Occurs(s, j, m, p)
    ensures SubFrom(s, p, i) == s[i..]
    decreases |s| - i
  {
    if i < |s| {
      SubFromUnchanged(s, p, i + 1);
      assert s[i..] == [s[i]] + s[i + 1..];
    }
  }

  lemma SubUnchanged(s: string, p: Title)
    requires forall j, m :: !Occurs(s, j, m, p)
    ensures Sub(s, p) == s
  {
    SubFromUnchanged(s, p, 0);
  }

  /** Where none of the titles occurs as a whole word, the passes change nothing. */
  lemma {:induction false} RemoveAllUnchanged(s: string, titles: seq<Title>)
    requires forall p, j, m :: p in titles ==> !Occurs(s, j, m, p)
    ensures RemoveAll(s, titles) == s
    decreases |titles|
  {
    if titles != [] {
      var init := titles[..|titles| - 1];
      assert forall p :: p in init ==> p in titles;
      RemoveAllUnchanged(s, init);
      SubUnchanged(s, titles[|titles| - 1]);
    }
  }

  /** Up to the first occurrence, a pass copies the text as it stands. */
  lemma {:induction false} SubFromCopies(s: string, p: Title, i: nat, k: nat)
    requires i <= k <= |s|
    requires forall j :: i <= j < k ==> MatchLen(s, j, p) == 0
    ensures SubFrom(s, p, i) == s[i..k] + SubFrom(s, p, k)
    decreases k - i
  {
    if i < k {
      assert SubFrom(s, p, i) == [s[i]] + SubFrom(s, p, i + 1);
      SubFromCopies(s, p, i + 1, k);
      SliceCons(s, i, k);
      ConsChain(SubFrom(s, p, i), s[i], SubFrom(s, p, i + 1), s[i + 1..k], SubFrom(s, p, k), s[i..k]);
    }
  }

  lemma SliceCons(s: string, i: nat, k: nat)
    requires i < k <= |s|
    ensures [s[i]] + s[i + 1..k] == s[i..k]
  {
  }

  lemma ConsChain(full: string, c: char, rest: string, mid: string, r: string, whole: string)
    requires full == [c] + rest && rest == mid + r && whole == [c] + mid
    ensures full == whole + r
  {
    ConcatAssoc([c], mid, r);
  }

  lemma SplitThree(a: string, t: string, b: string)
    ensures (a + t + b)[..|a|] + (a + t + b)[|a| + |t|..] == a + b
  {
    assert (a + t + b)[..|a|] == a && (a + t + b)[|a| + |t|..] == b;
  }

  /** A title that occurs exactly once, as `t` in `a + t + b`, is deleted
      and everything around it is kept. */
  lemma SubDeletes(a: string, t: string, b: string, p: Title)
    requires Occurs(a + t + b, |a|, |t|, p)
    requires forall j, m :: Occurs(a + t + b, j, m, p) ==> j == |a| && m == |t|
    ensures Sub(a + t + b, p) == a + b
  {
    SubDeletesAt(a + t + b, p, |a|, |t|);
    SplitThree(a, t, b);
  }

  /** The same, stated by position: the occurrence `s[i..i + n]` is cut out. */
  lemma SubDeletesAt(s: string, p: Title, i: nat, n: nat)
    requires Occurs(s, i, n, p)
    requires forall j, m :: Occurs(s, j, m, p) ==> j == i && m == n
    ensures Sub(s, p) == s[..i] + s[i + n..]
  {
    NoMatchBefore(s, p, i, n);
    MatchLenOfOnly(s, p, i, n);
    OnlyOccurrence(s, p, i, n);
    SubCutsAt(s, p, i, n);
  }

  /** A pass that matches nowhere before `i`, matches `n` characters at `i`
      and finds no occurrence after them cuts out exactly those characters. */
  lemma SubCutsAt(s: string, p: Title, i: nat, n: nat)
    requires i <= |s| && 0 < n && MatchLen(s, i, p) == n
    requires forall j :: 0 <= j < i ==> MatchLen(s, j, p) == 0
    requires forall j, m :: i + n <= j ==> !Occurs(s, j, m, p)
    ensures Sub(s, p) == s[..i] + s[i + n..]
  {
    SubFromCopies(s, p, 0, i);
    SubSkipsMatch(s, p, i, n);
    SubFromUnchanged(s, p, i + n);
    PrefixSlice(s, i);
    CutChain(SubFrom(s, p, 0), s[0..i], SubFrom(s, p, i), SubFrom(s, p, i + n), s[i + n..], s[..i]);
  }

  lemma PrefixSlice(s: string, i: nat)
    requires i <= |s|
    ensures s[0..i] == s[..i]
  {
  }

  lemma CutChain(whole: string, pre: string, mid: string, rest: string, post: string, pre2: string)
    requires whole == pre + mid && mid == rest && rest == post && pre == pre2
    ensures whole == pre2 + post
  {
  }

  /** Before the one occurrence the title matches nowhere. */
  lemma NoMatchBefore(s: string, p: Title, i: nat, n: nat)
    requires i <= |s|
    requires forall j, m :: Occurs(s, j, m, p) ==> j == i && m == n
    ensures forall j :: 0 <= j < i ==> MatchLen(s, j, p) == 0
  {
    forall j: nat | j < i ensures MatchLen(s, j, p) == 0 {
      var k := MatchLen(s, j, p);
    }
  }

  /** At the one occurrence the pass jumps over it. */
  lemma SubSkipsMatch(s: string, p: Title, i: nat, n: nat)
    requires i <= |s| && 0 < n && MatchLen(s, i, p) == n
    ensures SubFrom(s, p, i) == SubFrom(s, p, i + n)
  {
  }

  /** The one occurrence is the match found at its position. */
  lemma MatchLenOfOnly(s: string, p: Title, i: nat, n: nat)
    requires Occurs(s, i, n, p)
    requires forall j, m :: Occurs(s, j, m, p) ==> j == i && m == n
    ensures MatchLen(s, i, p) == n
  {
    var k := MatchLen(s, i, p);
    assert k >= n;
  }

  /** Past the one occurrence there is no other. */
  lemma OnlyOccurrence(s: string, p: Title, i: nat, n: nat)
    requires 0 < n
    requires forall j, m :: Occurs(s, j, m, p) ==> j == i && m == n
    ensures forall j, m :: i + n <= j ==> !Occurs(s, j, m, p)
  {
  }

  /* ---------------- all titles ---------------- */

  /** The passes of `titles`, applied in order. */
  function RemoveAll(s: string, titles: seq<Title>): (r: string)
    ensures |r| <= |s|
    ensures NoUpper(s) ==> NoUpper(r)
  {
    if titles == [] then s
    else Sub(RemoveAll(s, titles[..|titles| - 1]), titles[|titles| - 1])
  }

  lemma RemoveAllStep(s: string, titles: seq<Title>, k: nat)
    requires k < |titles|
    ensures RemoveAll(s, titles[..k + 1]) == Sub(RemoveAll(s, titles[..k]), titles[k])
  {
    assert titles[..k + 1][..k] == titles[..k];
  }

  /** What `normalize_name(name)` returns. */
  function NormalizedName(v: Value): (r: Option<string>)
    requires v.IsScalar()
  {
    if v.Absent? then None
    else
      var t := Strip(CollapseSpaces(RemoveAll(Lower(Strip(ToStr(v))), TITLES)));
      if t == [] then None else Some(t)
  }

  /** `normalize_name(name)`: lowercases the stripped text, runs the title
      passes one after another, then collapses whitespace runs and strips. */
  method NormalizeName(v: Value) returns (r: Option<string>)
    requires v.IsScalar()
    ensures r == NormalizedName(v)
    ensures v.Absent? ==> r.None?
    ensures r.Some? ==> r.value != [] && NoUpper(r.value) && SingleSpaced(r.value)
  {
    if v.Absent? {
      return None;
    }
    var name := Lower(Strip(ToStr(v)));
    ghost var start := name;
    for k := 0 to |TITLES|
      invariant name == RemoveAll(start, TITLES[..k])
    {
      RemoveAllStep(start, TITLES, k);
      name := Sub(name, TITLES[k]);
    }
    assert TITLES[..|TITLES|] == TITLES;
    name := Strip(CollapseSpaces(name));
    r := if name == [] then None else Some(name);
    NormalizedNameShape(v);
  }

  /** The result is absent for a missing name, and otherwise either absent or
      a non-empty lowercase text, trimmed, with single spaces. */
  lemma NormalizedNameShape(v: Value)
    requires v.IsScalar()
    ensures v.Absent? ==> NormalizedName(v).None?
    ensures NormalizedName(v).Some? ==>
      var t := NormalizedName(v).value;
      t != [] && NoUpper(t) && SingleSpaced(t)
  {
    if !v.Absent? {
      CollapseStripSingleSpaced(RemoveAll(Lower(Strip(ToStr(v))), TITLES));
    }
  }

  /* ---------------- what normalize_name promises ---------------- */

  predicate AllWordChars(s: string) {
    forall k :: 0 <= k < |s| ==> IsWordChar(s[k])
  }

  /** Inside a run of word characters there is no word boundary, so a title
      can only occur in it as the whole run. */
  lemma OnlyWholeWord(s: string, j: nat, m: nat, p: Title)
    requires AllWordChars(s) && Occurs(s, j, m, p)
    ensures j == 0 && m == |s|
  {
  }

  /** A run of word characters that does not spell any of the titles
      survives all their passes. */
  lemma WordKept(s: string, titles: seq<Title>)
    requires AllWordChars(s)
    requires forall p :: p in titles ==> !Spells(s, p)
    ensures RemoveAll(s, titles) == s
  {
    forall p, j: nat, m: nat | p in titles ensures !Occurs(s, j, m, p) {
      if Occurs(s, j, m, p) {
        OnlyWholeWord(s, j, m, p);
      }
    }
    RemoveAllUnchanged(s, titles);
  }

  /** A one-word lowercase name that is not itself a title comes back
      unchanged: titles are deleted only between word boundaries. */
  lemma OneWordKept(s: string)
    requires s != [] && AllWordChars(s) && NoUpper(s)
    requires forall p :: p in TITLES ==> !Spells(s, p)
    ensures NormalizedName(Text(s)) == Some(s)
  {
    assert Trimmed(s) by { assert IsWordChar(s[0]) && IsWordChar(s[|s| - 1]); }
    StripOfTrimmed(s);
    LowerOfLower(s);
    WordKept(s, TITLES);
    CollapseWithoutSpaces(s);
  }

  /** "andre" keeps its "dr": `\bdr` needs a word boundary before the "d". */
  lemma AndreKept()
    ensures NormalizedName(Text("andre")) == Some("andre")
  {
    var s := "andre";
    assert AllWordChars(s) && NoUpper(s);
    TitleInitials();
    forall p | p in TITLES ensures !Spells(s, p) {
      if Spells(s, p) {
        SpellsInitial(s, p);
      }
    }
    OneWordKept(s);
  }

  /** The first character of every spelling of the title. */
  function Initial(p: Title): char
  {
    match p
    case Word(w, _) => w[0]
    case Repeat(c, _) => c
  }

  lemma SpellsInitial(t: string, p: Title)
    requires Spells(t, p)
    ensures t != [] && t[0] == Initial(p)
  {
    if p.Word? && t != p.w {
      assert t == p.w + ".";
    }
  }

  /** The letters the titles begin with. */
  const TITLE_INITIALS: set<char> :=
    {'a', 'c', 'd', 'e', 'f', 'g', 'i', 'j', 'l', 'm', 'p', 'r', 's', 't', 'v'}

  /** These titles begin with one of `TITLE_INITIALS`, and only "amb."
      begins with an "a". */
  predicate InitialsKnown(titles: seq<Title>) {
    forall p :: p in titles ==> Initial(p) in TITLE_INITIALS && (Initial(p) != 'a' || p == Word("amb", true))
  }

  /** Every title begins with one of `TITLE_INITIALS`; "amb." is the only
      one beginning with an "a". */
  lemma TitleInitials()
    ensures forall p :: p in TITLES ==> Initial(p) in TITLE_INITIALS
    ensures forall p :: p in TITLES ==> Initial(p) != 'a' || p == Word("amb", true)
  {
    PrefixInitials();
    HonourInitials();
    DegreeInitials();
    assert InitialsKnown(TITLES);
  }

  lemma PrefixInitials()
    ensures InitialsKnown(COURTESY) && InitialsKnown(OFFICES)
  {
  }

  lemma HonourInitials()
    ensures InitialsKnown(HONOURS) && InitialsKnown(SUFFIXES)
  {
  }

  lemma DegreeInitials()
    ensures InitialsKnown(DEGREES) && InitialsKnown(LAST_TITLES)
  {
  }

  /** `\bw\.?\b` takes the period after the title only when a word character
      follows the period; before whitespace or at the end only the letters
      go, and the period stays in the name. */
  lemma TitlePeriod(w: string, rest: string)
    requires w != [] && AllWordChars(w)
    ensures var s := w + "." + rest;
      MatchLen(s, 0, Word(w, true)) == if rest != [] && IsWordChar(rest[0]) then |w| + 1 else |w|
  {
    var s := w + "." + rest;
    assert s[0] == w[0] && s[|w| - 1] == w[|w| - 1] && s[|w|] == '.';
    assert s[0..|w|] == w;
    if rest != [] {
      assert s[|w| + 1] == rest[0];
    }
  }

  /** "Dr. Jane Smith": the "dr" pass deletes "dr" and keeps the period,
      which then survives into the normalized name. */
  lemma DoctorKeepsPeriod()
    ensures var s := "dr. jane smith";
      && MatchLen(s, 0, Word("dr", true)) == 2
      && Sub(s, Word("dr", true)) == "." + SubFrom(s, Word("dr", true), 3)
  {
    var s := "dr. jane smith";
    assert AllWordChars("dr");
    TitlePeriod("dr", " jane smith");
    assert "dr" + "." + " jane smith" == s;
    assert MatchLen(s, 2, Word("dr", true)) == 0 by {
      forall m: nat ensures !Occurs(s, 2, m, Word("dr", true)) {
        if Occurs(s, 2, m, Word("dr", true)) {
          assert false;
        }
      }
    }
  }

  /* ---------------- a titled name ---------------- */

  /** `RemoveAll` read from the front: the first title's pass runs first. */
  lemma {:induction false} RemoveAllCons(s: string, titles: seq<Title>)
    requires titles != []
    ensures RemoveAll(s, titles) == RemoveAll(Sub(s, titles[0]), titles[1..])
    decreases |titles|
  {
    if |titles| > 1 {
      var init := titles[..|titles| - 1];
      RemoveAllCons(s, init);
      assert init[0] == titles[0] && init[1..] == titles[1..][..|titles[1..]| - 1];
    }
  }

  /** An occurrence begins with the title's initial, at a word boundary. */
  lemma OccursInitial(s: string, j: nat, m: nat, p: Title)
    ensures Occurs(s, j, m, p) ==> j < |s| && s[j] == Initial(p) && Boundary(s, j)
  {
    if Occurs(s, j, m, p) {
      SpellsInitial(s[j..j + m], p);
      assert s[j..j + m][0] == s[j];
    }
  }

  /** In `x + " " + y`, with `x` a word, a word boundary lies at the start
      of `x`, at the space, or at a boundary of `y`. */
  lemma BoundaryAfterWord(x: string, y: string, j: nat)
    requires x != [] && AllWordChars(x) && j < |x| + 1 + |y|
    ensures Boundary(x + " " + y, j) ==> j == 0 || j == |x| || (j > |x| && Boundary(y, j - |x| - 1))
  {
    var s := x + " " + y;
    if 0 < j < |x| {
      assert s[j - 1] == x[j - 1] && s[j] == x[j];
    } else if j == |x| + 1 {
      assert s[j - 1] == ' ';
    } else if j > |x| + 1 {
      assert s[j - 1] == y[j - |x| - 2];
    }
    if j > |x| && j - |x| - 1 < |y| {
      assert s[j] == y[j - |x| - 1];
    }
  }

  /** The characters of a two-word name that sit right after a boundary. */
  lemma TwoWordStarts(f: string, l: string, j: nat)
    requires f != [] && AllWordChars(f) && l != [] && AllWordChars(l)
    ensures var y := f + " " + l;
      j < |y| && Boundary(y, j) ==> y[j] == f[0] || y[j] == ' ' || y[j] == l[0]
  {
    var y := f + " " + l;
    if j < |y| {
      BoundaryAfterWord(f, l, j);
      if j > |f| {
        var k := j - |f| - 1;
        assert y[j] == l[k];
        if 0 < k {
          assert IsWordChar(l[k - 1]) && IsWordChar(l[k]);
        }
      }
    }
  }

  /** The same after a leading space. */
  lemma SpacedWordStarts(f: string, l: string, j: nat)
    requires f != [] && AllWordChars(f) && l != [] && AllWordChars(l)
    ensures var s := " " + (f + " " + l);
      j < |s| && Boundary(s, j) ==> s[j] == f[0] || s[j] == ' ' || s[j] == l[0]
  {
    var y := f + " " + l;
    var s := " " + y;
    if 0 < j < |s| {
      assert s[j] == y[j - 1];
      assert s[j - 1] == if j == 1 then ' ' else y[j - 2];
      TwoWordStarts(f, l, j - 1);
    }
  }

  /** The same after "mr": only the "m" adds a boundary before a letter. */
  lemma MisterWordStarts(f: string, l: string, j: nat)
    requires f != [] && AllWordChars(f) && l != [] && AllWordChars(l)
    ensures var s := "mr" + " " + (f + " " + l);
      j < |s| && Boundary(s, j) ==> j == 0 || s[j] == f[0] || s[j] == ' ' || s[j] == l[0]
  {
    var y := f + " " + l;
    var s := "mr" + " " + y;
    assert AllWordChars("mr");
    if j < |s| {
      BoundaryAfterWord("mr", y, j);
      if j > 2 {
        assert s[j] == y[j - 3];
        TwoWordStarts(f, l, j - 3);
      }
    }
  }

  lemma WordCharNotSpace(s: string)
    requires AllWordChars(s)
    ensures forall i :: 0 <= i < |s| ==> !IsSpace(s[i])
  {
  }

  /** The "mr" pass deletes the leading "mr" and nothing else. */
  lemma MisterDeleted(f: string, l: string)
    requires f != [] && AllWordChars(f) && l != [] && AllWordChars(l)
    requires f[0] != 'm' && l[0] != 'm'
    ensures Sub("mr" + " " + (f + " " + l), Word("mr", true)) == " " + (f + " " + l)
  {
    var rest := " " + (f + " " + l);
    var s := "mr" + rest;
    var p: Title := Word("mr", true);
    assert "mr" + " " + (f + " " + l) == s;
    assert s[0..2] == "mr" && s[2] == ' ';
    assert Occurs(s, 0, 2, p);
    forall j, m | Occurs(s, j, m, p) ensures j == 0 && m == 2 {
      OccursInitial(s, j, m, p);
      MisterWordStarts(f, l, j);
      WordWithoutDot(s, 0, "mr", true);
    }
    SubDeletes([], "mr", rest, p);
    assert [] + "mr" + rest == s && [] + rest == rest;
  }

  /** After "mr" is gone, no later title occurs in the name. */
  lemma LaterTitlesKeep(f: string, l: string)
    requires f != [] && AllWordChars(f) && l != [] && AllWordChars(l)
    requires f[0] !in TITLE_INITIALS && l[0] !in TITLE_INITIALS
    ensures RemoveAll(" " + (f + " " + l), TITLES[1..]) == " " + (f + " " + l)
  {
    var s := " " + (f + " " + l);
    TitleInitials();
    forall p, j: nat, m: nat | p in TITLES[1..] ensures !Occurs(s, j, m, p) {
      NoTitleInName(f, l, p, j, m);
    }
    RemoveAllUnchanged(s, TITLES[1..]);
  }

  /** A title beginning with one of `TITLE_INITIALS` occurs nowhere in
      " <first> <last>". */
  lemma NoTitleInName(f: string, l: string, p: Title, j: nat, m: nat)
    requires f != [] && AllWordChars(f) && l != [] && AllWordChars(l)
    requires f[0] !in TITLE_INITIALS && l[0] !in TITLE_INITIALS
    requires Initial(p) in TITLE_INITIALS
    ensures !Occurs(" " + (f + " " + l), j, m, p)
  {
    OccursInitial(" " + (f + " " + l), j, m, p);
    SpacedWordStarts(f, l, j);
  }

  /** Collapsing and stripping " <first> <last>" leaves "<first> <last>". */
  lemma SpacedNameTidied(f: string, l: string)
    requires f != [] && AllWordChars(f) && l != [] && AllWordChars(l)
    ensures Strip(CollapseSpaces(" " + (f + " " + l))) == f + " " + l
  {
    TwoWordsCollapsed(f, l);
    SpacedTidied(f + " " + l);
  }

  lemma SpacedTidied(y: string)
    requires y != [] && Trimmed(y) && CollapseSpaces(y) == y
    ensures Strip(CollapseSpaces(" " + y)) == y
  {
    LeadingSpaceCollapsed(y);
    LeadingSpaceStripped(y);
  }

  lemma TwoWordsCollapsed(f: string, l: string)
    requires f != [] && AllWordChars(f) && l != [] && AllWordChars(l)
    ensures CollapseSpaces(f + " " + l) == f + " " + l
    ensures Trimmed(f + " " + l)
  {
    assert (f + " " + l)[0] == f[0] && (f + " " + l)[|f + " " + l| - 1] == l[|l| - 1];
    WordCharNotSpace(f);
    WordCharNotSpace(l);
    assert AllSpace(" ");
    CollapseJoin(f, " ", l);
    CollapseWithoutSpaces(f);
    CollapseWithoutSpaces(l);
  }

  lemma LeadingSpaceCollapsed(y: string)
    requires y != [] && !IsSpace(y[0]) && CollapseSpaces(y) == y
    ensures CollapseSpaces(" " + y) == " " + y
  {
    assert AllSpace(" ");
    CollapseJoin([], " ", y);
    assert [] + " " + y == " " + y;
    assert CollapseSpaces([]) == [];
  }

  lemma LeadingSpaceStripped(y: string)
    requires y != [] && Trimmed(y)
    ensures Strip(" " + y) == y
  {
    assert AllSpace(" ") && AllSpace([]);
    StripPadded(" ", y, []);
    assert " " + y + [] == " " + y;
  }

  /** "mr <first> <last>", with names that begin with no title's letter,
      normalizes to "<first> <last>": the title goes and the whitespace it
      leaves is collapsed and stripped. */
  lemma MisterNameNormalized(f: string, l: string)
    requires f != [] && AllWordChars(f) && NoUpper(f)
    requires l != [] && AllWordChars(l) && NoUpper(l)
    requires f[0] !in TITLE_INITIALS && l[0] !in TITLE_INITIALS
    ensures NormalizedName(Text("mr " + f + " " + l)) == Some(f + " " + l)
  {
    var y := f + " " + l;
    var s := "mr" + " " + y;
    MisterText(f, l);
    MisterPasses(f, l);
    SpacedNameTidied(f, l);
    NormalizedFromPasses(s, " " + y, y);
  }

  /** All the title passes over "mr <first> <last>". */
  lemma MisterPasses(f: string, l: string)
    requires f != [] && AllWordChars(f) && l != [] && AllWordChars(l)
    requires f[0] !in TITLE_INITIALS && l[0] !in TITLE_INITIALS
    ensures RemoveAll("mr" + " " + (f + " " + l), TITLES) == " " + (f + " " + l)
  {
    var s := "mr" + " " + (f + " " + l);
    FirstTitle();
    RemoveAllCons(s, TITLES);
    MisterDeleted(f, l);
    LaterTitlesKeep(f, l);
  }

  lemma FirstTitle()
    ensures TITLES[0] == Word("mr", true)
  {
  }

  /** A trimmed lowercase name whose passes leave `mid` normalizes to the
      tidied `mid`. */
  lemma NormalizedFromPasses(s: string, mid: string, out: string)
    requires Trimmed(s) && NoUpper(s)
    requires RemoveAll(s, TITLES) == mid && Strip(CollapseSpaces(mid)) == out && out != []
    ensures NormalizedName(Text(s)) == Some(out)
  {
    StripOfTrimmed(s);
    LowerOfLower(s);
  }

  lemma MisterText(f: string, l: string)
    requires f != [] && AllWordChars(f) && NoUpper(f)
    requires l != [] && AllWordChars(l) && NoUpper(l)
    ensures var s := "mr" + " " + (f + " " + l);
      s == "mr " + f + " " + l && Trimmed(s) && NoUpper(s)
  {
    var y := f + " " + l;
    var s := "mr" + " " + y;
    assert s[|s| - 1] == l[|l| - 1];
    assert forall i :: 0 <= i < |y| ==> y[i] == ' ' || y[i] in f || y[i] in l;
  }

  /** "mr hugh brown" normalizes to "hugh brown". */
  lemma MisterHughBrown(s: string)
    requires s == "mr hugh brown"
    ensures NormalizedName(Text(s)) == Some("hugh brown")
  {
    HughBrownParts(s);
    MisterNameNormalized("hugh", "brown");
  }

  lemma HughBrownParts(s: string)
    requires s == "mr hugh brown"
    ensures s == "mr " + "hugh" + " " + "brown" && "hugh" + " " + "brown" == "hugh brown"
    ensures AllWordChars("hugh") && NoUpper("hugh") && AllWordChars("brown") && NoUpper("brown")
    ensures 'h' !in TITLE_INITIALS && 'b' !in TITLE_INITIALS
  {
  }
}
