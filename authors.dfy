/**
  `create_author_set`: splits an author text on commas, trims and
  lowercases each piece, drops the empty ones, and returns the rest as a
  set (a `frozenset`, used later as a dictionary key).
 */
module Authors {
  import opened Text
  import opened Values

  /** `a.strip().lower()` */
  function CleanToken(a: string): (r: string)
    ensures |r| <= |a|
    ensures Trimmed(r) && NoUpper(r)
    ensures r == [] <==> Strip(a) == []
    ensures ',' in r ==> ',' in a
  {
    var t := Strip(a);
    var r := Lower(t);
    assert Trimmed(r) by {
      if r != [] {
        assert r[0] == LowerChar(t[0]) && r[|r| - 1] == LowerChar(t[|t| - 1]);
      }
    }
    LowerKeepsComma(a);
    r
  }

  lemma LowerKeepsComma(a: string)
    ensures ',' in Lower(Strip(a)) ==> ',' in a
  {
    var t := Strip(a);
    var r := Lower(t);
    if ',' in r {
      var k :| 0 <= k < |r| && r[k] == ',';
      assert LowerChar(t[k]) == ',';
      StripKeepsChar(a, t[k]);
    }
  }

  /** `[a.strip().lower() for a in parts]` */
  function CleanTokens(parts: seq<string>): (r: seq<string>)
    ensures |r| == |parts|
    ensures forall k :: 0 <= k < |parts| ==> r[k] == CleanToken(parts[k])
  {
    seq(|parts|, k requires 0 <= k < |parts| => CleanToken(parts[k]))
  }

  /** `[a for a in tokens if a]`, keeping the order. */
  function DropEmpty(tokens: seq<string>): (r: seq<string>)
    ensures forall a :: a in r <==> a in tokens && a != []
    ensures |r| <= |tokens|
  {
    if tokens == [] then []
    else (if tokens[0] == [] then [] else [tokens[0]]) + DropEmpty(tokens[1..])
  }

  /** The comma-separated pieces of a scalar's text. */
  function Pieces(v: Value): (parts: seq<string>)
    requires v.IsScalar()
    ensures |parts| >= 1 && forall k :: 0 <= k < |parts| ==> ',' !in parts[k]
  {
    Split(ToStr(v), ',')
  }

  /** The authors the pieces name: the non-empty cleaned pieces. */
  function Named(parts: seq<string>): set<string> {
    NonEmpty(CleanTokens(parts))
  }

  /** The distinct non-empty texts among `tokens`. */
  function NonEmpty(tokens: seq<string>): set<string> {
    set a | a in tokens && a != []
  }

  /** What `create_author_set(author_str)` returns. */
  function AuthorSet(v: Value): (r: Option<set<string>>)
    requires v.IsScalar()
  {
    if v.Absent? then None
    else
      var kept := DropEmpty(CleanTokens(Pieces(v)));
      if kept == [] then None else Some(set a | a in kept)
  }

  /** Each piece contributes its cleaned text. */
  lemma CleanedIn(p: string, parts: seq<string>)
    requires p in parts
    ensures CleanToken(p) in CleanTokens(parts)
  {
    var k :| 0 <= k < |parts| && parts[k] == p;
    assert CleanTokens(parts)[k] == CleanToken(p);
  }

  /** For a present value: None when no piece names an author, else the
      set of authors the pieces name. */
  lemma AuthorSetIsNamed(v: Value)
    requires v.IsScalar() && !v.Absent?
    ensures AuthorSet(v) == if Named(Pieces(v)) == {} then None else Some(Named(Pieces(v)))
  {
    var kept := DropEmpty(CleanTokens(Pieces(v)));
    assert (set a | a in kept) == Named(Pieces(v));
    if kept != [] {
      assert kept[0] in Named(Pieces(v));
    }
  }

  /** The result is None exactly for a missing value and for a text whose
      every comma-separated piece is blank; otherwise it is the set of
      non-empty cleaned pieces. */
  lemma AuthorSetMeaning(v: Value)
    requires v.IsScalar()
    ensures AuthorSet(v).None? <==> v.Absent? || forall p :: p in Pieces(v) ==> Strip(p) == []
    ensures AuthorSet(v).Some? ==> AuthorSet(v).value == Named(Pieces(v))
  {
    if !v.Absent? {
      AuthorSetIsNamed(v);
      NoneNamed(Pieces(v));
    }
  }

  /** No piece names an author exactly when every piece is blank. */
  lemma NoneNamed(parts: seq<string>)
    ensures Named(parts) == {} <==> forall p :: p in parts ==> Strip(p) == []
  {
    if Named(parts) == {} {
      BlankPieces(parts);
    } else {
      var a :| a in Named(parts);
      var k :| 0 <= k < |parts| && CleanTokens(parts)[k] == a;
      assert parts[k] in parts;
    }
  }

  lemma BlankPieces(parts: seq<string>)
    requires Named(parts) == {}
    ensures forall p :: p in parts ==> Strip(p) == []
  {
    forall p | p in parts ensures Strip(p) == [] {
      CleanedIn(p, parts);
      assert CleanToken(p) !in Named(parts);
    }
  }

  /** Every named author is non-empty, trimmed, lowercase and, when the
      pieces are comma-free, free of commas. */
  lemma NamedClean(parts: seq<string>)
    requires forall k :: 0 <= k < |parts| ==> ',' !in parts[k]
    ensures forall a :: a in Named(parts) ==> a != [] && Trimmed(a) && NoUpper(a) && ',' !in a
  {
    forall a | a in Named(parts) ensures Trimmed(a) && NoUpper(a) && ',' !in a {
      var k :| 0 <= k < |parts| && CleanTokens(parts)[k] == a;
    }
  }

  /** A result that is not None holds at least one author, and every
      author is non-empty, trimmed, lowercase and free of commas. */
  lemma AuthorsClean(v: Value)
    requires v.IsScalar() && AuthorSet(v).Some?
    ensures AuthorSet(v).value != {}
    ensures forall a :: a in AuthorSet(v).value ==> a != [] && Trimmed(a) && NoUpper(a) && ',' !in a
  {
    AuthorSetIsNamed(v);
    NamedClean(Pieces(v));
  }

  /** Pieces drawn from among `qs` name authors from among those of `qs`. */
  lemma NamedSubset(ps: seq<string>, qs: seq<string>)
    requires forall a :: a in ps ==> a in qs
    ensures Named(ps) <= Named(qs)
  {
    forall a | a in Named(ps) ensures a in Named(qs) {
      var k :| 0 <= k < |ps| && CleanTokens(ps)[k] == a;
      CleanedIn(ps[k], qs);
    }
  }

  /* ---------------- what create_author_set promises ---------------- */

  /** A text joined from comma-free pieces: None when no piece names an
      author, else the set of authors the pieces name. */
  lemma AuthorsOfJoin(ps: seq<string>)
    requires |ps| >= 1 && forall k :: 0 <= k < |ps| ==> ',' !in ps[k]
    ensures AuthorSet(Text(Join(ps, ','))) == if Named(ps) == {} then None else Some(Named(ps))
  {
    var u := Text(Join(ps, ','));
    SplitJoin(ps, ',');
    assert Pieces(u) == ps;
    AuthorSetIsNamed(u);
  }

  /** Only the set of pieces matters: two texts made of the same comma-free
      pieces, in any order and with any repetitions, give the same set. */
  lemma OrderAndRepeatsIgnored(ps: seq<string>, qs: seq<string>)
    requires |ps| >= 1 && |qs| >= 1
    requires forall k :: 0 <= k < |ps| ==> ',' !in ps[k]
    requires forall k :: 0 <= k < |qs| ==> ',' !in qs[k]
    requires forall a :: a in ps <==> a in qs
    ensures AuthorSet(Text(Join(ps, ','))) == AuthorSet(Text(Join(qs, ',')))
  {
    AuthorsOfJoin(ps);
    AuthorsOfJoin(qs);
    SameNamed(ps, qs);
  }

  lemma SameNamed(ps: seq<string>, qs: seq<string>)
    requires forall a :: a in ps <==> a in qs
    ensures Named(ps) == Named(qs)
  {
    NamedSubset(ps, qs);
    NamedSubset(qs, ps);
  }

  /** Pieces that differ only in surrounding whitespace and letter case
      give the same authors. */
  lemma SpacingAndCaseIgnored(ps: seq<string>, qs: seq<string>)
    requires |ps| == |qs| >= 1
    requires forall k :: 0 <= k < |ps| ==> ',' !in ps[k] && ',' !in qs[k]
    requires forall k :: 0 <= k < |ps| ==> CleanToken(ps[k]) == CleanToken(qs[k])
    ensures AuthorSet(Text(Join(ps, ','))) == AuthorSet(Text(Join(qs, ',')))
  {
    AuthorsOfJoin(ps);
    AuthorsOfJoin(qs);
    CleanTokensAgree(ps, qs);
  }

  lemma CleanTokensAgree(ps: seq<string>, qs: seq<string>)
    requires |ps| == |qs| && forall k :: 0 <= k < |ps| ==> CleanToken(ps[k]) == CleanToken(qs[k])
    ensures CleanTokens(ps) == CleanTokens(qs)
  {
  }

  /** Whitespace around a piece does not change the author it names. */
  lemma CleanPadded(pre: string, s: string, post: string)
    requires AllSpace(pre) && AllSpace(post) && Trimmed(s) && s != []
    ensures CleanToken(pre + s + post) == Lower(s)
  {
    StripPadded(pre, s, post);
  }
}
