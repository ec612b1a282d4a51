/**
 * The pure parts of the book listing: how `viewBooksController` normalises the
 * `genre` query parameter, how `prepareFilterQuery` builds the `$or` filter,
 * and the `limit` / `page` / offset arithmetic.
 */
module BookQuery {
  import opened Js

  // ---------------------------------------------------------------------------
  // Splitting on commas

  /** `s.split(",")`: the pieces between commas, empty ones included. */
  function SplitComma(s: string): (parts: seq<string>)
    ensures |parts| >= 1
  {
    if s == [] then [""]
    else
      var rest := SplitComma(s[1..]);
      if s[0] == ',' then [""] + rest
      else [[s[0]] + rest[0]] + rest[1..]
  }

  /** The pieces hold no comma, and there is more than one exactly when the string holds a comma. */
  lemma {:induction false} SplitCommaPieces(s: string)
    ensures forall i | 0 <= i < |SplitComma(s)| :: ',' !in SplitComma(s)[i]
    ensures |SplitComma(s)| == 1 <==> ',' !in s
  {
    if s != [] {
      var rest := SplitComma(s[1..]);
      SplitCommaPieces(s[1..]);
      assert s == [s[0]] + s[1..];
      if s[0] != ',' {
        var parts := SplitComma(s);
        assert parts[0] == [s[0]] + rest[0];
        assert forall i | 1 <= i < |parts| :: parts[i] == rest[i];
      }
    }
  }

  /** `parts.join(",")` on strings. */
  function JoinComma(parts: seq<string>): string {
    if parts == [] then ""
    else if |parts| == 1 then parts[0]
    else parts[0] + "," + JoinComma(parts[1..])
  }

  /** Splitting loses nothing: joining the pieces gives the string back. */
  lemma {:induction false} JoinSplit(s: string)
    ensures JoinComma(SplitComma(s)) == s
  {
    if s != [] {
      var rest := SplitComma(s[1..]);
      JoinSplit(s[1..]);
      assert s == [s[0]] + s[1..];
      if s[0] == ',' {
        JoinEmptyHead(rest);
      } else {
        assert rest == [rest[0]] + rest[1..];
        JoinExtendHead(s[0], rest[0], rest[1..]);
      }
    }
  }

  lemma JoinEmptyHead(parts: seq<string>)
    requires |parts| >= 1
    ensures JoinComma([""] + parts) == "," + JoinComma(parts)
  {
    assert ([""] + parts)[1..] == parts;
  }

  lemma JoinExtendHead(c: char, a: string, tail: seq<string>)
    ensures JoinComma([[c] + a] + tail) == [c] + JoinComma([a] + tail)
  {
    var q := [[c] + a] + tail;
    var p := [a] + tail;
    assert q[0] == [c] + a && q[1..] == tail;
    assert p[0] == a && p[1..] == tail;
    if tail != [] {
      var t := JoinComma(tail);
      assert ([c] + a) + "," + t == [c] + (a + "," + t);
    }
  }

  /** Joining comma-free pieces and splitting again gives the pieces back. */
  lemma {:induction false} SplitJoin(parts: seq<string>)
    requires |parts| >= 1 && forall i | 0 <= i < |parts| :: ',' !in parts[i]
    ensures SplitComma(JoinComma(parts)) == parts
  {
    if |parts| > 1 {
      SplitJoin(parts[1..]);
      SplitPrefix(parts[0], JoinComma(parts[1..]));
    } else {
      SplitPrefix1(parts[0]);
    }
  }

  lemma {:induction false} SplitPrefix1(p: string)
    requires ',' !in p
    ensures SplitComma(p) == [p]
  {
    if p != [] {
      assert ',' !in p[1..];
      SplitPrefix1(p[1..]);
      assert p == [p[0]] + p[1..];
    }
  }

  /** A comma-free piece followed by a comma starts the split with that piece. */
  lemma {:induction false} SplitPrefix(p: string, rest: string)
    requires ',' !in p
    ensures SplitComma(p + "," + rest) == [p] + SplitComma(rest)
  {
    if p == [] {
      assert p + "," + rest == [','] + rest;
      assert (p + "," + rest)[1..] == rest;
    } else {
      var s := p + "," + rest;
      assert s[1..] == p[1..] + "," + rest;
      assert ',' !in p[1..];
      SplitPrefix(p[1..], rest);
      assert p == [p[0]] + p[1..];
    }
  }

  function TrimAll(parts: seq<string>): (r: seq<string>)
    ensures |r| == |parts|
    ensures forall i | 0 <= i < |r| :: r[i] == Trim(parts[i])
  {
    seq(|parts|, i requires 0 <= i < |parts| => Trim(parts[i]))
  }

  function Strs(parts: seq<string>): (r: seq<Value>)
    ensures |r| == |parts|
    ensures forall i | 0 <= i < |r| :: r[i] == Str(parts[i])
  {
    seq(|parts|, i requires 0 <= i < |parts| => Str(parts[i]))
  }

  /**
   * The two statements of `viewBooksController` that rewrite `genre`: trim a
   * truthy value, then split a string that holds a comma into trimmed pieces.
   * A truthy non-string has no `trim`, and a falsy number or boolean has no
   * `includes`: both throw.
   */
  function NormalizeGenre(genre: Value): (r: Try<Value>)
    ensures r.Ok? && r.value.Str? ==> IsTrimmed(r.value.s) && ',' !in r.value.s
    ensures r.Ok? && r.value.Arr? ==> genre.Str? && ',' in Trim(genre.s) && |r.value.elems| >= 2
    ensures genre.Str? && ',' in Trim(genre.s) ==> r.Ok? && r.value.Arr?
    ensures genre.Str? && ',' !in Trim(genre.s) ==> r == Ok(Str(Trim(genre.s)))
  {
    var g := if Truthy(genre) then (if genre.Str? then Ok(Str(Trim(genre.s))) else Threw) else Ok(genre);
    match g
    case Threw => Threw
    case Ok(v) =>
      match v
      case Undefined => Ok(v)
      case Null => Ok(v)
      case Str(s) =>
        if ',' in s then
          SplitCommaPieces(s);
          Ok(Arr(Strs(TrimAll(SplitComma(s)))))
        else
          assert s == "" || IsTrimmed(s);
          Ok(v)
      case _ => Threw
  }

  /** A comma-separated genre list becomes the array of its trimmed names. */
  lemma CommaGenre(names: seq<string>)
    requires |names| >= 2
    requires forall i | 0 <= i < |names| :: ',' !in names[i]
    requires IsTrimmed(JoinComma(names))
    ensures NormalizeGenre(Str(JoinComma(names))) == Ok(Arr(Strs(TrimAll(names))))
  {
    var s := JoinComma(names);
    TrimOfTrimmed(s);
    SplitJoin(names);
    JoinHasComma(names);
  }

  lemma JoinHasComma(names: seq<string>)
    requires |names| >= 2
    ensures ',' in JoinComma(names)
  {
    var s := JoinComma(names);
    assert s == names[0] + "," + JoinComma(names[1..]);
    assert s[|names[0]|] == ',';
  }

  // ---------------------------------------------------------------------------
  // The filter

  datatype Clause =
    | TitleMatch(pattern: string)   // { title: { $regex: pattern, $options: "i" } }
    | AuthorMatch(pattern: string)  // { author: { $regex: pattern, $options: "i" } }
    | GenreIn(genre: Value)         // { genre: { $in: genre } }

  /** `{}` or `{ $or: clauses }`. */
  datatype Filter = MatchAll | AnyOf(clauses: seq<Clause>)

  function ClausesOf(f: Filter): seq<Clause> {
    match f
    case MatchAll => []
    case AnyOf(cs) => cs
  }

  /** The default parameter value `""` replaces `undefined` only. */
  function WithDefault(v: Value): Value {
    if v.Undefined? then Str("") else v
  }

  /** `v && v?.trim() !== ""` would call `trim` on a truthy value that has none. */
  predicate TextThrows(v: Value) {
    Truthy(WithDefault(v)) && !WithDefault(v).Str?
  }

  /** `v && v?.trim() !== ""` holds. */
  predicate HasText(v: Value) {
    WithDefault(v).Str? && Trim(WithDefault(v).s) != ""
  }

  /** `isGenreValid`: a non-blank string or a non-empty array. */
  predicate GenreValid(genre: Value) {
    var g := WithDefault(genre);
    (g.Str? && Trim(g.s) != "") || (g.Arr? && |g.elems| > 0)
  }

  function TextPattern(v: Value): string {
    if WithDefault(v).Str? then Trim(WithDefault(v).s) else ""
  }

  function OptClause(present: bool, c: Clause): (r: seq<Clause>)
    ensures |r| <= 1 && (r == [c] <==> present)
  {
    if present then [c] else []
  }

  /**
   * `prepareFilterQuery`: a title clause, then an author clause, then a genre
   * clause, each only when its parameter asks for one; the empty filter when
   * none does.
   */
  function PrepareFilterQuery(title: Value, author: Value, genre: Value): (r: Try<Filter>)
    ensures r.Threw? <==> TextThrows(title) || (!TextThrows(title) && TextThrows(author))
    ensures r.Ok? ==> (ClausesOf(r.value) ==
      OptClause(HasText(title), TitleMatch(TextPattern(title))) +
      OptClause(HasText(author), AuthorMatch(TextPattern(author))) +
      OptClause(GenreValid(genre), GenreIn(genre)))
    ensures r == Ok(MatchAll) <==>
      !TextThrows(title) && !TextThrows(author) && !HasText(title) && !HasText(author) && !GenreValid(genre)
    ensures r.Ok? && r.value.AnyOf? ==> r.value.clauses != []
  {
    var t, a := WithDefault(title), WithDefault(author);
    if Truthy(t) && !t.Str? then Threw
    else
      var cs1 := if t.Str? && Trim(t.s) != "" then [TitleMatch(Trim(t.s))] else [];
      if Truthy(a) && !a.Str? then Threw
      else
        var cs2 := cs1 + (if a.Str? && Trim(a.s) != "" then [AuthorMatch(Trim(a.s))] else []);
        var cs3 := cs2 + (if GenreValid(genre) then [GenreIn(genre)] else []);
        if |cs3| > 0 then Ok(AnyOf(cs3)) else Ok(MatchAll)
  }

  /**
   * Each clause is there exactly when its parameter asks for it, with the
   * trimmed text as its pattern, and they come in the order title, author, genre.
   */
  lemma FilterClauses(title: Value, author: Value, genre: Value)
    requires PrepareFilterQuery(title, author, genre).Ok?
    ensures var cs := ClausesOf(PrepareFilterQuery(title, author, genre).value);
      && (TitleMatch(TextPattern(title)) in cs <==> HasText(title))
      && (AuthorMatch(TextPattern(author)) in cs <==> HasText(author))
      && (GenreIn(genre) in cs <==> GenreValid(genre))
      && (forall c | c in cs ::
            c == TitleMatch(TextPattern(title)) || c == AuthorMatch(TextPattern(author)) || c == GenreIn(genre))
      && RankIncreasing(cs)
  {
    OptClauses(HasText(title), TitleMatch(TextPattern(title)),
               HasText(author), AuthorMatch(TextPattern(author)),
               GenreValid(genre), GenreIn(genre));
  }

  lemma OptClauses(p1: bool, c1: Clause, p2: bool, c2: Clause, p3: bool, c3: Clause)
    requires Rank(c1) == 0 && Rank(c2) == 1 && Rank(c3) == 2
    ensures var cs := OptClause(p1, c1) + OptClause(p2, c2) + OptClause(p3, c3);
      && (c1 in cs <==> p1) && (c2 in cs <==> p2) && (c3 in cs <==> p3)
      && (forall c | c in cs :: c == c1 || c == c2 || c == c3)
      && RankIncreasing(cs)
  {
    var o1, o2, o3 := OptClause(p1, c1), OptClause(p2, c2), OptClause(p3, c3);
    var cs := o1 + o2 + o3;
    var all := [c1, c2, c3];
    assert RankIncreasing(all);
    assert cs == (if p1 then [c1] else []) + (if p2 then [c2] else []) + (if p3 then [c3] else []);
    assert forall k | 0 <= k < |cs| :: cs[k] in all;
  }

  /** The clauses' ranks go strictly up. */
  predicate RankIncreasing(cs: seq<Clause>) {
    forall i, j | 0 <= i < j < |cs| :: Rank(cs[i]) < Rank(cs[j])
  }

  /** The position of a clause kind in the filter. */
  function Rank(c: Clause): nat {
    match c
    case TitleMatch(_) => 0
    case AuthorMatch(_) => 1
    case GenreIn(_) => 2
  }

  // ---------------------------------------------------------------------------
  // Pagination

  const MaxLimit: int := 50

  /** `limit`: the parsed value when it is a positive number, else 50, and never above 50. */
  function EffectiveLimit(limit: Value): (r: int)
    ensures 1 <= r <= MaxLimit
    ensures (!Truthy(limit) || ParseInt(ToString(limit)).None? || ParseInt(ToString(limit)).value <= 0) ==> r == MaxLimit
    ensures (Truthy(limit) && ParseInt(ToString(limit)).Some? && ParseInt(ToString(limit)).value > 0) ==>
      r == if ParseInt(ToString(limit)).value > MaxLimit then MaxLimit else ParseInt(ToString(limit)).value
  {
    var p := ParseInt(ToString(limit));
    var l := if Truthy(limit) && p.Some? && p.value > 0 then p.value else MaxLimit;
    if l > MaxLimit then MaxLimit else l
  }

  /** `page`: the parsed value when it is a positive number, else 1. */
  function EffectivePage(page: Value): (r: int)
    ensures r >= 1
    ensures (Truthy(page) && ParseInt(ToString(page)).Some? && ParseInt(ToString(page)).value > 0) ==>
      r == ParseInt(ToString(page)).value
    ensures !(Truthy(page) && ParseInt(ToString(page)).Some? && ParseInt(ToString(page)).value > 0) ==> r == 1
  {
    var p := ParseInt(ToString(page));
    if Truthy(page) && p.Some? && p.value > 0 then p.value else 1
  }

  /** `(page - 1) * limit`: the number of documents skipped. */
  function Offset(page: int, limit: int): (r: int)
    requires page >= 1 && limit >= 1
    ensures r >= 0
    ensures r == 0 <==> page == 1
    ensures r + limit == page * limit
  {
    assert page > 1 ==> (page - 1) * limit >= limit by {
      if page > 1 {
        assert (page - 1) * limit == (page - 2) * limit + limit;
        assert (page - 2) * limit >= 0;
      }
    }
    (page - 1) * limit
  }

  /** A decimal numeral for a count between 1 and 50 is taken as it is; larger ones are capped. */
  lemma LimitOfNumeral(n: nat)
    ensures EffectiveLimit(Str(NatToString(n))) == if n == 0 then MaxLimit else if n > MaxLimit then MaxLimit else n
  {
    ParseIntOfNatToString(n);
  }

  lemma PageOfNumeral(n: nat)
    ensures EffectivePage(Str(NatToString(n))) == if n == 0 then 1 else n
  {
    ParseIntOfNatToString(n);
  }

  lemma MissingPaging()
    ensures EffectiveLimit(Undefined) == MaxLimit && EffectivePage(Undefined) == 1
    ensures Offset(EffectivePage(Undefined), EffectiveLimit(Undefined)) == 0
  {
  }

  /** What one listing request asks the database for. */
  datatype Listing = Listing(filter: Filter, offset: int, limit: int)

  /** `viewBooksController` up to the `find(...).skip(offset).limit(limit)` call. */
  function ViewBooksQuery(query: Body): (r: Try<Listing>)
    ensures r.Ok? ==> r.value.offset >= 0 && 1 <= r.value.limit <= MaxLimit
  {
    match NormalizeGenre(Get(query, "genre"))
    case Threw => Threw
    case Ok(genre) =>
      match PrepareFilterQuery(Get(query, "title"), Get(query, "author"), genre)
      case Threw => Threw
      case Ok(filter) =>
        var limit := EffectiveLimit(Get(query, "limit"));
        Ok(Listing(filter, Offset(EffectivePage(Get(query, "page")), limit), limit))
  }
}
