/**
 * The search query of ProductRepository.GetAll: the optional filters become
 * an AND-ed list of WHERE clauses, each with a bound parameter, and the
 * result is cut by LIMIT/OFFSET.
 */
module Query {
  import opened Wrappers
  import opened Models

  /** The optional query-string filters of GetAll; `None` is C#'s `null`. Prices are in cents. */
  datatype Filters = Filters(
    category: Option<string>,
    minPrice: Option<int>,
    maxPrice: Option<int>,
    search: Option<string>,
    inStock: Option<bool>)

  /** One WHERE clause of the builder, carrying the value bound to its parameter. */
  datatype Clause =
    | CategoryEq(name: string)       // c.name = @Category
    | PriceGe(minPrice: int)         // p.price >= @MinPrice
    | PriceLe(maxPrice: int)         // p.price <= @MaxPrice
    | NameLike(pattern: string)      // p.name LIKE @Search
    | InStockEq(inStock: bool)       // p.stock > 0 = @InStock

  /** `!string.IsNullOrEmpty(s)` */
  predicate HasText(s: Option<string>)
  {
    s.Some? && s.value != []
  }

  /** The value bound to @Search: the user's text between two `%`, not escaped. */
  function SearchPattern(search: string): string
  {
    "%" + search + "%"
  }

  /** How many of the five filters are supplied. */
  function SuppliedCount(f: Filters): nat
  {
    (if HasText(f.category) then 1 else 0)
    + (if f.minPrice.Some? then 1 else 0)
    + (if f.maxPrice.Some? then 1 else 0)
    + (if HasText(f.search) then 1 else 0)
    + (if f.inStock.Some? then 1 else 0)
  }

  /** Whether filter set `f` asks for clause `c`, with `c`'s parameter bound to the filter's value. */
  predicate Supplied(f: Filters, c: Clause)
  {
    match c
    case CategoryEq(n) => HasText(f.category) && n == f.category.value
    case PriceGe(m) => f.minPrice == Some(m)
    case PriceLe(m) => f.maxPrice == Some(m)
    case NameLike(pat) => HasText(f.search) && pat == SearchPattern(f.search.value)
    case InStockEq(b) => f.inStock == Some(b)
  }

  /** The successive `builder.Where` calls: one clause per supplied filter, in source order. */
  function BuildClauses(f: Filters): (cs: seq<Clause>)
    ensures |cs| == SuppliedCount(f)
    ensures forall c :: c in cs <==> Supplied(f, c)
  {
    (if HasText(f.category) then [CategoryEq(f.category.value)] else [])
    + (if f.minPrice.Some? then [PriceGe(f.minPrice.value)] else [])
    + (if f.maxPrice.Some? then [PriceLe(f.maxPrice.value)] else [])
    + (if HasText(f.search) then [NameLike(SearchPattern(f.search.value))] else [])
    + (if f.inStock.Some? then [InStockEq(f.inStock.value)] else [])
  }

  /** The SQL text of each clause: a fixed string that names a parameter and never holds a filter value. */
  const WhereFragments: set<string> :=
    {"c.name = @Category", "p.price >= @MinPrice", "p.price <= @MaxPrice", "p.name LIKE @Search", "p.stock > 0 = @InStock"}

  function WhereFragment(c: Clause): (text: string)
    ensures text in WhereFragments
  {
    match c
    case CategoryEq(_) => "c.name = @Category"
    case PriceGe(_) => "p.price >= @MinPrice"
    case PriceLe(_) => "p.price <= @MaxPrice"
    case NameLike(_) => "p.name LIKE @Search"
    case InStockEq(_) => "p.stock > 0 = @InStock"
  }

  /**
   * SQL LIKE: `%` matches any run of characters, `_` exactly one, any other
   * character itself. Collation (case folding) and the backslash escape are
   * not modelled.
   */
  function Like(s: string, pattern: string): bool
    ensures NoWildcards(pattern) ==> (Like(s, pattern) <==> s == pattern)
    decreases |s| + |pattern|
  {
    if pattern == [] then s == []
    else if pattern[0] == '%' then Like(s, pattern[1..]) || (s != [] && Like(s[1..], pattern))
    else s != [] && (pattern[0] == '_' || pattern[0] == s[0]) && Like(s[1..], pattern[1..])
  }

  /**
   * The meaning of one clause on a joined product. The stock clause parses as
   * `(p.stock > 0) = @InStock`, since `>` and `=` share a precedence level and
   * associate to the left.
   */
  predicate Holds(c: Clause, p: Product)
    ensures c.InStockEq? ==> (Holds(c, p) <==> IsAvailable(p) == c.inStock)
    ensures c.CategoryEq? && Holds(c, p) ==> p.category.Some?
    ensures c.NameLike? && NoWildcards(c.pattern) ==> (Holds(c, p) <==> p.name == c.pattern)
  {
    match c
    case CategoryEq(n) => p.category.Some? && p.category.value.name == n
    case PriceGe(m) => p.price >= m
    case PriceLe(m) => p.price <= m
    case NameLike(pat) => Like(p.name, pat)
    case InStockEq(b) => (p.stock > 0) == b
  }

  /** The AND of all clauses. */
  predicate Qualifies(cs: seq<Clause>, p: Product)
  {
    forall c :: c in cs ==> Holds(c, p)
  }

  /** Reference reading of the filters, stated per filter with the product's own availability. */
  predicate MatchesFilters(f: Filters, p: Product)
  {
    && (HasText(f.category) ==> p.category.Some? && p.category.value.name == f.category.value)
    && (f.minPrice.Some? ==> f.minPrice.value <= p.price)
    && (f.maxPrice.Some? ==> p.price <= f.maxPrice.value)
    && (HasText(f.search) ==> Like(p.name, SearchPattern(f.search.value)))
    && (f.inStock.Some? ==> IsAvailable(p) == f.inStock.value)
  }

  /** A product satisfies the built clauses exactly when it meets every supplied filter. */
  lemma BuildClausesMeaning(f: Filters, p: Product)
    ensures Qualifies(BuildClauses(f), p) <==> MatchesFilters(f, p)
  {
    var cs := BuildClauses(f);
    if Qualifies(cs, p) {
      if HasText(f.category) { assert CategoryEq(f.category.value) in cs; }
      if f.minPrice.Some? { assert PriceGe(f.minPrice.value) in cs; }
      if f.maxPrice.Some? { assert PriceLe(f.maxPrice.value) in cs; }
      if HasText(f.search) { assert NameLike(SearchPattern(f.search.value)) in cs; }
      if f.inStock.Some? { assert InStockEq(f.inStock.value) in cs; }
    }
    if MatchesFilters(f, p) {
      forall c | c in cs ensures Holds(c, p) {
        assert Supplied(f, c);
      }
    }
  }

  /** Absent filters and empty strings add nothing, so every joined product qualifies. */
  lemma NoFiltersAdmitAll(category: Option<string>, search: Option<string>, p: Product)
    requires !HasText(category) && !HasText(search)
    ensures BuildClauses(Filters(category, None, None, search, None)) == []
    ensures Qualifies(BuildClauses(Filters(category, None, None, search, None)), p)
  {
  }

  // ---------------------------------------------------------------------------
  // What the unescaped search pattern matches

  predicate NoWildcards(t: string)
  {
    forall i :: 0 <= i < |t| ==> t[i] != '%' && t[i] != '_'
  }

  /** `t` occurs in `s` starting at position `i`. */
  predicate OccursAt(t: string, s: string, i: int)
  {
    0 <= i <= |s| - |t| && s[i..i + |t|] == t
  }

  /** `t` occurs in `s` as a contiguous run of characters. */
  ghost predicate IsSubstring(t: string, s: string)
  {
    exists i :: OccursAt(t, s, i)
  }

  lemma {:induction false} PercentMatchesAll(s: string)
    ensures Like(s, "%")
  {
    if s != [] {
      PercentMatchesAll(s[1..]);
    }
  }

  lemma {:induction false} LiteralThenPercent(s: string, t: string)
    requires NoWildcards(t)
    ensures Like(s, t + "%") <==> |t| <= |s| && s[..|t|] == t
  {
    if t == [] {
      assert t + "%" == "%";
      PercentMatchesAll(s);
    } else {
      var p := t + "%";
      assert p[0] == t[0] && p[1..] == t[1..] + "%";
      assert NoWildcards(t[1..]) by {
        forall i | 0 <= i < |t[1..]| ensures t[1..][i] != '%' && t[1..][i] != '_' {
          assert t[1..][i] == t[i + 1];
        }
      }
      if s != [] {
        LiteralThenPercent(s[1..], t[1..]);
        if |t| <= |s| && s[..|t|] == t {
          assert s[1..][..|t[1..]|] == s[..|t|][1..];
        }
        if 1 + |t[1..]| <= |s| && s[1..][..|t[1..]|] == t[1..] && s[0] == t[0] {
          assert s[..|t|] == [s[0]] + s[1..][..|t[1..]|];
        }
      }
    }
  }

  lemma {:induction false} LeadingPercent(s: string, q: string)
    ensures Like(s, "%" + q) <==> exists i :: 0 <= i <= |s| && Like(s[i..], q)
  {
    var p := "%" + q;
    assert p[0] == '%' && p[1..] == q;
    if s == [] {
      if Like(s, p) {
        assert Like(s[0..], q);
      }
    } else {
      LeadingPercent(s[1..], q);
      if Like(s, p) {
        if Like(s, q) {
          assert s[0..] == s;
        } else {
          var i :| 0 <= i <= |s[1..]| && Like(s[1..][i..], q);
          assert s[1..][i..] == s[i + 1..];
        }
      }
      if exists i :: 0 <= i <= |s| && Like(s[i..], q) {
        var i :| 0 <= i <= |s| && Like(s[i..], q);
        if i == 0 {
          assert s[0..] == s;
        } else {
          assert s[1..][i - 1..] == s[i..];
        }
      }
    }
  }

  /** Without `%` or `_` in the user's text, the search is a plain substring test. */
  lemma SearchIsSubstring(name: string, search: string)
    requires NoWildcards(search)
    ensures Like(name, SearchPattern(search)) <==> IsSubstring(search, name)
  {
    assert SearchPattern(search) == "%" + (search + "%");
    LeadingPercent(name, search + "%");
    if Like(name, SearchPattern(search)) {
      var i :| 0 <= i <= |name| && Like(name[i..], search + "%");
      LiteralThenPercent(name[i..], search);
      assert name[i..i + |search|] == name[i..][..|search|];
      assert OccursAt(search, name, i);
    }
    if IsSubstring(search, name) {
      var i :| OccursAt(search, name, i);
      LiteralThenPercent(name[i..], search);
      assert name[i..i + |search|] == name[i..][..|search|];
    }
  }

  /** The user's `_` is not escaped: searching for "_" keeps every non-empty name, with or without an underscore. */
  lemma UnderscoreSearchMatchesAnyName(name: string)
    ensures Like(name, SearchPattern("_")) <==> name != []
  {
    assert SearchPattern("_") == "%" + "_%";
    LeadingPercent(name, "_%");
    if name != [] {
      assert "_%"[1..] == "%";
      PercentMatchesAll(name[1..]);
      assert name[0..] == name;
    }
  }

  /** The user's `%` is not escaped: searching for "%" keeps every product. */
  lemma PercentSearchMatchesAnyName(name: string)
    ensures Like(name, SearchPattern("%"))
  {
    assert SearchPattern("%") == "%" + "%%";
    LeadingPercent(name, "%%");
    assert "%%"[1..] == "%";
    PercentMatchesAll(name);
    assert name[0..] == name;
  }

  // ---------------------------------------------------------------------------
  // LIMIT @PageSize OFFSET @Offset

  /** The offset computed without overflow (the C# code computes it in 32 bits; see OffsetAsWritten). */
  function Offset(page: int, pageSize: int): (o: nat)
    requires page >= 1 && pageSize >= 1
    ensures o == 0 <==> page == 1
  {
    (page - 1) * pageSize
  }

  /**
   * MariaDB refuses a negative LIMIT or OFFSET, so the statement fails for
   * these inputs; nothing in the controller or the repository checks them.
   */
  predicate LimitRejected(page: int, pageSize: int)
  {
    pageSize < 0 || (page - 1) * pageSize < 0
  }

  /** The statement fails exactly for a negative page size, or a page below 1 when pages are not empty. */
  lemma LimitRejectedCases(page: int, pageSize: int)
    ensures LimitRejected(page, pageSize) <==> pageSize < 0 || (page < 1 && pageSize > 0)
  {
    if pageSize > 0 {
      if page < 1 {
        assert (page - 1) * pageSize <= (page - 1) * 1;
      } else {
        assert (page - 1) * pageSize >= 0;
      }
    }
  }

  function Min(a: int, b: int): int
  {
    if a <= b then a else b
  }

  /** `LIMIT limit OFFSET offset` on a row sequence. */
  function Window<T>(s: seq<T>, offset: nat, limit: nat): (w: seq<T>)
    ensures |w| <= limit
    ensures |w| == if offset >= |s| then 0 else Min(limit, |s| - offset)
    ensures forall i :: 0 <= i < |w| ==> w[i] == s[offset + i]
  {
    if offset >= |s| then [] else s[offset..Min(offset + limit, |s|)]
  }

  ghost predicate Distinct<T>(s: seq<T>)
  {
    forall i, j :: 0 <= i < j < |s| ==> s[i] != s[j]
  }

  /** Every row lands on page `k / pageSize + 1` at position `k % pageSize`. */
  lemma PageOf<T>(s: seq<T>, pageSize: int, k: int)
    requires pageSize >= 1 && 0 <= k < |s|
    ensures var w := Window(s, Offset(k / pageSize + 1, pageSize), pageSize);
            k % pageSize < |w| && w[k % pageSize] == s[k]
  {
  }

  lemma {:induction false} OffsetsApart(p1: int, p2: int, pageSize: int)
    requires 1 <= p1 < p2 && pageSize >= 1
    ensures Offset(p1, pageSize) + pageSize <= Offset(p2, pageSize)
    decreases p2 - p1
  {
    assert Offset(p1 + 1, pageSize) == Offset(p1, pageSize) + pageSize;
    if p1 + 1 < p2 {
      OffsetsApart(p1 + 1, p2, pageSize);
    }
  }

  /** Two different pages of a duplicate-free row sequence share no row. */
  lemma PagesDisjoint<T>(s: seq<T>, pageSize: int, p1: int, p2: int)
    requires pageSize >= 1 && p1 >= 1 && p2 >= 1 && p1 != p2 && Distinct(s)
    ensures forall x :: x in Window(s, Offset(p1, pageSize), pageSize) ==> x !in Window(s, Offset(p2, pageSize), pageSize)
  {
    var o1, o2 := Offset(p1, pageSize), Offset(p2, pageSize);
    if p1 < p2 { OffsetsApart(p1, p2, pageSize); } else { OffsetsApart(p2, p1, pageSize); }
    forall x | x in Window(s, o1, pageSize)
      ensures x !in Window(s, o2, pageSize)
    {
      var w1, w2 := Window(s, o1, pageSize), Window(s, o2, pageSize);
      var i :| 0 <= i < |w1| && w1[i] == x;
      forall j | 0 <= j < |w2|
        ensures w2[j] != x
      {
        assert o1 + i != o2 + j;
      }
    }
  }

  /** Each row of a duplicate-free row list is on exactly one page. */
  lemma OnExactlyOnePage<T>(s: seq<T>, pageSize: int, k: int)
    requires pageSize >= 1 && 0 <= k < |s| && Distinct(s)
    ensures exists page :: page >= 1 && s[k] in Window(s, Offset(page, pageSize), pageSize)
              && forall other :: other >= 1 && other != page ==> s[k] !in Window(s, Offset(other, pageSize), pageSize)
  {
    var page := k / pageSize + 1;
    PageOf(s, pageSize, k);
    assert s[k] in Window(s, Offset(page, pageSize), pageSize);
    forall other | other >= 1 && other != page
      ensures s[k] !in Window(s, Offset(other, pageSize), pageSize)
    {
      PagesDisjoint(s, pageSize, page, other);
    }
  }

  // ---------------------------------------------------------------------------
  // The offset as the source computes it

  const Int32Modulus: int := 0x1_0000_0000

  predicate IsInt32(x: int)
  {
    -0x8000_0000 <= x < 0x8000_0000
  }

  /** C#'s unchecked `int` arithmetic: the result wraps into [-2^31, 2^31). */
  function WrapInt32(x: int): (r: int)
    ensures IsInt32(r)
    ensures (r - x) % Int32Modulus == 0
  {
    (x + 0x8000_0000) % Int32Modulus - 0x8000_0000
  }

  /** `var offset = (page - 1) * pageSize;` on two C# ints. */
  function OffsetAsWritten(page: int, pageSize: int): (o: int)
    ensures IsInt32(o)
    ensures page >= 1 && pageSize >= 1 && (page - 1) * pageSize < 0x8000_0000 ==> o == Offset(page, pageSize)
  {
    WrapInt32((page - 1) * pageSize)
  }

  /** Page 65537 of 65536 wraps to offset 0 and repeats page 1; page 32769 of 65536 gives a negative OFFSET. */
  lemma OffsetAsWrittenWraps()
    ensures Offset(65537, 65536) == 0x1_0000_0000 && OffsetAsWritten(65537, 65536) == 0 == Offset(1, 65536)
    ensures Offset(32769, 65536) == 0x8000_0000 && OffsetAsWritten(32769, 65536) < 0
  {
  }
}
