/** The pure half of `SearchableViewModel`: search scopes and their titles,
    the per-restaurant match, the filter and the derived scope list. */
module Search {
  import opened Text
  import opened Catalog

  /** `SearchScopeOption`: everything, or one cuisine. */
  datatype SearchScopeOption = All | Cuisine(option: CuisineOption)

  /** The label shown for a scope. */
  function Title(scope: SearchScopeOption): string {
    match scope
    case All => "All"
    case Cuisine(o) => Capitalized(RawValue(o))
  }

  /** A cuisine's title is its raw value with the first letter upper-cased,
      and lowercasing the title gives the raw value back. */
  lemma TitleOfCuisine(o: CuisineOption)
    ensures Title(Cuisine(o)) == [Upper(RawValue(o)[0])] + RawValue(o)[1..]
    ensures Lowercase(Title(Cuisine(o))) == RawValue(o)
  {
    RawValueFacts(o, o);
    CapitalizedLowerWord(RawValue(o));
    LowercaseOfCapitalized(RawValue(o));
    LowercaseOfLower(RawValue(o));
  }

  /** Different scopes carry different titles, so the scope picker's labels are unambiguous. */
  lemma TitlesDistinct(a: SearchScopeOption, b: SearchScopeOption)
    requires a != b
    ensures Title(a) != Title(b)
  {
    match a
    case All =>
      TitleOfCuisine(b.option);
      assert Lowercase(Title(a)) == "all";
    case Cuisine(o) =>
      TitleOfCuisine(o);
      if b.Cuisine? {
        TitleOfCuisine(b.option);
        RawValueFacts(o, b.option);
      } else {
        assert Lowercase(Title(b)) == "all";
      }
  }

  /** The six titles a loaded catalog can show. */
  lemma CuisineTitles()
    ensures Title(All) == "All"
    ensures Title(Cuisine(Russian)) == "Russian"
    ensures Title(Cuisine(Georgian)) == "Georgian"
    ensures Title(Cuisine(Italian)) == "Italian"
    ensures Title(Cuisine(French)) == "French"
    ensures Title(Cuisine(Japanese)) == "Japanese"
  {
    assert Title(Cuisine(Russian)) == "Russian" by { TitleOfCuisine(Russian); }
    assert Title(Cuisine(Georgian)) == "Georgian" by { TitleOfCuisine(Georgian); }
    assert Title(Cuisine(Italian)) == "Italian" by { TitleOfCuisine(Italian); }
    assert Title(Cuisine(French)) == "French" by { TitleOfCuisine(French); }
    assert Title(Cuisine(Japanese)) == "Japanese" by { TitleOfCuisine(Japanese); }
  }

  /** The filter closure: the lowercased title or the lowercased cuisine raw
      value contains `search`, which the caller has already lowercased. */
  predicate Matches(r: Restaurant, search: string) {
    Contains(Lowercase(r.title), search) || Contains(Lowercase(RawValue(r.cuisine)), search)
  }

  /** `restaurants.filter { Matches($0, search) }`. */
  function Filtered(restaurants: seq<Restaurant>, search: string): seq<Restaurant> {
    if restaurants == [] then []
    else (if Matches(restaurants[0], search) then [restaurants[0]] else [])
         + Filtered(restaurants[1..], search)
  }

  /** `sub` is `s` with some elements dropped and the rest kept in order. */
  predicate IsSubsequence<T(==)>(sub: seq<T>, s: seq<T>)
    decreases |s|
  {
    if sub == [] then true
    else if s == [] then false
    else (sub[0] == s[0] && IsSubsequence(sub[1..], s[1..])) || IsSubsequence(sub, s[1..])
  }

  lemma {:induction false} SubsequenceLength<T>(sub: seq<T>, s: seq<T>)
    requires IsSubsequence(sub, s)
    ensures |sub| <= |s|
    decreases |s|
  {
    if sub != [] {
      if sub[0] == s[0] && IsSubsequence(sub[1..], s[1..]) {
        SubsequenceLength(sub[1..], s[1..]);
      } else {
        SubsequenceLength(sub, s[1..]);
      }
    }
  }

  /** The filter keeps catalog order and never adds anything. */
  lemma {:induction false} FilteredIsSubsequence(restaurants: seq<Restaurant>, search: string)
    ensures IsSubsequence(Filtered(restaurants, search), restaurants)
    ensures |Filtered(restaurants, search)| <= |restaurants|
  {
    if restaurants != [] {
      var r, rest := restaurants[0], Filtered(restaurants[1..], search);
      FilteredIsSubsequence(restaurants[1..], search);
      if Matches(r, search) {
        assert Filtered(restaurants, search) == [r] + rest;
        assert ([r] + rest)[1..] == rest;
      } else {
        assert Filtered(restaurants, search) == rest;
      }
    }
    SubsequenceLength(Filtered(restaurants, search), restaurants);
  }

  /** Every matching restaurant is kept as often as it occurs, and no other is kept. */
  lemma {:induction false} FilteredCounts(restaurants: seq<Restaurant>, search: string, r: Restaurant)
    ensures multiset(Filtered(restaurants, search))[r] ==
            if Matches(r, search) then multiset(restaurants)[r] else 0
  {
    if restaurants != [] {
      FilteredCounts(restaurants[1..], search, r);
      assert restaurants == [restaurants[0]] + restaurants[1..];
    }
  }

  /** Soundness and completeness of the filter. */
  lemma FilteredMembers(restaurants: seq<Restaurant>, search: string)
    ensures forall r :: r in Filtered(restaurants, search) <==> r in restaurants && Matches(r, search)
  {
    forall r ensures r in Filtered(restaurants, search) <==> r in restaurants && Matches(r, search) {
      FilteredCounts(restaurants, search, r);
    }
  }

  /** Filtering an already filtered list again with the same query changes nothing. */
  lemma {:induction false} FilteredIdempotent(restaurants: seq<Restaurant>, search: string)
    ensures Filtered(Filtered(restaurants, search), search) == Filtered(restaurants, search)
  {
    if restaurants != [] {
      var head := if Matches(restaurants[0], search) then [restaurants[0]] else [];
      FilteredAppend(head, Filtered(restaurants[1..], search), search);
      FilteredIdempotent(restaurants[1..], search);
    }
  }

  lemma {:induction false} FilteredAppend(a: seq<Restaurant>, b: seq<Restaurant>, search: string)
    ensures Filtered(a + b, search) == Filtered(a, search) + Filtered(b, search)
  {
    if a != [] {
      assert (a + b)[0] == a[0];
      assert (a + b)[1..] == a[1..] + b;
      FilteredAppend(a[1..], b, search);
      var head := if Matches(a[0], search) then [a[0]] else [];
      assert Filtered(a + b, search) == head + Filtered(a[1..] + b, search);
      assert Filtered(a, search) == head + Filtered(a[1..], search);
      assert head + (Filtered(a[1..], search) + Filtered(b, search))
          == (head + Filtered(a[1..], search)) + Filtered(b, search);
    } else {
      assert a + b == b;
    }
  }

  /** Typing one more character can only narrow the results. */
  lemma {:induction false} FilteredNarrows(restaurants: seq<Restaurant>, search: string, c: char)
    ensures IsSubsequence(Filtered(restaurants, search + [c]), Filtered(restaurants, search))
  {
    if restaurants != [] {
      var r := restaurants[0];
      FilteredNarrows(restaurants[1..], search, c);
      var longer := Filtered(restaurants[1..], search + [c]);
      var shorter := Filtered(restaurants[1..], search);
      if Matches(r, search + [c]) {
        if Contains(Lowercase(r.title), search + [c]) {
          ContainsLonger(Lowercase(r.title), search, c);
        } else {
          ContainsLonger(Lowercase(RawValue(r.cuisine)), search, c);
        }
        assert Filtered(restaurants, search + [c]) == [r] + longer;
        assert Filtered(restaurants, search) == [r] + shorter;
      } else if Matches(r, search) {
        assert Filtered(restaurants, search + [c]) == longer;
        assert Filtered(restaurants, search) == [r] + shorter;
        SkipHead(longer, r, shorter);
      } else {
        assert Filtered(restaurants, search + [c]) == longer;
        assert Filtered(restaurants, search) == shorter;
      }
    }
  }

  lemma SkipHead<T>(sub: seq<T>, x: T, s: seq<T>)
    requires IsSubsequence(sub, s)
    ensures IsSubsequence(sub, [x] + s)
  {
    assert ([x] + s)[1..] == s;
  }

  /** `Set(restaurants.map { $0.cuisine })`. */
  function CuisinesOf(restaurants: seq<Restaurant>): (cs: set<CuisineOption>)
    ensures |cs| <= |restaurants|
  {
    if restaurants == [] then {} else {restaurants[0].cuisine} + CuisinesOf(restaurants[1..])
  }

  /** The cuisine set holds exactly the cuisines some restaurant of the list has. */
  lemma {:induction false} CuisinesOfMembers(restaurants: seq<Restaurant>)
    ensures forall c :: c in CuisinesOf(restaurants) <==> exists r :: r in restaurants && r.cuisine == c
  {
    if restaurants != [] {
      CuisinesOfMembers(restaurants[1..]);
      assert forall r :: r in restaurants <==> r == restaurants[0] || r in restaurants[1..];
    }
  }

  /** No value occurs twice. */
  predicate NoDuplicates<T(==)>(s: seq<T>) {
    forall i, j :: 0 <= i < j < |s| ==> s[i] != s[j]
  }

  /** `allCuisines.map { .cuisine(option: $0) }`: one scope per cuisine of the
      set, in whatever order the set is walked. */
  method CuisineScopes(cuisines: set<CuisineOption>) returns (scopes: seq<SearchScopeOption>)
    ensures |scopes| == |cuisines|
    ensures NoDuplicates(scopes)
    ensures forall i :: 0 <= i < |scopes| ==> scopes[i].Cuisine?
    ensures forall c :: Cuisine(c) in scopes <==> c in cuisines
  {
    scopes := [];
    var remaining := cuisines;
    while remaining != {}
      invariant remaining <= cuisines
      invariant |scopes| + |remaining| == |cuisines|
      invariant NoDuplicates(scopes)
      invariant forall i :: 0 <= i < |scopes| ==> scopes[i].Cuisine?
      invariant forall c :: Cuisine(c) in scopes <==> c in cuisines - remaining
      decreases |remaining|
    {
      var c :| c in remaining;
      scopes := scopes + [Cuisine(c)];
      remaining := remaining - {c};
    }
  }

  /** What `allSearchScopes` is after loading `restaurants`: `.all` first, then
      exactly one entry per distinct cuisine present, and nothing else. */
  ghost predicate ScopeListFor(scopes: seq<SearchScopeOption>, restaurants: seq<Restaurant>) {
    |scopes| == 1 + |CuisinesOf(restaurants)| &&
    scopes[0] == All &&
    NoDuplicates(scopes) &&
    (forall i :: 1 <= i < |scopes| ==> scopes[i].Cuisine?) &&
    (forall c :: Cuisine(c) in scopes <==> c in CuisinesOf(restaurants))
  }

  /** Building the scope list as the load step does meets ScopeListFor. */
  method ScopeList(restaurants: seq<Restaurant>) returns (scopes: seq<SearchScopeOption>)
    ensures ScopeListFor(scopes, restaurants)
  {
    var allCuisines := CuisinesOf(restaurants);
    var cuisineScopes := CuisineScopes(allCuisines);
    scopes := [All] + cuisineScopes;
    assert forall i :: 1 <= i < |scopes| ==> scopes[i] == cuisineScopes[i - 1];
  }

  lemma {:induction false} NoDuplicatesCount<T>(s: seq<T>, x: T)
    requires NoDuplicates(s)
    ensures multiset(s)[x] == if x in s then 1 else 0
  {
    if s != [] {
      assert s == [s[0]] + s[1..];
      assert NoDuplicates(s[1..]) by {
        forall i, j | 0 <= i < j < |s[1..]| ensures s[1..][i] != s[1..][j] {
          assert s[1..][i] == s[i + 1] && s[1..][j] == s[j + 1];
        }
      }
      NoDuplicatesCount(s[1..], x);
      if x == s[0] {
        assert x !in s[1..] by {
          forall k | 0 <= k < |s[1..]| ensures s[1..][k] != x {
            assert s[1..][k] == s[k + 1];
          }
        }
      }
    }
  }

  /** Two scope lists for the same catalog differ at most in order: loading the
      same catalog twice yields a permutation of the same scopes. */
  lemma ScopeListsArePermutations(a: seq<SearchScopeOption>, b: seq<SearchScopeOption>, restaurants: seq<Restaurant>)
    requires ScopeListFor(a, restaurants) && ScopeListFor(b, restaurants)
    ensures a[0] == b[0] && |a| == |b|
    ensures multiset(a) == multiset(b)
  {
    forall x ensures multiset(a)[x] == multiset(b)[x] {
      NoDuplicatesCount(a, x);
      NoDuplicatesCount(b, x);
      ScopeMembership(a, restaurants, x);
      ScopeMembership(b, restaurants, x);
    }
  }

  /** Membership in a scope list is fixed by the catalog alone. */
  lemma ScopeMembership(scopes: seq<SearchScopeOption>, restaurants: seq<Restaurant>, x: SearchScopeOption)
    requires ScopeListFor(scopes, restaurants)
    ensures x in scopes <==> x.All? || x.option in CuisinesOf(restaurants)
  {
    if x in scopes && x.Cuisine? {
      var i :| 0 <= i < |scopes| && scopes[i] == x;
      assert i != 0;
    }
  }

  /** Some restaurant of the list has cuisine `c`. */
  ghost predicate HasCuisine(restaurants: seq<Restaurant>, c: CuisineOption) {
    exists r :: r in restaurants && r.cuisine == c
  }

  /** A catalog in which every cuisine occurs yields the full cuisine set. */
  lemma CuisinesOfCoveringCatalog(restaurants: seq<Restaurant>)
    requires forall c :: HasCuisine(restaurants, c)
    ensures CuisinesOf(restaurants) == {Russian, Georgian, Italian, French, Japanese}
  {
    var cs := CuisinesOf(restaurants);
    CuisinesOfMembers(restaurants);
    forall c ensures c in cs {
      assert HasCuisine(restaurants, c);
      var r :| r in restaurants && r.cuisine == c;
    }
    var all := {Russian, Georgian, Italian, French, Japanese};
    forall c ensures c in all {
      match c
      case Russian => case Georgian => case Italian => case French => case Japanese =>
    }
    assert cs == all;
  }

  /** The fixed catalog holds all five cuisines. */
  lemma CatalogCuisines()
    ensures CuisinesOf(AllRestaurants()) == {Russian, Georgian, Italian, French, Japanese}
  {
    var rs := AllRestaurants();
    assert HasCuisine(rs, Georgian) by { assert rs[0] in rs; }
    assert HasCuisine(rs, Russian) by { assert rs[1] in rs; }
    assert HasCuisine(rs, Italian) by { assert rs[2] in rs; }
    assert HasCuisine(rs, French) by { assert rs[3] in rs; }
    assert HasCuisine(rs, Japanese) by { assert rs[4] in rs; }
    forall c ensures HasCuisine(rs, c) {
      match c
      case Russian => case Georgian => case Italian => case French => case Japanese =>
    }
    CuisinesOfCoveringCatalog(rs);
  }

  /** A catalog with every cuisine in it gets six scopes. */
  lemma CoveringCatalogScopeCount(scopes: seq<SearchScopeOption>, restaurants: seq<Restaurant>)
    requires ScopeListFor(scopes, restaurants)
    requires CuisinesOf(restaurants) == {Russian, Georgian, Italian, French, Japanese}
    ensures |scopes| == 6
  {
    FullCuisineSetSize();
  }

  lemma FullCuisineSetSize()
    ensures |{Russian, Georgian, Italian, French, Japanese}| == 5
  {
  }
}
