/** The filter run on the fixed catalog, worked out entry by entry. */
module Scenarios {
  import opened Text
  import opened Catalog
  import opened Search

  /** No two adjacent characters of `hay` from index `i` on are `a` then `b`. */
  predicate NoAdjacentPair(hay: string, a: char, b: char, i: nat)
    decreases |hay| - i
  {
    i + 1 >= |hay| || (!(hay[i] == a && hay[i + 1] == b) && NoAdjacentPair(hay, a, b, i + 1))
  }

  lemma {:induction false} NoAdjacentPairNotContains(hay: string, a: char, b: char, i: nat)
    requires NoAdjacentPair(hay, a, b, i)
    ensures forall k :: i <= k ==> !OccursAt(hay, [a, b], k)
    ensures i == 0 ==> !Contains(hay, [a, b])
    decreases |hay| - i
  {
    if i + 1 < |hay| {
      NoAdjacentPairNotContains(hay, a, b, i + 1);
      assert hay[i..i + 2][0] == hay[i] && hay[i..i + 2][1] == hay[i + 1];
      assert !OccursAt(hay, [a, b], i);
    }
  }

  /** The lowercased titles of the catalog entries. */
  lemma CatalogLowerTitles()
    ensures Lowercase(AllRestaurants()[0].title) == "khinkali"
    ensures Lowercase(AllRestaurants()[1].title) == "syrniki"
    ensures Lowercase(AllRestaurants()[2].title) == "lasania"
    ensures Lowercase(AllRestaurants()[3].title) == "ratatouille"
    ensures Lowercase(AllRestaurants()[4].title) == "ramen"
  {
  }

  /** Of the catalog, exactly Ratatouille and Ramen match "ra", both by title. */
  lemma RaMatches(k: nat)
    requires k < 5
    ensures Matches(AllRestaurants()[k], "ra") <==> k >= 3
  {
    CatalogLowerTitles();
    var rs := AllRestaurants();
    if k == 0 {
      assert Lowercase(RawValue(rs[0].cuisine)) == "georgian";
      assert NoAdjacentPair("khinkali", 'r', 'a', 0) && NoAdjacentPair("georgian", 'r', 'a', 0);
      NoAdjacentPairNotContains("khinkali", 'r', 'a', 0);
      NoAdjacentPairNotContains("georgian", 'r', 'a', 0);
    } else if k == 1 {
      assert Lowercase(RawValue(rs[1].cuisine)) == "russian";
      assert NoAdjacentPair("syrniki", 'r', 'a', 0) && NoAdjacentPair("russian", 'r', 'a', 0);
      NoAdjacentPairNotContains("syrniki", 'r', 'a', 0);
      NoAdjacentPairNotContains("russian", 'r', 'a', 0);
    } else if k == 2 {
      assert Lowercase(RawValue(rs[2].cuisine)) == "italian";
      assert NoAdjacentPair("lasania", 'r', 'a', 0) && NoAdjacentPair("italian", 'r', 'a', 0);
      NoAdjacentPairNotContains("lasania", 'r', 'a', 0);
      NoAdjacentPairNotContains("italian", 'r', 'a', 0);
    } else if k == 3 {
      assert OccursAt("ratatouille", "ra", 0);
    } else {
      assert OccursAt("ramen", "ra", 0);
    }
  }

  /** Every catalog entry matches "a"; Syrniki only through its cuisine "russian". */
  lemma AMatches(k: nat)
    requires k < 5
    ensures Matches(AllRestaurants()[k], "a")
    ensures k == 1 ==> !Contains(Lowercase(AllRestaurants()[k].title), "a")
  {
    CatalogLowerTitles();
    var rs := AllRestaurants();
    if k == 0 {
      assert OccursAt("khinkali", "a", 5);
    } else if k == 1 {
      assert Lowercase(RawValue(rs[1].cuisine)) == "russian";
      assert OccursAt("russian", "a", 5);
      forall j | 0 <= j < 7 ensures !OccursAt("syrniki", "a", j) {
        assert "syrniki"[j..j + 1] == ["syrniki"[j]];
      }
    } else if k == 2 {
      assert OccursAt("lasania", "a", 1);
    } else if k == 3 {
      assert OccursAt("ratatouille", "a", 1);
    } else {
      assert OccursAt("ramen", "a", 1);
    }
  }

  /** One step of the filter: the head is kept exactly when it matches. */
  lemma FilteredCons(rs: seq<Restaurant>, q: string)
    requires rs != []
    ensures Filtered(rs, q) == (if Matches(rs[0], q) then [rs[0]] else []) + Filtered(rs[1..], q)
  {
  }

  /** Query "ra" on the fixed catalog finds Ratatouille then Ramen, whatever the letter case. */
  lemma QueryRaScenario(catalog: seq<Restaurant>, query: string)
    requires catalog == AllRestaurants()
    requires query == "ra" || query == "RA"
    ensures Filtered(catalog, Lowercase(query)) == [catalog[3], catalog[4]]
  {
    var rs, q := catalog, "ra";
    assert Lowercase(query) == q;
    assert rs[4..][1..] == [] && rs[3..][1..] == rs[4..] && rs[2..][1..] == rs[3..];
    assert rs[1..][1..] == rs[2..] && rs[0..][1..] == rs[1..] && rs[0..] == rs;
    RaMatches(4);
    FilteredCons(rs[4..], q);
    assert Filtered(rs[4..], q) == [rs[4]];
    RaMatches(3);
    FilteredCons(rs[3..], q);
    assert Filtered(rs[3..], q) == [rs[3], rs[4]];
    RaMatches(2);
    FilteredCons(rs[2..], q);
    assert Filtered(rs[2..], q) == [rs[3], rs[4]];
    RaMatches(1);
    FilteredCons(rs[1..], q);
    assert Filtered(rs[1..], q) == [rs[3], rs[4]];
    RaMatches(0);
    FilteredCons(rs, q);
  }

  /** Query "a" keeps the whole catalog. */
  lemma QueryAScenario(catalog: seq<Restaurant>, query: string)
    requires catalog == AllRestaurants()
    requires query == "a" || query == "A"
    ensures Filtered(catalog, Lowercase(query)) == catalog
  {
    var rs, q := catalog, "a";
    assert Lowercase(query) == q;
    assert rs[4..][1..] == [] && rs[3..][1..] == rs[4..] && rs[2..][1..] == rs[3..];
    assert rs[1..][1..] == rs[2..] && rs[0..][1..] == rs[1..] && rs[0..] == rs;
    AMatches(4);
    FilteredCons(rs[4..], q);
    assert Filtered(rs[4..], q) == rs[4..];
    AMatches(3);
    FilteredCons(rs[3..], q);
    assert Filtered(rs[3..], q) == rs[3..];
    AMatches(2);
    FilteredCons(rs[2..], q);
    assert Filtered(rs[2..], q) == rs[2..];
    AMatches(1);
    FilteredCons(rs[1..], q);
    assert Filtered(rs[1..], q) == rs[1..];
    AMatches(0);
    FilteredCons(rs, q);
  }
}
