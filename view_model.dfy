/** `SearchableViewModel`: the state behind the restaurant search screen and
    the two steps that change it (filtering and loading). */
module ViewModel {
  import opened Text
  import opened Catalog
  import opened Search
  import Scenarios

  class SearchableViewModel {
    var allRestaurants: seq<Restaurant>
    var filteredRestaurants: seq<Restaurant>
    var searchText: string
    var searchScope: SearchScopeOption
    var allSearchScopes: seq<SearchScopeOption>

    /** Everything starts empty, with the `.all` scope selected. */
    constructor ()
      ensures allRestaurants == [] && filteredRestaurants == [] && allSearchScopes == []
      ensures searchText == [] && searchScope == All
    {
      allRestaurants := [];
      filteredRestaurants := [];
      searchText := [];
      searchScope := All;
      allSearchScopes := [];
    }

    /** The screen shows the filtered list instead of the whole catalog. */
    function IsSearching(): (b: bool)
      reads this
      ensures b <==> |searchText| > 0
    {
      searchText != []
    }

    /** The state a filter step leaves for query `text`. */
    ghost predicate ShowsResultsFor(text: string)
      reads this
    {
      if text == [] then filteredRestaurants == [] && searchScope == All
      else filteredRestaurants == Filtered(allRestaurants, Lowercase(text))
    }

    /** The search field's binding writes `searchText`. */
    method SetSearchText(text: string)
      modifies this`searchText
      ensures searchText == text
    {
      searchText := text;
    }

    /** The scope picker's binding writes `searchScope`. */
    method SetSearchScope(scope: SearchScopeOption)
      modifies this`searchScope
      ensures searchScope == scope
    {
      searchScope := scope;
    }

    /** `filterRestaurants(searchText:currentsearchScope:)`. An empty query
        clears the results and resets the scope to `.all`; any other query keeps
        the catalog entries whose lowercased title or cuisine contains the
        lowercased query. The scope argument is not consulted. */
    method FilterRestaurants(text: string, currentScope: SearchScopeOption)
      modifies this`filteredRestaurants, this`searchScope
      ensures ShowsResultsFor(text)
      ensures text == [] ==> filteredRestaurants == [] && searchScope == All
      ensures text != [] ==> searchScope == old(searchScope)
      ensures text != [] ==>
        forall r :: r in filteredRestaurants <==> r in allRestaurants && Matches(r, Lowercase(text))
      ensures IsSubsequence(filteredRestaurants, allRestaurants)
      ensures |filteredRestaurants| <= |allRestaurants|
    {
      if text == [] {
        filteredRestaurants := [];
        searchScope := All;
        return;
      }
      var search := Lowercase(text);
      filteredRestaurants := Filtered(allRestaurants, search);
      FilteredMembers(allRestaurants, search);
      FilteredIsSubsequence(allRestaurants, search);
    }

    /** What the debounced subscription runs once input settles: the filter
        step on the latest query and scope. */
    method Refresh()
      modifies this`filteredRestaurants, this`searchScope
      ensures ShowsResultsFor(searchText)
      ensures searchText != [] ==> searchScope == old(searchScope)
      ensures IsSubsequence(filteredRestaurants, allRestaurants)
    {
      FilterRestaurants(searchText, searchScope);
    }

    /** `loadRestaurants()` once the catalog request has completed. On success
        the catalog is replaced and the scope list rebuilt from it; on failure
        nothing changes. */
    method LoadRestaurants(result: LoadResult)
      modifies this`allRestaurants, this`allSearchScopes
      ensures result.Success? ==> allRestaurants == result.restaurants
      ensures result.Success? ==> ScopeListFor(allSearchScopes, allRestaurants)
      ensures result.Failure? ==>
        allRestaurants == old(allRestaurants) && allSearchScopes == old(allSearchScopes)
    {
      match result
      case Failure(_) =>
      case Success(restaurants) =>
        allRestaurants := restaurants;
        allSearchScopes := ScopeList(allRestaurants);
    }
  }

  /** Loading the fixed catalog, then failing a reload, leaves the catalog and its six scopes. */
  method LoadSession(catalog: seq<Restaurant>)
    requires catalog == AllRestaurants()
  {
    var vm := new SearchableViewModel();
    vm.LoadRestaurants(Success(catalog));
    assert !vm.IsSearching() && vm.filteredRestaurants == [];
    var scopes := vm.allSearchScopes;
    assert |scopes| == 6 && scopes[0] == All by {
      CatalogCuisines();
      CoveringCatalogScopeCount(scopes, vm.allRestaurants);
    }
    vm.LoadRestaurants(Failure(LoadError("offline")));
    assert vm.allRestaurants == catalog && vm.allSearchScopes == scopes;
  }

  /** Searching the fixed catalog: "ra" finds two entries; with the Japanese
      scope picked, "a" still finds all five; clearing the query empties the
      results and resets the scope. */
  method SearchSession(catalog: seq<Restaurant>)
    requires catalog == AllRestaurants()
  {
    var vm := new SearchableViewModel();
    vm.LoadRestaurants(Success(catalog));

    vm.SetSearchText("ra");
    vm.Refresh();
    assert vm.IsSearching();
    assert vm.filteredRestaurants == [catalog[3], catalog[4]] by {
      Scenarios.QueryRaScenario(catalog, "ra");
    }

    vm.SetSearchScope(Cuisine(Japanese));
    vm.SetSearchText("a");
    vm.Refresh();
    assert vm.filteredRestaurants == catalog by {
      Scenarios.QueryAScenario(catalog, "a");
    }
    assert vm.searchScope == Cuisine(Japanese);

    vm.SetSearchText("");
    vm.Refresh();
    assert vm.filteredRestaurants == [] && vm.searchScope == All;
    assert !vm.IsSearching();
  }
}
