/** The search bar (`src/components/molecules/SearchBar.jsx`): the search
    term and the active filter values it holds, what each change forwards
    to the page, and when its "Clear" button shows. */
module SearchBar {
  import opened Wrappers

  /** The term typed so far and the value chosen in each filter. */
  datatype State = State(searchTerm: string, activeFilters: map<string, string>)

  /** What a change forwards: a new term to `onSearch`, a filter map to
      `onFilterChange`, or both. */
  datatype Forwarded = Forwarded(search: Option<string>, filters: Option<map<string, string>>)

  const Initial := State("", map[])

  /** Typing: the term is stored and forwarded as it is; the filters stay. */
  function SearchChange(s: State, value: string): (r: (State, Forwarded))
    ensures r.0.searchTerm == value && r.0.activeFilters == s.activeFilters
    ensures r.1.search == Some(value) && r.1.filters.None?
  {
    (s.(searchTerm := value), Forwarded(Some(value), None))
  }

  /** Choosing a filter value: only that key changes, and the whole map is
      forwarded. */
  function FilterChange(s: State, key: string, value: string): (r: (State, Forwarded))
    ensures key in r.0.activeFilters && r.0.activeFilters[key] == value
    ensures forall k :: k != key ==>
              (k in r.0.activeFilters <==> k in s.activeFilters)
              && (k in s.activeFilters ==> r.0.activeFilters[k] == s.activeFilters[k])
    ensures r.0.searchTerm == s.searchTerm
    ensures r.1.search.None? && r.1.filters == Some(r.0.activeFilters)
  {
    var filters := s.activeFilters[key := value];
    (s.(activeFilters := filters), Forwarded(None, Some(filters)))
  }

  /** "Clear": back to the initial state, forwarding the empty term and the
      empty filter map. */
  function Clear(s: State): (r: (State, Forwarded))
    ensures r.0.searchTerm == "" && r.0.activeFilters == map[]
    ensures r.1.search == Some("") && r.1.filters == Some(map[])
  {
    (Initial, Forwarded(Some(""), Some(map[])))
  }

  /** The "Clear" button shows while there is a term or a filter with a
      non-empty value. */
  predicate ShowClear(s: State) {
    s.searchTerm != "" || exists k :: k in s.activeFilters && s.activeFilters[k] != ""
  }

  /** The button is hidden at first and after a clear, and shows after any
      non-empty term or filter choice. */
  lemma ShowClearFollowsInput(s: State, key: string, value: string)
    ensures !ShowClear(Initial) && !ShowClear(Clear(s).0)
    ensures value != "" ==> ShowClear(SearchChange(s, value).0) && ShowClear(FilterChange(s, key, value).0)
    ensures value == "" ==> (ShowClear(SearchChange(s, value).0) <==> ShowClear(s.(searchTerm := "")))
  {
    if value != "" {
      assert FilterChange(s, key, value).0.activeFilters[key] != "";
    }
  }

  /** Choosing an empty value for every filter in use, after clearing the
      term, hides the button again. */
  lemma EmptyValuesHideClear(s: State, key: string)
    requires forall k :: k in s.activeFilters && k != key ==> s.activeFilters[k] == ""
    ensures !ShowClear(FilterChange(s.(searchTerm := ""), key, "").0)
  {
  }
}
