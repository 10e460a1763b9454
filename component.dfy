/**
 * The auto-complete controller: it owns the query and the displayed results
 * over a given reference list, recomputes the results on every change of
 * the input, clears them when a result is selected, and derives the
 * "No results" flag.
 */
module Component {
  import opened Text
  import opened Matcher

  datatype Option<T> = None | Some(value: T)

  /** Array.prototype.find with the predicate `item => query === item`. */
  function Find(data: seq<string>, query: string): (r: Option<string>)
    ensures r.Some? <==> query in data
    ensures r.Some? ==> r.value == query
  {
    if data == [] then None
    else if data[0] == query then Some(data[0])
    else Find(data[1..], query)
  }

  /** JavaScript truthiness of what `find` returns: `undefined` and '' are falsy. */
  predicate Truthy(found: Option<string>) {
    found.Some? && |found.value| != 0
  }

  /**
   * The "No results" flag,
   * `Boolean(query.length && !results.length && !allData.find(item => query === item))`:
   * the query is not empty, nothing is displayed and no candidate equals the
   * query exactly (case-sensitive, untrimmed).
   */
  function IsNotFound(query: string, results: seq<string>, allData: seq<string>): (r: bool)
    ensures r <==> |query| > 0 && results == [] && query !in allData
  {
    |query| != 0 && |results| == 0 && !Truthy(Find(allData, query))
  }

  /**
   * Right after a change to `value`, "No results" shows exactly when the
   * value is not empty, equals no candidate, and is either blank or matched
   * by no candidate.
   */
  lemma NotFoundAfterChange(value: string, allData: seq<string>)
    ensures IsNotFound(value, Match(value, allData), allData) <==>
      |value| > 0 && value !in allData &&
      (IsBlank(value) || forall x :: x in allData ==> !IsMatch(Needle(value), x))
  {
    MatchEmptyIff(value, allData);
  }

  /**
   * For a query that is not blank, an exact hit always shows up among the
   * results, so "No results" then only depends on whether anything matches.
   */
  lemma NotFoundIffNoMatch(value: string, allData: seq<string>)
    requires !IsBlank(value)
    ensures IsNotFound(value, Match(value, allData), allData) <==> Match(value, allData) == []
  {
    if value in allData {
      ExactHitMatches(value, allData);
    }
  }

  /**
   * Selecting a displayed result never shows "No results": the selected
   * value is a candidate and is not empty.
   */
  lemma SelectedResultIsFound(query: string, allData: seq<string>, selected: string)
    requires selected in Match(query, allData)
    ensures !IsNotFound(selected, [], allData)
  {
    MatchSound(query, allData);
    assert !IsBlank(query);
    LowerTrimCommute(query);
    var needle := Lower(Trim(query));
    assert |needle| > 0;
    assert StartsWith(Lower(Trim(selected)), needle);
    assert |Trim(selected)| > 0;
  }

  /**
   * The component's state: the query it shows in its input, the results it
   * displays, and the reference list it filters.
   */
  class AutoComplete {
    var query: string
    var results: seq<string>
    var allData: seq<string>

    /** The results are cleared, or are the matches of the current query. */
    ghost predicate Valid()
      reads this
    {
      results == [] || results == Match(query, allData)
    }

    /** The initial state: the query the parent passes in, and no results. */
    constructor (query: string, allData: seq<string>)
      ensures Valid()
      ensures this.query == query && results == [] && this.allData == allData
    {
      this.query := query;
      results := [];
      this.allData := allData;
    }

    /**
     * The change handler: record the raw value as the query, then replace
     * the results by the matches of that same value.
     */
    method HandleChange(value: string)
      requires Valid()
      modifies this
      ensures Valid()
      ensures query == value && allData == old(allData)
      ensures results == Match(value, allData)
      ensures NotFound() <==> (|value| > 0 && value !in allData &&
        (IsBlank(value) || forall x :: x in allData ==> !IsMatch(Needle(value), x)))
    {
      query := value;
      var filtered := Scan(value, allData);
      results := filtered;
      NotFoundAfterChange(value, allData);
    }

    /** The select handler: the selected value becomes the query and the results are cleared. */
    method HandleSelect(value: string)
      requires Valid()
      modifies this
      ensures Valid()
      ensures query == value && results == [] && allData == old(allData)
      ensures old(value in results) ==> !NotFound()
    {
      if value in results {
        SelectedResultIsFound(query, allData, value);
      }
      query := value;
      results := [];
    }

    /** Whether "No results" is shown for the current state. */
    predicate NotFound()
      reads this
      ensures NotFound() <==> |query| > 0 && results == [] && query !in allData
    {
      IsNotFound(query, results, allData)
    }
  }

  /** What the controller's invariant guarantees about the displayed results. */
  lemma ValidResults(c: AutoComplete)
    requires c.Valid()
    ensures |c.results| <= MaxResults
    ensures forall x :: x in c.results ==> x in c.allData && StartsWith(Lower(Trim(x)), Lower(Trim(c.query)))
  {
    MatchSound(c.query, c.allData);
  }
}
