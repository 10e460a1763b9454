# Auto-complete filter, modelled and proved in Dafny

The repository is a single front-end widget: a text input that filters a
list of e-mail addresses as the user types. It shows at most ten matches
and a "No results" message. All of its logic is in
`src/components/AutoComplete.tsx`. This project models it in three modules,
plus a fourth of worked examples:

- `Text` (`text.dfy`): the JavaScript string built-ins the filter uses.
  `Trim` is `String.prototype.trim`, and `IsSpace` is the full ECMAScript
  WhiteSpace and LineTerminator set. `Lower` is `toLowerCase` under the
  ASCII case map. `StartsWith` is `startsWith`.
- `Matcher` (`matcher.dfy`): the filter run by the change handler.
  - `Match` is the specification. A blank query gives nothing. Otherwise the
    result is the first `MaxResults` (10) candidates whose trimmed,
    lower-cased form starts with the lower-cased, trimmed query.
  - `ScanFirst` is the source's `for` loop with its `push` and its early
    `break`, over the test of one candidate. `Scan` runs it with the test of
    line 27 and is proved equal to `Match`.
  - Lemmas prove that the result is bounded and sound, that it keeps scan
    order, and that it is complete: it holds exactly the candidates at the
    first min(10, number of matches) matching positions.
- `Component` (`component.dfy`): the controller.
  - Class `AutoComplete` holds `query`, `results` and `allData`.
  - `HandleChange` and `HandleSelect` are the two event handlers.
  - The "No results" flag is the pure function `IsNotFound`, with
    JavaScript truthiness modelled for `find` and `length`.

Three points of the code decide how the model reads:

- The code lowers the query and then trims it (`value.toLowerCase().trim()`).
  It trims each candidate and then lowers it. `Text.LowerTrimCommute` proves
  that the two orders agree under the ASCII case map, so the model keeps the
  order in which the code writes each of them.
- The code recomputes the results only on a change or a selection, not when
  `allData` itself changes. The model therefore never replaces `allData`
  (see "Left out").
- The match is computed as a low-priority transition. The model runs a change
  atomically: the query is recorded first, then the results are computed
  from the same value.

The module `Scenarios` (`scenarios.dfy`) works three concrete inputs through
the model: typing "al", "AL" and "zzz" over the list
`["alice@x.com", "bob@x.com", "alex@x.com"]`.

## Model

| member | source | states |
|---|---|---|
| Text.IsSpace | src/components/AutoComplete.tsx:21 | the characters `trim` removes: the ECMAScript WhiteSpace and LineTerminator code points |
| Text.TrimStart | src/components/AutoComplete.tsx:27 | the leading-white-space removal inside `trim`: the result is a suffix of the input, everything dropped is white space, and the result starts with no white space |
| Text.TrimEnd | src/components/AutoComplete.tsx:27 | the trailing-white-space removal inside `trim`: the result is a prefix of the input, everything dropped is white space, and the result ends with no white space |
| Text.Trim | src/components/AutoComplete.tsx:21 | `trim` gives a result no longer than its input that neither starts nor ends with white space |
| Text.TrimIsInfix | src/components/AutoComplete.tsx:21 | what `trim` keeps is the contiguous part of the input after its leading white space, and everything cut away on either side is white space |
| Text.LowerChar | src/components/AutoComplete.tsx:27 | the ASCII case map sends each capital to its own small letter (32 code points on), changes nothing else, gives no capital, and maps white space to white space and nothing else to it |
| Text.LowerCharFolds | src/components/AutoComplete.tsx:27 | two characters lower to the same character exactly when they differ at most in ASCII case |
| Text.Lower | src/components/AutoComplete.tsx:27 | `toLowerCase` keeps the length and applies the case map at every position |
| Text.StartsWith | src/components/AutoComplete.tsx:27 | `startsWith` holds exactly when the prefix is no longer than the string and agrees with it at every position |
| Text.StartsWithSplits | src/components/AutoComplete.tsx:27 | a string starts with any prefix it is built from, and a string that starts with a prefix is that prefix followed by the rest |
| Text.LowerTrimCommute | src/components/AutoComplete.tsx:27 | lowering then trimming (the query) equals trimming then lowering (each candidate) |
| Text.TrimEmptyIffAllSpace | src/components/AutoComplete.tsx:21 | `value.trim() === ''` holds exactly when the value is all white space (including the empty value) |
| Matcher.IsBlank | src/components/AutoComplete.tsx:21 | `value.trim() === ''` holds exactly when every character of the value is white space |
| Matcher.Needle | src/components/AutoComplete.tsx:27 | the query lowered and then trimmed is the query trimmed and then lowered |
| Matcher.IsMatch | src/components/AutoComplete.tsx:27 | a candidate matches exactly when its trimmed form is at least as long as the needle and its first characters, lowered, spell the needle |
| Matcher.Match | src/components/AutoComplete.tsx:20-39 | the results of a change hold at most 10 items, and none at all when the trimmed query is empty |
| Matcher.Scan | src/components/AutoComplete.tsx:21-37 | the blank test, the needle computed once, and the loop over the candidate test of line 27 together return exactly `Match(value, data)` |
| Matcher.ScanFirst | src/components/AutoComplete.tsx:24-35 | the loop with its push and its break once 10 are collected returns the first 10 candidates that pass the test, in list order |
| Matcher.MatchIsFirstMatches | src/components/AutoComplete.tsx:25-37 | for a query that is not blank, the results number min(10, number of matching candidates), and result j is the candidate at the j-th matching position of the list |
| Matcher.MatchSound | src/components/AutoComplete.tsx:27-30 | every result is a candidate of the list whose trimmed, lowered form starts with the trimmed, lowered query |
| Matcher.MatchInScanOrder | src/components/AutoComplete.tsx:25-30 | result j is the candidate at the j-th matching position, and these positions strictly increase, so the results are a subsequence of the list in its order |
| Matcher.MatchCompleteWhenFew | src/components/AutoComplete.tsx:25-37 | when fewer than 10 candidates match, every matching candidate is among the results |
| Matcher.MatchEmptyIff | src/components/AutoComplete.tsx:21-37 | the results are empty exactly when the query is blank or no candidate matches |
| Matcher.MatchIgnoresQueryCase | src/components/AutoComplete.tsx:27 | two queries that differ only in the ASCII case of their letters give the same results |
| Matcher.ExactHitMatches | src/components/AutoComplete.tsx:27 | a candidate identical to a query that is not blank always matches it, so the results are then not empty |
| Matcher.FilterIndicesComplete | src/components/AutoComplete.tsx:25-31 | the scan keeps a position exactly when the candidate there satisfies the condition |
| Matcher.FilterIndicesIncreasing | src/components/AutoComplete.tsx:25-31 | kept positions are listed in strictly increasing order |
| Matcher.FilterAtIndices | src/components/AutoComplete.tsx:25-31 | the j-th kept item is the list element at the j-th kept position |
| Component.Find | src/components/AutoComplete.tsx:62 | `allData.find(item => query === item)` finds something exactly when the query is in the list, and what it finds equals the query |
| Component.Truthy | src/components/AutoComplete.tsx:62 | JavaScript truthiness of what `find` returns: `undefined` and the empty string are falsy |
| Component.IsNotFound | src/components/AutoComplete.tsx:61-63 | "No results" holds exactly when the query is not empty, no results are shown, and no candidate equals the query exactly (case-sensitive, untrimmed) |
| Component.NotFoundAfterChange | src/components/AutoComplete.tsx:61-63 | right after a change, "No results" holds exactly when the value is not empty, equals no candidate, and is blank or matches no candidate |
| Component.NotFoundIffNoMatch | src/components/AutoComplete.tsx:61-63 | for a query that is not blank, "No results" after a change holds exactly when the results are empty: the exact-equality test then adds nothing |
| Component.SelectedResultIsFound | src/components/AutoComplete.tsx:44-49 | selecting any displayed result never shows "No results" |
| Component.ValidResults | src/components/AutoComplete.tsx:32-37 | in any state where the controller's invariant holds, at most 10 results are shown, each a candidate of the list that matches the current query |
| Component.AutoComplete.constructor | src/components/AutoComplete.tsx:10-11 | the component starts with the query its parent passes in, no results, and the given list |
| Component.AutoComplete.HandleChange | src/components/AutoComplete.tsx:15-42 | a change records the raw value as the query, sets the results to `Match` of that same value, leaves the list alone, and then shows "No results" exactly when the value is not empty, equals no candidate, and is blank or matches nothing |
| Component.AutoComplete.HandleSelect | src/components/AutoComplete.tsx:44-51 | a selection sets the query to the selected value, clears the results, and leaves the list alone; selecting a displayed result never shows "No results" |
| Component.AutoComplete.NotFound | src/components/AutoComplete.tsx:61-63 | on the controller's state, "No results" holds exactly when the query is not empty, no results are shown, and the query is not in the list |
| Scenarios.QueryAlShowsTwo | src/components/AutoComplete.tsx:21-37 | typing "al" over the three example addresses shows "alice@x.com" and "alex@x.com", in that order, and no "No results" |
| Scenarios.QueryCapitalAlShowsTwo | src/components/AutoComplete.tsx:21-37 | typing "AL" shows the same two addresses as "al", and no "No results" |
| Scenarios.QueryZzzNotFound | src/components/AutoComplete.tsx:21-62 | typing "zzz" over the same addresses shows nothing, and "No results" appears |

## Left out

- React rendering, JSX and `useMemo` memoisation (AutoComplete.tsx:53-59, 65-72) are presentation only. `memoizedResults.length` is `results.length`, so the model uses `|results|`.
- The `useTransition` pending indicator and the superseding of stale low-priority work (AutoComplete.tsx:12, 20, 68) are scheduling and concurrency. A change is modelled as one atomic step.
- Input focus (`setFocus`, AutoComplete.tsx:48, and `src/hooks/useFocusInput.ts`) is a DOM side effect.
- `src/hooks/useFetchData.ts` (a network fetch, JSON decoding, console logging) is not part of this model: `allData` is a given sequence of strings. `src/App.tsx` and the error boundary hold no logic.
- A change of the `allData` prop is not modelled. The source does not recompute the results then, so displayed results could come from an earlier list.
- `query` is a prop owned by the parent and written through `onChange`. The model makes it a field of the controller that the handlers assign. Its first value is a constructor argument. A write to the prop by the parent outside the two handlers is not modelled.
- Text.Lower: models only the ASCII case map. JavaScript's `toLowerCase` also lowers non-ASCII letters (and a few map to several characters); those candidates may match differently in the browser.
- Text.IsSpace: follows the ECMAScript WhiteSpace and LineTerminator definitions, with the space separators of current Unicode. A browser on another Unicode version may differ.
- JavaScript strings are sequences of UTF-16 code units, while a Dafny `string` is a sequence of Unicode scalar values. A lone surrogate cannot be represented in the model. For well-formed strings the results are the same, since every character `trim` removes and every ASCII capital is a single code unit.
- Calling the filter twice with the same arguments gives the same result. This holds because `Match` is a function, so it is not stated separately.
