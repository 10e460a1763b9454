/**
 * The matcher inside the auto-complete's change handler: a bounded,
 * order-preserving scan of the reference list for candidates whose trimmed,
 * lower-cased form starts with the trimmed, lower-cased query.
 *
 * `Match` is the specification (the first `MaxResults` of all matches),
 * `Scan` is the loop with its early exit, proved equal to it, and the lemmas
 * state what the result is: bounded, sound, in scan order and complete.
 */
module Matcher {
  import opened Text

  /** The scan stops once this many candidates have been collected. */
  const MaxResults: nat := 10

  /** A query that trims to the empty string yields no results. */
  predicate IsBlank(value: string)
    ensures IsBlank(value) <==> AllSpace(value)
  {
    TrimEmptyIffAllSpace(value);
    Trim(value) == []
  }

  /**
   * What each candidate is compared with: the query lowered, then trimmed,
   * which is the same as the query trimmed, then lowered.
   */
  function Needle(value: string): (r: string)
    ensures r == Lower(Trim(value))
  {
    LowerTrimCommute(value);
    Trim(Lower(value))
  }

  /** A candidate matches when its trimmed, then lowered form starts with the needle. */
  predicate IsMatch(needle: string, item: string)
    ensures IsMatch(needle, item) <==>
      (|needle| <= |Trim(item)| && forall i :: 0 <= i < |needle| ==> LowerChar(Trim(item)[i]) == needle[i])
  {
    StartsWith(Lower(Trim(item)), needle)
  }

  /** The test of each candidate against the needle, as a value the scan and the filter take. */
  function MatchesNeedle(needle: string): string -> bool {
    item => IsMatch(needle, item)
  }

  /** Every element of `s` that satisfies `p`, in the order of `s`. */
  function Filter<T>(p: T -> bool, s: seq<T>): (r: seq<T>)
    ensures |r| <= |s|
  {
    if s == [] then [] else Filter(p, s[..|s| - 1]) + (if p(s[|s| - 1]) then [s[|s| - 1]] else [])
  }

  /** The positions in `s` of the elements that satisfy `p`, in increasing order. */
  function FilterIndices<T>(p: T -> bool, s: seq<T>): (r: seq<nat>)
    ensures |r| == |Filter(p, s)|
    ensures forall j :: 0 <= j < |r| ==> r[j] < |s|
  {
    if s == [] then
      []
    else
      var n := |s| - 1;
      FilterIndices(p, s[..n]) + (if p(s[n]) then [n] else [])
  }

  /** Every matching candidate of `data`, in the order of `data`. */
  function AllMatches(needle: string, data: seq<string>): seq<string> {
    Filter(MatchesNeedle(needle), data)
  }

  /** The positions in `data` of its matching candidates. */
  function MatchIndices(needle: string, data: seq<string>): seq<nat> {
    FilterIndices(MatchesNeedle(needle), data)
  }

  function Take<T>(s: seq<T>, n: nat): (r: seq<T>)
    ensures |r| <= |s| && |r| <= n
  {
    if |s| <= n then s else s[..n]
  }

  /**
   * The results of a change to `value`: nothing for a blank query, otherwise
   * the first `MaxResults` matching candidates of `data`.
   */
  function Match(value: string, data: seq<string>): (r: seq<string>)
    ensures |r| <= MaxResults
    ensures IsBlank(value) ==> r == []
  {
    if IsBlank(value) then [] else Take(AllMatches(Needle(value), data), MaxResults)
  }

  /**
   * The change handler's filter: a blank query gives no results; otherwise
   * the needle is computed once, and the list is scanned with the test of
   * each candidate against it.
   */
  method Scan(value: string, data: seq<string>) returns (r: seq<string>)
    ensures r == Match(value, data)
  {
    if Trim(value) == [] {
      return [];
    }
    var needle := Trim(Lower(value));
    r := ScanFirst(MatchesNeedle(needle), data);
  }

  /**
   * The loop of the change handler, over the test `found` of one candidate:
   * scan `data` in order, collect each candidate that passes, and leave the
   * loop once `MaxResults` are collected. The index is advanced before the
   * size test, which does not change the result.
   */
  method ScanFirst<T>(found: T -> bool, data: seq<T>) returns (r: seq<T>)
    ensures r == Take(Filter(found, data), MaxResults)
  {
    r := [];
    var i := 0;
    while i < |data|
      invariant 0 <= i <= |data|
      invariant r == Filter(found, data[..i])
      invariant |r| < MaxResults
    {
      var item := data[i];
      FilterPrefixStep(found, data, i);
      if found(item) {
        r := r + [item];
      }
      i := i + 1;
      if |r| >= MaxResults {
        break;
      }
    }
    FilterPrefixTake(found, data, i, MaxResults);
  }

  /** Scanning one more element keeps it exactly when it satisfies `p`. */
  lemma FilterPrefixStep<T>(p: T -> bool, s: seq<T>, i: nat)
    requires i < |s|
    ensures Filter(p, s[..i + 1]) == Filter(p, s[..i]) + if p(s[i]) then [s[i]] else []
  {
    assert s[..i + 1][..i] == s[..i];
  }

  /**
   * A scan that stopped after `i` elements, either with `n` kept or at the
   * end of `s`, has kept the first `n` of all kept elements.
   */
  lemma FilterPrefixTake<T>(p: T -> bool, s: seq<T>, i: nat, n: nat)
    requires i <= |s|
    requires |Filter(p, s[..i])| == n || (i == |s| && |Filter(p, s[..i])| < n)
    ensures Take(Filter(p, s), n) == Filter(p, s[..i])
  {
    FilterAppend(p, s[..i], s[i..]);
    assert s[..i] + s[i..] == s;
    if i == |s| {
      assert s[i..] == [];
    }
  }

  /** Filtering distributes over concatenation. */
  lemma {:induction false} FilterAppend<T>(p: T -> bool, a: seq<T>, b: seq<T>)
    ensures Filter(p, a + b) == Filter(p, a) + Filter(p, b)
  {
    if b == [] {
      assert a + b == a;
    } else {
      var n := |b| - 1;
      assert (a + b)[..|a + b| - 1] == a + b[..n];
      assert (a + b)[|a + b| - 1] == b[n];
      FilterAppend(p, a, b[..n]);
    }
  }

  /** The j-th kept element is the element at the j-th kept position. */
  lemma {:induction false} FilterAtIndices<T>(p: T -> bool, s: seq<T>)
    ensures |Filter(p, s)| == |FilterIndices(p, s)|
    ensures forall j :: 0 <= j < |FilterIndices(p, s)| ==> Filter(p, s)[j] == s[FilterIndices(p, s)[j]]
  {
    if s != [] {
      FilterAtIndices(p, s[..|s| - 1]);
    }
  }

  /** Every kept element is an element of `s` that satisfies `p`. */
  lemma {:induction false} FilterSound<T>(p: T -> bool, s: seq<T>)
    ensures forall x :: x in Filter(p, s) ==> x in s && p(x)
  {
    if s != [] {
      var init := s[..|s| - 1];
      FilterSound(p, init);
      assert forall x :: x in init ==> x in s;
    }
  }

  /** The first `n` kept elements are the elements at the first `n` kept positions. */
  lemma TakeFilterAtIndices<T>(p: T -> bool, s: seq<T>, n: nat)
    ensures |Take(Filter(p, s), n)| == if |FilterIndices(p, s)| < n then |FilterIndices(p, s)| else n
    ensures forall j :: 0 <= j < |Take(Filter(p, s), n)| ==> Take(Filter(p, s), n)[j] == s[FilterIndices(p, s)[j]]
  {
    FilterAtIndices(p, s);
  }

  /** Every one of the first `n` kept elements is an element of `s` that satisfies `p`. */
  lemma TakeFilterSound<T>(p: T -> bool, s: seq<T>, n: nat)
    ensures forall x :: x in Take(Filter(p, s), n) ==> x in s && p(x)
  {
    FilterSound(p, s);
    var f := Filter(p, s);
    assert forall x :: x in Take(f, n) ==> x in f;
  }

  /** When fewer than `n` elements are kept, taking `n` of them loses none. */
  lemma FilterCompleteWhenFew<T>(p: T -> bool, s: seq<T>, n: nat)
    requires |Filter(p, s)| < n
    ensures forall i :: 0 <= i < |s| && p(s[i]) ==> s[i] in Take(Filter(p, s), n)
  {
    FilterAtIndices(p, s);
    FilterIndicesComplete(p, s);
    var idx := FilterIndices(p, s);
    forall i | 0 <= i < |s| && p(s[i])
      ensures s[i] in Take(Filter(p, s), n)
    {
      var j :| 0 <= j < |idx| && idx[j] == i;
      assert Take(Filter(p, s), n)[j] == s[i];
    }
  }

  /** Taking a positive number of kept elements gives nothing exactly when nothing is kept. */
  lemma TakeFilterEmptyIff<T>(p: T -> bool, s: seq<T>, n: nat)
    requires n > 0
    ensures Take(Filter(p, s), n) == [] <==> forall x :: x in s ==> !p(x)
  {
    FilterSound(p, s);
    if x :| x in s && p(x) {
      var i :| 0 <= i < |s| && s[i] == x;
      FilterCompleteWhenFew(p, s, |Filter(p, s)| + 1);
      assert x in Filter(p, s);
    }
  }

  /** The first `n` kept elements come from strictly increasing positions. */
  lemma TakeFilterInOrder<T>(p: T -> bool, s: seq<T>, n: nat)
    ensures forall j, k :: 0 <= j < k < |Take(Filter(p, s), n)| ==> FilterIndices(p, s)[j] < FilterIndices(p, s)[k]
  {
    FilterAtIndices(p, s);
    FilterIndicesIncreasing(p, s);
  }

  /** Kept positions are listed in strictly increasing order. */
  lemma {:induction false} FilterIndicesIncreasing<T>(p: T -> bool, s: seq<T>)
    ensures forall j, k :: 0 <= j < k < |FilterIndices(p, s)| ==> FilterIndices(p, s)[j] < FilterIndices(p, s)[k]
  {
    if s != [] {
      FilterIndicesIncreasing(p, s[..|s| - 1]);
    }
  }

  /** A position is listed exactly when the element there satisfies `p`. */
  lemma {:induction false} FilterIndicesComplete<T>(p: T -> bool, s: seq<T>)
    ensures forall i :: 0 <= i < |s| ==> (i in FilterIndices(p, s) <==> p(s[i]))
  {
    if s != [] {
      var n := |s| - 1;
      FilterIndicesComplete(p, s[..n]);
      assert forall i :: 0 <= i < n ==> s[..n][i] == s[i];
      assert n !in FilterIndices(p, s[..n]);
    }
  }

  /**
   * For a query that is not blank, the results are exactly the candidates at
   * the first min(MaxResults, number of matches) matching positions.
   */
  lemma MatchIsFirstMatches(value: string, data: seq<string>)
    requires !IsBlank(value)
    ensures |Match(value, data)| == if |MatchIndices(Needle(value), data)| < MaxResults
                                     then |MatchIndices(Needle(value), data)| else MaxResults
    ensures forall j :: 0 <= j < |Match(value, data)| ==>
      Match(value, data)[j] == data[MatchIndices(Needle(value), data)[j]]
  {
    TakeFilterAtIndices(MatchesNeedle(Needle(value)), data, MaxResults);
  }

  /**
   * Every result is a candidate of `data` whose trimmed, lowered form starts
   * with the trimmed, lowered query.
   */
  lemma MatchSound(value: string, data: seq<string>)
    ensures forall x :: x in Match(value, data) ==>
      x in data && StartsWith(Lower(Trim(x)), Lower(Trim(value)))
  {
    if !IsBlank(value) {
      var keep := MatchesNeedle(Needle(value));
      TakeFilterSound(keep, data, MaxResults);
      LowerTrimCommute(value);
      forall x | x in Match(value, data)
        ensures x in data && StartsWith(Lower(Trim(x)), Lower(Trim(value)))
      {
        assert x in data && keep(x);
      }
    }
  }

  /**
   * The results appear in `data` in the same order: result j sits at a
   * position in `data` that grows strictly with j.
   */
  lemma MatchInScanOrder(value: string, data: seq<string>)
    requires !IsBlank(value)
    ensures forall j :: 0 <= j < |Match(value, data)| ==>
      Match(value, data)[j] == data[MatchIndices(Needle(value), data)[j]]
    ensures forall j, k :: 0 <= j < k < |Match(value, data)| ==>
      MatchIndices(Needle(value), data)[j] < MatchIndices(Needle(value), data)[k]
  {
    var keep := MatchesNeedle(Needle(value));
    assert Match(value, data) == Take(Filter(keep, data), MaxResults);
    TakeFilterAtIndices(keep, data, MaxResults);
    TakeFilterInOrder(keep, data, MaxResults);
  }

  /** When fewer than `MaxResults` candidates match, every one of them is shown. */
  lemma MatchCompleteWhenFew(value: string, data: seq<string>)
    requires !IsBlank(value)
    requires |AllMatches(Needle(value), data)| < MaxResults
    ensures forall i :: 0 <= i < |data| && IsMatch(Needle(value), data[i]) ==> data[i] in Match(value, data)
  {
    var keep := MatchesNeedle(Needle(value));
    FilterCompleteWhenFew(keep, data, MaxResults);
    forall i | 0 <= i < |data| && IsMatch(Needle(value), data[i])
      ensures data[i] in Match(value, data)
    {
      assert keep(data[i]);
    }
  }

  /** The results are empty exactly when the query is blank or nothing matches. */
  lemma MatchEmptyIff(value: string, data: seq<string>)
    ensures Match(value, data) == [] <==>
      IsBlank(value) || forall x :: x in data ==> !IsMatch(Needle(value), x)
  {
    if !IsBlank(value) {
      var keep := MatchesNeedle(Needle(value));
      TakeFilterEmptyIff(keep, data, MaxResults);
      assert (forall x :: x in data ==> !keep(x)) <==> (forall x :: x in data ==> !IsMatch(Needle(value), x));
    }
  }

  /**
   * Matching ignores the ASCII case of the query: two queries that differ
   * only in the case of their letters give the same results.
   */
  lemma MatchIgnoresQueryCase(q: string, q2: string, data: seq<string>)
    requires |q| == |q2| && forall i :: 0 <= i < |q| ==> SameUpToCase(q[i], q2[i])
    ensures Match(q, data) == Match(q2, data)
  {
    forall i | 0 <= i < |q|
      ensures Lower(q)[i] == Lower(q2)[i]
    {
      LowerCharFolds(q[i], q2[i]);
    }
    assert Lower(q) == Lower(q2);
    assert forall i :: 0 <= i < |q| ==> IsSpace(q[i]) == IsSpace(Lower(q)[i]);
    assert forall i :: 0 <= i < |q| ==> IsSpace(q2[i]) == IsSpace(Lower(q2)[i]);
    assert IsBlank(q) == IsBlank(q2);
    assert Needle(q) == Needle(q2);
  }

  /**
   * A candidate equal to a query that is not blank always matches it, so an
   * exact hit in `data` means the results are not empty.
   */
  lemma ExactHitMatches(value: string, data: seq<string>)
    requires !IsBlank(value) && value in data
    ensures Match(value, data) != []
  {
    LowerTrimCommute(value);
    assert IsMatch(Needle(value), value);
    MatchEmptyIff(value, data);
  }
}
