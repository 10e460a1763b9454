/**
 * Concrete runs of the filter and of the "No results" flag over a small
 * list of addresses, as a user typing into the input would see them.
 */
module Scenarios {
  import opened Text
  import opened Matcher
  import opened Component

  /** Neither white space at its ends nor capital letters anywhere. */
  predicate Plain(s: string) {
    s != [] && !IsSpace(s[0]) && !IsSpace(s[|s| - 1]) &&
    forall i :: 0 <= i < |s| ==> !('A' <= s[i] <= 'Z')
  }

  /** A plain string trims and lowers to itself. */
  lemma PlainIsNormal(s: string)
    requires Plain(s)
    ensures Trim(s) == s && Lower(s) == s
  {
    assert TrimStart(s) == s;
    assert TrimEnd(s) == s;
    assert forall i :: 0 <= i < |s| ==> Lower(s)[i] == s[i];
  }

  /** A plain query is not blank and is its own needle. */
  lemma PlainNeedle(q: string)
    requires Plain(q)
    ensures !IsBlank(q) && Needle(q) == q
  {
    PlainIsNormal(q);
  }

  /** A plain candidate matches a needle exactly when it starts with it. */
  lemma PlainMatch(needle: string, x: string)
    requires Plain(x)
    ensures IsMatch(needle, x) <==> StartsWith(x, needle)
  {
    PlainIsNormal(x);
  }

  /** The filter over a three-element list keeps each element that satisfies the condition. */
  lemma FilterOfThree<T>(p: T -> bool, d: seq<T>)
    requires |d| == 3
    ensures Filter(p, d) ==
      (if p(d[0]) then [d[0]] else []) + (if p(d[1]) then [d[1]] else []) + (if p(d[2]) then [d[2]] else [])
  {
    assert d[..2][..1] == [d[0]];
    assert [d[0]][..0] == [];
    assert Filter(p, [d[0]]) == (if p(d[0]) then [d[0]] else []);
    assert d[..2] == [d[0], d[1]];
  }

  /** On a list no longer than the bound, the results are all the matches. */
  lemma MatchOfShortList(q: string, d: seq<string>)
    requires !IsBlank(q) && |d| <= MaxResults
    ensures Match(q, d) == Filter(MatchesNeedle(Needle(q)), d)
  {
    var f := AllMatches(Needle(q), d);
    assert Match(q, d) == Take(f, MaxResults);
    assert |f| <= MaxResults;
  }

  /** Over a list of three candidates, the results are the ones that match, in list order. */
  lemma MatchOfThree(q: string, d: seq<string>)
    requires !IsBlank(q) && |d| == 3
    ensures Match(q, d) ==
      (if IsMatch(Needle(q), d[0]) then [d[0]] else []) +
      (if IsMatch(Needle(q), d[1]) then [d[1]] else []) +
      (if IsMatch(Needle(q), d[2]) then [d[2]] else [])
  {
    var p := MatchesNeedle(Needle(q));
    MatchOfShortList(q, d);
    FilterOfThree(p, d);
    assert p(d[0]) == IsMatch(Needle(q), d[0]);
    assert p(d[1]) == IsMatch(Needle(q), d[1]);
    assert p(d[2]) == IsMatch(Needle(q), d[2]);
  }

  /** With a plain query and plain candidates, matching is plain `startsWith`. */
  lemma MatchOfThreePlain(q: string, d: seq<string>)
    requires Plain(q) && |d| == 3 && Plain(d[0]) && Plain(d[1]) && Plain(d[2])
    ensures Match(q, d) ==
      (if StartsWith(d[0], q) then [d[0]] else []) +
      (if StartsWith(d[1], q) then [d[1]] else []) +
      (if StartsWith(d[2], q) then [d[2]] else [])
  {
    PlainNeedle(q);
    PlainMatch(q, d[0]);
    PlainMatch(q, d[1]);
    PlainMatch(q, d[2]);
    MatchOfThree(q, d);
  }

  /** The three addresses of the examples below, none with white space or capitals. */
  lemma AddressesArePlain(d: seq<string>)
    requires d == ["alice@x.com", "bob@x.com", "alex@x.com"]
    ensures |d| == 3 && Plain(d[0]) && Plain(d[1]) && Plain(d[2])
  {
  }

  /** "al" begins the first and the third address, and equals none of them. */
  lemma PrefixAl(q: string, d: seq<string>)
    requires q == "al" && d == ["alice@x.com", "bob@x.com", "alex@x.com"]
    ensures Plain(q) && q !in d
    ensures StartsWith(d[0], q) && !StartsWith(d[1], q) && StartsWith(d[2], q)
  {
    assert d[1][0] != q[0];
  }

  /** "zzz" begins no address and equals none of them. */
  lemma PrefixZzz(q: string, d: seq<string>)
    requires q == "zzz" && d == ["alice@x.com", "bob@x.com", "alex@x.com"]
    ensures Plain(q) && q !in d
    ensures !StartsWith(d[0], q) && !StartsWith(d[1], q) && !StartsWith(d[2], q)
  {
    assert d[0][0] != q[0] && d[1][0] != q[0] && d[2][0] != q[0];
  }

  /** Typing "al" shows the two addresses starting with "al", in list order. */
  lemma QueryAlShowsTwo(q: string, d: seq<string>)
    requires q == "al" && d == ["alice@x.com", "bob@x.com", "alex@x.com"]
    ensures Match(q, d) == ["alice@x.com", "alex@x.com"]
    ensures !IsNotFound(q, Match(q, d), d)
  {
    AddressesArePlain(d);
    PrefixAl(q, d);
    MatchOfThreePlain(q, d);
  }

  /** Typing "zzz" shows nothing, and the "No results" message appears. */
  lemma QueryZzzNotFound(q: string, d: seq<string>)
    requires q == "zzz" && d == ["alice@x.com", "bob@x.com", "alex@x.com"]
    ensures Match(q, d) == []
    ensures IsNotFound(q, Match(q, d), d)
  {
    AddressesArePlain(d);
    PrefixZzz(q, d);
    MatchOfThreePlain(q, d);
  }

  /** "AL" and "al" differ only in the case of their letters. */
  lemma CapitalAl(q: string, q2: string)
    requires q == "AL" && q2 == "al"
    ensures |q| == |q2| && forall i :: 0 <= i < |q| ==> SameUpToCase(q[i], q2[i])
  {
  }

  /** Typing "AL" shows the same two addresses as "al": the query's case is ignored. */
  lemma QueryCapitalAlShowsTwo(q: string, d: seq<string>)
    requires q == "AL" && d == ["alice@x.com", "bob@x.com", "alex@x.com"]
    ensures Match(q, d) == ["alice@x.com", "alex@x.com"]
    ensures !IsNotFound(q, Match(q, d), d)
  {
    var q2 := "al";
    CapitalAl(q, q2);
    MatchIgnoresQueryCase(q, q2, d);
    QueryAlShowsTwo(q2, d);
  }
}
