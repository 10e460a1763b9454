/**
 * The three JavaScript string built-ins the auto-complete filter relies on:
 * String.prototype.trim, String.prototype.toLowerCase and
 * String.prototype.startsWith, stated on Dafny strings (sequences of
 * Unicode scalar values).
 */
module Text {

  /**
   * The code points `trim` removes: ECMAScript's WhiteSpace (tab, vertical
   * tab, form feed, space, no-break space, zero-width no-break space and
   * the Unicode space separators) and LineTerminator (line feed, carriage
   * return, line and paragraph separators).
   */
  predicate IsSpace(c: char) {
    c == '\t' || c == '\n' || c == '\U{000B}' || c == '\U{000C}' || c == '\r'
    || c == ' ' || c == '\U{00A0}' || c == '\U{1680}'
    || ('\U{2000}' <= c <= '\U{200A}')
    || c == '\U{2028}' || c == '\U{2029}' || c == '\U{202F}' || c == '\U{205F}'
    || c == '\U{3000}' || c == '\U{FEFF}'
  }

  predicate AllSpace(s: string) {
    forall i :: 0 <= i < |s| ==> IsSpace(s[i])
  }

  /** Drops the leading white space: what remains is a suffix of `s`. */
  function TrimStart(s: string): (r: string)
    ensures |r| <= |s| && r == s[|s| - |r|..]
    ensures forall k :: 0 <= k < |s| - |r| ==> IsSpace(s[k])
    ensures r == [] || !IsSpace(r[0])
  {
    if s != [] && IsSpace(s[0]) then
      var r := TrimStart(s[1..]);
      assert r == s[|s| - |r|..] by {
        assert s[1..][|s| - 1 - |r|..] == s[|s| - |r|..];
      }
      assert forall k :: 1 <= k < |s| - |r| ==> s[k] == s[1..][k - 1];
      r
    else
      s
  }

  /** Drops the trailing white space: what remains is a prefix of `s`. */
  function TrimEnd(s: string): (r: string)
    ensures |r| <= |s| && r == s[..|r|]
    ensures forall k :: |r| <= k < |s| ==> IsSpace(s[k])
    ensures r == [] || !IsSpace(r[|r| - 1])
  {
    if s != [] && IsSpace(s[|s| - 1]) then
      var n := |s| - 1;
      var r := TrimEnd(s[..n]);
      assert r == s[..|r|] by {
        assert s[..n][..|r|] == s[..|r|];
      }
      assert forall k :: |r| <= k < n ==> s[k] == s[..n][k];
      r
    else
      s
  }

  /**
   * String.prototype.trim: the part of `s` between its leading and its
   * trailing white space.
   */
  function Trim(s: string): (r: string)
    ensures |r| <= |s|
    ensures r == [] || (!IsSpace(r[0]) && !IsSpace(r[|r| - 1]))
  {
    TrimEnd(TrimStart(s))
  }

  /**
   * What `trim` keeps is a contiguous part of `s`, and what it cuts away on
   * either side is all white space.
   */
  lemma TrimIsInfix(s: string)
    ensures var i, j := |s| - |TrimStart(s)|, |s| - |TrimStart(s)| + |Trim(s)|;
      j <= |s| && Trim(s) == s[i..j] &&
      (forall k :: 0 <= k < i ==> IsSpace(s[k])) &&
      (forall k :: j <= k < |s| ==> IsSpace(s[k]))
  {
    var t := TrimStart(s);
    var r := TrimEnd(t);
    var i := |s| - |t|;
    assert t == s[i..] && r == t[..|r|];
    assert s[i..][..|r|] == s[i..i + |r|];
    forall k | i + |r| <= k < |s|
      ensures IsSpace(s[k])
    {
      assert s[k] == t[k - i];
    }
  }

  /** The ASCII case map: 'A'..'Z' become 'a'..'z', every other character stays. */
  function LowerChar(c: char): (r: char)
    ensures !('A' <= r <= 'Z')
    ensures 'A' <= c <= 'Z' ==> r as int == c as int + 32
    ensures 'A' <= c <= 'Z' || r == c
    ensures IsSpace(r) == IsSpace(c)
  {
    if 'A' <= c <= 'Z' then (c as int + ('a' as int - 'A' as int)) as char else c
  }

  /** Two characters that differ at most in ASCII case. */
  predicate SameUpToCase(c: char, d: char) {
    c == d || ('A' <= c <= 'Z' && d as int == c as int + 32) || ('A' <= d <= 'Z' && c as int == d as int + 32)
  }

  /** The case map identifies exactly the characters that differ only in ASCII case. */
  lemma LowerCharFolds(c: char, d: char)
    ensures LowerChar(c) == LowerChar(d) <==> SameUpToCase(c, d)
  {
  }

  /** String.prototype.toLowerCase, under the ASCII case map. */
  function Lower(s: string): (r: string)
    ensures |r| == |s|
    ensures forall i :: 0 <= i < |s| ==> r[i] == LowerChar(s[i])
  {
    if s == [] then [] else [LowerChar(s[0])] + Lower(s[1..])
  }

  /** String.prototype.startsWith with no position argument. */
  predicate StartsWith(s: string, prefix: string)
    ensures StartsWith(s, prefix) <==>
      (|prefix| <= |s| && forall i :: 0 <= i < |prefix| ==> s[i] == prefix[i])
  {
    |prefix| <= |s| && s[..|prefix|] == prefix
  }

  /** A string starts with each of its prefixes, and what follows the prefix is the rest. */
  lemma StartsWithSplits(s: string, prefix: string, rest: string)
    ensures StartsWith(prefix + rest, prefix)
    ensures StartsWith(s, prefix) ==> s == prefix + s[|prefix|..]
  {
    assert (prefix + rest)[..|prefix|] == prefix;
  }

  /** Lowering commutes with taking a slice. */
  lemma LowerSlice(s: string, i: nat, j: nat)
    requires i <= j <= |s|
    ensures Lower(s[i..j]) == Lower(s)[i..j]
  {
    assert forall k :: 0 <= k < j - i ==> Lower(s[i..j])[k] == LowerChar(s[i + k]) == Lower(s)[i..j][k];
  }

  lemma {:induction false} LowerTrimStart(s: string)
    ensures Lower(TrimStart(s)) == TrimStart(Lower(s))
  {
    if s != [] && IsSpace(s[0]) {
      var l := Lower(s);
      assert IsSpace(l[0]);
      LowerSlice(s, 1, |s|);
      assert l[1..] == Lower(s[1..]);
      LowerTrimStart(s[1..]);
      assert TrimStart(l) == TrimStart(l[1..]);
    } else if s != [] {
      assert !IsSpace(Lower(s)[0]);
    }
  }

  lemma {:induction false} LowerTrimEnd(s: string)
    ensures Lower(TrimEnd(s)) == TrimEnd(Lower(s))
  {
    if s != [] && IsSpace(s[|s| - 1]) {
      var l := Lower(s);
      assert IsSpace(l[|l| - 1]);
      LowerSlice(s, 0, |s| - 1);
      assert l[..|l| - 1] == Lower(s[..|s| - 1]);
      LowerTrimEnd(s[..|s| - 1]);
      assert TrimEnd(l) == TrimEnd(l[..|l| - 1]);
    } else if s != [] {
      assert !IsSpace(Lower(s)[|s| - 1]);
    }
  }

  /**
   * The ASCII case map never touches white space, so trimming and lowering
   * may be done in either order: the filter lowers the query before trimming
   * it and trims each candidate before lowering it.
   */
  lemma LowerTrimCommute(s: string)
    ensures Lower(Trim(s)) == Trim(Lower(s))
  {
    LowerTrimStart(s);
    LowerTrimEnd(TrimStart(s));
  }

  /** A string trims to nothing exactly when it is all white space. */
  lemma TrimEmptyIffAllSpace(s: string)
    ensures Trim(s) == [] <==> AllSpace(s)
  {
  }
}
