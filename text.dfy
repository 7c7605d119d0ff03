/** ASCII character classes and the Python string operations the cleaning
    script relies on: `str.strip`, `str.strip(chars)`, `str.lower` and the
    ordering of strings. */
module Text {

  predicate IsLower(c: char) { 'a' <= c <= 'z' }

  predicate IsUpper(c: char) { 'A' <= c <= 'Z' }

  predicate IsDigit(c: char) { '0' <= c <= '9' }

  /** A cased ASCII letter. */
  predicate IsLetter(c: char) { IsLower(c) || IsUpper(c) }

  /** The character class `[0-9a-zA-Z]`. */
  predicate IsAlnum(c: char) { IsLetter(c) || IsDigit(c) }

  /** The ASCII characters for which Python's `str.isspace()` holds:
      tab, line feed, vertical tab, form feed, carriage return, the four
      information separators 0x1C-0x1F, and space. */
  predicate IsSpace(c: char) { c == ' ' || '\t' <= c <= '\r' || '\U{1C}' <= c <= '\U{1F}' }

  function LowerChar(c: char): char {
    if IsUpper(c) then (c as int + 32) as char else c
  }

  function UpperChar(c: char): char {
    if IsLower(c) then (c as int - 32) as char else c
  }

  /** `str.lower()` restricted to ASCII. */
  function Lower(s: string): (r: string)
    ensures |r| == |s|
  {
    seq(|s|, i requires 0 <= i < |s| => LowerChar(s[i]))
  }

  /** No upper-case letter is left: each one becomes the lower-case letter
      it is the capital of, and every other character is kept. */
  lemma LowerMeaning(s: string)
    ensures forall i :: 0 <= i < |s| ==>
      && !IsUpper(Lower(s)[i])
      && (IsUpper(s[i]) ==> IsLower(Lower(s)[i]) && UpperChar(Lower(s)[i]) == s[i])
      && (!IsUpper(s[i]) ==> Lower(s)[i] == s[i])
  {
  }

  /** Lowercasing works character by character, so it distributes over concatenation. */
  lemma LowerAppend(s: string, t: string)
    ensures Lower(s + t) == Lower(s) + Lower(t)
  {
    assert forall i :: 0 <= i < |s + t| ==> Lower(s + t)[i] == (Lower(s) + Lower(t))[i];
  }

  /** `str.lstrip(chars)`: drops the longest prefix whose characters satisfy `drop`. */
  function TrimStart(s: string, drop: char -> bool): (r: string)
    ensures |r| <= |s| && r == s[|s| - |r|..]
    ensures r == [] || !drop(r[0])
  {
    if s != [] && drop(s[0]) then TrimStart(s[1..], drop) else s
  }

  /** `TrimStart` drops only characters satisfying `drop`, so it drops the
      longest such prefix. */
  lemma {:induction false} TrimStartDropsOnly(s: string, drop: char -> bool, i: nat)
    requires i < |s| - |TrimStart(s, drop)|
    ensures drop(s[i])
  {
    assert s != [] && drop(s[0]);
    if i > 0 {
      assert TrimStart(s, drop) == TrimStart(s[1..], drop);
      TrimStartDropsOnly(s[1..], drop, i - 1);
    }
  }

  /** `str.rstrip(chars)`: drops the longest suffix whose characters satisfy `drop`. */
  function TrimEnd(s: string, drop: char -> bool): (r: string)
    ensures |r| <= |s| && r == s[..|r|]
    ensures r == [] || !drop(r[|r| - 1])
  {
    if s != [] && drop(s[|s| - 1]) then TrimEnd(s[..|s| - 1], drop) else s
  }

  /** `TrimEnd` drops only characters satisfying `drop`. */
  lemma {:induction false} TrimEndDropsOnly(s: string, drop: char -> bool, i: nat)
    requires |TrimEnd(s, drop)| <= i < |s|
    ensures drop(s[i])
  {
    assert s != [] && drop(s[|s| - 1]);
    if i < |s| - 1 {
      assert TrimEnd(s, drop) == TrimEnd(s[..|s| - 1], drop);
      TrimEndDropsOnly(s[..|s| - 1], drop, i);
    }
  }

  /** `str.strip(chars)`; with `IsSpace` it is the argument-less `str.strip()`.
      It leaves a string whose first and last characters are kept ones. */
  function Strip(s: string, drop: char -> bool): (r: string)
    ensures |r| <= |s|
    ensures r == [] || (!drop(r[0]) && !drop(r[|r| - 1]))
  {
    var t := TrimStart(s, drop);
    var r := TrimEnd(t, drop);
    assert r != [] ==> r[0] == t[0];
    r
  }

  /** Python's `s < u` on strings: code points compared from the left, a
      proper prefix being the smaller. */
  predicate TextLess(s: string, u: string)
    decreases |s|
  {
    if s == [] then u != []
    else if u == [] then false
    else if s[0] != u[0] then s[0] < u[0]
    else TextLess(s[1..], u[1..])
  }

  /** `s` is `u` with something appended. */
  predicate ProperPrefix(s: string, u: string) {
    |s| < |u| && s == u[..|s|]
  }

  /** `s` and `u` agree before position `k`, where `s` has the smaller character. */
  predicate SmallerAt(s: string, u: string, k: nat) {
    k < |s| && k < |u| && s[..k] == u[..k] && s[k] < u[k]
  }

  /** A string below another is a proper prefix of it or smaller where they first differ. */
  lemma {:induction false} TextLessSound(s: string, u: string)
    requires TextLess(s, u)
    ensures ProperPrefix(s, u) || exists k :: SmallerAt(s, u, k)
    decreases |s|
  {
    if s == [] {
      assert ProperPrefix(s, u);
    } else if s[0] != u[0] {
      assert SmallerAt(s, u, 0);
    } else {
      var s', u' := s[1..], u[1..];
      TextLessSound(s', u');
      assert s == [s[0]] + s' && u == [s[0]] + u';
      if ProperPrefix(s', u') {
        assert u[..|s|] == [s[0]] + u'[..|s'|];
        assert ProperPrefix(s, u);
      } else {
        var k: nat :| SmallerAt(s', u', k);
        assert s[..k + 1] == [s[0]] + s'[..k] && u[..k + 1] == [s[0]] + u'[..k];
        assert SmallerAt(s, u, k + 1);
      }
    }
  }

  /** Smaller at the first difference means below. */
  lemma {:induction false} TextLessFromSmaller(s: string, u: string, k: nat)
    requires SmallerAt(s, u, k)
    ensures TextLess(s, u)
    decreases k
  {
    if k > 0 {
      assert s[0] == s[..k][0] == u[..k][0] == u[0];
      assert s[1..][..k - 1] == s[..k][1..] && u[1..][..k - 1] == u[..k][1..];
      TextLessFromSmaller(s[1..], u[1..], k - 1);
    }
  }

  /** A proper prefix is below. */
  lemma {:induction false} TextLessFromPrefix(s: string, u: string)
    requires ProperPrefix(s, u)
    ensures TextLess(s, u)
    decreases |s|
  {
    if s != [] {
      assert s[0] == u[..|s|][0] == u[0];
      assert s[1..] == u[1..][..|s| - 1];
      TextLessFromPrefix(s[1..], u[1..]);
    }
  }

  /** `TextLess` is the lexicographic order: `s` is a proper prefix of `u`,
      or the first position where they differ holds the smaller character
      in `s`. */
  lemma TextLessMeaning(s: string, u: string)
    ensures TextLess(s, u) <==> ProperPrefix(s, u) || exists k :: SmallerAt(s, u, k)
  {
    if TextLess(s, u) {
      TextLessSound(s, u);
    } else if ProperPrefix(s, u) {
      TextLessFromPrefix(s, u);
    } else if exists k :: SmallerAt(s, u, k) {
      var k: nat :| SmallerAt(s, u, k);
      TextLessFromSmaller(s, u, k);
    }
  }

  /** Exactly one of `s < u`, `s == u` and `u < s` holds. */
  lemma {:induction false} TextLessTrichotomy(s: string, u: string)
    ensures s == u ==> !TextLess(s, u) && !TextLess(u, s)
    ensures s != u ==> TextLess(s, u) != TextLess(u, s)
    decreases |s|
  {
    if s != [] && u != [] && s[0] == u[0] {
      TextLessTrichotomy(s[1..], u[1..]);
      assert s == [s[0]] + s[1..] && u == [u[0]] + u[1..];
    }
  }

  /** Stripping is the identity on a string whose ends are not stripped. */
  lemma StripKeeps(s: string, drop: char -> bool)
    requires s == [] || (!drop(s[0]) && !drop(s[|s| - 1]))
    ensures Strip(s, drop) == s
  {
  }
}
