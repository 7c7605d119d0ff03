/** The median pandas takes of a column (`Series.median`, and the `"median"`
    of a grouped `transform`): missing values are skipped, an even count
    gives the mean of the two middle values, and no value gives NaN. */
module Stats {
  import opened Wrappers

  predicate Sorted(s: seq<real>) {
    forall i, j :: 0 <= i < j < |s| ==> s[i] <= s[j]
  }

  /** Inserts `x` before the first value not below it. */
  function Insert(x: real, s: seq<real>): (r: seq<real>)
    ensures |r| == |s| + 1
  {
    if s == [] || x <= s[0] then [x] + s else [s[0]] + Insert(x, s[1..])
  }

  /** `h` is at most every value of `t`. */
  predicate AtMost(h: real, t: seq<real>) {
    forall x :: x in t ==> h <= x
  }

  /** A value no greater than any of a sorted sequence may go in front. */
  lemma SortedCons(h: real, t: seq<real>)
    requires Sorted(t) && AtMost(h, t)
    ensures Sorted([h] + t)
  {
    var r := [h] + t;
    forall i, j | 0 <= i < j < |r| ensures r[i] <= r[j] {
      assert r[j] == t[j - 1];
      if i > 0 {
        assert r[i] == t[i - 1];
      } else {
        assert t[j - 1] in t;
      }
    }
  }

  /** The tail of a sorted sequence is sorted, and its head is at most all of it. */
  lemma SortedTail(s: seq<real>)
    requires Sorted(s) && s != []
    ensures Sorted(s[1..]) && AtMost(s[0], s[1..])
  {
    var t := s[1..];
    forall i, j | 0 <= i < j < |t| ensures t[i] <= t[j] {
      assert t[i] == s[i + 1] && t[j] == s[j + 1];
    }
    forall x | x in t ensures s[0] <= x {
      var k :| 0 <= k < |t| && t[k] == x;
      assert x == s[k + 1];
    }
  }

  /** A bound on `t` and on `x` bounds any arrangement of `t` with `x` added. */
  lemma AtMostAdded(h: real, x: real, t: seq<real>, r: seq<real>)
    requires AtMost(h, t) && h <= x && multiset(r) == multiset(t) + multiset{x}
    ensures AtMost(h, r)
  {
    forall y | y in r ensures h <= y {
      assert y in multiset(t) + multiset{x};
      if y != x {
        assert y in multiset(t);
        assert y in t;
      }
    }
  }

  /** Inserting into a sorted sequence keeps it sorted and adds exactly `x`. */
  lemma {:induction false} InsertSorted(x: real, s: seq<real>)
    requires Sorted(s)
    ensures Sorted(Insert(x, s))
    ensures multiset(Insert(x, s)) == multiset(s) + multiset{x}
  {
    if s == [] || x <= s[0] {
      if s != [] {
        SortedTail(s);
      }
      SortedCons(x, s);
    } else {
      var tail := s[1..];
      var rest := Insert(x, tail);
      SortedTail(s);
      InsertSorted(x, tail);
      assert s == [s[0]] + tail;
      AtMostAdded(s[0], x, tail, rest);
      SortedCons(s[0], rest);
    }
  }

  /** The values in ascending order. */
  function Sort(s: seq<real>): (r: seq<real>)
    ensures |r| == |s|
    ensures Sorted(r) && multiset(r) == multiset(s)
  {
    if s == [] then []
    else
      assert s == [s[0]] + s[1..];
      InsertSorted(s[0], Sort(s[1..]));
      Insert(s[0], Sort(s[1..]))
  }

  /** The middle value of a non-empty sorted sequence, or the mean of the
      two middle values when the length is even. */
  function Middle(r: seq<real>): real
    requires r != []
  {
    var n := |r|;
    if n % 2 == 1 then r[n / 2] else (r[n / 2 - 1] + r[n / 2]) / 2.0
  }

  /** Median of the values; `None` for no value. */
  function Median(s: seq<real>): (m: Option<real>)
    ensures m.None? <==> s == []
  {
    if s == [] then None else Some(Middle(Sort(s)))
  }

  /** The middle of a sorted sequence splits it in half: the lower half lies
      at or below it and the upper half at or above it. */
  lemma MiddleSplits(r: seq<real>)
    requires r != [] && Sorted(r)
    ensures forall i :: 0 <= i < (|r| + 1) / 2 ==> r[i] <= Middle(r)
    ensures forall i :: |r| / 2 <= i < |r| ==> Middle(r) <= r[i]
  {
    var n, m := |r|, Middle(r);
    if n % 2 == 1 {
      forall i | 0 <= i < (n + 1) / 2 ensures r[i] <= m {
        assert i <= n / 2;
      }
    } else {
      var lo, hi := r[n / 2 - 1], r[n / 2];
      assert lo <= hi;
      forall i | 0 <= i < (n + 1) / 2 ensures r[i] <= m {
        assert r[i] <= lo;
      }
      forall i | n / 2 <= i < n ensures m <= r[i] {
        assert hi <= r[i];
      }
    }
  }

  /** The median splits the sorted values in half. */
  lemma MedianSplits(s: seq<real>)
    requires s != []
    ensures var r, m := Sort(s), Median(s).value;
      && (forall i :: 0 <= i < (|s| + 1) / 2 ==> r[i] <= m)
      && (forall i :: |s| / 2 <= i < |s| ==> m <= r[i])
  {
    MiddleSplits(Sort(s));
  }

  /** The median lies between two of the values, so between their least and
      greatest. */
  lemma MedianBetween(s: seq<real>)
    requires s != []
    ensures exists i, j :: 0 <= i < |s| && 0 <= j < |s| && s[i] <= Median(s).value <= s[j]
  {
    var r, m := Sort(s), Median(s).value;
    MedianSplits(s);
    assert r[0] in multiset(s) && r[|r| - 1] in multiset(s);
    var i :| 0 <= i < |s| && s[i] == r[0];
    var j :| 0 <= j < |s| && s[j] == r[|r| - 1];
    assert s[i] <= m <= s[j];
  }

  /** The head of a sorted sequence is its least value. */
  lemma SortedHeadLeast(a: seq<real>)
    requires Sorted(a) && a != []
    ensures forall x :: x in a ==> a[0] <= x
  {
  }

  /** Two sorted arrangements of the same values start alike. */
  lemma SortedHeads(a: seq<real>, b: seq<real>)
    requires Sorted(a) && Sorted(b) && multiset(a) == multiset(b) && a != []
    ensures b != [] && a[0] == b[0]
  {
    assert a[0] in multiset(b) && a[0] in b;
    assert b[0] in multiset(a) && b[0] in a;
    SortedHeadLeast(a);
    SortedHeadLeast(b);
  }

  /** Removing equal heads leaves the same values. */
  lemma SameTails(a: seq<real>, b: seq<real>)
    requires multiset(a) == multiset(b) && a != [] && b != [] && a[0] == b[0]
    ensures multiset(a[1..]) == multiset(b[1..])
  {
    assert a == [a[0]] + a[1..] && b == [b[0]] + b[1..];
    assert multiset(a[1..]) == multiset(a) - multiset{a[0]};
    assert multiset(b[1..]) == multiset(b) - multiset{b[0]};
  }

  /** Two sorted arrangements of the same values are equal. */
  lemma {:induction false} SortedUnique(a: seq<real>, b: seq<real>)
    requires Sorted(a) && Sorted(b) && multiset(a) == multiset(b)
    ensures a == b
    decreases |a|
  {
    if a == [] {
      assert |b| == |multiset(b)| == 0;
    } else {
      SortedHeads(a, b);
      SameTails(a, b);
      SortedTail(a);
      SortedTail(b);
      SortedUnique(a[1..], b[1..]);
      assert a == [a[0]] + a[1..] && b == [b[0]] + b[1..];
    }
  }

  /** The median depends only on which values occur how often, not on
      their order. */
  lemma MedianOfPermutation(a: seq<real>, b: seq<real>)
    requires multiset(a) == multiset(b)
    ensures Median(a) == Median(b)
  {
    SortedUnique(Sort(a), Sort(b));
    assert |a| == |multiset(a)| == |multiset(b)| == |b|;
  }
}
