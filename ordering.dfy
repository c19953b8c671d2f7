/** Descending sorting by a "ranks at least as high as" relation, and the
    facts about it that the standings table and the top-5 lists rely on. */
module Ordering {

  /** `ge` is total and transitive: a ranking in which any two items compare. */
  ghost predicate TotalPreorder<T(!new)>(ge: (T, T) -> bool)
  {
    && (forall a, b :: ge(a, b) || ge(b, a))
    && (forall a, b, c :: ge(a, b) && ge(b, c) ==> ge(a, c))
  }

  /** Every item ranks at least as high as every later item. */
  ghost predicate SortedBy<T>(xs: seq<T>, ge: (T, T) -> bool)
  {
    forall i, j :: 0 <= i < j < |xs| ==> ge(xs[i], xs[j])
  }

  /** `x` placed in front of the first item it ranks at least as high as. */
  function Insert<T>(x: T, xs: seq<T>, ge: (T, T) -> bool): seq<T>
  {
    if xs == [] then [x]
    else if ge(x, xs[0]) then [x] + xs
    else [xs[0]] + Insert(x, xs[1..], ge)
  }

  /** Insertion sort from the back: each item is inserted into the sorted rest of the list. */
  function SortDesc<T>(xs: seq<T>, ge: (T, T) -> bool): seq<T>
  {
    if xs == [] then [] else Insert(xs[0], SortDesc(xs[1..], ge), ge)
  }

  lemma {:induction false} InsertPermutes<T>(x: T, xs: seq<T>, ge: (T, T) -> bool)
    ensures multiset(Insert(x, xs, ge)) == multiset(xs) + multiset{x}
  {
    if xs != [] && !ge(x, xs[0]) {
      InsertPermutes(x, xs[1..], ge);
      assert xs == [xs[0]] + xs[1..];
    }
  }

  lemma {:induction false} InsertSorted<T(!new)>(x: T, xs: seq<T>, ge: (T, T) -> bool)
    requires TotalPreorder(ge)
    requires SortedBy(xs, ge)
    ensures SortedBy(Insert(x, xs, ge), ge)
  {
    if xs != [] && !ge(x, xs[0]) {
      var tail := Insert(x, xs[1..], ge);
      InsertSorted(x, xs[1..], ge);
      InsertPermutes(x, xs[1..], ge);
      assert ge(xs[0], x);
      forall y | y in tail ensures ge(xs[0], y) {
        assert y in multiset(tail);
        if y != x {
          assert y in multiset(xs[1..]);
          var j :| 0 <= j < |xs[1..]| && xs[1..][j] == y;
          assert xs[j + 1] == y;
        }
      }
      var r := [xs[0]] + tail;
      forall i, j | 0 <= i < j < |r| ensures ge(r[i], r[j]) {
        if i == 0 {
          assert r[j] in tail;
        } else {
          assert r[i] == tail[i - 1] && r[j] == tail[j - 1];
        }
      }
    }
  }

  /** `SortDesc` returns a permutation of its input. */
  lemma {:induction false} SortDescPermutes<T>(xs: seq<T>, ge: (T, T) -> bool)
    ensures multiset(SortDesc(xs, ge)) == multiset(xs)
    ensures |SortDesc(xs, ge)| == |xs|
  {
    if xs != [] {
      SortDescPermutes(xs[1..], ge);
      InsertPermutes(xs[0], SortDesc(xs[1..], ge), ge);
      assert xs == [xs[0]] + xs[1..];
    }
    assert |multiset(SortDesc(xs, ge))| == |SortDesc(xs, ge)|;
  }

  /** Under a total preorder, `SortDesc` returns its input in descending rank. */
  lemma {:induction false} SortDescSorted<T(!new)>(xs: seq<T>, ge: (T, T) -> bool)
    requires TotalPreorder(ge)
    ensures SortedBy(SortDesc(xs, ge), ge)
  {
    if xs != [] {
      SortDescSorted(xs[1..], ge);
      InsertSorted(xs[0], SortDesc(xs[1..], ge), ge);
    }
  }

  /** The first `k` items of a sorted list rank at least as high as every other item. */
  lemma PrefixDominates<T>(s: seq<T>, k: nat, ge: (T, T) -> bool)
    requires SortedBy(s, ge)
    requires k <= |s|
    ensures forall x, y :: x in s[..k] && y in s[k..] ==> ge(x, y)
  {
    forall x, y | x in s[..k] && y in s[k..] ensures ge(x, y) {
      var i :| 0 <= i < k && s[..k][i] == x;
      var j :| 0 <= j < |s| - k && s[k..][j] == y;
      assert s[i] == x && s[k + j] == y;
    }
  }

  /** Sorting keeps the keys of the items distinct when they were distinct. */
  lemma {:induction false} SortDescKeepsKeysDistinct<T, K>(xs: seq<T>, ge: (T, T) -> bool, key: T -> K)
    requires forall i, j :: 0 <= i < j < |xs| ==> key(xs[i]) != key(xs[j])
    ensures forall i, j :: 0 <= i < j < |SortDesc(xs, ge)| ==> key(SortDesc(xs, ge)[i]) != key(SortDesc(xs, ge)[j])
  {
    if xs != [] {
      var rest := SortDesc(xs[1..], ge);
      SortDescKeepsKeysDistinct(xs[1..], ge, key);
      SortDescPermutes(xs[1..], ge);
      forall y | y in rest ensures key(y) != key(xs[0]) {
        assert y in multiset(xs[1..]);
        var j :| 0 <= j < |xs[1..]| && xs[1..][j] == y;
        assert xs[j + 1] == y;
      }
      InsertKeepsKeysDistinct(xs[0], rest, ge, key);
    }
  }

  lemma {:induction false} InsertKeepsKeysDistinct<T, K>(x: T, xs: seq<T>, ge: (T, T) -> bool, key: T -> K)
    requires forall i, j :: 0 <= i < j < |xs| ==> key(xs[i]) != key(xs[j])
    requires forall y :: y in xs ==> key(y) != key(x)
    ensures forall i, j :: 0 <= i < j < |Insert(x, xs, ge)| ==> key(Insert(x, xs, ge)[i]) != key(Insert(x, xs, ge)[j])
  {
    var r := Insert(x, xs, ge);
    if xs == [] {
    } else if ge(x, xs[0]) {
      forall i, j | 0 <= i < j < |r| ensures key(r[i]) != key(r[j]) {
        if i == 0 {
          assert r[j] == xs[j - 1];
          assert r[j] in xs;
        } else {
          assert r[i] == xs[i - 1] && r[j] == xs[j - 1];
        }
      }
    } else {
      var tail := Insert(x, xs[1..], ge);
      forall i, j | 0 <= i < j < |xs[1..]| ensures key(xs[1..][i]) != key(xs[1..][j]) {
        assert xs[1..][i] == xs[i + 1] && xs[1..][j] == xs[j + 1];
      }
      InsertKeepsKeysDistinct(x, xs[1..], ge, key);
      InsertPermutes(x, xs[1..], ge);
      forall y | y in tail ensures key(y) != key(xs[0]) {
        assert y in multiset(tail);
        if y == x {
          assert xs[0] in xs;
        } else {
          assert y in multiset(xs[1..]);
          var j :| 0 <= j < |xs[1..]| && xs[1..][j] == y;
          assert xs[j + 1] == y;
        }
      }
      forall i, j | 0 <= i < j < |r| ensures key(r[i]) != key(r[j]) {
        if i == 0 {
          assert r[j] == tail[j - 1];
          assert r[j] in tail;
        } else {
          assert r[i] == tail[i - 1] && r[j] == tail[j - 1];
        }
      }
    }
  }
}
