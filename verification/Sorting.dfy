/** What std::stable_sort returns, and that nothing else satisfies its description. */
module Sorting {
  /** The comparator of a sort: irreflexive, transitive, with transitive incomparability. */
  ghost predicate StrictWeakOrder<T(!new)>(less: (T, T) -> bool) {
    && (forall a :: !less(a, a))
    && (forall a, b, c :: less(a, b) && less(b, c) ==> less(a, c))
    && (forall a, b, c :: !less(a, b) && !less(b, c) ==> !less(a, c))
  }

  predicate Tied<T>(less: (T, T) -> bool, a: T, b: T) {
    !less(a, b) && !less(b, a)
  }

  ghost predicate Sorted<T(!new)>(s: seq<T>, less: (T, T) -> bool) {
    forall i, j :: 0 <= i < j < |s| ==> !less(s[j], s[i])
  }

  /** The elements tied with `x`, in order. */
  function Ties<T>(s: seq<T>, x: T, less: (T, T) -> bool): seq<T> {
    if s == [] then [] else (if Tied(less, x, s[0]) then [s[0]] else []) + Ties(s[1..], x, less)
  }

  /** `r` is what a stable sort of `s` must return. */
  ghost predicate StablySorted<T(!new)>(s: seq<T>, r: seq<T>, less: (T, T) -> bool) {
    && Sorted(r, less)
    && multiset(r) == multiset(s)
    && forall x :: Ties(r, x, less) == Ties(s, x, less)
  }

  /** Insertion from the front: `x` goes before everything that is not smaller. */
  function InsertBefore<T>(x: T, s: seq<T>, less: (T, T) -> bool): seq<T> {
    if s == [] || !less(s[0], x) then [x] + s else [s[0]] + InsertBefore(x, s[1..], less)
  }

  function StableSort<T>(s: seq<T>, less: (T, T) -> bool): seq<T> {
    if s == [] then [] else InsertBefore(s[0], StableSort(s[1..], less), less)
  }

  lemma {:induction false} InsertedElements<T>(x: T, s: seq<T>, less: (T, T) -> bool)
    ensures multiset(InsertBefore(x, s, less)) == multiset([x] + s)
  {
    if s != [] && less(s[0], x) {
      InsertedElements(x, s[1..], less);
      assert s == [s[0]] + s[1..];
    }
  }

  lemma {:induction false} InsertedSorted<T(!new)>(x: T, s: seq<T>, less: (T, T) -> bool)
    requires StrictWeakOrder(less) && Sorted(s, less)
    ensures Sorted(InsertBefore(x, s, less), less)
  {
    var r := InsertBefore(x, s, less);
    if s == [] {
    } else if !less(s[0], x) {
      forall i, j | 0 <= i < j < |r| ensures !less(r[j], r[i]) {
        if i == 0 && j > 1 { assert !less(s[j - 1], s[0]) && !less(s[0], x); }
      }
    } else {
      InsertedSorted(x, s[1..], less);
      InsertedElements(x, s[1..], less);
      var t := InsertBefore(x, s[1..], less);
      forall j | 0 < j < |r| ensures !less(r[j], s[0]) {
        assert r[j] == t[j - 1] && t[j - 1] in multiset([x] + s[1..]);
        if r[j] != x {
          var k :| 0 <= k < |s[1..]| && s[1..][k] == r[j];
          assert s[k + 1] == r[j];
        }
      }
      assert forall i, j :: 0 < i < j < |r| ==> r[i] == t[i - 1] && r[j] == t[j - 1];
    }
  }

  lemma {:induction false} InsertedTies<T(!new)>(x: T, s: seq<T>, less: (T, T) -> bool, y: T)
    requires StrictWeakOrder(less)
    ensures Ties(InsertBefore(x, s, less), y, less) == Ties([x] + s, y, less)
  {
    if s == [] || !less(s[0], x) {
    } else {
      InsertedTies(x, s[1..], less, y);
      var r, t := InsertBefore(x, s, less), InsertBefore(x, s[1..], less);
      assert r[0] == s[0] && r[1..] == t;
      assert ([x] + s)[1..] == s && ([x] + s[1..])[1..] == s[1..];
      assert !(Tied(less, y, x) && Tied(less, y, s[0]));
    }
  }

  /** The sort is sorted, a permutation, and keeps ties in their first order. */
  lemma {:induction false} SortIsStable<T(!new)>(s: seq<T>, less: (T, T) -> bool)
    requires StrictWeakOrder(less)
    ensures StablySorted(s, StableSort(s, less), less)
  {
    if s == [] {
    } else {
      var t := StableSort(s[1..], less);
      SortIsStable(s[1..], less);
      InsertedElements(s[0], t, less);
      InsertedSorted(s[0], t, less);
      assert s == [s[0]] + s[1..];
      forall x ensures Ties(StableSort(s, less), x, less) == Ties(s, x, less) {
        InsertedTies(s[0], t, less, x);
        assert ([s[0]] + t)[1..] == t;
      }
    }
  }

  lemma {:induction false} TiesNonempty<T>(s: seq<T>, x: T, less: (T, T) -> bool)
    ensures Ties(s, x, less) != [] <==> exists k :: 0 <= k < |s| && Tied(less, x, s[k])
  {
    if s != [] {
      TiesNonempty(s[1..], x, less);
      if Ties(s[1..], x, less) != [] {
        var k :| 0 <= k < |s[1..]| && Tied(less, x, s[1..][k]);
        assert Tied(less, x, s[k + 1]);
      }
      if k :| 0 <= k < |s| && Tied(less, x, s[k]) {
        if k > 0 { assert Tied(less, x, s[1..][k - 1]); }
      }
    }
  }

  lemma HeadsAgree<T(!new)>(r: seq<T>, t: seq<T>, less: (T, T) -> bool)
    requires StrictWeakOrder(less) && Sorted(r, less) && Sorted(t, less)
    requires forall x :: Ties(r, x, less) == Ties(t, x, less)
    requires r != []
    ensures t != [] && r[0] == t[0]
  {
    assert Tied(less, r[0], r[0]);
    TiesNonempty(r, r[0], less);
    TiesNonempty(t, r[0], less);
    var k :| 0 <= k < |t| && Tied(less, r[0], t[k]);
    assert Tied(less, t[0], t[0]);
    TiesNonempty(t, t[0], less);
    TiesNonempty(r, t[0], less);
    var m :| 0 <= m < |r| && Tied(less, t[0], r[m]);
    assert !less(t[k], t[0]) && !less(r[m], r[0]);
    assert Tied(less, r[0], t[0]);
    assert Ties(r, r[0], less)[0] == r[0];
    assert Ties(t, r[0], less)[0] == t[0];
  }

  /** Determined: two sorted sequences with the same ties in the same order are equal. */
  lemma {:induction false} StablySortedUnique<T(!new)>(r: seq<T>, t: seq<T>, less: (T, T) -> bool)
    requires StrictWeakOrder(less) && Sorted(r, less) && Sorted(t, less)
    requires forall x :: Ties(r, x, less) == Ties(t, x, less)
    ensures r == t
  {
    if r == [] {
      if t != [] { HeadsAgree(t, r, less); }
    } else {
      HeadsAgree(r, t, less);
      forall x ensures Ties(r[1..], x, less) == Ties(t[1..], x, less) {
        var h := if Tied(less, x, r[0]) then [r[0]] else [];
        assert Ties(r, x, less) == h + Ties(r[1..], x, less);
        assert Ties(t, x, less) == h + Ties(t[1..], x, less);
        assert Ties(r[1..], x, less) == Ties(r, x, less)[|h|..];
        assert Ties(t[1..], x, less) == Ties(t, x, less)[|h|..];
      }
      StablySortedUnique(r[1..], t[1..], less);
    }
  }
}
