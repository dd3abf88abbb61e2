/** Stable sorting, as Python's list.sort and an ORDER BY do it: `before` is a strict order
    that may leave many elements tied, and tied elements keep their relative order. */
module StableSort {

  ghost predicate WeakOrder<T(!new)>(before: (T, T) -> bool) {
    && (forall a, b :: before(a, b) ==> !before(b, a))
    && (forall a, b, c :: !before(b, a) && !before(c, b) ==> !before(c, a))
  }

  ghost predicate Ordered<T>(s: seq<T>, before: (T, T) -> bool) {
    forall i, j :: 0 <= i < j < |s| ==> !before(s[j], s[i])
  }

  function Insert<T>(x: T, s: seq<T>, before: (T, T) -> bool): (r: seq<T>)
    ensures multiset(r) == multiset{x} + multiset(s)
  {
    if s == [] || !before(s[0], x) then [x] + s
    else
      assert s == [s[0]] + s[1..];
      [s[0]] + Insert(x, s[1..], before)
  }

  function Sort<T>(s: seq<T>, before: (T, T) -> bool): (r: seq<T>)
    ensures multiset(r) == multiset(s)
  {
    if s == [] then []
    else
      assert s == [s[0]] + s[1..];
      Insert(s[0], Sort(s[1..], before), before)
  }

  lemma {:induction false} InsertOrders<T(!new)>(x: T, s: seq<T>, before: (T, T) -> bool)
    requires WeakOrder(before) && Ordered(s, before)
    ensures Ordered(Insert(x, s, before), before)
  {
    if s == [] || !before(s[0], x) {
      var r := [x] + s;
      forall i, j | 0 <= i < j < |r|
        ensures !before(r[j], r[i])
      {
        if i == 0 && j > 1 {
          assert !before(s[j - 1], s[0]) && !before(s[0], x);
        }
      }
    } else {
      InsertOrders(x, s[1..], before);
      var t := Insert(x, s[1..], before);
      var r := [s[0]] + t;
      forall i, j | 0 <= i < j < |r|
        ensures !before(r[j], r[i])
      {
        if i == 0 {
          assert r[j] in multiset(t);
          assert r[j] == x || r[j] in s[1..];
        }
      }
    }
  }

  lemma {:induction false} SortOrders<T(!new)>(s: seq<T>, before: (T, T) -> bool)
    requires WeakOrder(before)
    ensures Ordered(Sort(s, before), before)
  {
    if s != [] {
      SortOrders(s[1..], before);
      InsertOrders(s[0], Sort(s[1..], before), before);
    }
  }

  /** Sorting a list that is already in order, even by a coarser order, changes nothing. */
  lemma {:induction false} SortKeepsOrdered<T>(s: seq<T>, before: (T, T) -> bool)
    requires Ordered(s, before)
    ensures Sort(s, before) == s
  {
    if s != [] {
      SortKeepsOrdered(s[1..], before);
    }
  }
}
