/** Reading a map, and a stable sort by any total preorder. */
module Collections {
  import opened Text

  function Get<K, V>(m: map<K, V>, k: K): Option<V> {
    if k in m then Some(m[k]) else None
  }

  /** The map with `k` set to `v`, if there is one. */
  function With<K, V>(m: map<K, V>, k: K, v: Option<V>): map<K, V> {
    if v.Some? then m[k := v.value] else m
  }

  function ToSeq<T>(x: Option<T>): seq<T> {
    if x.Some? then [x.value] else []
  }

  function Insert<T>(le: (T, T) -> bool, x: T, sorted: seq<T>): seq<T> {
    if sorted == [] || le(x, sorted[0]) then [x] + sorted else [sorted[0]] + Insert(le, x, sorted[1..])
  }

  /** Inserts every element in front of those it may stand before, so that equal ones keep their order. */
  function SortBy<T>(le: (T, T) -> bool, all: seq<T>): seq<T> {
    if all == [] then [] else Insert(le, all[0], SortBy(le, all[1..]))
  }

  ghost predicate IsTotalPreorder<T(!new)>(le: (T, T) -> bool) {
    && (forall x, y :: le(x, y) || le(y, x))
    && (forall x, y, z :: le(x, y) && le(y, z) ==> le(x, z))
  }

  ghost predicate IsSorted<T>(le: (T, T) -> bool, all: seq<T>) {
    forall i, j :: 0 <= i < j < |all| ==> le(all[i], all[j])
  }

  /** `x` may stand before all of them. */
  ghost predicate StartsAll<T>(le: (T, T) -> bool, x: T, all: seq<T>) {
    forall j :: 0 <= j < |all| ==> le(x, all[j])
  }

  lemma {:induction false} InsertMembers<T>(le: (T, T) -> bool, x: T, sorted: seq<T>)
    ensures multiset(Insert(le, x, sorted)) == multiset{x} + multiset(sorted)
  {
    if sorted == [] || le(x, sorted[0]) {
    } else {
      InsertMembers(le, x, sorted[1..]);
      assert sorted == [sorted[0]] + sorted[1..];
    }
  }

  lemma SortedCons<T>(le: (T, T) -> bool, x: T, sorted: seq<T>)
    requires IsSorted(le, sorted) && StartsAll(le, x, sorted)
    ensures IsSorted(le, [x] + sorted)
  {
  }

  lemma StartsSorted<T(!new)>(le: (T, T) -> bool, x: T, sorted: seq<T>)
    requires IsTotalPreorder(le) && IsSorted(le, sorted) && (sorted != [] ==> le(x, sorted[0]))
    ensures StartsAll(le, x, sorted)
  {
    forall j | 0 <= j < |sorted| ensures le(x, sorted[j]) {
      assert j > 0 ==> le(sorted[0], sorted[j]);
    }
  }

  lemma StartsInsert<T>(le: (T, T) -> bool, first: T, x: T, all: seq<T>)
    requires StartsAll(le, first, all) && le(first, x)
    ensures StartsAll(le, first, Insert(le, x, all))
  {
    InsertMembers(le, x, all);
    var inserted := Insert(le, x, all);
    forall j | 0 <= j < |inserted| ensures le(first, inserted[j]) {
      assert inserted[j] in multiset(inserted);
      if inserted[j] != x {
        assert inserted[j] in all;
      }
    }
  }

  lemma {:induction false} InsertSorts<T(!new)>(le: (T, T) -> bool, x: T, sorted: seq<T>)
    requires IsTotalPreorder(le) && IsSorted(le, sorted)
    ensures IsSorted(le, Insert(le, x, sorted))
  {
    if sorted == [] || le(x, sorted[0]) {
      StartsSorted(le, x, sorted);
      SortedCons(le, x, sorted);
    } else {
      InsertSorts(le, x, sorted[1..]);
      StartsInsert(le, sorted[0], x, sorted[1..]);
      SortedCons(le, sorted[0], Insert(le, x, sorted[1..]));
    }
  }

  lemma {:induction false} SortBySorts<T(!new)>(le: (T, T) -> bool, all: seq<T>)
    requires IsTotalPreorder(le)
    ensures IsSorted(le, SortBy(le, all)) && multiset(SortBy(le, all)) == multiset(all)
  {
    if all == [] {
    } else {
      SortBySorts(le, all[1..]);
      InsertSorts(le, all[0], SortBy(le, all[1..]));
      InsertMembers(le, all[0], SortBy(le, all[1..]));
      assert all == [all[0]] + all[1..];
    }
  }
}
