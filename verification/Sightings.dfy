/** Sightings of sessions, their stable sort by timestamp, and restricting a list of them. */
module Sightings {
  import opened Text
  import opened Order
  import opened Collections

  /** A timestamp as written; its order is the order of its bytes, which for the uniform UTC form of
      section 5.1 of RFC 3339 is the order of time. */
  type Timestamp = seq<nat>

  datatype Sighting = Sighting(
    ts: Timestamp,
    session: string,
    agent: Option<string>,
    cwd: Option<string>,
    bridge: Option<string>,
    clearBridge: Option<string>,
    flags: Option<string>)

  function Filter(p: Sighting -> bool, ss: seq<Sighting>): seq<Sighting> {
    if ss == [] then [] else (if p(ss[0]) then [ss[0]] else []) + Filter(p, ss[1..])
  }

  function OfSession(session: string): Sighting -> bool {
    (s: Sighting) => s.session == session
  }

  function AtTime(ts: Timestamp): Sighting -> bool {
    (s: Sighting) => s.ts == ts
  }

  /** The sightings of one session. */
  function Restrict(ss: seq<Sighting>, session: string): seq<Sighting> {
    Filter(OfSession(session), ss)
  }

  /** Whether `a` may stand before `b` in time. */
  predicate NoLater(a: Sighting, b: Sighting) {
    LexLe(a.ts, b.ts)
  }

  ghost predicate Sorted(ss: seq<Sighting>) {
    forall i, j :: 0 <= i < j < |ss| ==> LexLe(ss[i].ts, ss[j].ts)
  }

  /** `sort_by_key(|s| s.ts)`: a stable sort, which `StableSortIsUnique` shows there is one of. */
  function Sort(ss: seq<Sighting>): seq<Sighting> {
    SortBy(NoLater, ss)
  }

  // ----- filtering

  lemma {:induction false} FilterConcat(p: Sighting -> bool, a: seq<Sighting>, b: seq<Sighting>)
    ensures Filter(p, a + b) == Filter(p, a) + Filter(p, b)
  {
    if a == [] {
      assert a + b == b;
    } else {
      assert (a + b)[0] == a[0] && (a + b)[1..] == a[1..] + b;
      FilterConcat(p, a[1..], b);
      var head := if p(a[0]) then [a[0]] else [];
      assert head + (Filter(p, a[1..]) + Filter(p, b)) == head + Filter(p, a[1..]) + Filter(p, b);
    }
  }

  lemma {:induction false} FilterMembers(p: Sighting -> bool, ss: seq<Sighting>)
    ensures forall s :: s in Filter(p, ss) <==> s in ss && p(s)
  {
    if ss == [] {
    } else {
      FilterMembers(p, ss[1..]);
    }
  }

  lemma FilterOne(p: Sighting -> bool, s: Sighting)
    ensures Filter(p, [s]) == if p(s) then [s] else []
  {
    assert [s][1..] == [];
  }

  // ----- sorting

  lemma TimeIsTotalPreorder()
    ensures IsTotalPreorder(NoLater)
  {
    forall a: Sighting, b: Sighting ensures NoLater(a, b) || NoLater(b, a) {
      LexTotal(a.ts, b.ts);
    }
    forall a: Sighting, b: Sighting, c: Sighting | NoLater(a, b) && NoLater(b, c) ensures NoLater(a, c) {
      LexTransitive(a.ts, b.ts, c.ts);
    }
  }

  lemma SortSorts(ss: seq<Sighting>)
    ensures Sorted(Sort(ss)) && multiset(Sort(ss)) == multiset(ss)
  {
    TimeIsTotalPreorder();
    SortBySorts(NoLater, ss);
    assert forall i, j :: 0 <= i < j < |Sort(ss)| ==> NoLater(Sort(ss)[i], Sort(ss)[j]);
  }

  lemma InsertAtFront(s: Sighting, ss: seq<Sighting>)
    requires StartsAll(NoLater, s, ss)
    ensures Insert(NoLater, s, ss) == [s] + ss
  {
  }

  lemma FilterCons(p: Sighting -> bool, s: Sighting, ss: seq<Sighting>)
    ensures Filter(p, [s] + ss) == if p(s) then [s] + Filter(p, ss) else Filter(p, ss)
  {
    assert ([s] + ss)[1..] == ss;
    assert [] + Filter(p, ss) == Filter(p, ss);
  }

  lemma FilterKeepsStart(p: Sighting -> bool, s: Sighting, ss: seq<Sighting>)
    requires StartsAll(NoLater, s, ss)
    ensures StartsAll(NoLater, s, Filter(p, ss))
  {
    FilterMembers(p, ss);
    var kept := Filter(p, ss);
    forall i | 0 <= i < |kept| ensures NoLater(s, kept[i]) {
      assert kept[i] in ss;
    }
  }

  lemma {:induction false} FilterInsert(p: Sighting -> bool, s: Sighting, ss: seq<Sighting>)
    requires Sorted(ss)
    ensures Filter(p, Insert(NoLater, s, ss))
         == if p(s) then Insert(NoLater, s, Filter(p, ss)) else Filter(p, ss)
  {
    if ss == [] || LexLe(s.ts, ss[0].ts) {
      FilterCons(p, s, ss);
      TimeIsTotalPreorder();
      StartsSorted(NoLater, s, ss);
      FilterKeepsStart(p, s, ss);
      InsertAtFront(s, Filter(p, ss));
    } else {
      var first, rest := ss[0], ss[1..];
      FilterCons(p, first, Insert(NoLater, s, rest));
      FilterCons(p, first, rest);
      assert [first] + rest == ss;
      FilterInsert(p, s, rest);
      if p(first) {
        assert ([first] + Filter(p, rest))[1..] == Filter(p, rest);
      }
    }
  }

  /** The stable sort commutes with restricting the list. */
  lemma {:induction false} SortCommutesWithFilter(p: Sighting -> bool, ss: seq<Sighting>)
    ensures Filter(p, Sort(ss)) == Sort(Filter(p, ss))
  {
    if ss == [] {
    } else {
      SortSorts(ss[1..]);
      SortCommutesWithFilter(p, ss[1..]);
      FilterInsert(p, ss[0], Sort(ss[1..]));
      if p(ss[0]) {
        assert ([ss[0]] + Filter(p, ss[1..]))[1..] == Filter(p, ss[1..]);
      } else {
        assert [] + Filter(p, ss[1..]) == Filter(p, ss[1..]);
      }
    }
  }

  lemma {:induction false} SortOfEqualTimes(ss: seq<Sighting>)
    requires forall i, j :: 0 <= i < |ss| && 0 <= j < |ss| ==> ss[i].ts == ss[j].ts
    ensures Sort(ss) == ss
  {
    if ss == [] {
    } else {
      SortOfEqualTimes(ss[1..]);
      LexTotal(ss[0].ts, ss[0].ts);
      InsertAtFront(ss[0], ss[1..]);
    }
  }

  /** Sightings at one time keep their order. */
  lemma SortIsStable(ss: seq<Sighting>, ts: Timestamp)
    ensures Filter(AtTime(ts), Sort(ss)) == Filter(AtTime(ts), ss)
  {
    SortCommutesWithFilter(AtTime(ts), ss);
    var same := Filter(AtTime(ts), ss);
    FilterMembers(AtTime(ts), ss);
    assert forall i :: 0 <= i < |same| ==> same[i] in same && same[i].ts == ts;
    SortOfEqualTimes(same);
  }

  ghost predicate SameAtEachTime(a: seq<Sighting>, b: seq<Sighting>) {
    forall ts :: Filter(AtTime(ts), a) == Filter(AtTime(ts), b)
  }

  /** Sorted lists with the same sightings in the same order at each time start alike. */
  lemma SortedHeadsAgree(a: seq<Sighting>, b: seq<Sighting>)
    requires Sorted(a) && Sorted(b) && SameAtEachTime(a, b) && a != []
    ensures b != [] && a[0] == b[0]
  {
    var ta := a[0].ts;
    FilterMembers(AtTime(ta), a);
    FilterMembers(AtTime(ta), b);
    assert a[0] in Filter(AtTime(ta), b);
    var i :| 0 <= i < |b| && b[i] == a[0];
    var tb := b[0].ts;
    FilterMembers(AtTime(tb), a);
    FilterMembers(AtTime(tb), b);
    assert b[0] in Filter(AtTime(tb), a);
    var j :| 0 <= j < |a| && a[j] == b[0];
    LexTotal(ta, ta);
    LexTotal(tb, tb);
    LexAntisymmetric(ta, tb);
    assert Filter(AtTime(ta), a)[0] == a[0] && Filter(AtTime(ta), b)[0] == b[0];
  }

  /** Whichever algorithm sorts, a stable sort of `ss` is `Sort(ss)`. */
  lemma {:induction false} SortedIsUnique(a: seq<Sighting>, b: seq<Sighting>)
    requires Sorted(a) && Sorted(b) && SameAtEachTime(a, b)
    ensures a == b
  {
    if a == [] {
      if b != [] {
        SortedHeadsAgree(b, a);
      }
    } else {
      SortedHeadsAgree(a, b);
      forall ts ensures Filter(AtTime(ts), a[1..]) == Filter(AtTime(ts), b[1..]) {
        assert Filter(AtTime(ts), a) == Filter(AtTime(ts), b);
        if a[0].ts != ts {
          assert [] + Filter(AtTime(ts), a[1..]) == Filter(AtTime(ts), a[1..]);
          assert [] + Filter(AtTime(ts), b[1..]) == Filter(AtTime(ts), b[1..]);
        } else {
          assert Filter(AtTime(ts), a)[1..] == Filter(AtTime(ts), a[1..]);
          assert Filter(AtTime(ts), b)[1..] == Filter(AtTime(ts), b[1..]);
        }
      }
      SortedIsUnique(a[1..], b[1..]);
      assert a == [a[0]] + a[1..] && b == [b[0]] + b[1..];
    }
  }

  lemma StableSortIsUnique(ss: seq<Sighting>, sorted: seq<Sighting>)
    requires Sorted(sorted) && SameAtEachTime(sorted, ss)
    ensures sorted == Sort(ss)
  {
    SortSorts(ss);
    forall ts ensures Filter(AtTime(ts), sorted) == Filter(AtTime(ts), Sort(ss)) {
      SortIsStable(ss, ts);
      assert Filter(AtTime(ts), sorted) == Filter(AtTime(ts), ss);
    }
    SortedIsUnique(sorted, Sort(ss));
  }
}
