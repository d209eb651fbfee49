/** When the order of the conversation list depends on the order in which a `HashMap` is walked. */
module ListOrder {
  import opened Text
  import opened Order
  import opened Launch
  import opened Sightings
  import opened Conversations

  // ----- which of two comes first

  function FirstOf(keys: seq<string>, a: string, b: string): Option<string> {
    if keys == [] then None
    else if keys[0] == a || keys[0] == b then Some(keys[0])
    else FirstOf(keys[1..], a, b)
  }

  lemma {:induction false} FirstOfExtends(keys: seq<string>, key: string, a: string, b: string)
    ensures FirstOf(keys + [key], a, b)
         == if FirstOf(keys, a, b).Some? then FirstOf(keys, a, b) else if key == a || key == b then Some(key) else None
  {
    if keys == [] {
      assert keys + [key] == [key] && [key][1..] == [];
    } else {
      assert (keys + [key])[1..] == keys[1..] + [key];
      FirstOfExtends(keys[1..], key, a, b);
    }
  }

  lemma {:induction false} FirstOfMembers(keys: seq<string>, a: string, b: string)
    ensures FirstOf(keys, a, b).Some? <==> a in keys || b in keys
    ensures FirstOf(keys, a, b).Some? ==> FirstOf(keys, a, b).value in keys && FirstOf(keys, a, b).value in {a, b}
  {
    if keys == [] {
    } else {
      FirstOfMembers(keys[1..], a, b);
      assert keys == [keys[0]] + keys[1..];
    }
  }

  ghost predicate IsDistinct(keys: seq<string>) {
    forall i, j :: 0 <= i < j < |keys| ==> keys[i] != keys[j]
  }

  lemma FirstOfTail(keys: seq<string>, a: string, b: string)
    requires keys != [] && IsDistinct(keys)
    ensures FirstOf(keys[1..], a, b)
         == if a == keys[0] && b == keys[0] then None
            else if a == keys[0] then FirstOf(keys, b, b)
            else if b == keys[0] then FirstOf(keys, a, a)
            else FirstOf(keys, a, b)
  {
    assert keys[0] !in keys[1..];
    if a == keys[0] {
      FirstOfAbsent(keys[1..], a, b);
    } else if b == keys[0] {
      FirstOfAbsent(keys[1..], b, a);
    }
  }

  lemma {:induction false} FirstOfAbsent(keys: seq<string>, absent: string, b: string)
    requires absent !in keys
    ensures FirstOf(keys, absent, b) == FirstOf(keys, b, b) == FirstOf(keys, b, absent)
    ensures FirstOf(keys, absent, absent) == None
  {
    if keys == [] {
    } else {
      assert keys[0] in keys && absent !in keys[1..];
      FirstOfAbsent(keys[1..], absent, b);
    }
  }

  /** Lists without duplicates that agree on every pair are equal. */
  lemma {:induction false} PairsDetermineOrder(p: seq<string>, q: seq<string>)
    requires IsDistinct(p) && IsDistinct(q)
    requires forall a, b :: FirstOf(p, a, b) == FirstOf(q, a, b)
    ensures p == q
  {
    if p == [] {
      assert q != [] ==> FirstOf(p, q[0], q[0]) == FirstOf(q, q[0], q[0]);
    } else {
      assert FirstOf(p, p[0], p[0]) == FirstOf(q, p[0], p[0]);
      assert q != [];
      assert FirstOf(p, p[0], q[0]) == FirstOf(q, p[0], q[0]);
      forall a, b ensures FirstOf(p[1..], a, b) == FirstOf(q[1..], a, b) {
        FirstOfTail(p, a, b);
        FirstOfTail(q, a, b);
      }
      PairsDetermineOrder(p[1..], q[1..]);
      assert p == [p[0]] + p[1..] && q == [q[0]] + q[1..];
    }
  }

  // ----- in the list, the one with the first sighting

  function OfEither(a: string, b: string): Sighting -> bool {
    (s: Sighting) => s.session == a || s.session == b
  }

  function Leader(ss: seq<Sighting>, a: string, b: string): Option<string> {
    var both := Filter(OfEither(a, b), ss);
    if both == [] then None else Some(both[0].session)
  }

  lemma {:induction false} FirstSeenByLeader(ss: seq<Sighting>, a: string, b: string)
    ensures FirstOf(FirstSeen(ss), a, b) == Leader(ss, a, b)
  {
    if ss == [] {
    } else {
      var before, last := ss[..|ss| - 1], ss[|ss| - 1];
      assert ss == before + [last];
      FirstSeenByLeader(before, a, b);
      FirstSeenExtends(before, last);
      FirstOfExtends(FirstSeen(before), last.session, a, b);
      FilterConcat(OfEither(a, b), before, [last]);
      FilterOne(OfEither(a, b), last);
      FirstOfMembers(FirstSeen(before), a, b);
      assert Filter(OfEither(a, b), before) + [] == Filter(OfEither(a, b), before);
    }
  }

  /** A sorted list starts with the first of its earliest sightings. */
  lemma SortStartsWithFirstEarliest(ss: seq<Sighting>)
    requires ss != []
    ensures Sort(ss) != []
    ensures forall s <- ss :: LexLe(Sort(ss)[0].ts, s.ts)
    ensures var earliest := Filter(AtTime(Sort(ss)[0].ts), ss);
            earliest != [] && Sort(ss)[0] == earliest[0]
  {
    SortSorts(ss);
    assert multiset(Sort(ss))[ss[0]] > 0 by { assert ss[0] in multiset(ss); }
    var sorted := Sort(ss);
    assert sorted != [];
    forall s | s in ss ensures LexLe(sorted[0].ts, s.ts) {
      assert s in multiset(sorted);
      var i :| 0 <= i < |sorted| && sorted[i] == s;
      LexTotal(s.ts, s.ts);
    }
    SortIsStable(ss, sorted[0].ts);
    assert Filter(AtTime(sorted[0].ts), sorted)[0] == sorted[0];
  }

  // ----- the mirror sightings of two sessions

  function PairKeys(keys: seq<string>, a: string, b: string): seq<string> {
    if keys == [] then []
    else
      var last := keys[|keys| - 1];
      PairKeys(keys[..|keys| - 1], a, b) + if last == a || last == b then [last] else []
  }

  lemma FilterOwnMirror(mirrors: Mirrors, providers: map<string, Provider>, key: string, a: string, b: string)
    ensures Filter(OfEither(a, b), OwnMirror(mirrors, providers, key))
         == if key == a || key == b then OwnMirror(mirrors, providers, key) else []
  {
    var own := OwnMirror(mirrors, providers, key);
    if own != [] {
      FilterOne(OfEither(a, b), own[0]);
    }
  }

  lemma {:induction false} MirrorsOfPair(mirrors: Mirrors, providers: map<string, Provider>, keys: seq<string>,
                                         a: string, b: string)
    ensures Filter(OfEither(a, b), MirrorSightings(mirrors, providers, keys))
         == MirrorSightings(mirrors, providers, PairKeys(keys, a, b))
  {
    if keys == [] {
    } else {
      var before, last := keys[..|keys| - 1], keys[|keys| - 1];
      var own, pair := OwnMirror(mirrors, providers, last), PairKeys(before, a, b);
      MirrorsOfPair(mirrors, providers, before, a, b);
      FilterConcat(OfEither(a, b), MirrorSightings(mirrors, providers, before), own);
      FilterOwnMirror(mirrors, providers, last, a, b);
      if last == a || last == b {
        MirrorSightingsExtend(mirrors, providers, pair, last);
      } else {
        assert pair + [] == pair;
        assert MirrorSightings(mirrors, providers, pair) + [] == MirrorSightings(mirrors, providers, pair);
      }
    }
  }

  lemma {:induction false} PairKeysAre(keys: seq<string>, a: string, b: string)
    requires IsDistinct(keys) && a != b
    ensures PairKeys(keys, a, b)
         == if a in keys && b in keys then (if FirstOf(keys, a, b) == Some(a) then [a, b] else [b, a])
            else if a in keys then [a] else if b in keys then [b] else []
    ensures FirstOf(keys, a, b) == if PairKeys(keys, a, b) == [] then None else Some(PairKeys(keys, a, b)[0])
  {
    if keys == [] {
    } else {
      var before, last := keys[..|keys| - 1], keys[|keys| - 1];
      assert keys == before + [last] && last !in before;
      PairKeysAre(before, a, b);
      FirstOfExtends(before, last, a, b);
    }
  }

  /** The sightings of two sessions: those of the journal, then those of their mirrors in the order
      of the keys. */
  function PairSightings(sources: Sources, pair: seq<string>, a: string, b: string): seq<Sighting> {
    Filter(OfEither(a, b), JournalSightings(sources.lines))
    + MirrorSightings(sources.mirrors, sources.Providers(), pair)
  }

  lemma LeaderOfPair(sources: Sources, a: string, b: string)
    ensures var both := Sort(PairSightings(sources, PairKeys(sources.keys, a, b), a, b));
            Leader(Sort(sources.All()), a, b) == if both == [] then None else Some(both[0].session)
  {
    SortCommutesWithFilter(OfEither(a, b), sources.All());
    FilterConcat(OfEither(a, b), JournalSightings(sources.lines),
                 MirrorSightings(sources.mirrors, sources.Providers(), sources.keys));
    MirrorsOfPair(sources.mirrors, sources.Providers(), sources.keys, a, b);
  }

  // ----- ties

  /** Both sessions are first seen in their mirrors, at the same time. */
  ghost predicate AreTied(sources: Sources, a: string, b: string) {
    && a != b && sources.Of(a) != [] && sources.Of(b) != []
    && sources.Of(a)[0].agent.None? && sources.Of(b)[0].agent.None?
    && sources.Of(a)[0].ts == sources.Of(b)[0].ts
  }

  /** What starts a session's own sightings: its earliest, a journal sighting before a mirror one. */
  lemma OwnStart(sources: Sources, session: string)
    requires sources.Valid() && sources.Of(session) != []
    ensures var first, journal := sources.Of(session)[0], Restrict(JournalSightings(sources.lines), session);
            && (forall s <- journal :: LexLe(first.ts, s.ts))
            && (first.agent.None? ==> (forall s <- journal :: s.ts != first.ts)
                                      && OwnMirror(sources.mirrors, sources.Providers(), session) == [first])
  {
    var journal := Restrict(JournalSightings(sources.lines), session);
    var own := OwnMirror(sources.mirrors, sources.Providers(), session);
    var first := sources.Of(session)[0];
    OwnSightings(sources, session);
    SortSorts(journal + own);
    assert journal + own != [] by { assert |multiset(sources.Of(session))| == |multiset(journal + own)|; }
    SortStartsWithFirstEarliest(journal + own);
    forall s | s in journal ensures LexLe(first.ts, s.ts) {
      assert s in journal + own;
    }
    var at := AtTime(first.ts);
    FilterConcat(at, journal, own);
    FilterMembers(at, journal);
    FilterMembers(at, own);
    JournalNames(sources.lines);
    FilterMembers(OfSession(session), JournalSightings(sources.lines));
    assert Filter(at, journal) != [] ==> first == Filter(at, journal)[0] && first in journal;
    if first.agent.None? {
      assert Filter(at, journal) == [];
      assert first in Filter(at, own);
    }
  }

  lemma MirrorsOfTwo(sources: Sources, a: string, b: string)
    ensures MirrorSightings(sources.mirrors, sources.Providers(), [a, b])
         == OwnMirror(sources.mirrors, sources.Providers(), a) + OwnMirror(sources.mirrors, sources.Providers(), b)
  {
    assert [a, b][..1] == [a] && [a][..0] == [];
    assert MirrorSightings(sources.mirrors, sources.Providers(), [a])
        == [] + OwnMirror(sources.mirrors, sources.Providers(), a);
  }

  lemma {:induction false} FilterNone(p: Sighting -> bool, ss: seq<Sighting>)
    requires forall s <- ss :: !p(s)
    ensures Filter(p, ss) == []
  {
    if ss == [] {
    } else {
      assert ss[0] in ss;
      FilterNone(p, ss[1..]);
    }
  }

  /** After journal sightings that are all later, the first of simultaneous mirror sightings leads. */
  lemma FirstMirrorLeads(journal: seq<Sighting>, mirrored: seq<Sighting>)
    requires mirrored != [] && forall m <- mirrored :: m.ts == mirrored[0].ts
    requires forall s <- journal :: LexLe(mirrored[0].ts, s.ts) && s.ts != mirrored[0].ts
    ensures Sort(journal + mirrored) != [] && Sort(journal + mirrored)[0] == mirrored[0]
  {
    var all, x := journal + mirrored, mirrored[0];
    SortStartsWithFirstEarliest(all);
    SortSorts(all);
    var first := Sort(all)[0];
    assert first in multiset(Sort(all));
    assert first in all && x in all;
    LexTotal(x.ts, x.ts);
    LexAntisymmetric(first.ts, x.ts);
    FilterConcat(AtTime(x.ts), journal, mirrored);
    FilterNone(AtTime(x.ts), journal);
  }

  lemma TiedJournalIsLater(sources: Sources, a: string, b: string)
    requires sources.Valid() && AreTied(sources, a, b)
    ensures forall s <- Filter(OfEither(a, b), JournalSightings(sources.lines)) ::
              LexLe(sources.Of(a)[0].ts, s.ts) && s.ts != sources.Of(a)[0].ts
  {
    OwnStart(sources, a);
    OwnStart(sources, b);
    var journal := JournalSightings(sources.lines);
    FilterMembers(OfEither(a, b), journal);
    FilterMembers(OfSession(a), journal);
    FilterMembers(OfSession(b), journal);
    forall s | s in Filter(OfEither(a, b), journal)
      ensures LexLe(sources.Of(a)[0].ts, s.ts) && s.ts != sources.Of(a)[0].ts
    {
      assert s in Restrict(journal, a) || s in Restrict(journal, b);
    }
  }

  lemma TiedLeader(sources: Sources, a: string, b: string)
    requires sources.Valid() && AreTied(sources, a, b)
    ensures var sorted := Sort(PairSightings(sources, [a, b], a, b)); sorted != [] && sorted[0].session == a
  {
    TiedJournalIsLater(sources, a, b);
    OwnStart(sources, a);
    OwnStart(sources, b);
    var ma, mb := sources.Of(a)[0], sources.Of(b)[0];
    MirrorsOfTwo(sources, a, b);
    assert [ma] + [mb] == [ma, mb];
    FirstMirrorLeads(Filter(OfEither(a, b), JournalSightings(sources.lines)), [ma, mb]);
  }

  lemma PairIsSymmetric(sources: Sources, pair: seq<string>, a: string, b: string)
    ensures PairSightings(sources, pair, a, b) == PairSightings(sources, pair, b, a)
  {
    FilterAlike(JournalSightings(sources.lines), a, b);
  }

  lemma {:induction false} FilterAlike(ss: seq<Sighting>, a: string, b: string)
    ensures Filter(OfEither(a, b), ss) == Filter(OfEither(b, a), ss)
  {
    if ss == [] {
    } else {
      FilterAlike(ss[1..], a, b);
    }
  }

  /** Of two tied sessions the one whose mirror is read first is listed as the older. */
  lemma TiedOrderFollowsKeys(sources: Sources, a: string, b: string)
    requires sources.Valid() && AreTied(sources, a, b)
    ensures FirstOf(sources.Order(), a, b) == FirstOf(sources.keys, a, b)
    ensures a in sources.keys && b in sources.keys
  {
    OwnStart(sources, a);
    OwnStart(sources, b);
    assert a in sources.Providers() && b in sources.Providers();
    PairKeysAre(sources.keys, a, b);
    TiedLeader(sources, a, b);
    TiedLeader(sources, b, a);
    PairIsSymmetric(sources, [b, a], a, b);
    LeaderOfPair(sources, a, b);
    FirstSeenByLeader(Sort(sources.All()), a, b);
  }

  /** A mirror sighting before all of a session's journal sightings starts its own. */
  lemma EarlierMirrorStarts(sources: Sources, session: string, m: Sighting)
    requires sources.Valid() && OwnMirror(sources.mirrors, sources.Providers(), session) == [m]
    requires forall s <- Restrict(JournalSightings(sources.lines), session) :: LexLe(m.ts, s.ts) && s.ts != m.ts
    ensures sources.Of(session) != [] && sources.Of(session)[0] == m
  {
    OwnSightings(sources, session);
    FirstMirrorLeads(Restrict(JournalSightings(sources.lines), session), [m]);
  }

  lemma FilterTwo(p: Sighting -> bool, x: Sighting, y: Sighting)
    ensures Filter(p, [x, y]) == (if p(x) then [x] else []) + (if p(y) then [y] else [])
  {
    assert [x, y] == [x] + [y];
    FilterConcat(p, [x], [y]);
    FilterOne(p, x);
    FilterOne(p, y);
  }

  lemma EarliestBounds(journal: seq<Sighting>, x: Sighting, y: Sighting)
    ensures var sorted := Sort(journal + [x, y]);
            && sorted != []
            && (forall s <- journal :: LexLe(sorted[0].ts, s.ts))
            && LexLe(sorted[0].ts, x.ts) && LexLe(sorted[0].ts, y.ts)
            && (sorted[0] in journal || sorted[0] == x || sorted[0] == y)
  {
    var all := journal + [x, y];
    SortStartsWithFirstEarliest(all);
    SortSorts(all);
    var first := Sort(all)[0];
    assert first in multiset(Sort(all)) && first in all;
    assert x in all && y in all && forall s <- journal :: s in all;
  }

  lemma EarliestOf(journal: seq<Sighting>, x: Sighting, y: Sighting)
    ensures Sort(journal + [x, y]) != []
    ensures var first := Sort(journal + [x, y])[0];
            var earliest := Filter(AtTime(first.ts), journal);
            first == if earliest != [] then earliest[0] else if x.ts == first.ts then x else y
  {
    SortStartsWithFirstEarliest(journal + [x, y]);
    var at := AtTime(Sort(journal + [x, y])[0].ts);
    FilterConcat(at, journal, [x, y]);
    FilterTwo(at, x, y);
  }

  /** Exchanging the last two sightings changes what leads only if they are simultaneous and before
      all the others. */
  lemma LeadersAgree(journal: seq<Sighting>, x: Sighting, y: Sighting)
    ensures var u, v := Sort(journal + [x, y]), Sort(journal + [y, x]);
            && u != [] && v != []
            && (u[0] == v[0] || (x.ts == y.ts && forall s <- journal :: LexLe(x.ts, s.ts) && s.ts != x.ts))
  {
    EarliestBounds(journal, x, y);
    EarliestBounds(journal, y, x);
    EarliestOf(journal, x, y);
    EarliestOf(journal, y, x);
    var u, v := Sort(journal + [x, y])[0], Sort(journal + [y, x])[0];
    LexAntisymmetric(u.ts, v.ts);
    FilterMembers(AtTime(u.ts), journal);
  }

  /** Exchanging the mirrors of two sessions matters only if they are tied. */
  lemma SwapMattersOnlyIfTied(sources: Sources, a: string, b: string)
    requires sources.Valid() && a != b
    ensures var u, v := Sort(PairSightings(sources, [a, b], a, b)), Sort(PairSightings(sources, [b, a], a, b));
            u == v || AreTied(sources, a, b) || (u != [] && v != [] && u[0] == v[0])
  {
    var journal := Filter(OfEither(a, b), JournalSightings(sources.lines));
    var own := OwnMirror(sources.mirrors, sources.Providers(), a);
    var own' := OwnMirror(sources.mirrors, sources.Providers(), b);
    MirrorsOfTwo(sources, a, b);
    MirrorsOfTwo(sources, b, a);
    if own == [] || own' == [] {
      assert own + own' == own' + own;
    } else {
      var x, y := own[0], own'[0];
      assert own + own' == [x, y] && own' + own == [y, x];
      LeadersAgree(journal, x, y);
      if x.ts == y.ts && forall s <- journal :: LexLe(x.ts, s.ts) && s.ts != x.ts {
        FilterMembers(OfEither(a, b), JournalSightings(sources.lines));
        FilterMembers(OfSession(a), JournalSightings(sources.lines));
        FilterMembers(OfSession(b), JournalSightings(sources.lines));
        EarlierMirrorStarts(sources, a, x);
        EarlierMirrorStarts(sources, b, y);
      }
    }
  }

  lemma SameOrderMembers(sources: Sources, keys: seq<string>, session: string)
    requires sources.Valid() && IsIteration(keys, sources.Providers())
    ensures session in sources.Order() <==> session in sources.(keys := keys).Order()
  {
    OrderHasSightings(sources);
    OrderHasSightings(sources.(keys := keys));
    RecordIgnoresIterationOrder(sources, keys, session);
  }

  lemma UntiedOrderIgnoresKeys(sources: Sources, keys: seq<string>, a: string, b: string)
    requires sources.Valid() && IsIteration(keys, sources.Providers())
    requires !AreTied(sources, a, b) && !AreTied(sources, b, a)
    ensures FirstOf(sources.(keys := keys).Order(), a, b) == FirstOf(sources.Order(), a, b)
  {
    var other := sources.(keys := keys);
    if a == b {
      SameOrderMembers(sources, keys, a);
      FirstOfMembers(sources.Order(), a, a);
      FirstOfMembers(other.Order(), a, a);
    } else {
      PairKeysAre(sources.keys, a, b);
      PairKeysAre(keys, a, b);
      LeaderOfPair(sources, a, b);
      LeaderOfPair(other, a, b);
      FirstSeenByLeader(Sort(sources.All()), a, b);
      FirstSeenByLeader(Sort(other.All()), a, b);
      SwapMattersOnlyIfTied(sources, a, b);
    }
  }

  /** The iteration order that reads one key first. */
  lemma MoveToFront(keys: seq<string>, key: string) returns (moved: seq<string>)
    requires IsDistinct(keys) && key in keys
    ensures IsDistinct(moved) && (forall k :: k in moved <==> k in keys)
    ensures forall other :: FirstOf(moved, key, other) == Some(key) && FirstOf(moved, other, key) == Some(key)
  {
    var j :| 0 <= j < |keys| && keys[j] == key;
    var rest := keys[..j] + keys[j + 1..];
    moved := [key] + rest;
    assert keys == keys[..j] + [key] + keys[j + 1..];
    forall i | 0 <= i < |rest| ensures rest[i] != key {
      assert rest[i] == if i < j then keys[i] else keys[i + 1];
    }
    forall i, k | 0 <= i < k < |moved| ensures moved[i] != moved[k] {
      if i > 0 {
        assert moved[i] == rest[i - 1] && moved[k] == rest[k - 1];
      }
    }
  }

  /** The order of the list does not depend on the order in which the mirror map is walked exactly
      when no two sessions are tied. */
  lemma ListOrderIsFixedUnlessTied(sources: Sources)
    requires sources.Valid()
    ensures (forall keys :: IsIteration(keys, sources.Providers()) ==>
               sources.(keys := keys).Order() == sources.Order())
       <==> !exists a, b :: AreTied(sources, a, b)
  {
    if a, b :| AreTied(sources, a, b) {
      var keys := TiedOrderDepends(sources, a, b);
    } else {
      forall keys | IsIteration(keys, sources.Providers()) ensures sources.(keys := keys).Order() == sources.Order() {
        UntiedOrderIsFixed(sources, keys);
      }
    }
  }

  lemma UntiedOrderIsFixed(sources: Sources, keys: seq<string>)
    requires sources.Valid() && IsIteration(keys, sources.Providers())
    requires !exists a, b :: AreTied(sources, a, b)
    ensures sources.(keys := keys).Order() == sources.Order()
  {
    var other := sources.(keys := keys);
    OrderHasSightings(sources);
    OrderHasSightings(other);
    forall a, b ensures FirstOf(other.Order(), a, b) == FirstOf(sources.Order(), a, b) {
      UntiedOrderIgnoresKeys(sources, keys, a, b);
    }
    PairsDetermineOrder(other.Order(), sources.Order());
  }

  /** Two tied sessions are listed one way or the other, as the map happens to be walked. */
  lemma TiedOrderDepends(sources: Sources, a: string, b: string) returns (keys: seq<string>)
    requires sources.Valid() && AreTied(sources, a, b)
    ensures IsIteration(keys, sources.Providers()) && sources.(keys := keys).Order() != sources.Order()
  {
    TiedOrderFollowsKeys(sources, a, b);
    FirstOfMembers(sources.keys, a, b);
    var last := if FirstOf(sources.keys, a, b) == Some(a) then b else a;
    keys := MoveToFront(sources.keys, last);
    var other := sources.(keys := keys);
    RecordIgnoresIterationOrder(sources, keys, a);
    RecordIgnoresIterationOrder(sources, keys, b);
    TiedOrderFollowsKeys(other, a, b);
  }
}
