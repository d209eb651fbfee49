/** When the list that is returned, after the limit, depends on the order in which a `HashMap` is
    walked. */
module ListLimit {
  import opened Text
  import opened Order
  import opened Launch
  import opened Sightings
  import opened Jsonl
  import opened Collections
  import Mirror
  import opened Conversations
  import opened ListOrder

  // ----- what a limit keeps of a list

  function Sessions(all: seq<Conversation>): seq<string> {
    seq(|all|, i requires 0 <= i < |all| => all[i].session)
  }

  /** How many elements stand before the first `s`. */
  function Rank(p: seq<string>, s: string): nat {
    if p == [] || p[0] == s then 0 else 1 + Rank(p[1..], s)
  }

  /** The elements that stand before `s`. */
  ghost function Ahead(p: seq<string>, s: string): set<string> {
    set x | x in p && x != s && FirstOf(p, s, x) == Some(x)
  }

  lemma {:induction false} RankCounts(p: seq<string>, s: string)
    requires IsDistinct(p) && s in p
    ensures Rank(p, s) == |Ahead(p, s)|
  {
    assert p == [p[0]] + p[1..];
    if p[0] == s {
      assert Ahead(p, s) == {};
    } else {
      RankCounts(p[1..], s);
      assert p[0] !in p[1..];
      assert Ahead(p, s) == {p[0]} + Ahead(p[1..], s);
    }
  }

  lemma {:induction false} KeepSubset(all: seq<Conversation>, limit: nat)
    ensures forall c <- Keep(all, limit) :: c in all
    ensures forall s <- Sessions(Keep(all, limit)) :: s in Sessions(all)
  {
    if all == [] {
      assert Keep(all, limit) == [];
    } else {
      assert all == [all[0]] + all[1..];
      KeepSubset(all[1..], if limit == 0 then 0 else limit - 1);
      forall s | s in Sessions(Keep(all, limit)) ensures s in Sessions(all) {
        var i :| 0 <= i < |Keep(all, limit)| && Keep(all, limit)[i].session == s;
        var c := Keep(all, limit)[i];
        assert c in all;
        var j :| 0 <= j < |all| && all[j] == c;
        assert Sessions(all)[j] == s;
      }
    }
  }

  lemma SessionsCons(c: Conversation, rest: seq<Conversation>)
    ensures Sessions([c] + rest) == [c.session] + Sessions(rest)
  {
  }

  ghost predicate IsBookmarked(all: seq<Conversation>, s: string) {
    exists c <- all :: c.session == s && c.bookmarked
  }

  lemma DistinctTail(p: seq<string>)
    requires p != [] && IsDistinct(p)
    ensures p[0] !in p[1..] && IsDistinct(p[1..])
  {
  }

  /** What `Keep` does at the front, on sessions. */
  lemma KeepFront(all: seq<Conversation>, limit: nat) returns (rest: seq<Conversation>, limit': nat)
    requires all != []
    ensures rest == all[1..] && limit' == if limit == 0 then 0 else limit - 1
    ensures Sessions(all) == [all[0].session] + Sessions(rest) && Sessions(all)[1..] == Sessions(rest)
    ensures Sessions(Keep(all, limit))
         == (if limit > 0 || all[0].bookmarked then [all[0].session] else []) + Sessions(Keep(rest, limit'))
  {
    rest, limit' := all[1..], if limit == 0 then 0 else limit - 1;
    assert all == [all[0]] + rest;
    SessionsCons(all[0], Keep(rest, limit'));
  }

  lemma InSessions(all: seq<Conversation>, c: Conversation)
    requires c in all
    ensures c.session in Sessions(all)
  {
    var i :| 0 <= i < |all| && all[i] == c;
    assert Sessions(all)[i] == c.session;
  }

  lemma BookmarkedFront(all: seq<Conversation>, s: string)
    requires all != [] && IsDistinct(Sessions(all)) && Sessions(all)[1..] == Sessions(all[1..])
    ensures IsBookmarked(all, s) <==> if all[0].session == s then all[0].bookmarked else IsBookmarked(all[1..], s)
  {
    assert all == [all[0]] + all[1..];
    DistinctTail(Sessions(all));
    forall c | c in all[1..] ensures c.session != all[0].session {
      InSessions(all[1..], c);
    }
  }

  /** A session is kept exactly if its rank is below the limit or it is bookmarked. */
  lemma {:induction false} KeptSessions(all: seq<Conversation>, limit: nat, s: string)
    requires IsDistinct(Sessions(all)) && s in Sessions(all)
    ensures s in Sessions(Keep(all, limit)) <==> Rank(Sessions(all), s) < limit || IsBookmarked(all, s)
  {
    var rest, limit' := KeepFront(all, limit);
    KeepSubset(rest, limit');
    DistinctTail(Sessions(all));
    BookmarkedFront(all, s);
    if all[0].session != s {
      KeptSessions(rest, limit', s);
    }
  }

  /** What is kept stays in order. */
  lemma {:induction false} KeepKeepsOrder(all: seq<Conversation>, limit: nat, a: string, b: string)
    requires IsDistinct(Sessions(all)) && a in Sessions(Keep(all, limit)) && b in Sessions(Keep(all, limit))
    ensures FirstOf(Sessions(Keep(all, limit)), a, b) == FirstOf(Sessions(all), a, b)
  {
    if all == [] {
    } else {
      var rest, limit' := KeepFront(all, limit);
      KeepSubset(rest, limit');
      var kept := Sessions(Keep(rest, limit'));
      DistinctTail(Sessions(all));
      if all[0].session == a || all[0].session == b {
        assert limit > 0 || all[0].bookmarked;
      } else {
        KeepKeepsOrder(rest, limit', a, b);
        assert ([all[0].session] + kept)[1..] == kept && [] + kept == kept;
      }
    }
  }

  lemma {:induction false} KeepIsDistinct(all: seq<Conversation>, limit: nat)
    requires IsDistinct(Sessions(all))
    ensures IsDistinct(Sessions(Keep(all, limit)))
  {
    if all == [] {
      assert Keep(all, limit) == [];
    } else {
      var rest, limit' := KeepFront(all, limit);
      KeepIsDistinct(rest, limit');
      KeepSubset(rest, limit');
      DistinctTail(Sessions(all));
    }
  }

  // ----- a reversed list

  function Backwards(order: seq<string>): seq<string> {
    if order == [] then [] else Backwards(order[1..]) + [order[0]]
  }

  lemma {:induction false} BackwardsFlips(order: seq<string>, a: string, b: string)
    requires IsDistinct(order)
    ensures forall s :: s in Backwards(order) <==> s in order
    ensures a != b && a in order && b in order
        ==> FirstOf(Backwards(order), a, b) == Some(if FirstOf(order, a, b) == Some(a) then b else a)
  {
    if order == [] {
    } else {
      BackwardsFlips(order[1..], a, b);
      FirstOfExtends(Backwards(order[1..]), order[0], a, b);
      FirstOfMembers(Backwards(order[1..]), a, b);
      assert order == [order[0]] + order[1..] && order[0] !in order[1..];
    }
  }

  lemma {:induction false} BackwardsAt(order: seq<string>, i: nat)
    requires i < |order|
    ensures |Backwards(order)| == |order| && Backwards(order)[i] == order[|order| - 1 - i]
  {
    if |order| <= 1 {
    } else {
      BackwardsAt(order[1..], if i < |order| - 1 then i else 0);
    }
  }

  lemma ReversedIsBackwards(order: seq<string>, records: map<string, Conversation>)
    requires IsChronology(order, records)
    ensures Sessions(Reversed(order, records)) == Backwards(order) && IsDistinct(Backwards(order))
  {
    var all := Reversed(order, records);
    forall i | 0 <= i < |order| ensures |Backwards(order)| == |order| && Backwards(order)[i] == Sessions(all)[i] {
      BackwardsAt(order, i);
      assert order[|order| - 1 - i] in records;
    }
    assert order == [] ==> Backwards(order) == [];
    forall i, j | 0 <= i < j < |order| ensures Backwards(order)[i] != Backwards(order)[j] {
      assert order[|order| - 1 - j] != order[|order| - 1 - i];
    }
  }

  lemma EverythingIsBackwards(sources: Sources)
    ensures Sessions(Everything(sources)) == Backwards(sources.Order()) && IsDistinct(Backwards(sources.Order()))
  {
    OrderIsChronology(sources);
    ReversedIsBackwards(sources.Order(), AllRecords(sources));
  }

  lemma RecordIn(sources: Sources, session: string)
    requires session in AllRecords(sources)
    ensures sources.Of(session) != [] && AllRecords(sources)[session] == sources.RecordOf(session)
  {
  }

  lemma ReversedAreRecords(order: seq<string>, records: map<string, Conversation>, c: Conversation) returns (i: nat)
    requires IsChronology(order, records) && c in Reversed(order, records)
    ensures i < |order| && order[i] == c.session && records[order[i]] == c
  {
    var all := Reversed(order, records);
    var j :| 0 <= j < |all| && all[j] == c;
    i := |order| - 1 - j;
  }

  lemma EverythingIsRecords(sources: Sources, c: Conversation)
    requires c in Everything(sources)
    ensures sources.Of(c.session) != [] && c == sources.RecordOf(c.session)
  {
    OrderIsChronology(sources);
    var i := ReversedAreRecords(sources.Order(), AllRecords(sources), c);
    RecordIn(sources, c.session);
  }

  // ----- the returned list

  ghost function Result(sources: Sources, limit: nat): seq<Conversation> {
    Keep(Everything(sources), limit)
  }

  /** The sessions listed before `s`. */
  ghost function NewerThan(sources: Sources, s: string): set<string> {
    set x | x in sources.Order() && x != s && FirstOf(sources.Order(), s, x) == Some(s)
  }

  ghost predicate HasBookmark(sources: Sources, s: string) {
    sources.Of(s) != [] && sources.RecordOf(s).bookmarked
  }

  /** The sessions that start after `t`. */
  ghost function StartedAfter(sources: Sources, t: Timestamp): set<string> {
    set s | s in sources.Order() && sources.Of(s) != [] && LexLess(t, sources.Of(s)[0].ts)
  }

  lemma AheadIsNewer(sources: Sources, s: string)
    requires s in sources.Order()
    ensures Ahead(Backwards(sources.Order()), s) == NewerThan(sources, s)
  {
    var order := sources.Order();
    OrderHasSightings(sources);
    forall x ensures x in Ahead(Backwards(order), s) <==> x in NewerThan(sources, s) {
      BackwardsFlips(order, s, x);
      FirstOfMembers(order, s, x);
    }
  }

  lemma BookmarkedInEverything(sources: Sources, s: string)
    requires s in sources.Order()
    ensures IsBookmarked(Everything(sources), s) <==> HasBookmark(sources, s)
  {
    var all := Everything(sources);
    OrderIsChronology(sources);
    OrderHasSightings(sources);
    ReversedMembers(sources.Order(), AllRecords(sources), s);
    var c :| c in all && c.session == s;
    EverythingIsRecords(sources, c);
    if d :| d in all && d.session == s && d.bookmarked {
      EverythingIsRecords(sources, d);
    }
  }

  /** A session is returned exactly if fewer than `limit` are listed before it or it is bookmarked. */
  lemma InResult(sources: Sources, limit: nat, s: string)
    ensures s in Sessions(Result(sources, limit))
       <==> s in sources.Order() && (|NewerThan(sources, s)| < limit || HasBookmark(sources, s))
  {
    var all := Everything(sources);
    EverythingIsBackwards(sources);
    OrderHasSightings(sources);
    BackwardsFlips(sources.Order(), s, s);
    KeepSubset(all, limit);
    if s in sources.Order() {
      KeptSessions(all, limit, s);
      RankCounts(Sessions(all), s);
      AheadIsNewer(sources, s);
      BookmarkedInEverything(sources, s);
    }
  }

  /** Two returned sessions are listed newest first. */
  lemma ResultOrder(sources: Sources, limit: nat, a: string, b: string)
    requires a != b && a in Sessions(Result(sources, limit)) && b in Sessions(Result(sources, limit))
    ensures a in sources.Order() && b in sources.Order()
    ensures FirstOf(Sessions(Result(sources, limit)), a, b)
         == Some(if FirstOf(sources.Order(), a, b) == Some(a) then b else a)
  {
    EverythingIsBackwards(sources);
    OrderHasSightings(sources);
    KeepSubset(Everything(sources), limit);
    KeepKeepsOrder(Everything(sources), limit, a, b);
    BackwardsFlips(sources.Order(), a, b);
  }

  lemma ResultRecord(sources: Sources, limit: nat, i: nat)
    requires i < |Result(sources, limit)|
    ensures sources.Of(Sessions(Result(sources, limit))[i]) != []
    ensures Result(sources, limit)[i] == sources.RecordOf(Sessions(Result(sources, limit))[i])
  {
    KeepSubset(Everything(sources), limit);
    assert Result(sources, limit)[i] in Result(sources, limit);
    EverythingIsRecords(sources, Result(sources, limit)[i]);
  }

  // ----- other iteration orders

  /** What does not depend on the iteration order. */
  lemma SameSessions(sources: Sources, keys: seq<string>, s: string)
    requires sources.Valid() && IsIteration(keys, sources.Providers())
    ensures var other := sources.(keys := keys);
            && other.Of(s) == sources.Of(s)
            && (s in other.Order() <==> s in sources.Order())
            && (HasBookmark(other, s) <==> HasBookmark(sources, s))
  {
    RecordIgnoresIterationOrder(sources, keys, s);
    SameOrderMembers(sources, keys, s);
  }

  lemma SameStartedAfter(sources: Sources, keys: seq<string>, t: Timestamp)
    requires sources.Valid() && IsIteration(keys, sources.Providers())
    ensures StartedAfter(sources.(keys := keys), t) == StartedAfter(sources, t)
  {
    forall s ensures s in StartedAfter(sources.(keys := keys), t) <==> s in StartedAfter(sources, t) {
      SameSessions(sources, keys, s);
    }
  }

  lemma {:induction false} FirstOfIndices(p: seq<string>, a: string, b: string) returns (i: nat, j: nat)
    requires IsDistinct(p) && a != b && a in p && b in p && FirstOf(p, a, b) == Some(a)
    ensures i < j < |p| && p[i] == a && p[j] == b
  {
    if p[0] == a {
      i := 0;
      j :| 0 <= j < |p| && p[j] == b;
    } else {
      DistinctTail(p);
      assert p == [p[0]] + p[1..];
      i, j := FirstOfIndices(p[1..], a, b);
      i, j := i + 1, j + 1;
    }
  }

  /** What is listed after starts no later. */
  lemma NewerStartsLater(sources: Sources, s: string, x: string)
    requires s in sources.Order() && x in NewerThan(sources, s)
    ensures sources.Of(s) != [] && sources.Of(x) != [] && LexLe(sources.Of(s)[0].ts, sources.Of(x)[0].ts)
  {
    OrderHasSightings(sources);
    var i, j := FirstOfIndices(sources.Order(), s, x);
    OrderIsChronological(sources, i, j);
  }

  lemma LaterIsNewer(sources: Sources, s: string, x: string)
    requires s in sources.Order() && sources.Of(s) != [] && x in StartedAfter(sources, sources.Of(s)[0].ts)
    ensures x in NewerThan(sources, s)
  {
    LexTotal(sources.Of(s)[0].ts, sources.Of(s)[0].ts);
    OrderHasSightings(sources);
    FirstOfMembers(sources.Order(), s, x);
    if FirstOf(sources.Order(), s, x) == Some(x) {
      var i, j := FirstOfIndicesSwapped(sources.Order(), s, x);
      OrderIsChronological(sources, i, j);
    }
  }

  lemma {:induction false} FirstOfSwap(p: seq<string>, a: string, b: string)
    ensures FirstOf(p, a, b) == FirstOf(p, b, a)
  {
    if p == [] {
    } else {
      FirstOfSwap(p[1..], a, b);
    }
  }

  lemma FirstOfIndicesSwapped(p: seq<string>, a: string, b: string) returns (i: nat, j: nat)
    requires IsDistinct(p) && a != b && a in p && b in p && FirstOf(p, a, b) == Some(b)
    ensures i < j < |p| && p[i] == b && p[j] == a
  {
    FirstOfSwap(p, a, b);
    i, j := FirstOfIndices(p, b, a);
  }

  // ----- ties that do not show

  /** A tie that the returned list shows: both sessions are bookmarked, or the first of the tied
      ones is within the limit. */
  ghost predicate TieShows(sources: Sources, limit: nat, a: string, b: string) {
    && AreTied(sources, a, b)
    && ((HasBookmark(sources, a) && HasBookmark(sources, b))
        || |StartedAfter(sources, sources.Of(a)[0].ts)| < limit)
  }

  ghost predicate NoTieShows(sources: Sources, limit: nat) {
    forall a, b :: !TieShows(sources, limit, a, b)
  }

  lemma SubsetSize(a: set<string>, b: set<string>)
    requires a <= b
    ensures |a| <= |b|
  {
    assert b == a + (b - a);
  }

  ghost predicate HasTie(sources: Sources, s: string) {
    exists x :: AreTied(sources, s, x)
  }

  lemma TieIsMutual(sources: Sources, a: string, b: string)
    ensures AreTied(sources, a, b) <==> AreTied(sources, b, a)
  {
  }

  /** A tied session whose tie does not show is returned only for its bookmark. */
  lemma TiedIsPastLimit(sources: Sources, limit: nat, s: string)
    requires NoTieShows(sources, limit) && HasTie(sources, s) && s in sources.Order()
    ensures |NewerThan(sources, s)| >= limit
  {
    var x :| AreTied(sources, s, x);
    assert !TieShows(sources, limit, s, x);
    var later := StartedAfter(sources, sources.Of(s)[0].ts);
    forall y | y in later ensures y in NewerThan(sources, s) {
      LaterIsNewer(sources, s, y);
    }
    SubsetSize(later, NewerThan(sources, s));
  }

  lemma UntiedHasSameNewer(sources: Sources, keys: seq<string>, s: string)
    requires sources.Valid() && IsIteration(keys, sources.Providers()) && !HasTie(sources, s)
    ensures NewerThan(sources.(keys := keys), s) == NewerThan(sources, s)
  {
    var other := sources.(keys := keys);
    forall x ensures x in NewerThan(other, s) <==> x in NewerThan(sources, s) {
      SameSessions(sources, keys, x);
      TieIsMutual(sources, s, x);
      UntiedOrderIgnoresKeys(sources, keys, s, x);
    }
  }

  lemma SameTies(sources: Sources, keys: seq<string>, limit: nat)
    requires sources.Valid() && IsIteration(keys, sources.Providers())
    ensures forall a, b :: AreTied(sources.(keys := keys), a, b) <==> AreTied(sources, a, b)
    ensures NoTieShows(sources, limit) ==> NoTieShows(sources.(keys := keys), limit)
  {
    var other := sources.(keys := keys);
    forall a, b
      ensures AreTied(other, a, b) <==> AreTied(sources, a, b)
      ensures TieShows(other, limit, a, b) <==> TieShows(sources, limit, a, b)
    {
      SameSessions(sources, keys, a);
      SameSessions(sources, keys, b);
      if AreTied(sources, a, b) {
        SameStartedAfter(sources, keys, sources.Of(a)[0].ts);
      }
    }
  }

  lemma SameResultMembers(sources: Sources, keys: seq<string>, limit: nat, s: string)
    requires sources.Valid() && IsIteration(keys, sources.Providers()) && NoTieShows(sources, limit)
    ensures s in Sessions(Result(sources.(keys := keys), limit)) <==> s in Sessions(Result(sources, limit))
  {
    var other := sources.(keys := keys);
    InResult(sources, limit, s);
    InResult(other, limit, s);
    SameSessions(sources, keys, s);
    SameTies(sources, keys, limit);
    if HasTie(sources, s) && s in sources.Order() {
      var x :| AreTied(sources, s, x);
      assert AreTied(other, s, x);
      TiedIsPastLimit(sources, limit, s);
      TiedIsPastLimit(other, limit, s);
    } else if s in sources.Order() {
      UntiedHasSameNewer(sources, keys, s);
    }
  }

  /** Of two tied sessions at most one is returned. */
  lemma TiedAreNotBothReturned(sources: Sources, limit: nat, a: string, b: string)
    requires NoTieShows(sources, limit) && AreTied(sources, a, b)
    ensures a !in Sessions(Result(sources, limit)) || b !in Sessions(Result(sources, limit))
  {
    InResult(sources, limit, a);
    InResult(sources, limit, b);
    TieIsMutual(sources, a, b);
    assert !TieShows(sources, limit, a, b);
    if a in sources.Order() && b in sources.Order() {
      TiedIsPastLimit(sources, limit, a);
      TiedIsPastLimit(sources, limit, b);
    }
  }

  lemma SameResultPairs(sources: Sources, keys: seq<string>, limit: nat, a: string, b: string)
    requires sources.Valid() && IsIteration(keys, sources.Providers()) && NoTieShows(sources, limit)
    ensures FirstOf(Sessions(Result(sources.(keys := keys), limit)), a, b)
         == FirstOf(Sessions(Result(sources, limit)), a, b)
  {
    var other := sources.(keys := keys);
    var p, q := Sessions(Result(other, limit)), Sessions(Result(sources, limit));
    SameResultMembers(sources, keys, limit, a);
    SameResultMembers(sources, keys, limit, b);
    FirstOfMembers(p, a, b);
    FirstOfMembers(q, a, b);
    if a != b && a in q && b in q {
      ResultOrder(sources, limit, a, b);
      ResultOrder(other, limit, a, b);
      TieIsMutual(sources, a, b);
      if AreTied(sources, a, b) {
        TiedAreNotBothReturned(sources, limit, a, b);
      } else {
        UntiedOrderIgnoresKeys(sources, keys, a, b);
      }
    }
  }

  lemma ResultIsDistinct(sources: Sources, limit: nat)
    ensures IsDistinct(Sessions(Result(sources, limit)))
  {
    EverythingIsBackwards(sources);
    KeepIsDistinct(Everything(sources), limit);
  }

  lemma HiddenTiesDoNotMatter(sources: Sources, keys: seq<string>, limit: nat)
    requires sources.Valid() && IsIteration(keys, sources.Providers()) && NoTieShows(sources, limit)
    ensures Result(sources.(keys := keys), limit) == Result(sources, limit)
  {
    var other := sources.(keys := keys);
    ResultIsDistinct(sources, limit);
    ResultIsDistinct(other, limit);
    forall a, b
      ensures FirstOf(Sessions(Result(other, limit)), a, b) == FirstOf(Sessions(Result(sources, limit)), a, b)
    {
      SameResultPairs(sources, keys, limit, a, b);
    }
    PairsDetermineOrder(Sessions(Result(other, limit)), Sessions(Result(sources, limit)));
    SameRecordsSameResult(sources, keys, limit);
  }

  lemma SameRecordsSameResult(sources: Sources, keys: seq<string>, limit: nat)
    requires sources.Valid() && IsIteration(keys, sources.Providers())
    requires Sessions(Result(sources.(keys := keys), limit)) == Sessions(Result(sources, limit))
    ensures Result(sources.(keys := keys), limit) == Result(sources, limit)
  {
    var other := sources.(keys := keys);
    assert |Result(other, limit)| == |Sessions(Result(other, limit))| == |Result(sources, limit)|;
    forall i | 0 <= i < |Result(sources, limit)| ensures Result(other, limit)[i] == Result(sources, limit)[i] {
      ResultRecord(sources, limit, i);
      ResultRecord(other, limit, i);
      RecordIgnoresIterationOrder(sources, keys, Sessions(Result(sources, limit))[i]);
    }
  }

  // ----- ties that show

  /** At equal times, a session first seen in the journal is older than one first seen in its mirror. */
  lemma JournalComesFirst(sources: Sources, a: string, x: string)
    requires sources.Valid() && a != x && sources.Of(a) != [] && sources.Of(x) != []
    requires sources.Of(a)[0].agent.None? && sources.Of(x)[0].agent.Some? && sources.Of(a)[0].ts == sources.Of(x)[0].ts
    ensures FirstOf(sources.Order(), a, x) == Some(x)
  {
    var t, p := sources.Of(a)[0].ts, OfEither(a, x);
    var journal := JournalSightings(sources.lines);
    var mirrored := MirrorSightings(sources.mirrors, sources.Providers(), sources.keys);
    var both := Filter(p, sources.All());
    FirstSeenByLeader(Sort(sources.All()), a, x);
    SortCommutesWithFilter(p, sources.All());
    EarliestOfTwo(sources, a, x);
    FilterConcat(p, journal, mirrored);
    FilterConcat(AtTime(t), Filter(p, journal), Filter(p, mirrored));
    FilterMembers(p, journal);
    FilterMembers(AtTime(t), Filter(p, journal));
    SightingsFacts(sources);
    OwnSightingsAreAll(sources, x);
    assert sources.Of(x)[0] in sources.Of(x);
    assert sources.Of(x)[0] in Filter(AtTime(t), Filter(p, journal));
    var first := Sort(both)[0];
    assert first == Filter(AtTime(t), Filter(p, journal))[0];
    assert first in Filter(AtTime(t), Filter(p, journal));
    OwnStart(sources, a);
    FilterMembers(OfSession(a), journal);
  }

  /** The earliest sighting of two sessions that start together. */
  lemma EarliestOfTwo(sources: Sources, a: string, x: string)
    requires sources.Of(a) != [] && sources.Of(x) != [] && sources.Of(a)[0].ts == sources.Of(x)[0].ts
    ensures var both := Filter(OfEither(a, x), sources.All());
            && Sort(both) != [] && Sort(both)[0].ts == sources.Of(a)[0].ts
            && Filter(AtTime(sources.Of(a)[0].ts), both) != []
            && Sort(both)[0] == Filter(AtTime(sources.Of(a)[0].ts), both)[0]
  {
    var t, both := sources.Of(a)[0].ts, Filter(OfEither(a, x), sources.All());
    FilterMembers(OfEither(a, x), sources.All());
    OwnSightingsAreAll(sources, a);
    OwnSightingsAreAll(sources, x);
    assert sources.Of(a)[0] in sources.Of(a) && sources.Of(a)[0] in both;
    SortStartsWithFirstEarliest(both);
    SortSorts(both);
    var first := Sort(both)[0];
    assert first in multiset(Sort(both)) && first in both;
    StartIsLeast(sources, first.session, first);
    LexAntisymmetric(first.ts, t);
  }

  lemma StartIsLeast(sources: Sources, s: string, x: Sighting)
    requires x in sources.Of(s)
    ensures LexLe(sources.Of(s)[0].ts, x.ts)
  {
    OwnSightingsAreAll(sources, s);
    var own := sources.Of(s);
    var k :| 0 <= k < |own| && own[k] == x;
    LexTotal(x.ts, x.ts);
  }

  /** Read last, a tied session is listed right after those that start later. */
  lemma LastReadIsNewest(sources: Sources, a: string)
    requires sources.Valid() && sources.Of(a) != [] && sources.Of(a)[0].agent.None?
    requires forall x <- sources.keys :: x != a ==> FirstOf(sources.keys, a, x) == Some(x)
    ensures NewerThan(sources, a) <= StartedAfter(sources, sources.Of(a)[0].ts)
  {
    OrderHasSightings(sources);
    forall x | x in NewerThan(sources, a) ensures x in StartedAfter(sources, sources.Of(a)[0].ts) {
      NewerStartsLater(sources, a, x);
      if LexLe(sources.Of(x)[0].ts, sources.Of(a)[0].ts) {
        LexAntisymmetric(sources.Of(x)[0].ts, sources.Of(a)[0].ts);
        if sources.Of(x)[0].agent.None? {
          assert AreTied(sources, a, x);
          TiedOrderFollowsKeys(sources, a, x);
        } else {
          JournalComesFirst(sources, a, x);
        }
      }
    }
  }

  /** The iteration order that reads one key last. */
  lemma MoveToBack(keys: seq<string>, key: string) returns (moved: seq<string>)
    requires IsDistinct(keys) && key in keys
    ensures IsDistinct(moved) && (forall k :: k in moved <==> k in keys)
    ensures forall x <- moved :: x != key ==> FirstOf(moved, key, x) == Some(x)
  {
    var j :| 0 <= j < |keys| && keys[j] == key;
    var rest := keys[..j] + keys[j + 1..];
    moved := rest + [key];
    assert keys == keys[..j] + [key] + keys[j + 1..];
    forall i | 0 <= i < |rest| ensures rest[i] != key {
      assert rest[i] == if i < j then keys[i] else keys[i + 1];
    }
    forall x | x in moved && x != key ensures FirstOf(moved, key, x) == Some(x) {
      FirstOfExtends(rest, key, key, x);
      FirstOfMembers(rest, key, x);
    }
  }

  /** An iteration order in which a tied session is returned, and listed before the other. */
  lemma ReadLast(sources: Sources, limit: nat, a: string, b: string) returns (keys: seq<string>)
    requires sources.Valid() && TieShows(sources, limit, a, b)
    ensures IsIteration(keys, sources.Providers())
    ensures a in Sessions(Result(sources.(keys := keys), limit))
    ensures FirstOf(sources.(keys := keys).Order(), a, b) == Some(b)
  {
    TiedOrderFollowsKeys(sources, a, b);
    keys := MoveToBack(sources.keys, a);
    var other := sources.(keys := keys);
    SameTies(sources, keys, limit);
    SameSessions(sources, keys, a);
    TiedOrderFollowsKeys(other, a, b);
    LastReadIsNewest(other, a);
    SameStartedAfter(sources, keys, sources.Of(a)[0].ts);
    SubsetSize(NewerThan(other, a), StartedAfter(sources, sources.Of(a)[0].ts));
    OrderHasSightings(other);
    InResult(other, limit, a);
  }

  lemma ShownTieMatters(sources: Sources, limit: nat, a: string, b: string) returns (keys: seq<string>)
    requires sources.Valid() && TieShows(sources, limit, a, b)
    ensures IsIteration(keys, sources.Providers()) && Result(sources.(keys := keys), limit) != Result(sources, limit)
  {
    TieIsMutual(sources, a, b);
    keys := ReadLast(sources, limit, a, b);
    var keys' := ReadLast(sources, limit, b, a);
    var one, two := sources.(keys := keys), sources.(keys := keys');
    if Result(one, limit) == Result(two, limit) {
      ResultOrder(one, limit, a, b);
      ResultOrder(two, limit, a, b);
      FirstOfSwap(two.Order(), a, b);
      assert false;
    }
    if Result(one, limit) == Result(sources, limit) {
      keys := keys';
    }
  }

  ghost function Returned(sources: Sources, limit: nat, transcripts: Transcripts): seq<Conversation> {
    EnrichAll(Keep(Everything(sources), limit), transcripts)
  }

  lemma EnrichedSessions(all: seq<Conversation>, transcripts: Transcripts)
    ensures Sessions(EnrichAll(all, transcripts)) == Sessions(all)
  {
  }

  /** The list that is returned is the same for every iteration order of the mirror map exactly when
      no two sessions are tied that are both bookmarked or have fewer than `limit` later ones. */
  lemma ResultIsFixedUnlessTieShows(sources: Sources, limit: nat, transcripts: Transcripts)
    requires sources.Valid()
    ensures (forall keys :: IsIteration(keys, sources.Providers()) ==>
               Returned(sources.(keys := keys), limit, transcripts) == Returned(sources, limit, transcripts))
       <==> !exists a, b :: TieShows(sources, limit, a, b)
  {
    if a, b :| TieShows(sources, limit, a, b) {
      var keys := ShownTieMatters(sources, limit, a, b);
      var other := sources.(keys := keys);
      if Returned(other, limit, transcripts) == Returned(sources, limit, transcripts) {
        EnrichedSessions(Result(other, limit), transcripts);
        EnrichedSessions(Result(sources, limit), transcripts);
        SameRecordsSameResult(sources, keys, limit);
        assert false;
      }
    } else {
      forall keys | IsIteration(keys, sources.Providers())
        ensures Returned(sources.(keys := keys), limit, transcripts) == Returned(sources, limit, transcripts)
      {
        HiddenTiesDoNotMatter(sources, keys, limit);
      }
    }
  }

  // ----- a tie that shows

  function Written(session: string): Option<JournalRecord> {
    Some(JournalRecord("2", "write", Some(CLINCH_LAUNCHER + " " + "claude" + " " + session), None, None))
  }

  function Mirrored(): BoundedJsonl<Mirror.Line> {
    BoundedJsonl([Mirror.Record(Some("1"), None, None, Some("hi"), false, false)], true, false)
  }

  /** Two sessions, each written at "2" and mirrored from "1" on. */
  function TiedSources(excerpt: string -> string): Sources {
    Sources([Written("a"), Written("b")],
            Mirrors(map[(Claude, "a") := Mirrored(), (Claude, "b") := Mirrored()], map[], excerpt),
            ["a", "b"], {})
  }

  lemma WrittenSighting(session: string)
    requires IsSafeSessionId(session)
    ensures JournalSighting(Written(session))
         == Some(Sighting(Codes("2"), session, Some("claude"), None, None, None, Some("")))
  {
    RemoteCommandFacts("claude", session);
  }

  lemma OneLine(x: Option<JournalRecord>, p: Provider)
    requires JournalSighting(x).Some? && JournalSighting(x).value.agent.Some?
    requires FromAgentName(JournalSighting(x).value.agent.value) == Some(p)
    ensures JournalSightings([x]) == [JournalSighting(x).value]
    ensures JournalProviders([x]) == map[JournalSighting(x).value.session := p]
  {
    assert [x][..0] == [] && JournalSightings([]) == [] && JournalProviders([]) == map[];
    assert [] + [JournalSighting(x).value] == [JournalSighting(x).value];
  }

  lemma TwoLines(x: Option<JournalRecord>, y: Option<JournalRecord>, p: Provider)
    requires JournalSighting(x).Some? && JournalSighting(x).value.agent.Some?
    requires JournalSighting(y).Some? && JournalSighting(y).value.agent == JournalSighting(x).value.agent
    requires FromAgentName(JournalSighting(x).value.agent.value) == Some(p)
    ensures JournalSightings([x, y]) == [JournalSighting(x).value, JournalSighting(y).value]
    ensures JournalProviders([x, y])
         == map[JournalSighting(x).value.session := p, JournalSighting(y).value.session := p]
  {
    OneLine(x, p);
    assert [x, y][..1] == [x];
    var u, v := JournalSighting(x).value, JournalSighting(y).value;
    assert [u] + [v] == [u, v];
  }

  /** Two written sessions, whatever their names. */
  lemma WrittenTwice(a: string, b: string)
    requires IsSafeSessionId(a) && IsSafeSessionId(b)
    ensures JournalProviders([Written(a), Written(b)]) == map[a := Claude, b := Claude]
    ensures forall s <- JournalSightings([Written(a), Written(b)]) ::
              s.ts == Codes("2") && (s.session == a || s.session == b)
  {
    WrittenSighting(a);
    WrittenSighting(b);
    TwoLines(Written(a), Written(b), Claude);
  }

  lemma TiedJournal(sources: Sources, excerpt: string -> string)
    requires sources == TiedSources(excerpt)
    ensures sources.Providers() == map["a" := Claude, "b" := Claude] && sources.Valid()
    ensures forall s <- JournalSightings(sources.lines) :: s.ts == Codes("2") && (s.session == "a" || s.session == "b")
  {
    WrittenTwice("a", "b");
  }

  /** What the mirror of either session yields. */
  function TiedStart(session: string): Sighting {
    Sighting(Codes("1"), session, None, None, None, None, None)
  }

  lemma MirroredIsRead()
    ensures Mirror.ReadMirror(Some(Mirrored())).Some?
    ensures Mirror.ReadMirror(Some(Mirrored())).value.firstRecord == Some(Mirrored().values[0])
  {
    var lines := Mirrored().values;
    Mirror.OnePassIsCoalesced(lines);
    assert lines[1..] == [] && Trim("hi") == "hi" && TrimStart("hi") == "hi";
    assert Mirror.IsUserPrompt(lines[0]);
    assert Mirror.Kept(lines, None) == lines;
  }

  lemma MirroredStart(mirrors: Mirrors, providers: map<string, Provider>, session: string)
    requires session in providers && Get(mirrors.scoped, (providers[session], session)) == Some(Mirrored())
    ensures OwnMirror(mirrors, providers, session) == [TiedStart(session)]
  {
    MirroredIsRead();
  }

  lemma TiedMirror(sources: Sources, excerpt: string -> string, session: string)
    requires sources == TiedSources(excerpt) && (session == "a" || session == "b")
    ensures OwnMirror(sources.mirrors, sources.Providers(), session) == [TiedStart(session)]
  {
    TiedJournal(sources, excerpt);
    assert Get(sources.mirrors.scoped, (Claude, session)) == Some(Mirrored());
    MirroredStart(sources.mirrors, sources.Providers(), session);
  }

  lemma TiedStarts(sources: Sources, excerpt: string -> string, session: string)
    requires sources == TiedSources(excerpt) && (session == "a" || session == "b")
    ensures sources.Of(session) != [] && sources.Of(session)[0] == TiedStart(session)
  {
    var journal := JournalSightings(sources.lines);
    TiedJournal(sources, excerpt);
    TiedMirror(sources, excerpt, session);
    FilterMembers(OfSession(session), journal);
    assert Codes("1")[0] < Codes("2")[0];
    EarlierMirrorStarts(sources, session, TiedStart(session));
  }

  lemma NoneStartsLater(sources: Sources, excerpt: string -> string, s: string)
    requires sources == TiedSources(excerpt) && sources.Of(s) != []
    ensures sources.Of(s)[0].ts == Codes("1")
  {
    TiedJournal(sources, excerpt);
    OwnSightingsAreAll(sources, s);
    SightingsFacts(sources);
    assert sources.Of(s)[0] in sources.Of(s);
    assert s == "a" || s == "b";
    TiedStarts(sources, excerpt, s);
  }

  /** Ties do show: with two such sessions and a limit of one, which of them is returned follows the
      order in which the map is walked. */
  lemma TiesExist(excerpt: string -> string)
    ensures TiedSources(excerpt).Valid() && TieShows(TiedSources(excerpt), 1, "a", "b")
  {
    var sources := TiedSources(excerpt);
    TiedJournal(sources, excerpt);
    TiedStarts(sources, excerpt, "a");
    TiedStarts(sources, excerpt, "b");
    LexTotal(Codes("1"), Codes("1"));
    assert StartedAfter(sources, Codes("1")) == {} by {
      forall s | s in sources.Order() && sources.Of(s) != [] ensures !LexLess(Codes("1"), sources.Of(s)[0].ts) {
        NoneStartsLater(sources, excerpt, s);
      }
    }
  }
}
