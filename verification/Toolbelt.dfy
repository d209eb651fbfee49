/** Learned quick-insert suggestions and their permanent resolutions. */
module Toolbelt {
  import opened Text
  import opened Order
  import opened Launch
  import opened Collections

  datatype Pattern = Pattern(
    id: string,
    text: Option<string>,
    sessions: seq<string>,
    conversationCount: nat,
    providers: seq<string>,
    lastSeen: seq<nat>)

  /** The learning file as read; `isUuid` tells which ids parse as UUIDs. */
  datatype Learning = Unreadable | Readable(schema: nat, patterns: seq<Pattern>)

  datatype Outcome = Accepted | Declined

  datatype Resolution = Resolution(id: string, outcome: Outcome, resolvedAt: string)

  datatype Suggestion = Suggestion(id: string, text: string, count: nat, providers: set<string>, lastSeen: seq<nat>)

  datatype ResolveError = NotFound | AlreadyExists | WriteFailed

  datatype Verdict = Resolved | Refused(error: ResolveError)

  // ----- suggestions

  function AfterColon(s: string): Option<(string, string)> {
    if s == "" then None
    else if s[0] == ':' then Some(("", s[1..]))
    else
      match AfterColon(s[1..])
      case None => None
      case Some((a, b)) => Some(([s[0]] + a, b))
  }

  predicate IsSessionKey(session: string) {
    match AfterColon(session)
    case None => false
    case Some((provider, id)) => FromAgentName(provider).Some? && IsSafeSessionId(id)
  }

  /** The larger of the recorded count and the distinct well-formed sessions listed. */
  function ConversationCount(pattern: Pattern): nat {
    var observed := |set s | s in pattern.sessions && IsSessionKey(s)|;
    if pattern.conversationCount > observed then pattern.conversationCount else observed
  }

  /** A pattern that may be suggested while it is unresolved. */
  predicate IsEligible(pattern: Pattern, isUuid: string -> bool) {
    isUuid(pattern.id) && pattern.text.Some? && Trim(pattern.text.value) != "" && ConversationCount(pattern) >= 2
  }

  function ToSuggestion(pattern: Pattern): Suggestion
    requires pattern.text.Some?
  {
    var providers := set p | p in pattern.providers && FromAgentName(p).Some?;
    Suggestion(pattern.id, pattern.text.value, ConversationCount(pattern), providers, pattern.lastSeen)
  }

  function ResolvedIds(store: seq<Resolution>): set<string> {
    set r <- store :: r.id
  }

  function Candidates(patterns: seq<Pattern>, resolved: set<string>, isUuid: string -> bool): seq<Suggestion> {
    if patterns == [] then []
    else
      (if IsEligible(patterns[0], isUuid) && patterns[0].id !in resolved then [ToSuggestion(patterns[0])] else [])
      + Candidates(patterns[1..], resolved, isUuid)
  }

  /** Whether `a` may stand before `b`: more conversations, or as many and seen no earlier. */
  predicate RanksBefore(a: Suggestion, b: Suggestion) {
    a.count > b.count || (a.count == b.count && LexLe(b.lastSeen, a.lastSeen))
  }

  function SortByRank(all: seq<Suggestion>): seq<Suggestion> {
    SortBy(RanksBefore, all)
  }

  function AllSuggestions(learning: Learning, store: seq<Resolution>, isUuid: string -> bool): seq<Suggestion> {
    if learning.Unreadable? || learning.schema != 1 then []
    else Candidates(learning.patterns, ResolvedIds(store), isUuid)
  }

  /** At most three eligible unresolved patterns, ordered by recurrence and recency. */
  function Suggestions(learning: Learning, store: seq<Resolution>, isUuid: string -> bool): seq<Suggestion> {
    var ranked := SortByRank(AllSuggestions(learning, store, isUuid));
    if |ranked| <= 3 then ranked else ranked[..3]
  }

  predicate Suggests(learning: Learning, store: seq<Resolution>, isUuid: string -> bool, id: string) {
    exists s <- Suggestions(learning, store, isUuid) :: s.id == id
  }

  // ----- resolving

  function PatternIds(learning: Learning, isUuid: string -> bool): set<string> {
    if learning.Unreadable? || learning.schema != 1 then {}
    else set p | p in learning.patterns && isUuid(p.id) :: p.id
  }

  function Retain(store: seq<Resolution>, ids: set<string>): seq<Resolution> {
    if store == [] then [] else (if store[0].id in ids then [store[0]] else []) + Retain(store[1..], ids)
  }

  /** The outcome of the first resolution of `id`. */
  function OutcomeOf(store: seq<Resolution>, id: string): Option<Outcome> {
    if store == [] then None
    else if store[0].id == id then Some(store[0].outcome)
    else OutcomeOf(store[1..], id)
  }

  /** One call: the learning file it reads, what it asks for, and whether the write succeeds. */
  datatype Call = Call(learning: Learning, id: string, outcome: Outcome, now: string, writeOk: bool)

  function Resolve(store: seq<Resolution>, call: Call, isUuid: string -> bool): (Verdict, seq<Resolution>) {
    if !isUuid(call.id) then (Refused(NotFound), store)
    else
      var retained := Retain(store, PatternIds(call.learning, isUuid));
      var existing := OutcomeOf(retained, call.id);
      if existing.Some? then (if existing.value == call.outcome then Resolved else Refused(AlreadyExists), store)
      else if !Suggests(call.learning, store, isUuid, call.id) then (Refused(NotFound), store)
      else if !call.writeOk then (Refused(WriteFailed), store)
      else (Resolved, retained + [Resolution(call.id, call.outcome, call.now)])
  }

  /** The resolutions file on disk. */
  class ResolutionsFile {
    var resolutions: seq<Resolution>

    constructor ()
      ensures resolutions == []
    {
      resolutions := [];
    }

    method ResolveSuggestion(call: Call, isUuid: string -> bool) returns (verdict: Verdict)
      modifies this
      ensures (verdict, resolutions) == Resolve(old(resolutions), call, isUuid)
    {
      if !isUuid(call.id) {
        return Refused(NotFound);
      }
      var file: seq<Resolution> := [];
      var ids := PatternIds(call.learning, isUuid);
      for i := 0 to |resolutions|
        invariant file + Retain(resolutions[i..], ids) == Retain(resolutions, ids)
        invariant resolutions == old(resolutions)
      {
        assert resolutions[i..][1..] == resolutions[i + 1..];
        if resolutions[i].id in ids {
          file := file + [resolutions[i]];
        }
      }
      assert file == Retain(resolutions, ids) by { assert file + [] == file; }
      var existing := OutcomeOf(file, call.id);
      if existing.Some? {
        return if existing.value == call.outcome then Resolved else Refused(AlreadyExists);
      }
      if !Suggests(call.learning, resolutions, isUuid, call.id) {
        return Refused(NotFound);
      }
      if !call.writeOk {
        return Refused(WriteFailed);
      }
      resolutions := file + [Resolution(call.id, call.outcome, call.now)];
      return Resolved;
    }
  }

  // ----- what is suggested

  ghost predicate IsCandidate(learning: Learning, store: seq<Resolution>, isUuid: string -> bool, s: Suggestion) {
    learning.Readable? && learning.schema == 1
    && exists p <- learning.patterns :: IsEligible(p, isUuid) && p.id !in ResolvedIds(store) && s == ToSuggestion(p)
  }

  lemma {:induction false} CandidatesMembers(patterns: seq<Pattern>, resolved: set<string>, isUuid: string -> bool,
                                             s: Suggestion)
    ensures s in Candidates(patterns, resolved, isUuid)
       <==> exists p <- patterns :: IsEligible(p, isUuid) && p.id !in resolved && s == ToSuggestion(p)
  {
    if patterns == [] {
    } else {
      CandidatesMembers(patterns[1..], resolved, isUuid, s);
      assert patterns == [patterns[0]] + patterns[1..];
    }
  }

  ghost predicate IsRanked(ranked: seq<Suggestion>) {
    forall i, j :: 0 <= i < j < |ranked| ==> RanksBefore(ranked[i], ranked[j])
  }

  lemma RanksTransitive(a: Suggestion, b: Suggestion, c: Suggestion)
    requires RanksBefore(a, b) && RanksBefore(b, c)
    ensures RanksBefore(a, c)
  {
    if a.count == b.count == c.count {
      LexTransitive(c.lastSeen, b.lastSeen, a.lastSeen);
    }
  }

  lemma RankIsTotalPreorder()
    ensures IsTotalPreorder(RanksBefore)
  {
    forall a: Suggestion, b: Suggestion ensures RanksBefore(a, b) || RanksBefore(b, a) {
      LexTotal(a.lastSeen, b.lastSeen);
    }
    forall a: Suggestion, b: Suggestion, c: Suggestion | RanksBefore(a, b) && RanksBefore(b, c)
      ensures RanksBefore(a, c)
    {
      RanksTransitive(a, b, c);
    }
  }

  lemma SortRanks(all: seq<Suggestion>)
    ensures IsRanked(SortByRank(all)) && multiset(SortByRank(all)) == multiset(all)
  {
    RankIsTotalPreorder();
    SortBySorts(RanksBefore, all);
  }

  /** Every suggestion is an eligible unresolved pattern, there are at most three, they are in
      order, and an eligible unresolved pattern that is left out ranks after all of them. */
  lemma SuggestionsAreTheBest(learning: Learning, store: seq<Resolution>, isUuid: string -> bool)
    ensures var list := Suggestions(learning, store, isUuid);
            && |list| <= 3 && IsRanked(list)
            && (forall s <- list :: IsCandidate(learning, store, isUuid, s))
            && (forall s :: IsCandidate(learning, store, isUuid, s) && s !in list ==>
                  |list| == 3 && forall t <- list :: RanksBefore(t, s))
  {
    var all := AllSuggestions(learning, store, isUuid);
    var ranked, list := SortByRank(all), Suggestions(learning, store, isUuid);
    SortRanks(all);
    forall s ensures s in ranked <==> IsCandidate(learning, store, isUuid, s) {
      assert s in multiset(ranked) <==> s in multiset(all);
      if learning.Readable? && learning.schema == 1 {
        CandidatesMembers(learning.patterns, ResolvedIds(store), isUuid, s);
      }
    }
    assert forall j :: 0 <= j < |list| ==> ranked[j] == list[j] && list[j] in list;
    forall s | s in ranked && s !in list ensures |list| == 3 && forall t <- list :: RanksBefore(t, s) {
      var j :| 0 <= j < |ranked| && ranked[j] == s;
      assert j >= 3;
    }
  }

  lemma ResolvedIsNotSuggested(learning: Learning, store: seq<Resolution>, isUuid: string -> bool, id: string)
    requires id in ResolvedIds(store)
    ensures !Suggests(learning, store, isUuid, id)
  {
    SuggestionsAreTheBest(learning, store, isUuid);
  }

  // ----- resolutions are write-once

  /** At most one resolution per id. */
  ghost predicate IsFunctional(store: seq<Resolution>) {
    forall i, j :: 0 <= i < j < |store| ==> store[i].id != store[j].id
  }

  lemma {:induction false} OutcomeIsMember(store: seq<Resolution>, id: string)
    ensures OutcomeOf(store, id).Some? <==> id in ResolvedIds(store)
  {
    if store == [] {
    } else {
      OutcomeIsMember(store[1..], id);
      assert store == [store[0]] + store[1..];
    }
  }

  lemma {:induction false} RetainOutcome(store: seq<Resolution>, ids: set<string>, id: string)
    ensures OutcomeOf(Retain(store, ids), id) == if id in ids then OutcomeOf(store, id) else None
  {
    if store == [] {
    } else {
      RetainOutcome(store[1..], ids, id);
      var rest := Retain(store[1..], ids);
      assert ([store[0]] + rest)[1..] == rest && [] + rest == rest;
    }
  }

  lemma {:induction false} RetainMembers(store: seq<Resolution>, ids: set<string>)
    ensures forall r <- Retain(store, ids) :: r in store && r.id in ids
  {
    if store == [] {
    } else {
      RetainMembers(store[1..], ids);
      assert store == [store[0]] + store[1..];
    }
  }

  lemma {:induction false} RetainFunctional(store: seq<Resolution>, ids: set<string>)
    requires IsFunctional(store)
    ensures IsFunctional(Retain(store, ids))
  {
    if store == [] {
    } else {
      RetainFunctional(store[1..], ids);
      RetainMembers(store[1..], ids);
      forall r | r in store[1..] ensures r.id != store[0].id {
        var j :| 0 <= j < |store[1..]| && store[1..][j] == r;
        assert store[j + 1] == r;
      }
    }
  }

  lemma {:induction false} OutcomeExtends(store: seq<Resolution>, r: Resolution, id: string)
    ensures OutcomeOf(store + [r], id)
         == if OutcomeOf(store, id).Some? then OutcomeOf(store, id) else if r.id == id then Some(r.outcome) else None
  {
    if store == [] {
      assert store + [r] == [r] && [r][1..] == [];
    } else {
      assert (store + [r])[1..] == store[1..] + [r];
      OutcomeExtends(store[1..], r, id);
    }
  }

  /** Whether a call rewrites the file. */
  ghost predicate Writes(store: seq<Resolution>, call: Call, isUuid: string -> bool) {
    isUuid(call.id) && call.writeOk && Suggests(call.learning, store, isUuid, call.id)
  }

  /** What one call does to an id that is resolved: it keeps its outcome exactly unless the call
      writes while the learning file no longer lists it; and while it is listed, a call for it
      succeeds exactly with that outcome, and changes nothing. */
  lemma ResolvedStaysResolved(store: seq<Resolution>, call: Call, isUuid: string -> bool, id: string)
    requires OutcomeOf(store, id).Some?
    ensures var (verdict, store') := Resolve(store, call, isUuid);
            && (OutcomeOf(store', id) == OutcomeOf(store, id)
                <==> id in PatternIds(call.learning, isUuid) || !Writes(store, call, isUuid))
            && (call.id == id && id in PatternIds(call.learning, isUuid) ==>
                  store' == store
                  && verdict == if Some(call.outcome) == OutcomeOf(store, id) then Resolved else Refused(AlreadyExists))
  {
    var ids := PatternIds(call.learning, isUuid);
    var retained := Retain(store, ids);
    RetainOutcome(store, ids, id);
    RetainOutcome(store, ids, call.id);
    OutcomeIsMember(store, id);
    OutcomeIsMember(store, call.id);
    OutcomeExtends(retained, Resolution(call.id, call.outcome, call.now), id);
    ResolvedIsNotSuggested(call.learning, store, isUuid, id);
    if OutcomeOf(store, call.id).Some? {
      ResolvedIsNotSuggested(call.learning, store, isUuid, call.id);
    }
  }

  lemma ResolveKeepsFunctional(store: seq<Resolution>, call: Call, isUuid: string -> bool)
    requires IsFunctional(store)
    ensures IsFunctional(Resolve(store, call, isUuid).1)
  {
    var ids := PatternIds(call.learning, isUuid);
    var retained := Retain(store, ids);
    RetainFunctional(store, ids);
    OutcomeIsMember(retained, call.id);
  }

  function Run(store: seq<Resolution>, calls: seq<Call>, isUuid: string -> bool): seq<Resolution>
    decreases |calls|
  {
    if calls == [] then store else Run(Resolve(store, calls[0], isUuid).1, calls[1..], isUuid)
  }

  /** Over any run of calls during which no readable learning file drops the id, it keeps its first
      outcome, is never suggested again, and the store keeps at most one resolution per id. */
  lemma {:induction false} ResolutionsAreWriteOnce(store: seq<Resolution>, calls: seq<Call>, isUuid: string -> bool,
                                                   id: string, learning: Learning)
    requires IsFunctional(store) && OutcomeOf(store, id).Some?
    requires forall call <- calls :: PatternIds(call.learning, isUuid) == {} || id in PatternIds(call.learning, isUuid)
    ensures OutcomeOf(Run(store, calls, isUuid), id) == OutcomeOf(store, id)
    ensures IsFunctional(Run(store, calls, isUuid))
    ensures !Suggests(learning, Run(store, calls, isUuid), isUuid, id)
    decreases |calls|
  {
    if calls == [] {
      OutcomeIsMember(store, id);
      ResolvedIsNotSuggested(learning, store, isUuid, id);
    } else {
      var call := calls[0];
      assert call in calls && forall c <- calls[1..] :: c in calls;
      ResolvedStaysResolved(store, call, isUuid, id);
      if Writes(store, call, isUuid) {
        SuggestedIsListed(call.learning, store, isUuid, call.id);
      }
      ResolveKeepsFunctional(store, call, isUuid);
      ResolutionsAreWriteOnce(Resolve(store, call, isUuid).1, calls[1..], isUuid, id, learning);
    }
  }

  lemma SuggestedIsListed(learning: Learning, store: seq<Resolution>, isUuid: string -> bool, id: string)
    requires Suggests(learning, store, isUuid, id)
    ensures id in PatternIds(learning, isUuid)
  {
    SuggestionsAreTheBest(learning, store, isUuid);
    var s :| s in Suggestions(learning, store, isUuid) && s.id == id;
    assert IsCandidate(learning, store, isUuid, s);
  }

  /** The ids that may still be suggested. */
  ghost function EligibleIds(learning: Learning, store: seq<Resolution>, isUuid: string -> bool): set<string> {
    if learning.Unreadable? || learning.schema != 1 then {}
    else set p | p in learning.patterns && IsEligible(p, isUuid) && p.id !in ResolvedIds(store) :: p.id
  }

  /** Resolving a listed suggestion takes exactly its id out of the eligible ones. */
  lemma ResolvingShrinksEligible(store: seq<Resolution>, call: Call, isUuid: string -> bool)
    requires Writes(store, call, isUuid)
    ensures var (verdict, store') := Resolve(store, call, isUuid);
            && verdict == Resolved && OutcomeOf(store', call.id) == Some(call.outcome)
            && call.id in EligibleIds(call.learning, store, isUuid)
            && EligibleIds(call.learning, store', isUuid) == EligibleIds(call.learning, store, isUuid) - {call.id}
  {
    var learning, ids := call.learning, PatternIds(call.learning, isUuid);
    SuggestionsAreTheBest(learning, store, isUuid);
    var s :| s in Suggestions(learning, store, isUuid) && s.id == call.id;
    assert IsCandidate(learning, store, isUuid, s);
    OutcomeIsMember(store, call.id);
    var retained := Retain(store, ids);
    RetainOutcome(store, ids, call.id);
    var r := Resolution(call.id, call.outcome, call.now);
    OutcomeExtends(retained, r, call.id);
    var store' := Resolve(store, call, isUuid).1;
    assert store' == retained + [r];
    forall id | id in ids ensures id in ResolvedIds(store') <==> id in ResolvedIds(store) || id == call.id {
      RetainOutcome(store, ids, id);
      OutcomeIsMember(store, id);
      OutcomeIsMember(store', id);
      OutcomeExtends(retained, r, id);
    }
    forall p | p in learning.patterns && IsEligible(p, isUuid) ensures p.id in ids {
    }
  }


  /** A resolution is forgotten: resolving the one listed pattern drops that of any other id. */
  lemma UnlistedResolutionIsForgotten(isUuid: string -> bool, listed: string, other: string)
    requires isUuid(listed) && listed != other
    ensures var learning := Readable(1, [Pattern(listed, Some("a"), [], 2, [], [])]);
            var store, call := [Resolution(other, Accepted, "")], Call(learning, listed, Declined, "", true);
            && OutcomeOf(store, other) == Some(Accepted)
            && Resolve(store, call, isUuid).0 == Resolved
            && OutcomeOf(Resolve(store, call, isUuid).1, other) == None
  {
    var pattern := Pattern(listed, Some("a"), [], 2, [], []);
    var learning := Readable(1, [pattern]);
    var store, call := [Resolution(other, Accepted, "")], Call(learning, listed, Declined, "", true);
    assert Trim("a") == "a";
    assert IsEligible(pattern, isUuid) && listed !in ResolvedIds(store) && pattern in learning.patterns;
    assert IsCandidate(learning, store, isUuid, ToSuggestion(pattern));
    SuggestionsAreTheBest(learning, store, isUuid);
    OnlyCandidates(learning, store, isUuid);
    assert Writes(store, call, isUuid);
    RetainOutcome(store, PatternIds(learning, isUuid), other);
    RetainOutcome(store, PatternIds(learning, isUuid), listed);
    OutcomeExtends(Retain(store, PatternIds(learning, isUuid)), Resolution(listed, Declined, ""), other);
  }

  lemma OnlyCandidates(learning: Learning, store: seq<Resolution>, isUuid: string -> bool)
    requires learning.Readable? && |learning.patterns| == 1
    ensures |Suggestions(learning, store, isUuid)| <= 1
  {
    assert learning.patterns[1..] == [] && Candidates([], ResolvedIds(store), isUuid) == [];
    var all := AllSuggestions(learning, store, isUuid);
    assert |all| <= 1;
    SortRanks(all);
    assert |SortByRank(all)| == |multiset(SortByRank(all))| == |multiset(all)| == |all|;
  }

  // ----- what is eligible, and how it ranks

  /** The recorded key of a conversation: a known agent, a colon and a session id. */
  ghost predicate IsKeyOf(key: string, agent: string, id: string) {
    && key == agent + ":" + id
    && (agent == "claude" || agent == "codex")
    && id != "" && forall c <- id :: '0' <= c <= '9' || 'A' <= c <= 'Z' || 'a' <= c <= 'z' || c == '-'
  }

  lemma {:induction false} AfterColonSplits(s: string)
    ensures AfterColon(s).Some? ==> s == AfterColon(s).value.0 + ":" + AfterColon(s).value.1
  {
    if s == "" || s[0] == ':' {
      assert s != "" ==> s == "" + ":" + s[1..];
    } else {
      AfterColonSplits(s[1..]);
      if AfterColon(s[1..]).Some? {
        var (a, b) := AfterColon(s[1..]).value;
        assert [s[0]] + a + ":" + b == [s[0]] + (a + ":" + b);
      }
    }
  }

  lemma {:induction false} AfterColonOf(a: string, b: string)
    requires ':' !in a
    ensures AfterColon(a + ":" + b) == Some((a, b))
  {
    if a == "" {
      assert a + ":" + b == ":" + b && (":" + b)[1..] == b;
    } else {
      assert a[0] in a && forall c <- a[1..] :: c in a;
      assert (a + ":" + b)[1..] == a[1..] + ":" + b;
      AfterColonOf(a[1..], b);
      assert [a[0]] + a[1..] == a;
    }
  }

  lemma KeysAre(key: string)
    ensures IsSessionKey(key) <==> exists agent, id :: IsKeyOf(key, agent, id)
  {
    AfterColonSplits(key);
    if IsSessionKey(key) {
      var (agent, id) := AfterColon(key).value;
      assert forall i :: 0 <= i < |id| ==> id[i] in id;
      assert IsKeyOf(key, agent, id);
    }
    if agent, id :| IsKeyOf(key, agent, id) {
      assert ':' !in agent by { assert ':' !in "claude" && ':' !in "codex"; }
      AfterColonOf(agent, id);
      assert forall i :: 0 <= i < |id| ==> id[i] in id;
    }
  }

  ghost predicate IsKey(key: string) {
    exists agent, id :: IsKeyOf(key, agent, id)
  }

  lemma KeysObserved(pattern: Pattern, a: string, b: string)
    requires a in pattern.sessions && b in pattern.sessions && a != b && IsSessionKey(a) && IsSessionKey(b)
    ensures ConversationCount(pattern) >= 2
  {
    var observed := set s | s in pattern.sessions && IsSessionKey(s);
    assert {a, b} <= observed;
    assert observed == {a, b} + (observed - {a, b});
    assert |{a, b}| == 2;
  }

  /** A pattern may be suggested exactly if its id is a UUID, its text holds something, and it recurred:
      by its recorded count, or in two conversations that are listed. */
  lemma EligibleAre(pattern: Pattern, isUuid: string -> bool)
    ensures IsEligible(pattern, isUuid)
       <==> && isUuid(pattern.id)
            && pattern.text.Some? && !AllWhitespace(pattern.text.value)
            && (pattern.conversationCount >= 2
                || exists a, b :: a in pattern.sessions && b in pattern.sessions && a != b && IsKey(a) && IsKey(b))
  {
    if pattern.text.Some? {
      BlankIsWhitespace(pattern.text.value);
    }
    forall key ensures IsSessionKey(key) <==> IsKey(key) {
      KeysAre(key);
    }
    if a, b :| a in pattern.sessions && b in pattern.sessions && a != b && IsKey(a) && IsKey(b) {
      KeysObserved(pattern, a, b);
    }
    var observed := set s | s in pattern.sessions && IsSessionKey(s);
    if |observed| >= 2 {
      var a :| a in observed;
      assert |observed - {a}| >= 1;
      var b :| b in observed - {a};
      assert IsKey(a) && IsKey(b);
    }
  }

  /** What a suggestion says: id, text and last sight of an eligible unresolved pattern, its count,
      which is the larger of the recorded and the observed, and the known agents among its providers. */
  lemma SuggestionsSay(learning: Learning, store: seq<Resolution>, isUuid: string -> bool, s: Suggestion)
    returns (pattern: Pattern)
    requires s in Suggestions(learning, store, isUuid)
    ensures learning.Readable? && learning.schema == 1 && pattern in learning.patterns
    ensures IsEligible(pattern, isUuid) && forall r <- store :: r.id != s.id
    ensures s.id == pattern.id && pattern.text == Some(s.text) && s.lastSeen == pattern.lastSeen
    ensures var observed := |set key | key in pattern.sessions && IsKey(key)|;
            s.count == (if observed > pattern.conversationCount then observed else pattern.conversationCount) >= 2
    ensures forall provider :: provider in s.providers
              <==> provider in pattern.providers && (provider == "claude" || provider == "codex")
  {
    SuggestionsAreTheBest(learning, store, isUuid);
    assert IsCandidate(learning, store, isUuid, s);
    pattern :| pattern in learning.patterns && IsEligible(pattern, isUuid)
      && pattern.id !in ResolvedIds(store) && s == ToSuggestion(pattern);
    forall key ensures IsSessionKey(key) <==> IsKey(key) {
      KeysAre(key);
    }
    assert (set key | key in pattern.sessions && IsKey(key))
        == set key | key in pattern.sessions && IsSessionKey(key);
  }

  /** Suggestions come most recurrent first and, at one count, most recent first. */
  lemma SuggestionsAreInOrder(learning: Learning, store: seq<Resolution>, isUuid: string -> bool, i: nat, j: nat)
    requires i < j < |Suggestions(learning, store, isUuid)|
    ensures var a, b := Suggestions(learning, store, isUuid)[i], Suggestions(learning, store, isUuid)[j];
            a.count > b.count || (a.count == b.count && !LexLess(a.lastSeen, b.lastSeen))
  {
    SuggestionsAreTheBest(learning, store, isUuid);
  }

  /** The ids a readable learning file of the known schema lists. */
  lemma ListedAre(learning: Learning, isUuid: string -> bool, id: string)
    ensures id in PatternIds(learning, isUuid)
       <==> learning.Readable? && learning.schema == 1 && isUuid(id) && exists p <- learning.patterns :: p.id == id
  {
  }
}
