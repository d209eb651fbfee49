/** The conversation list: journal and mirror sightings folded into one record per session. */
module Conversations {
  import opened Text
  import opened Order
  import opened Launch
  import opened Sightings
  import opened Jsonl
  import opened Collections
  import Mirror

  // ----- sources

  datatype JournalRecord = JournalRecord(
    ts: string,
    op: string,
    command: Option<string>,
    cwd: Option<string>,
    bridge: Option<string>)

  /** The prompt mirrors on disk, each as the capped reader reads it, and how a prompt is excerpted. */
  datatype Mirrors = Mirrors(
    scoped: map<(Provider, string), BoundedJsonl<Mirror.Line>>,
    legacy: map<string, BoundedJsonl<Mirror.Line>>,
    excerpt: string -> string)
  {
    /** The provider's own mirror, or for Claude the legacy flat one. */
    function Read(provider: Provider, session: string): (r: Option<Mirror.MirrorRead>)
      ensures r.Some? && r.value.firstRecord.Some? ==> r.value.firstRecord.value.Record?
    {
      var own := Mirror.ReadMirror(Get(scoped, (provider, session)));
      if own.None? && provider.Claude? then Mirror.ReadMirror(Get(legacy, session)) else own
    }

    method ReadFiles(provider: Provider, session: string) returns (r: Option<Mirror.MirrorRead>)
      ensures r == Read(provider, session)
    {
      r := Mirror.ReadPromptMirror(Get(scoped, (provider, session)));
      if r.None? && provider.Claude? {
        r := Mirror.ReadPromptMirror(Get(legacy, session));
      }
    }
  }

  /** A timestamp's code points, which are ordered as its bytes are. */
  function Codes(ts: string): Timestamp {
    seq(|ts|, i requires 0 <= i < |ts| => ts[i] as int)
  }

  /** Timestamps are ordered as their texts are: a prefix comes first, else the first difference decides. */
  lemma CodesAreInOrder(a: string, b: string)
    ensures LexLe(Codes(a), Codes(b)) <==> a <= b || exists k :: FirstDifferenceIs(a, b, k) && a[k] < b[k]
  {
    LexIsLexicographic(Codes(a), Codes(b));
    CodesOfPrefix(a, b);
    forall k ensures FirstDifferenceIs(a, b, k) && a[k] < b[k]
                <==> FirstDifference(Codes(a), Codes(b), k) && Codes(a)[k] < Codes(b)[k]
    {
      CodesDiffer(a, b, k);
    }
    if exists k :: FirstDifferenceIs(a, b, k) && a[k] < b[k] {
      var k :| FirstDifferenceIs(a, b, k) && a[k] < b[k];
      assert FirstDifference(Codes(a), Codes(b), k) && Codes(a)[k] < Codes(b)[k];
    }
  }

  lemma CodesOfPrefix(a: string, b: string)
    ensures a <= b <==> Codes(a) <= Codes(b)
  {
    if Codes(a) <= Codes(b) {
      forall i | 0 <= i < |a| ensures a[i] == b[i] {
        assert a[i] as int == Codes(a)[i] == Codes(b)[i] == b[i] as int;
      }
      assert a == b[..|a|];
    }
    if a <= b {
      forall i | 0 <= i < |a| ensures Codes(a)[i] == Codes(b)[i] {
        assert a[i] == b[i];
      }
      assert Codes(a) == Codes(b)[..|a|];
    }
  }

  lemma CodesDiffer(a: string, b: string, k: int)
    ensures FirstDifferenceIs(a, b, k) <==> FirstDifference(Codes(a), Codes(b), k)
  {
    if 0 <= k < |a| && k < |b| {
      assert forall i :: 0 <= i <= k ==> (a[i] == b[i] <==> Codes(a)[i] == Codes(b)[i]);
    }
  }

  ghost predicate FirstDifferenceIs(a: string, b: string, k: int) {
    0 <= k < |a| && k < |b| && a[k] != b[k] && forall i :: 0 <= i < k ==> a[i] == b[i]
  }

  function NonEmpty(text: Option<string>): Option<string> {
    if text == Some("") then None else text
  }

  /** The sighting a journal line yields; a malformed line is `None`. */
  function JournalSighting(line: Option<JournalRecord>): Option<Sighting> {
    if line.None? || line.value.command.None? || (line.value.op != "write" && line.value.op != "scrub-bridge") then None
    else
      var record := line.value;
      match ParseLaunchCommand(record.command.value)
      case None => None
      case Some(launch) =>
        var bridge := NonEmpty(record.bridge);
        Some(Sighting(Codes(record.ts), launch.id, Some(launch.agent), NonEmpty(record.cwd),
                      if record.op == "write" then bridge else None,
                      if record.op == "write" then None else bridge,
                      Some(launch.flags)))
  }

  function JournalSightings(lines: seq<Option<JournalRecord>>): seq<Sighting> {
    if lines == [] then []
    else
      var last := JournalSighting(lines[|lines| - 1]);
      JournalSightings(lines[..|lines| - 1]) + if last.Some? then [last.value] else []
  }

  /** The provider each session's latest known-agent line names. */
  function JournalProviders(lines: seq<Option<JournalRecord>>): map<string, Provider> {
    if lines == [] then map[]
    else
      var before, last := JournalProviders(lines[..|lines| - 1]), JournalSighting(lines[|lines| - 1]);
      if last.None? || last.value.agent.None? then before
      else
        var provider := FromAgentName(last.value.agent.value);
        if provider.Some? then before[last.value.session := provider.value] else before
  }

  method CollectJournal(lines: seq<Option<JournalRecord>>)
    returns (sightings: seq<Sighting>, providers: map<string, Provider>)
    ensures sightings == JournalSightings(lines) && providers == JournalProviders(lines)
  {
    sightings, providers := [], map[];
    for i := 0 to |lines|
      invariant sightings == JournalSightings(lines[..i]) && providers == JournalProviders(lines[..i])
    {
      assert lines[..i + 1][..i] == lines[..i];
      if lines[i].None? {
        continue;
      }
      var record := lines[i].value;
      if record.op != "write" && record.op != "scrub-bridge" {
        continue;
      }
      var launch := if record.command.None? then None else ParseLaunchCommand(record.command.value);
      if launch.None? {
        continue;
      }
      var provider := FromAgentName(launch.value.agent);
      if provider.Some? {
        providers := providers[launch.value.id := provider.value];
      }
      var bridge, clearBridge := NonEmpty(record.bridge), None;
      if record.op != "write" {
        bridge, clearBridge := None, bridge;
      }
      sightings := sightings + [Sighting(Codes(record.ts), launch.value.id, Some(launch.value.agent),
                                         NonEmpty(record.cwd), bridge, clearBridge, Some(launch.value.flags))];
    }
    assert lines[..|lines|] == lines;
  }

  /** The sighting that a mirror, as read, yields. */
  function SightingIn(mirror: Option<Mirror.MirrorRead>, session: string): Option<Sighting>
    requires mirror.Some? && mirror.value.firstRecord.Some? ==> mirror.value.firstRecord.value.Record?
  {
    if mirror.None? || mirror.value.firstRecord.None? then None
    else
      var record := mirror.value.firstRecord.value;
      if NonEmpty(record.ts).None? then None
      else Some(Sighting(Codes(record.ts.value), session, None, NonEmpty(record.cwd), NonEmpty(record.bridge),
                         None, None))
  }

  function PromptIn(mirror: Option<Mirror.MirrorRead>, excerpt: string -> string): Option<string> {
    if mirror.None? || mirror.value.history.prompts == [] then None
    else Some(excerpt(mirror.value.history.prompts[0].text))
  }

  function MirrorSighting(mirrors: Mirrors, provider: Provider, session: string): Option<Sighting> {
    SightingIn(mirrors.Read(provider, session), session)
  }

  function FirstPrompt(mirrors: Mirrors, providers: map<string, Provider>, session: string): Option<string> {
    if session !in providers then None else PromptIn(mirrors.Read(providers[session], session), mirrors.excerpt)
  }

  /** One of the orders in which a `HashMap` may hand out its keys. */
  ghost predicate IsIteration(keys: seq<string>, providers: map<string, Provider>) {
    && (forall k :: k in keys <==> k in providers)
    && (forall i, j :: 0 <= i < j < |keys| ==> keys[i] != keys[j])
  }

  /** The sighting a session's own mirror yields, if any. */
  function OwnMirror(mirrors: Mirrors, providers: map<string, Provider>, session: string): seq<Sighting> {
    if session !in providers then [] else ToSeq(MirrorSighting(mirrors, providers[session], session))
  }

  function MirrorSightings(mirrors: Mirrors, providers: map<string, Provider>, keys: seq<string>): seq<Sighting> {
    if keys == [] then []
    else MirrorSightings(mirrors, providers, keys[..|keys| - 1]) + OwnMirror(mirrors, providers, keys[|keys| - 1])
  }

  lemma MirrorSightingsExtend(mirrors: Mirrors, providers: map<string, Provider>, keys: seq<string>, key: string)
    ensures MirrorSightings(mirrors, providers, keys + [key])
         == MirrorSightings(mirrors, providers, keys) + OwnMirror(mirrors, providers, key)
  {
    assert (keys + [key])[..|keys|] == keys;
  }

  /** `prompts` maps exactly the sessions of `keys` that have a first prompt, each to it. */
  ghost predicate HoldsFirstPrompts(prompts: map<string, string>, mirrors: Mirrors, providers: map<string, Provider>,
                                    keys: seq<string>) {
    forall s :: Get(prompts, s) == if s in keys then FirstPrompt(mirrors, providers, s) else None
  }

  lemma FirstPromptsExtend(prompts: map<string, string>, mirrors: Mirrors, providers: map<string, Provider>,
                           keys: seq<string>, key: string)
    requires HoldsFirstPrompts(prompts, mirrors, providers, keys) && key !in keys
    ensures HoldsFirstPrompts(With(prompts, key, FirstPrompt(mirrors, providers, key)),
                              mirrors, providers, keys + [key])
  {
    assert Get(prompts, key) == None;
  }

  lemma KeyIsNew(keys: seq<string>, providers: map<string, Provider>, i: nat)
    requires IsIteration(keys, providers) && i < |keys|
    ensures keys[i] in providers && keys[i] !in keys[..i]
  {
    assert keys[i] in keys;
  }

  lemma AllFirstPrompts(prompts: map<string, string>, mirrors: Mirrors, providers: map<string, Provider>,
                        keys: seq<string>)
    requires IsIteration(keys, providers) && HoldsFirstPrompts(prompts, mirrors, providers, keys)
    ensures forall s :: Get(prompts, s) == FirstPrompt(mirrors, providers, s)
  {
  }

  /** What one mirror adds. */
  method CollectMirror(mirror: Option<Mirror.MirrorRead>, excerpt: string -> string, session: string,
                       prompts: map<string, string>, sightings: seq<Sighting>)
    returns (prompts': map<string, string>, sightings': seq<Sighting>)
    requires mirror.Some? && mirror.value.firstRecord.Some? ==> mirror.value.firstRecord.value.Record?
    ensures prompts' == With(prompts, session, PromptIn(mirror, excerpt))
    ensures sightings' == sightings + ToSeq(SightingIn(mirror, session))
  {
    prompts', sightings' := prompts, sightings;
    if mirror.None? {
      return;
    }
    if mirror.value.history.prompts != [] {
      prompts' := prompts[session := excerpt(mirror.value.history.prompts[0].text)];
    }
    if mirror.value.firstRecord.None? || NonEmpty(mirror.value.firstRecord.value.ts).None? {
      return;
    }
    var record := mirror.value.firstRecord.value;
    sightings' := sightings + [Sighting(Codes(record.ts.value), session, None, NonEmpty(record.cwd),
                                        NonEmpty(record.bridge), None, None)];
  }

  method CollectMirrors(mirrors: Mirrors, providers: map<string, Provider>, keys: seq<string>)
    returns (prompts: map<string, string>, sightings: seq<Sighting>)
    requires IsIteration(keys, providers)
    ensures sightings == MirrorSightings(mirrors, providers, keys)
    ensures forall s :: Get(prompts, s) == FirstPrompt(mirrors, providers, s)
  {
    prompts, sightings := map[], [];
    ghost var done: seq<string> := [];
    for i := 0 to |keys|
      invariant done == keys[..i]
      invariant sightings == MirrorSightings(mirrors, providers, done)
      invariant HoldsFirstPrompts(prompts, mirrors, providers, done)
    {
      var key := keys[i];
      KeyIsNew(keys, providers, i);
      MirrorSightingsExtend(mirrors, providers, done, key);
      FirstPromptsExtend(prompts, mirrors, providers, done, key);
      done := done + [key];
      var mirror := mirrors.ReadFiles(providers[key], key);
      prompts, sightings := CollectMirror(mirror, mirrors.excerpt, key, prompts, sightings);
    }
    assert done == keys;
    AllFirstPrompts(prompts, mirrors, providers, keys);
  }

  // ----- the fold

  datatype Conversation = Conversation(
    agent: string,
    session: string,
    cwd: Option<string>,
    bridge: Option<string>,
    start: Timestamp,
    firstPrompt: Option<string>,
    localResumable: bool,
    flags: string,
    bookmarked: bool)

  const PLACEHOLDER_AGENT := "claude"

  function Fresh(s: Sighting): Conversation {
    Conversation(PLACEHOLDER_AGENT, s.session, None, None, s.ts, None, false, "", false)
  }

  function UpdateBridge(bridge: Option<string>, s: Sighting): Option<string> {
    var set_ := if s.bridge.Some? then s.bridge else bridge;
    if s.clearBridge.Some? && set_ == s.clearBridge then None else set_
  }

  function Update(c: Conversation, s: Sighting): Conversation {
    c.(agent := s.agent.GetOr(c.agent),
       cwd := if s.cwd.Some? then s.cwd else c.cwd,
       bridge := UpdateBridge(c.bridge, s),
       flags := s.flags.GetOr(c.flags))
  }

  /** The record of one session, from its own sightings in sorted order. */
  function Record(ss: seq<Sighting>): Conversation
    requires ss != []
  {
    if |ss| == 1 then Update(Fresh(ss[0]), ss[0]) else Update(Record(ss[..|ss| - 1]), ss[|ss| - 1])
  }

  /** The sessions in order of first sighting. */
  function FirstSeen(ss: seq<Sighting>): seq<string> {
    if ss == [] then []
    else
      var before, session := FirstSeen(ss[..|ss| - 1]), ss[|ss| - 1].session;
      if session in before then before else before + [session]
  }

  lemma {:induction false} FirstSeenMembers(ss: seq<Sighting>)
    ensures forall s :: s in FirstSeen(ss) <==> Restrict(ss, s) != []
    ensures forall i, j :: 0 <= i < j < |FirstSeen(ss)| ==> FirstSeen(ss)[i] != FirstSeen(ss)[j]
  {
    if ss == [] {
    } else {
      var before, last := ss[..|ss| - 1], ss[|ss| - 1];
      FirstSeenMembers(before);
      assert ss == before + [last];
      forall s ensures Restrict(ss, s) == Restrict(before, s) + if last.session == s then [last] else [] {
        FilterConcat(OfSession(s), before, [last]);
        FilterOne(OfSession(s), last);
      }
    }
  }

  ghost predicate IsFolded(ss: seq<Sighting>, order: seq<string>, bySession: map<string, Conversation>) {
    && order == FirstSeen(ss)
    && (forall s :: s in bySession <==> s in order)
    && (forall s :: s in bySession ==> Restrict(ss, s) != [] && bySession[s] == Record(Restrict(ss, s)))
  }

  lemma RestrictExtends(ss: seq<Sighting>, s: Sighting, session: string)
    ensures Restrict(ss + [s], session)
         == if s.session == session then Restrict(ss, session) + [s] else Restrict(ss, session)
  {
    FilterConcat(OfSession(session), ss, [s]);
    FilterOne(OfSession(session), s);
    assert Restrict(ss, session) + [] == Restrict(ss, session);
  }

  lemma RecordExtends(mine: seq<Sighting>, s: Sighting)
    ensures Record(mine + [s]) == Update(if mine == [] then Fresh(s) else Record(mine), s)
  {
    assert (mine + [s])[..|mine|] == mine;
    assert mine == [] ==> mine + [s] == [s];
  }

  lemma FirstSeenExtends(ss: seq<Sighting>, s: Sighting)
    ensures FirstSeen(ss + [s])
         == if s.session in FirstSeen(ss) then FirstSeen(ss) else FirstSeen(ss) + [s.session]
  {
    assert (ss + [s])[..|ss|] == ss;
  }

  lemma FoldStep(ss: seq<Sighting>, order: seq<string>, bySession: map<string, Conversation>, s: Sighting)
    requires IsFolded(ss, order, bySession)
    ensures var c := Get(bySession, s.session).GetOr(Fresh(s));
            IsFolded(ss + [s], if s.session in bySession then order else order + [s.session],
                     bySession[s.session := Update(c, s)])
  {
    FirstSeenExtends(ss, s);
    FirstSeenMembers(ss);
    var bySession' := bySession[s.session := Update(Get(bySession, s.session).GetOr(Fresh(s)), s)];
    forall t | t in bySession'
      ensures Restrict(ss + [s], t) != [] && bySession'[t] == Record(Restrict(ss + [s], t))
    {
      RestrictExtends(ss, s, t);
      if t == s.session {
        RecordExtends(Restrict(ss, t), s);
      }
    }
  }

  /** The chronological fold: one pass that fills `order` and `bySession`. */
  method Fold(sorted: seq<Sighting>) returns (order: seq<string>, bySession: map<string, Conversation>)
    ensures IsFolded(sorted, order, bySession)
  {
    order, bySession := [], map[];
    ghost var folded: seq<Sighting> := [];
    for i := 0 to |sorted|
      invariant folded == sorted[..i]
      invariant IsFolded(folded, order, bySession)
    {
      var s := sorted[i];
      FoldStep(folded, order, bySession, s);
      folded := folded + [s];
      var entry := Get(bySession, s.session).GetOr(Fresh(s));
      order := if s.session in bySession then order else order + [s.session];
      bySession := bySession[s.session := Update(entry, s)];
    }
    assert folded == sorted;
  }

  // ----- the list

  datatype Bookmark = Bookmark(provider: Provider, session: string)

  function Finish(c: Conversation, prompt: Option<string>, bookmarks: set<Bookmark>): Conversation {
    var provider := FromAgentName(c.agent);
    c.(firstPrompt := prompt,
       bookmarked := provider.Some? && Bookmark(provider.value, c.session) in bookmarks)
  }

  /** Everything a reading of the disk yields, with one iteration order of the provider map. */
  datatype Sources = Sources(
    lines: seq<Option<JournalRecord>>,
    mirrors: Mirrors,
    keys: seq<string>,
    bookmarks: set<Bookmark>)
  {
    function Providers(): map<string, Provider> {
      JournalProviders(lines)
    }

    ghost predicate Valid() {
      IsIteration(keys, Providers())
    }

    function All(): seq<Sighting>
    {
      JournalSightings(lines) + MirrorSightings(mirrors, Providers(), keys)
    }

    /** The session's own sightings in sorted order. */
    function Of(session: string): seq<Sighting>
    {
      Restrict(Sort(All()), session)
    }

    /** The session's record before the limit is applied. */
    function RecordOf(session: string): Conversation
      requires Of(session) != []
    {
      Finish(Record(Of(session)), FirstPrompt(mirrors, Providers(), session), bookmarks)
    }

    /** The sessions, oldest first. */
    function Order(): seq<string>
    {
      FirstSeen(Sort(All()))
    }
  }

  /** The records of the given sessions, last session first. */
  function Reversed(order: seq<string>, records: map<string, Conversation>): seq<Conversation>
    requires forall i :: 0 <= i < |order| ==> order[i] in records
  {
    seq(|order|, i requires 0 <= i < |order| => records[order[|order| - 1 - i]])
  }

  lemma OrderHasSightings(sources: Sources)
    ensures forall s :: s in sources.Order() <==> sources.Of(s) != []
    ensures forall i, j :: 0 <= i < j < |sources.Order()| ==> sources.Order()[i] != sources.Order()[j]
  {
    FirstSeenMembers(Sort(sources.All()));
  }

  ghost function AllRecords(sources: Sources): map<string, Conversation> {
    map s | s in sources.Order() && sources.Of(s) != [] :: sources.RecordOf(s)
  }

  lemma AllRecordsCover(sources: Sources)
    ensures forall i :: 0 <= i < |sources.Order()| ==> sources.Order()[i] in AllRecords(sources)
  {
    OrderHasSightings(sources);
    forall i | 0 <= i < |sources.Order()| ensures sources.Order()[i] in AllRecords(sources) {
      assert sources.Order()[i] in sources.Order();
    }
  }

  /** Every record, newest first. */
  ghost function Everything(sources: Sources): seq<Conversation> {
    AllRecordsCover(sources);
    Reversed(sources.Order(), AllRecords(sources))
  }

  /** Drops what is neither among the first `limit` nor bookmarked. */
  function Keep(all: seq<Conversation>, limit: nat): seq<Conversation> {
    if all == [] then []
    else
      var rest := Keep(all[1..], if limit == 0 then 0 else limit - 1);
      if limit > 0 || all[0].bookmarked then [all[0]] + rest else rest
  }

  lemma {:induction false} KeepExtends(all: seq<Conversation>, c: Conversation, limit: nat)
    ensures Keep(all + [c], limit) == Keep(all, limit) + if |all| < limit || c.bookmarked then [c] else []
  {
    if all == [] {
      assert all + [c] == [c] && [c][1..] == [];
    } else {
      assert (all + [c])[1..] == all[1..] + [c];
      KeepExtends(all[1..], c, if limit == 0 then 0 else limit - 1);
    }
  }

  function Finished(order: seq<string>, bySession: map<string, Conversation>, prompts: map<string, string>,
                    bookmarks: set<Bookmark>): map<string, Conversation>
    requires forall s <- order :: s in bySession
  {
    map s | s in order :: Finish(bySession[s], Get(prompts, s), bookmarks)
  }

  method Assemble(order: seq<string>, bySession: map<string, Conversation>, prompts: map<string, string>,
                  bookmarks: set<Bookmark>, limit: nat) returns (result: seq<Conversation>)
    requires forall s <- order :: s in bySession
    ensures result == Keep(Reversed(order, Finished(order, bySession, prompts, bookmarks)), limit)
  {
    result := [];
    ghost var all := Reversed(order, Finished(order, bySession, prompts, bookmarks));
    for index := 0 to |order|
      invariant result == Keep(all[..index], limit)
    {
      var session := order[|order| - 1 - index];
      var c := Finish(bySession[session], Get(prompts, session), bookmarks);
      KeepExtends(all[..index], c, limit);
      assert all[..index + 1] == all[..index] + [c];
      if index < limit || c.bookmarked {
        result := result + [c];
      }
    }
    assert all[..|order|] == all;
  }

  lemma FinishedIsAll(sources: Sources, order: seq<string>, bySession: map<string, Conversation>,
                      prompts: map<string, string>)
    requires IsFolded(Sort(sources.All()), order, bySession)
    requires forall s :: Get(prompts, s) == FirstPrompt(sources.mirrors, sources.Providers(), s)
    ensures Finished(order, bySession, prompts, sources.bookmarks) == AllRecords(sources)
  {
    OrderHasSightings(sources);
  }

  // ----- enrichment from the agents' own transcripts

  /** The first prompts found in the native transcripts of each agent. */
  datatype Transcripts = Transcripts(claude: map<string, string>, codex: map<string, string>)
  {
    function Found(agent: string): map<string, string> {
      if agent == "claude" then claude else if agent == "codex" then codex else map[]
    }
  }

  /** A conversation with a native transcript can be resumed, and takes a missing first prompt from it. */
  function Enriched(c: Conversation, transcripts: Transcripts): Conversation {
    match Get(transcripts.Found(c.agent), c.session)
    case None => c
    case Some(prompt) =>
      c.(localResumable := true, firstPrompt := if c.firstPrompt.None? then Some(prompt) else c.firstPrompt)
  }

  function EnrichedIf(agent: string, c: Conversation, transcripts: Transcripts): Conversation {
    if c.agent == agent then Enriched(c, transcripts) else c
  }

  function EnrichAll(conversations: seq<Conversation>, transcripts: Transcripts): seq<Conversation> {
    seq(|conversations|, i requires 0 <= i < |conversations| => Enriched(conversations[i], transcripts))
  }

  /** One agent's pass over the list. */
  method EnrichFor(agent: string, conversations: seq<Conversation>, transcripts: Transcripts)
    returns (result: seq<Conversation>)
    requires agent == "claude" || agent == "codex"
    ensures |result| == |conversations|
    ensures forall i :: 0 <= i < |result| ==> result[i] == EnrichedIf(agent, conversations[i], transcripts)
  {
    result := conversations;
    var found := transcripts.Found(agent);
    for i := 0 to |conversations|
      invariant |result| == |conversations|
      invariant forall j :: i <= j < |result| ==> result[j] == conversations[j]
      invariant forall j :: 0 <= j < i ==> result[j] == EnrichedIf(agent, conversations[j], transcripts)
    {
      var c := conversations[i];
      if c.agent == agent && c.session in found {
        c := c.(localResumable := true);
        if c.firstPrompt.None? {
          c := c.(firstPrompt := Some(found[c.session]));
        }
        result := result[i := c];
      }
    }
  }

  method EnrichFromTranscripts(conversations: seq<Conversation>, transcripts: Transcripts)
    returns (result: seq<Conversation>)
    ensures result == EnrichAll(conversations, transcripts)
  {
    result := EnrichFor("claude", conversations, transcripts);
    result := EnrichFor("codex", result, transcripts);
  }

  /** The whole reading: journal, mirrors, sort, fold, list and enrichment. */
  method RecentConversations(sources: Sources, limit: nat, transcripts: Transcripts)
    returns (result: seq<Conversation>)
    requires sources.Valid()
    ensures result == EnrichAll(Keep(Everything(sources), limit), transcripts)
  {
    var journal, providers := CollectJournal(sources.lines);
    var prompts, mirrored := CollectMirrors(sources.mirrors, providers, sources.keys);
    var order, bySession := Fold(Sort(journal + mirrored));
    FinishedIsAll(sources, order, bySession, prompts);
    AllRecordsCover(sources);
    result := Assemble(order, bySession, prompts, sources.bookmarks, limit);
    result := EnrichFromTranscripts(result, transcripts);
  }

  // ----- the mirror map's iteration order does not matter to a record

  lemma RestrictOwn(mirrors: Mirrors, providers: map<string, Provider>, key: string, session: string)
    ensures Restrict(OwnMirror(mirrors, providers, key), session)
         == if session == key then OwnMirror(mirrors, providers, key) else []
  {
    var own := OwnMirror(mirrors, providers, key);
    if own != [] {
      FilterOne(OfSession(session), own[0]);
    }
  }

  lemma RestrictMirrorsStep(mirrors: Mirrors, providers: map<string, Provider>, before: seq<string>, key: string,
                            session: string)
    requires key !in before
    requires Restrict(MirrorSightings(mirrors, providers, before), session)
          == if session in before then OwnMirror(mirrors, providers, session) else []
    ensures Restrict(MirrorSightings(mirrors, providers, before + [key]), session)
         == if session in before + [key] then OwnMirror(mirrors, providers, session) else []
  {
    var seen, own := MirrorSightings(mirrors, providers, before), OwnMirror(mirrors, providers, key);
    MirrorSightingsExtend(mirrors, providers, before, key);
    FilterConcat(OfSession(session), seen, own);
    RestrictOwn(mirrors, providers, key, session);
    assert Restrict(seen, session) + [] == Restrict(seen, session) && [] + own == own;
  }

  lemma {:induction false} RestrictMirrors(mirrors: Mirrors, providers: map<string, Provider>, keys: seq<string>,
                                           session: string)
    requires forall i, j :: 0 <= i < j < |keys| ==> keys[i] != keys[j]
    ensures Restrict(MirrorSightings(mirrors, providers, keys), session)
         == if session in keys then OwnMirror(mirrors, providers, session) else []
  {
    if keys == [] {
    } else {
      var before, key := keys[..|keys| - 1], keys[|keys| - 1];
      assert keys == before + [key] && key !in before;
      RestrictMirrors(mirrors, providers, before, session);
      RestrictMirrorsStep(mirrors, providers, before, key, session);
    }
  }

  /** The sightings of one session, sorted, are its journal sightings and its one mirror sighting,
      sorted: the stable sort commutes with restricting to the session. */
  lemma OwnSightings(sources: Sources, session: string)
    requires sources.Valid()
    ensures sources.Of(session)
         == Sort(Restrict(JournalSightings(sources.lines), session)
                 + OwnMirror(sources.mirrors, sources.Providers(), session))
  {
    SortCommutesWithFilter(OfSession(session), sources.All());
    FilterConcat(OfSession(session), JournalSightings(sources.lines),
                 MirrorSightings(sources.mirrors, sources.Providers(), sources.keys));
    RestrictMirrors(sources.mirrors, sources.Providers(), sources.keys, session);
  }

  /** Whatever order the mirror map is walked in, every session has the same record. */
  lemma RecordIgnoresIterationOrder(sources: Sources, keys: seq<string>, session: string)
    requires sources.Valid() && IsIteration(keys, sources.Providers())
    ensures var other := sources.(keys := keys);
            && other.Of(session) == sources.Of(session)
            && (sources.Of(session) != [] ==> other.RecordOf(session) == sources.RecordOf(session))
  {
    OwnSightings(sources, session);
    OwnSightings(sources.(keys := keys), session);
  }

  // ----- what a record holds

  /** A write sets a non-empty bridge, a scrub names one to clear, and no line does both. */
  lemma BridgeOfLine(record: JournalRecord, b: string)
    requires JournalSighting(Some(record)).Some?
    ensures var s := JournalSighting(Some(record)).value;
            && s.ts == Codes(record.ts)
            && (s.bridge == Some(b) <==> record.op == "write" && record.bridge == Some(b) && b != "")
            && (s.clearBridge == Some(b) <==> record.op == "scrub-bridge" && record.bridge == Some(b) && b != "")
  {
  }

  /** Sighting `i` sets bridge `b`, nothing later sets a bridge, and nothing from there on scrubs `b`. */
  ghost predicate BridgeSurvives(ss: seq<Sighting>, i: int, b: string) {
    && 0 <= i < |ss|
    && ss[i].bridge == Some(b)
    && (forall j :: i < j < |ss| ==> ss[j].bridge.None?)
    && (forall j :: i <= j < |ss| ==> ss[j].clearBridge != Some(b))
  }

  lemma BridgeSurvivesLonger(ss: seq<Sighting>, i: int, b: string)
    requires |ss| > 1 && 0 <= i < |ss| - 1
    ensures BridgeSurvives(ss, i, b)
       <==> BridgeSurvives(ss[..|ss| - 1], i, b) && ss[|ss| - 1].bridge.None? && ss[|ss| - 1].clearBridge != Some(b)
  {
    var before := ss[..|ss| - 1];
    assert forall j :: 0 <= j < |before| ==> before[j] == ss[j];
  }

  /** A session's final bridge is `b` exactly when some sighting set `b`, no later one set any
      bridge, and no scrub from then on named `b`; scrubs of other bridges have no effect. */
  lemma {:induction false} FinalBridge(ss: seq<Sighting>, b: string)
    requires ss != []
    ensures Record(ss).bridge == Some(b) <==> exists i :: BridgeSurvives(ss, i, b)
  {
    var n := |ss| - 1;
    if ss[n].bridge.Some? {
      assert Record(ss).bridge == Some(b) <==> BridgeSurvives(ss, n, b);
      assert forall i :: BridgeSurvives(ss, i, b) ==> i == n;
    } else if n == 0 {
      assert Record(ss).bridge.None?;
    } else {
      FinalBridge(ss[..n], b);
      forall i | 0 <= i < n
        ensures BridgeSurvives(ss, i, b) <==> BridgeSurvives(ss[..n], i, b) && ss[n].clearBridge != Some(b)
      {
        BridgeSurvivesLonger(ss, i, b);
      }
      if i :| BridgeSurvives(ss[..n], i, b) {
        assert 0 <= i < n;
      }
      if i :| BridgeSurvives(ss, i, b) {
        assert 0 <= i < n;
      }
    }
  }

  /** Sighting `i` is the last that names an agent and flags. */
  ghost predicate IsLastNamed(ss: seq<Sighting>, i: int) {
    && 0 <= i < |ss| && ss[i].agent.Some? && ss[i].flags.Some?
    && forall j :: i < j < |ss| ==> ss[j].agent.None? && ss[j].flags.None?
  }

  lemma {:induction false} AgentIsLastNamed(ss: seq<Sighting>, i: int)
    requires IsLastNamed(ss, i)
    ensures Record(ss).agent == ss[i].agent.value && Record(ss).flags == ss[i].flags.value
  {
    if i < |ss| - 1 {
      AgentIsLastNamed(ss[..|ss| - 1], i);
    }
  }

  lemma {:induction false} CwdIsLatest(ss: seq<Sighting>, i: int)
    requires 0 <= i < |ss| && ss[i].cwd.Some? && forall j :: i < j < |ss| ==> ss[j].cwd.None?
    ensures Record(ss).cwd == ss[i].cwd
  {
    if i < |ss| - 1 {
      CwdIsLatest(ss[..|ss| - 1], i);
    }
  }

  lemma {:induction false} RecordOrigin(ss: seq<Sighting>)
    requires ss != []
    ensures Record(ss).start == ss[0].ts && Record(ss).session == ss[0].session
  {
    if |ss| <= 1 {
    } else {
      RecordOrigin(ss[..|ss| - 1]);
    }
  }

  // ----- where records come from

  lemma {:induction false} JournalNames(lines: seq<Option<JournalRecord>>)
    ensures forall x <- JournalSightings(lines) :: x.agent.Some? && x.flags.Some?
    ensures forall k <- JournalProviders(lines) :: exists x <- JournalSightings(lines) :: x.session == k
  {
    if lines == [] {
    } else {
      var before, last := lines[..|lines| - 1], JournalSighting(lines[|lines| - 1]);
      JournalNames(before);
      forall k | k in JournalProviders(lines) ensures exists x <- JournalSightings(lines) :: x.session == k {
        if k in JournalProviders(before) {
          var x :| x in JournalSightings(before) && x.session == k;
          assert x in JournalSightings(lines);
        } else {
          assert last.value in JournalSightings(lines);
        }
      }
    }
  }

  lemma {:induction false} MirrorsNameNothing(mirrors: Mirrors, providers: map<string, Provider>, keys: seq<string>)
    ensures forall x <- MirrorSightings(mirrors, providers, keys) ::
              x.agent.None? && x.flags.None? && x.session in providers
  {
    if keys == [] {
    } else {
      MirrorsNameNothing(mirrors, providers, keys[..|keys| - 1]);
    }
  }

  /** A sighting is from the journal exactly when it names an agent, and every session has one. */
  lemma SightingsFacts(sources: Sources)
    ensures forall x <- sources.All() :: x.agent.Some? == x.flags.Some? == (x in JournalSightings(sources.lines))
    ensures forall x <- sources.All() :: exists y <- JournalSightings(sources.lines) :: y.session == x.session
  {
    JournalNames(sources.lines);
    MirrorsNameNothing(sources.mirrors, sources.Providers(), sources.keys);
    forall x | x in sources.All()
      ensures exists y <- JournalSightings(sources.lines) :: y.session == x.session
    {
      if x !in JournalSightings(sources.lines) {
        assert x.session in sources.Providers();
      }
    }
  }

  lemma OwnSightingsAreAll(sources: Sources, session: string)
    ensures Sorted(sources.Of(session))
    ensures forall x :: x in sources.Of(session) <==> x in sources.All() && x.session == session
  {
    var own := Restrict(sources.All(), session);
    SortCommutesWithFilter(OfSession(session), sources.All());
    SortSorts(own);
    FilterMembers(OfSession(session), sources.All());
    forall x ensures x in Sort(own) <==> x in own {
      assert x in multiset(Sort(own)) <==> x in multiset(own);
    }
  }

  lemma {:induction false} JournalOrigin(lines: seq<Option<JournalRecord>>, x: Sighting)
    requires x in JournalSightings(lines)
    ensures exists line <- lines :: JournalSighting(line) == Some(x)
  {
    var before, last := lines[..|lines| - 1], lines[|lines| - 1];
    if JournalSighting(last) == Some(x) {
      assert last in lines;
    } else {
      JournalOrigin(before, x);
      var line :| line in before && JournalSighting(line) == Some(x);
      assert line in lines;
    }
  }

  lemma {:induction false} MirrorOrigin(mirrors: Mirrors, providers: map<string, Provider>, keys: seq<string>,
                                        x: Sighting)
    requires x in MirrorSightings(mirrors, providers, keys)
    ensures x.session in providers && MirrorSighting(mirrors, providers[x.session], x.session) == Some(x)
  {
    var before, last := keys[..|keys| - 1], keys[|keys| - 1];
    if x !in OwnMirror(mirrors, providers, last) {
      MirrorOrigin(mirrors, providers, before, x);
    }
  }

  /** The line writes bridge `b` for the session. */
  ghost predicate WritesBridge(line: Option<JournalRecord>, session: string, b: string) {
    && JournalSighting(line).Some? && JournalSighting(line).value.session == session
    && line.value.op == "write" && line.value.bridge == Some(b)
  }

  /** The first record of the session's mirror holds bridge `b`. */
  ghost predicate MirrorsBridge(sources: Sources, session: string, b: string) {
    && session in sources.Providers()
    && var mirror := sources.mirrors.Read(sources.Providers()[session], session);
       mirror.Some? && mirror.value.firstRecord.Some? && mirror.value.firstRecord.value.bridge == Some(b)
  }

  /** A listed bridge is never made up, nor empty: a write of that session or its mirror named it. */
  lemma BridgeHasSource(sources: Sources, session: string, b: string)
    requires sources.Of(session) != [] && sources.RecordOf(session).bridge == Some(b)
    ensures b != ""
    ensures (exists line <- sources.lines :: WritesBridge(line, session, b)) || MirrorsBridge(sources, session, b)
  {
    var own := sources.Of(session);
    FinalBridge(own, b);
    var i :| BridgeSurvives(own, i, b);
    OwnSightingsAreAll(sources, session);
    assert own[i] in own;
    if own[i] in JournalSightings(sources.lines) {
      JournalOrigin(sources.lines, own[i]);
      var line :| line in sources.lines && JournalSighting(line) == Some(own[i]);
      BridgeOfLine(line.value, b);
      assert WritesBridge(line, session, b);
    } else {
      MirrorOrigin(sources.mirrors, sources.Providers(), sources.keys, own[i]);
    }
  }

  lemma {:induction false} LastNamedExists(ss: seq<Sighting>) returns (i: int)
    requires forall x <- ss :: x.agent.Some? == x.flags.Some?
    requires exists x <- ss :: x.agent.Some?
    ensures IsLastNamed(ss, i)
  {
    var n := |ss| - 1;
    assert ss[n] in ss;
    if ss[n].agent.Some? {
      i := n;
    } else {
      assert ss == ss[..n] + [ss[n]];
      i := LastNamedExists(ss[..n]);
    }
  }

  /** The record of a session starts at its earliest sighting, and takes agent and flags from its
      last journal sighting, so the placeholder agent never survives. */
  lemma RecordIsFaithful(sources: Sources, session: string) returns (i: int)
    requires sources.Of(session) != []
    ensures sources.RecordOf(session).session == session
    ensures exists x <- sources.All() :: x.session == session && x.ts == sources.RecordOf(session).start
    ensures forall x <- sources.All() :: x.session == session ==> LexLe(sources.RecordOf(session).start, x.ts)
    ensures IsLastNamed(sources.Of(session), i) && sources.Of(session)[i] in JournalSightings(sources.lines)
    ensures sources.RecordOf(session).agent == sources.Of(session)[i].agent.value
    ensures sources.RecordOf(session).flags == sources.Of(session)[i].flags.value
    ensures sources.RecordOf(session).bookmarked
       <==> exists p ::
              FromAgentName(sources.RecordOf(session).agent) == Some(p) && Bookmark(p, session) in sources.bookmarks
  {
    var own := sources.Of(session);
    OwnSightingsAreAll(sources, session);
    RecordOrigin(own);
    assert own[0] in own;
    forall x | x in sources.All() && x.session == session ensures LexLe(own[0].ts, x.ts) {
      assert x in own;
      var k :| 0 <= k < |own| && own[k] == x;
      LexTotal(own[0].ts, own[0].ts);
    }
    SightingsFacts(sources);
    var y :| y in JournalSightings(sources.lines) && y.session == session;
    assert y in sources.All() && y in own;
    i := LastNamedExists(own);
    AgentIsLastNamed(own, i);
    assert own[i] in own;
  }

  // ----- the list as a whole

  lemma {:induction false} FirstSeenIsChronological(ss: seq<Sighting>)
    requires Sorted(ss)
    ensures forall s <- FirstSeen(ss) :: Restrict(ss, s) != []
    ensures forall i, j :: 0 <= i < j < |FirstSeen(ss)| ==>
              LexLe(Restrict(ss, FirstSeen(ss)[i])[0].ts, Restrict(ss, FirstSeen(ss)[j])[0].ts)
  {
    FirstSeenMembers(ss);
    if ss == [] {
    } else {
      var before, last := ss[..|ss| - 1], ss[|ss| - 1];
      assert ss == before + [last];
      FirstSeenIsChronological(before);
      forall s | Restrict(before, s) != []
        ensures Restrict(ss, s) != [] && Restrict(ss, s)[0] == Restrict(before, s)[0]
        ensures LexLe(Restrict(before, s)[0].ts, last.ts)
      {
        RestrictExtends(before, last, s);
        FilterMembers(OfSession(s), before);
        assert Restrict(before, s)[0] in before;
      }
      FirstSeenMembers(before);
      RestrictExtends(before, last, last.session);
    }
  }

  lemma RecordOwnOrigin(sources: Sources, session: string)
    requires sources.Of(session) != []
    ensures sources.RecordOf(session).session == session
    ensures sources.RecordOf(session).start == sources.Of(session)[0].ts
  {
    var own := sources.Of(session);
    OwnSightingsAreAll(sources, session);
    RecordOrigin(own);
    assert own[0] in own;
  }

  lemma AllRecordsAt(sources: Sources, i: nat)
    requires i < |sources.Order()|
    ensures var session := sources.Order()[i];
            && session in AllRecords(sources) && sources.Of(session) != []
            && AllRecords(sources)[session].session == session
            && AllRecords(sources)[session].start == sources.Of(session)[0].ts
  {
    AllRecordsCover(sources);
    RecordOwnOrigin(sources, sources.Order()[i]);
  }

  lemma OrderIsChronological(sources: Sources, i: nat, j: nat)
    requires i < j < |sources.Order()|
    ensures var a, b := sources.Order()[i], sources.Order()[j];
            a != b && sources.Of(a) != [] && sources.Of(b) != [] && LexLe(sources.Of(a)[0].ts, sources.Of(b)[0].ts)
  {
    SortSorts(sources.All());
    FirstSeenIsChronological(Sort(sources.All()));
    OrderHasSightings(sources);
    assert sources.Order()[i] in sources.Order() && sources.Order()[j] in sources.Order();
  }

  /** Sessions in chronological order, each with its own record. */
  ghost predicate IsChronology(order: seq<string>, records: map<string, Conversation>) {
    && (forall i :: 0 <= i < |order| ==> order[i] in records && records[order[i]].session == order[i])
    && (forall i, j :: 0 <= i < j < |order| ==>
          order[i] != order[j] && LexLe(records[order[i]].start, records[order[j]].start))
  }

  lemma OrderIsChronology(sources: Sources)
    ensures IsChronology(sources.Order(), AllRecords(sources))
  {
    var order, records := sources.Order(), AllRecords(sources);
    forall i | 0 <= i < |order| ensures order[i] in records && records[order[i]].session == order[i] {
      AllRecordsAt(sources, i);
    }
    forall i, j | 0 <= i < j < |order|
      ensures order[i] != order[j] && LexLe(records[order[i]].start, records[order[j]].start)
    {
      AllRecordsAt(sources, i);
      AllRecordsAt(sources, j);
      OrderIsChronological(sources, i, j);
    }
  }

  lemma ReversedIsNewestFirst(order: seq<string>, records: map<string, Conversation>)
    requires IsChronology(order, records)
    ensures var all := Reversed(order, records);
            forall i, j :: 0 <= i < j < |all| ==> all[i].session != all[j].session && LexLe(all[j].start, all[i].start)
  {
  }

  /** The list has no duplicate session and is newest first by start. */
  lemma ListIsNewestFirst(sources: Sources)
    ensures var all := Everything(sources);
            forall i, j :: 0 <= i < j < |all| ==> all[i].session != all[j].session && LexLe(all[j].start, all[i].start)
  {
    OrderIsChronology(sources);
    ReversedIsNewestFirst(sources.Order(), AllRecords(sources));
  }

  lemma ReversedMembers(order: seq<string>, records: map<string, Conversation>, session: string)
    requires IsChronology(order, records)
    ensures (exists c <- Reversed(order, records) :: c.session == session) <==> session in order
  {
    var all := Reversed(order, records);
    if c :| c in all && c.session == session {
      var i :| 0 <= i < |all| && all[i] == c;
      assert order[|all| - 1 - i] == session;
    }
    if session in order {
      var i :| 0 <= i < |order| && order[i] == session;
      assert all[|order| - 1 - i].session == session && all[|order| - 1 - i] in all;
    }
  }

  /** The listed sessions are those the journal names; a session with only a mirror is not listed. */
  lemma ListCoversJournal(sources: Sources, session: string)
    ensures (exists c <- Everything(sources) :: c.session == session)
       <==> (exists x <- JournalSightings(sources.lines) :: x.session == session)
  {
    OrderHasSightings(sources);
    OrderIsChronology(sources);
    ReversedMembers(sources.Order(), AllRecords(sources), session);
    OwnSightingsAreAll(sources, session);
    SightingsFacts(sources);
    if session in sources.Order() {
      assert sources.Of(session)[0] in sources.Of(session);
    }
    if x :| x in JournalSightings(sources.lines) && x.session == session {
      assert x in sources.All() && x in sources.Of(session);
    }
  }

  function Bookmarked(all: seq<Conversation>): seq<Conversation> {
    if all == [] then [] else (if all[0].bookmarked then [all[0]] else []) + Bookmarked(all[1..])
  }

  /** The result is the newest `limit` records, then every older bookmarked one, in order. */
  lemma {:induction false} KeepIsNewestPlusBookmarked(all: seq<Conversation>, limit: nat)
    ensures Keep(all, limit) == if |all| <= limit then all else all[..limit] + Bookmarked(all[limit..])
  {
    if all == [] {
    } else {
      KeepIsNewestPlusBookmarked(all[1..], if limit == 0 then 0 else limit - 1);
      if limit == 0 {
        assert all[1..][..0] == [] && all[1..][0..] == all[1..] && all[0..] == all;
      } else if |all| > limit {
        assert all[1..][limit - 1..] == all[limit..];
        assert [all[0]] + all[1..][..limit - 1] == all[..limit];
      }
    }
  }
}
