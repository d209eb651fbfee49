/** What a listed conversation says, in terms of journal lines and mirror files. */
module Records {
  import opened Text
  import opened Order
  import opened Collections
  import opened Launch
  import opened Sightings
  import opened Conversations
  import Mirror

  // ----- the latest of some sightings

  /** The latest in time and, at one time, in reading order. */
  function Latest(p: Sighting -> bool, ss: seq<Sighting>): Option<Sighting> {
    if ss == [] then None
    else
      var before, last := Latest(p, ss[..|ss| - 1]), ss[|ss| - 1];
      if p(last) && (before.None? || LexLe(before.value.ts, last.ts)) then Some(last) else before
  }

  function LastOf(ss: seq<Sighting>): Option<Sighting> {
    if ss == [] then None else Some(ss[|ss| - 1])
  }

  lemma {:induction false} InsertEnds(s: Sighting, sorted: seq<Sighting>)
    requires Sorted(sorted) && sorted != []
    ensures LastOf(Insert(NoLater, s, sorted))
         == if LexLe(s.ts, sorted[|sorted| - 1].ts) then LastOf(sorted) else Some(s)
  {
    if LexLe(s.ts, sorted[0].ts) {
      LexTotal(sorted[0].ts, sorted[0].ts);
      LexTransitive(s.ts, sorted[0].ts, sorted[|sorted| - 1].ts);
    } else if |sorted| == 1 {
      assert Insert(NoLater, s, sorted[1..]) == [s];
    } else {
      InsertEnds(s, sorted[1..]);
    }
  }

  /** Sorting one more sighting: it ends the list unless the end so far is later. */
  lemma {:induction false} SortExtends(ss: seq<Sighting>, s: Sighting)
    ensures LastOf(Sort(ss + [s]))
         == if ss == [] || LexLe(LastOf(Sort(ss)).GetOr(s).ts, s.ts) then Some(s) else LastOf(Sort(ss))
  {
    if ss == [] {
      assert ss + [s] == [s] && [s][1..] == [];
    } else {
      var h, t := ss[0], ss[1..];
      assert (ss + [s])[1..] == t + [s];
      SortExtends(t, s);
      SortSorts(t);
      SortSorts(t + [s]);
      SortIsThere(t + [s]);
      InsertEnds(h, Sort(t + [s]));
      LexTotal(h.ts, s.ts);
      if t == [] {
        assert Sort(t) == [] && Insert(NoLater, h, []) == [h];
      } else {
        SortIsThere(t);
        var e := Sort(t)[|Sort(t)| - 1];
        InsertEnds(h, Sort(t));
        Between(h, e, s);
      }
    }
  }

  lemma Between(h: Sighting, e: Sighting, s: Sighting)
    ensures LexLe(h.ts, e.ts) && LexLe(e.ts, s.ts) ==> LexLe(h.ts, s.ts)
    ensures LexLe(e.ts, h.ts) && LexLe(h.ts, s.ts) ==> LexLe(e.ts, s.ts)
    ensures LexLe(h.ts, s.ts) && LexLe(s.ts, e.ts) ==> LexLe(h.ts, e.ts)
    ensures LexLe(e.ts, s.ts) && LexLe(s.ts, h.ts) ==> LexLe(e.ts, h.ts)
    ensures LexLe(s.ts, e.ts) && LexLe(e.ts, h.ts) ==> LexLe(s.ts, h.ts)
    ensures (LexLe(h.ts, e.ts) || LexLe(e.ts, h.ts)) && (LexLe(s.ts, e.ts) || LexLe(e.ts, s.ts))
  {
    TimeIsTotalPreorder();
    assert NoLater(h, e) == LexLe(h.ts, e.ts) && NoLater(e, h) == LexLe(e.ts, h.ts);
    assert NoLater(e, s) == LexLe(e.ts, s.ts) && NoLater(s, e) == LexLe(s.ts, e.ts);
    assert NoLater(h, s) == LexLe(h.ts, s.ts) && NoLater(s, h) == LexLe(s.ts, h.ts);
  }

  lemma SortIsThere(ss: seq<Sighting>)
    requires ss != []
    ensures Sort(ss) != []
  {
    SortSorts(ss);
    assert |multiset(Sort(ss))| == |multiset(ss)|;
  }

  /** The latest with a property is the last one with it in sorted order. */
  lemma {:induction false} LatestIsLast(p: Sighting -> bool, ss: seq<Sighting>)
    ensures Latest(p, ss) == LastOf(Filter(p, Sort(ss)))
  {
    SortCommutesWithFilter(p, ss);
    if ss == [] {
    } else {
      var before, last := ss[..|ss| - 1], ss[|ss| - 1];
      LatestIsLast(p, before);
      SortCommutesWithFilter(p, before);
      FilterConcat(p, before, [last]);
      FilterOne(p, last);
      assert ss == before + [last];
      var kept := Filter(p, before);
      if p(last) {
        SortExtends(kept, last);
        if kept != [] {
          SortIsThere(kept);
        }
      } else {
        assert kept + [] == kept;
      }
    }
  }

  // ----- what a record takes from the last sighting that has it

  function HasDirectory(): Sighting -> bool {
    (s: Sighting) => s.cwd.Some?
  }

  function IsNamed(): Sighting -> bool {
    (s: Sighting) => s.agent.Some? && s.flags.Some?
  }

  lemma FilterExtends(p: Sighting -> bool, ss: seq<Sighting>)
    requires ss != []
    ensures Filter(p, ss) == Filter(p, ss[..|ss| - 1]) + if p(ss[|ss| - 1]) then [ss[|ss| - 1]] else []
  {
    assert ss == ss[..|ss| - 1] + [ss[|ss| - 1]];
    FilterConcat(p, ss[..|ss| - 1], [ss[|ss| - 1]]);
    FilterOne(p, ss[|ss| - 1]);
  }

  lemma {:induction false} DirectoryIsLast(ss: seq<Sighting>)
    requires ss != []
    ensures Record(ss).cwd
         == if Filter(HasDirectory(), ss) == [] then None else LastOf(Filter(HasDirectory(), ss)).value.cwd
  {
    FilterExtends(HasDirectory(), ss);
    if |ss| == 1 {
      assert ss[..0] == [];
    } else {
      DirectoryIsLast(ss[..|ss| - 1]);
    }
  }

  lemma {:induction false} NameIsLast(ss: seq<Sighting>)
    requires ss != [] && forall s <- ss :: s.agent.Some? == s.flags.Some?
    ensures Filter(IsNamed(), ss) != [] ==>
              var last := LastOf(Filter(IsNamed(), ss)).value;
              Record(ss).agent == last.agent.GetOr("") && Record(ss).flags == last.flags.GetOr("")
  {
    FilterExtends(IsNamed(), ss);
    assert ss[|ss| - 1] in ss;
    if |ss| == 1 {
      assert ss[..0] == [];
    } else {
      assert forall s <- ss[..|ss| - 1] :: s in ss;
      NameIsLast(ss[..|ss| - 1]);
    }
  }

  lemma {:induction false} NeverResumableYet(ss: seq<Sighting>)
    requires ss != []
    ensures !Record(ss).localResumable
  {
    if |ss| == 1 {
    } else {
      NeverResumableYet(ss[..|ss| - 1]);
    }
  }

  // ----- journal lines

  /** A line that counts as a sighting of the session. */
  predicate NamesSession(line: Option<JournalRecord>, session: string) {
    && line.Some?
    && (line.value.op == "write" || line.value.op == "scrub-bridge")
    && line.value.command.Some?
    && ParseLaunchCommand(line.value.command.value).Some?
    && ParseLaunchCommand(line.value.command.value).value.id == session
  }

  lemma LineIsSeen(line: Option<JournalRecord>, session: string)
    ensures JournalSighting(line).Some? && JournalSighting(line).value.session == session
       <==> NamesSession(line, session)
    ensures NamesSession(line, session) ==>
              var s, launch := JournalSighting(line).value, ParseLaunchCommand(line.value.command.value).value;
              && s.ts == Codes(line.value.ts) && s.agent == Some(launch.agent) && s.flags == Some(launch.flags)
              && s.cwd == if line.value.cwd == Some("") then None else line.value.cwd
  {
  }

  // ----- the latest of some marks

  /** The latest mark: latest in time and, at one time, in the list. */
  function LatestMark<T>(marks: seq<Option<(Timestamp, T)>>): Option<(Timestamp, T)> {
    if marks == [] then None
    else
      var before, mark := LatestMark(marks[..|marks| - 1]), marks[|marks| - 1];
      LaterOf(before, mark)
  }

  /** The later of two marks; at one time the second. */
  function LaterOf<T>(a: Option<(Timestamp, T)>, b: Option<(Timestamp, T)>): Option<(Timestamp, T)> {
    if b.None? || (a.Some? && !LexLe(a.value.0, b.value.0)) then a else b
  }

  /** There is a mark at `k`, and every other is earlier in time or, at the same time, in the list. */
  ghost predicate IsLatestAt<T>(marks: seq<Option<(Timestamp, T)>>, k: int) {
    && 0 <= k < |marks| && marks[k].Some?
    && forall j :: 0 <= j < |marks| && marks[j].Some? ==>
         LexLe(marks[j].value.0, marks[k].value.0) && (marks[j].value.0 == marks[k].value.0 ==> j <= k)
  }

  lemma LatestStays<T>(marks: seq<Option<(Timestamp, T)>>, n: int, k: int)
    requires n == |marks| - 1 >= 0 && IsLatestAt(marks[..n], k)
    requires marks[n].Some? ==> !LexLe(marks[k].value.0, marks[n].value.0)
    ensures IsLatestAt(marks, k)
  {
    if marks[n].Some? {
      LexTotal(marks[k].value.0, marks[n].value.0);
      LexTotal(marks[k].value.0, marks[k].value.0);
    }
  }

  lemma LatestMoves<T>(marks: seq<Option<(Timestamp, T)>>, n: int, k: int)
    requires n == |marks| - 1 >= 0 && IsLatestAt(marks[..n], k)
    requires marks[n].Some? && LexLe(marks[k].value.0, marks[n].value.0)
    ensures IsLatestAt(marks, n)
  {
    LexTotal(marks[n].value.0, marks[n].value.0);
    forall j | 0 <= j < n && marks[j].Some? ensures LexLe(marks[j].value.0, marks[n].value.0) {
      assert marks[..n][j] == marks[j];
      LexTransitive(marks[j].value.0, marks[k].value.0, marks[n].value.0);
    }
  }

  /** That is the mark `LatestMark` finds, and it finds none only if there is none. */
  lemma {:induction false} LatestMarkIs<T>(marks: seq<Option<(Timestamp, T)>>) returns (k: int)
    ensures LatestMark(marks).Some? ==> IsLatestAt(marks, k) && LatestMark(marks) == marks[k]
    ensures LatestMark(marks).None? ==> forall j :: 0 <= j < |marks| ==> marks[j].None?
  {
    k := 0;
    if marks == [] {
    } else {
      var n := |marks| - 1;
      var before := LatestMark(marks[..n]);
      k := LatestMarkIs(marks[..n]);
      assert forall j :: 0 <= j < n ==> marks[..n][j] == marks[j];
      if marks[n].None? {
        if before.Some? {
          LatestStays(marks, n, k);
        }
      } else if before.None? {
        LexTotal(marks[n].value.0, marks[n].value.0);
        k := n;
      } else if LexLe(before.value.0, marks[n].value.0) {
        LatestMoves(marks, n, k);
        k := n;
      } else {
        LatestStays(marks, n, k);
      }
    }
  }

  /** There is at most one latest mark, so it decides. */
  lemma LatestMarkDecides<T>(marks: seq<Option<(Timestamp, T)>>, value: T)
    ensures LatestMark(marks).Some? && LatestMark(marks).value.1 == value
       <==> exists k :: IsLatestAt(marks, k) && marks[k].value.1 == value
  {
    var k := LatestMarkIs(marks);
    forall i | IsLatestAt(marks, i) ensures LatestMark(marks) == marks[i] {
      assert LatestMark(marks).Some?;
      LexAntisymmetric(marks[i].value.0, marks[k].value.0);
    }
  }

  /** The time and the field of a line of the session that has the field. */
  function Mark<T>(line: Option<JournalRecord>, session: string, field: JournalRecord -> Option<T>)
    : Option<(Timestamp, T)>
  {
    if !NamesSession(line, session) || field(line.value).None? then None
    else Some((Codes(line.value.ts), field(line.value).value))
  }

  function Marks<T>(lines: seq<Option<JournalRecord>>, session: string, field: JournalRecord -> Option<T>)
    : seq<Option<(Timestamp, T)>>
  {
    seq(|lines|, i requires 0 <= i < |lines| => Mark(lines[i], session, field))
  }

  /** The field of the latest line of the session that has it, with its time. */
  function LatestLine<T>(lines: seq<Option<JournalRecord>>, session: string, field: JournalRecord -> Option<T>)
    : Option<(Timestamp, T)>
  {
    LatestMark(Marks(lines, session, field))
  }

  lemma LatestLineExtends<T>(lines: seq<Option<JournalRecord>>, session: string, field: JournalRecord -> Option<T>)
    requires lines != []
    ensures var before := LatestLine(lines[..|lines| - 1], session, field);
            var mark := Mark(lines[|lines| - 1], session, field);
            LatestLine(lines, session, field) == LaterOf(before, mark)
  {
    assert Marks(lines, session, field)[..|lines| - 1] == Marks(lines[..|lines| - 1], session, field);
  }

  function Directory(): JournalRecord -> Option<string> {
    (r: JournalRecord) => if r.cwd == Some("") then None else r.cwd
  }

  function LaunchIn(): JournalRecord -> Option<LaunchCommand> {
    (r: JournalRecord) => if r.command.None? then None else ParseLaunchCommand(r.command.value)
  }

  lemma JournalExtends(lines: seq<Option<JournalRecord>>, session: string)
    requires lines != []
    ensures Restrict(JournalSightings(lines), session)
         == Restrict(JournalSightings(lines[..|lines| - 1]), session)
            + if NamesSession(lines[|lines| - 1], session) then [JournalSighting(lines[|lines| - 1]).value] else []
  {
    var before, line := lines[..|lines| - 1], lines[|lines| - 1];
    LineIsSeen(line, session);
    var seen := JournalSighting(line);
    FilterConcat(OfSession(session), JournalSightings(before), if seen.Some? then [seen.value] else []);
    if seen.Some? {
      FilterOne(OfSession(session), seen.value);
    }
  }

  lemma LatestExtends(p: Sighting -> bool, ss: seq<Sighting>, s: Sighting)
    ensures Latest(p, ss + [s])
         == if p(s) && (Latest(p, ss).None? || LexLe(Latest(p, ss).value.ts, s.ts)) then Some(s) else Latest(p, ss)
  {
    assert (ss + [s])[..|ss|] == ss;
  }

  lemma {:induction false} LatestDirectory(lines: seq<Option<JournalRecord>>, session: string)
    ensures SaySame(Latest(HasDirectory(), Restrict(JournalSightings(lines), session)),
                    LatestLine(lines, session, Directory()))
  {
    if lines == [] {
    } else {
      var before, line := lines[..|lines| - 1], lines[|lines| - 1];
      LatestDirectory(before, session);
      JournalExtends(lines, session);
      LatestLineExtends(lines, session, Directory());
      LineIsSeen(line, session);
      var seen := Restrict(JournalSightings(before), session);
      if NamesSession(line, session) {
        LatestExtends(HasDirectory(), seen, JournalSighting(line).value);
      } else {
        assert seen + [] == seen;
      }
    }
  }

  lemma {:induction false} LatestName(lines: seq<Option<JournalRecord>>, session: string)
    ensures var seen, line := Latest(IsNamed(), Restrict(JournalSightings(lines), session)),
                              LatestLine(lines, session, LaunchIn());
            && (seen.Some? <==> line.Some?)
            && (seen.Some? ==> && seen.value.ts == line.value.0
                               && seen.value.agent == Some(line.value.1.agent)
                               && seen.value.flags == Some(line.value.1.flags))
  {
    if lines == [] {
    } else {
      var before, line := lines[..|lines| - 1], lines[|lines| - 1];
      LatestName(before, session);
      JournalExtends(lines, session);
      LatestLineExtends(lines, session, LaunchIn());
      LineIsSeen(line, session);
      var seen := Restrict(JournalSightings(before), session);
      if NamesSession(line, session) {
        LatestExtends(IsNamed(), seen, JournalSighting(line).value);
      } else {
        assert seen + [] == seen;
      }
    }
  }

  // ----- and the mirror

  /** The first record of the session's mirror, if it has a time. */
  ghost function MirrorRecord(sources: Sources, session: string): (r: Option<Mirror.Line>)
    ensures r.Some? ==> r.value.Record? && r.value.ts.Some?
  {
    if session !in sources.Providers() then None
    else
      var mirror := sources.mirrors.Read(sources.Providers()[session], session);
      if mirror.None? || mirror.value.firstRecord.None? then None
      else if mirror.value.firstRecord.value.ts == None || mirror.value.firstRecord.value.ts == Some("") then None
      else mirror.value.firstRecord
  }

  lemma MirrorIsSeen(sources: Sources, session: string)
    ensures var own, record := OwnMirror(sources.mirrors, sources.Providers(), session), MirrorRecord(sources, session);
            if record.None? then own == []
            else
              && |own| == 1 && own[0].ts == Codes(record.value.ts.value) && own[0].agent == None
              && own[0].cwd == if record.value.cwd == Some("") then None else record.value.cwd
  {
  }

  /** The time and directory of the mirror's first record. */
  ghost function MirrorMark(sources: Sources, session: string): Option<(Timestamp, string)> {
    var record := MirrorRecord(sources, session);
    if record.None? || record.value.cwd.None? || record.value.cwd == Some("") then None
    else Some((Codes(record.value.ts.value), record.value.cwd.value))
  }

  /** The directories recorded for a session: those of its journal lines, then that of its mirror. */
  ghost function DirectoryMarks(sources: Sources, session: string): seq<Option<(Timestamp, string)>> {
    Marks(sources.lines, session, Directory()) + [MirrorMark(sources, session)]
  }

  ghost function DirectoryOf(sources: Sources, session: string): Option<string> {
    var latest := LatestMark(DirectoryMarks(sources, session));
    if latest.Some? then Some(latest.value.1) else None
  }

  /** A sighting and a mark that say the same. */
  ghost predicate SaySame(seen: Option<Sighting>, mark: Option<(Timestamp, string)>) {
    && (seen.Some? <==> mark.Some?)
    && (seen.Some? ==> seen.value.ts == mark.value.0 && seen.value.cwd == Some(mark.value.1))
  }

  lemma LaterSaySame(seen: seq<Sighting>, own: seq<Sighting>, a: Option<(Timestamp, string)>,
                     b: Option<(Timestamp, string)>)
    requires SaySame(Latest(HasDirectory(), seen), a)
    requires if own == [] then b.None? else |own| == 1 && SaySame(if own[0].cwd.Some? then Some(own[0]) else None, b)
    ensures SaySame(Latest(HasDirectory(), seen + own), LaterOf(a, b))
  {
    if own == [] {
      assert seen + own == seen;
    } else {
      assert own == [own[0]];
      LatestExtends(HasDirectory(), seen, own[0]);
    }
  }

  lemma MarksEnd(sources: Sources, session: string)
    ensures LatestMark(DirectoryMarks(sources, session))
         == LaterOf(LatestLine(sources.lines, session, Directory()), MirrorMark(sources, session))
  {
    var marks := Marks(sources.lines, session, Directory());
    assert DirectoryMarks(sources, session)[..|marks|] == marks;
  }

  lemma LatestSeenDirectory(sources: Sources, session: string, seen: seq<Sighting>, own: seq<Sighting>)
    requires seen == Restrict(JournalSightings(sources.lines), session)
    requires own == OwnMirror(sources.mirrors, sources.Providers(), session)
    ensures SaySame(Latest(HasDirectory(), seen + own), LatestMark(DirectoryMarks(sources, session)))
  {
    LatestDirectory(sources.lines, session);
    MirrorIsSeen(sources, session);
    MarksEnd(sources, session);
    LaterSaySame(seen, own, LatestLine(sources.lines, session, Directory()), MirrorMark(sources, session));
  }

  lemma RecordDirectory(sources: Sources, session: string)
    requires sources.Valid() && sources.Of(session) != []
    ensures sources.RecordOf(session).cwd == DirectoryOf(sources, session)
  {
    var seen := Restrict(JournalSightings(sources.lines), session);
    var own := OwnMirror(sources.mirrors, sources.Providers(), session);
    OwnSightings(sources, session);
    DirectoryIsLast(sources.Of(session));
    LatestIsLast(HasDirectory(), seen + own);
    LatestSeenDirectory(sources, session, seen, own);
  }

  lemma RecordName(sources: Sources, session: string)
    requires sources.Valid() && sources.Of(session) != []
    ensures var line := LatestLine(sources.lines, session, LaunchIn());
            && line.Some?
            && sources.RecordOf(session).agent == line.value.1.agent
            && sources.RecordOf(session).flags == line.value.1.flags
  {
    var seen := Restrict(JournalSightings(sources.lines), session);
    var own := OwnMirror(sources.mirrors, sources.Providers(), session);
    OwnSightings(sources, session);
    OwnSightingsAreAll(sources, session);
    SightingsFacts(sources);
    NameIsLast(sources.Of(session));
    LatestIsLast(IsNamed(), seen + own);
    LatestName(sources.lines, session);
    MirrorIsSeen(sources, session);
    if own == [] {
      assert seen + own == seen;
    } else {
      assert own == [own[0]];
      LatestExtends(IsNamed(), seen, own[0]);
    }
    NamedLineExists(sources, session);
  }

  lemma NamedLineExists(sources: Sources, session: string)
    requires sources.Of(session) != []
    ensures Filter(IsNamed(), sources.Of(session)) != []
  {
    OwnSightingsAreAll(sources, session);
    SightingsFacts(sources);
    var x := sources.Of(session)[0];
    assert x in sources.Of(session);
    var y :| y in JournalSightings(sources.lines) && y.session == x.session;
    assert y in sources.All() && y in sources.Of(session);
    FilterMembers(IsNamed(), sources.Of(session));
  }

  /** What a listed conversation says: the directory is that of the latest line or mirror record of
      the session that has one, agent and flags are those of the command on its latest line, and the
      first prompt is that of its mirror, excerpted. */
  lemma RecordStates(sources: Sources, session: string)
    requires sources.Valid() && sources.Of(session) != []
    ensures sources.RecordOf(session).session == session
    ensures forall d :: sources.RecordOf(session).cwd == Some(d) <==> exists k ::
              IsLatestAt(DirectoryMarks(sources, session), k) && DirectoryMarks(sources, session)[k].value.1 == d
    ensures LatestLine(sources.lines, session, LaunchIn()).Some?
    ensures sources.RecordOf(session).agent == LatestLine(sources.lines, session, LaunchIn()).value.1.agent
    ensures sources.RecordOf(session).flags == LatestLine(sources.lines, session, LaunchIn()).value.1.flags
    ensures sources.RecordOf(session).firstPrompt == FirstPromptOf(sources, session)
    ensures !sources.RecordOf(session).localResumable
  {
    RecordOwnOrigin(sources, session);
    RecordDirectory(sources, session);
    forall d ensures DirectoryOf(sources, session) == Some(d) <==> exists k ::
        IsLatestAt(DirectoryMarks(sources, session), k) && DirectoryMarks(sources, session)[k].value.1 == d
    {
      LatestMarkDecides(DirectoryMarks(sources, session), d);
    }
    RecordName(sources, session);
    NeverResumableYet(sources.Of(session));
  }

  ghost function FirstPromptOf(sources: Sources, session: string): Option<string> {
    if session !in sources.Providers() then None
    else
      match sources.mirrors.Read(sources.Providers()[session], session)
      case None => None
      case Some(mirror) =>
        if mirror.history.prompts == [] then None else Some(sources.mirrors.excerpt(mirror.history.prompts[0].text))
  }
}
