/** Reconciling a pane's saved command with the registry, the tombstones and the journal. */
module Restore {
  import opened Text
  import opened Launch

  /** A point in time, in nanoseconds. */
  type Time = int

  const LATE_REMOVAL_WINDOW: Time := 10 * 60 * 1_000_000_000

  /** A journal line: one that is not UTF-8, one that is no record, or a record, whose `time` is its
      timestamp if that parses. */
  datatype JournalLine = NotText | Malformed | Line(pane: Option<string>, op: string, time: Option<Time>)

  /** What is on disk. A tombstone holds its removal time if that is readable. */
  datatype Disk = Disk(
    registry: map<string, string>,
    tombstones: map<string, Option<Time>>,
    journal: Option<seq<JournalLine>>)
  {
    /** `read_to_string(..).ok()`: nothing at all if some line is not text. */
    function Lines(): seq<JournalLine> {
      if journal.None? || NotText in journal.value then [] else journal.value
    }
  }

  predicate IsFor(line: JournalLine, pane: string) {
    line.Line? && line.pane == Some(pane)
  }

  /** `lines().rev().find_map(..)`. */
  function LatestFor(lines: seq<JournalLine>, pane: string): (r: Option<JournalLine>)
    ensures r.Some? ==> r.value.Line?
  {
    if lines == [] then None
    else if IsFor(lines[|lines| - 1], pane) then Some(lines[|lines| - 1])
    else LatestFor(lines[..|lines| - 1], pane)
  }

  /** `Some` if the pane's session was recorded as removed, with the time if it is readable. */
  function RemovalRecord(disk: Disk, pane: string): Option<Option<Time>> {
    if pane in disk.tombstones then Some(disk.tombstones[pane])
    else
      match LatestFor(disk.Lines(), pane)
      case None => None
      case Some(line) => if line.op == "remove" then Some(line.time) else None
  }

  predicate WasLateShutdownHook(removed: Option<Time>, launch: Option<Time>) {
    && removed.Some? && launch.Some?
    && removed.value <= launch.value
    && launch.value - removed.value <= LATE_REMOVAL_WINDOW
  }

  function ResolveOnRestore(disk: Disk, pane: string, saved: Option<string>, launch: Option<Time>): Option<string> {
    if pane in disk.registry then Some(NormalizeRestoreCommand(disk.registry[pane]))
    else
      var command := if saved.Some? then Some(NormalizeRestoreCommand(saved.value)) else None;
      var removal := RemovalRecord(disk, pane);
      if removal.Some? && (command.None? || !WasLateShutdownHook(removal.value, launch)) then None else command
  }

  // ----- decisions are local

  /** The pane's own journal subsequence. */
  function Own(lines: seq<JournalLine>, pane: string): (r: seq<JournalLine>)
    ensures forall i :: 0 <= i < |r| ==> IsFor(r[i], pane)
  {
    if lines == [] then []
    else
      Own(lines[..|lines| - 1], pane)
      + if IsFor(lines[|lines| - 1], pane) then [lines[|lines| - 1]] else []
  }

  lemma {:induction false} LatestIsLastOwn(lines: seq<JournalLine>, pane: string)
    ensures LatestFor(lines, pane)
         == if Own(lines, pane) == [] then None else Some(Own(lines, pane)[|Own(lines, pane)| - 1])
  {
    if lines == [] {
    } else {
      LatestIsLastOwn(lines[..|lines| - 1], pane);
    }
  }

  lemma {:induction false} OwnConcat(a: seq<JournalLine>, b: seq<JournalLine>, pane: string)
    ensures Own(a + b, pane) == Own(a, pane) + Own(b, pane)
  {
    if b == [] {
      assert a + b == a;
    } else {
      assert (a + b)[..|a + b| - 1] == a + b[..|b| - 1];
      OwnConcat(a, b[..|b| - 1], pane);
    }
  }

  /** What the pane itself left behind. */
  ghost predicate SameForPane(a: Disk, b: Disk, pane: string) {
    && (pane in a.registry <==> pane in b.registry)
    && (pane in a.registry ==> a.registry[pane] == b.registry[pane])
    && (pane in a.tombstones <==> pane in b.tombstones)
    && (pane in a.tombstones ==> a.tombstones[pane] == b.tombstones[pane])
    && Own(a.Lines(), pane) == Own(b.Lines(), pane)
  }

  /** The decision depends only on the pane's registry entry, tombstone and journal subsequence. */
  lemma RestoreIsLocal(a: Disk, b: Disk, pane: string, saved: Option<string>, launch: Option<Time>)
    requires SameForPane(a, b, pane)
    ensures ResolveOnRestore(a, pane, saved, launch) == ResolveOnRestore(b, pane, saved, launch)
  {
    LatestIsLastOwn(a.Lines(), pane);
    LatestIsLastOwn(b.Lines(), pane);
  }

  lemma NoiseAddsNothing(before: seq<JournalLine>, noise: seq<JournalLine>, after: seq<JournalLine>, pane: string)
    requires forall line <- noise :: !IsFor(line, pane)
    ensures Own(before + noise + after, pane) == Own(before + after, pane)
  {
    NoiseOwnsNothing(noise, pane);
    OwnConcat(before + noise, after, pane);
    OwnConcat(before, noise, pane);
    OwnConcat(before, after, pane);
    assert Own(before, pane) + [] == Own(before, pane);
  }

  /** The journal alone keeps the saved command from being restored. */
  ghost predicate JournalDecides(disk: Disk, pane: string, saved: Option<string>, launch: Option<Time>) {
    && pane !in disk.registry && pane !in disk.tombstones && saved.Some?
    && WasRemoved(disk, pane) && !WasLateShutdownHook(RemovalTime(disk, pane), launch)
  }

  /** Lines of other panes and lines that are no records, wherever they stand, change nothing, unless
      one of them is not text and the journal alone decides: then the whole journal is lost. */
  lemma OtherLinesAreIgnored(disk: Disk, before: seq<JournalLine>, noise: seq<JournalLine>, after: seq<JournalLine>,
                             pane: string, saved: Option<string>, launch: Option<Time>)
    requires forall line <- noise :: !IsFor(line, pane)
    ensures ResolveOnRestore(disk.(journal := Some(before + noise + after)), pane, saved, launch)
         == ResolveOnRestore(disk.(journal := Some(before + after)), pane, saved, launch)
       <==> NotText !in noise || !JournalDecides(disk.(journal := Some(before + after)), pane, saved, launch)
  {
    var noisy, quiet := disk.(journal := Some(before + noise + after)), disk.(journal := Some(before + after));
    NoiseAddsNothing(before, noise, after, pane);
    if NotText !in noise {
      RestoreIsLocal(noisy, quiet, pane, saved, launch);
    } else {
      assert NotText in before + noise + after && noisy.Lines() == [];
      LatestIsLastOwn(quiet.Lines(), pane);
    }
  }

  /** A line that is not text brings back a session whose removal only the journal records. */
  lemma NotTextResurrects(pane: string, command: string, launch: Option<Time>)
    ensures var removed := Disk(map[], map[], Some([Line(Some(pane), "remove", None)]));
            && ResolveOnRestore(removed, pane, Some(command), launch) == None
            && ResolveOnRestore(removed.(journal := Some([Line(Some(pane), "remove", None), NotText])),
                                pane, Some(command), launch) == Some(NormalizeRestoreCommand(command))
  {
    var line := Line(Some(pane), "remove", None);
    assert [line, NotText][1] == NotText;
  }

  lemma {:induction false} NoiseOwnsNothing(noise: seq<JournalLine>, pane: string)
    requires forall line <- noise :: !IsFor(line, pane)
    ensures Own(noise, pane) == []
  {
    if noise == [] {
    } else {
      assert noise[|noise| - 1] in noise;
      NoiseOwnsNothing(noise[..|noise| - 1], pane);
    }
  }

  // ----- and never resurrect

  /** The pane's session was removed: a tombstone stands, or its last journal line is a removal. */
  ghost predicate WasRemoved(disk: Disk, pane: string) {
    var own := Own(disk.Lines(), pane);
    pane in disk.tombstones || (own != [] && own[|own| - 1].op == "remove")
  }

  ghost function RemovalTime(disk: Disk, pane: string): Option<Time>
    requires WasRemoved(disk, pane)
  {
    var own := Own(disk.Lines(), pane);
    if pane in disk.tombstones then disk.tombstones[pane] else own[|own| - 1].time
  }

  /** Without a registry entry the result is the saved command exactly if there is one and the
      session was not removed, or was removed at a readable time at most ten minutes before the
      updater launched; a removed session is never resurrected otherwise. */
  lemma NeverResurrects(disk: Disk, pane: string, saved: Option<string>, launch: Option<Time>)
    requires pane !in disk.registry
    ensures ResolveOnRestore(disk, pane, saved, launch).Some?
       <==> saved.Some? && (WasRemoved(disk, pane) ==>
                              && RemovalTime(disk, pane).Some? && launch.Some?
                              && 0 <= launch.value - RemovalTime(disk, pane).value <= 600_000_000_000)
    ensures ResolveOnRestore(disk, pane, saved, launch).Some? ==>
              ResolveOnRestore(disk, pane, saved, launch) == Some(NormalizeRestoreCommand(saved.value))
  {
    LatestIsLastOwn(disk.Lines(), pane);
  }

  /** Whatever is restored names the session of the command it came from: the registry's if there
      is one, else the saved one. */
  lemma RestoredSessionIsStored(disk: Disk, pane: string, saved: Option<string>, launch: Option<Time>)
    requires ResolveOnRestore(disk, pane, saved, launch).Some?
    ensures pane in disk.registry || saved.Some?
    ensures var stored := if pane in disk.registry then disk.registry[pane] else saved.value;
            SeedOf(ResolveOnRestore(disk, pane, saved, launch).value) == SeedOf(stored)
  {
    NormalizeKeepsLaunch(if pane in disk.registry then disk.registry[pane] else saved.value);
  }

  // ----- what is restored, in strings

  ghost predicate IsRestoredAs(command: string, restored: string) {
    exists front, text, back :: IsTrimmed(command, front, text, back) && restored == Rebranded(command, text)
  }

  lemma NormalizedIsRestored(command: string)
    ensures IsRestoredAs(command, NormalizeRestoreCommand(command))
  {
    var front, text, back := TrimmedForm(command);
    NormalizeIs(command, front, text, back);
  }

  /** A registered pane is restored from the registry, whatever is saved and whatever else the disk
      says of it; any other pane, if at all, from what is saved. */
  lemma RegistryWins(disk: Disk, pane: string, saved: Option<string>, launch: Option<Time>)
    ensures pane in disk.registry ==>
              && ResolveOnRestore(disk, pane, saved, launch).Some?
              && IsRestoredAs(disk.registry[pane], ResolveOnRestore(disk, pane, saved, launch).value)
    ensures pane !in disk.registry && ResolveOnRestore(disk, pane, saved, launch).Some? ==>
              saved.Some? && IsRestoredAs(saved.value, ResolveOnRestore(disk, pane, saved, launch).value)
  {
    if pane in disk.registry {
      NormalizedIsRestored(disk.registry[pane]);
    } else if saved.Some? {
      NormalizedIsRestored(saved.value);
    }
  }
}
