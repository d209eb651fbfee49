/** Provisioning bundled skills over many launches, and migrating them out of a legacy directory. */
module Skills {
  import opened Text
  import opened Order
  import opened Collections

  /** The version in a file's managed marker, if it carries one. Everything here holds for any such
      reading of files. */
  type Versions = string -> Option<seq<nat>>

  datatype Decision = Install | SkipUpToDate | SkipUserOwned

  function Decide(bundled: string, existing: Option<string>, version: Versions): Decision {
    if existing.None? then Install
    else if version(bundled).None? || version(existing.value).None? then SkipUserOwned
    else if LexLess(version(existing.value).value, version(bundled).value) then Install
    else SkipUpToDate
  }

  /** A directory of the bundle, and its `SKILL.md` if that is readable. */
  datatype Entry = Entry(name: string, contents: Option<string>)

  /** A file on disk; one that is not UTF-8 cannot be read as text. */
  datatype File = Text(contents: string) | NotText(bytes: seq<nat>)

  type Dir = map<string, File>

  /** The `SKILL.md` of each skill in the shared and in the legacy directory. */
  datatype Home = Home(shared: Dir, legacy: Dir)

  /** `read_to_string(..).ok()`: nothing if the file is missing or not text. */
  function Read(file: Option<File>): Option<string> {
    if file.Some? && file.value.Text? then Some(file.value.contents) else None
  }

  function VersionOf(file: Option<File>, version: Versions): Option<seq<nat>> {
    if Read(file).None? then None else version(Read(file).value)
  }

  function InstallEntry(shared: Dir, entry: Entry, version: Versions): Dir {
    if entry.contents.Some? && Decide(entry.contents.value, Read(Get(shared, entry.name)), version).Install?
    then shared[entry.name := Text(entry.contents.value)] else shared
  }

  function InstallAll(shared: Dir, entries: seq<Entry>, version: Versions): Dir {
    if entries == [] then shared
    else InstallEntry(InstallAll(shared, entries[..|entries| - 1], version), entries[|entries| - 1], version)
  }

  /** An equal-or-newer managed replacement of a managed legacy file exists. */
  predicate IsMigrated(home: Home, name: string, version: Versions) {
    var legacy, installed := VersionOf(Get(home.legacy, name), version), VersionOf(Get(home.shared, name), version);
    legacy.Some? && installed.Some? && !LexLess(installed.value, legacy.value)
  }

  function RemoveAll(home: Home, entries: seq<Entry>, version: Versions): Dir {
    if entries == [] then home.legacy
    else
      var legacy, name := RemoveAll(home, entries[..|entries| - 1], version), entries[|entries| - 1].name;
      if IsMigrated(Home(home.shared, legacy), name, version) then legacy - {name} else legacy
  }

  datatype Bundle = Bundle(entries: seq<Entry>, agentPresent: bool)
  {
    ghost predicate Valid() {
      forall i, j :: 0 <= i < j < |entries| ==> entries[i].name != entries[j].name
    }
  }

  function Launch(home: Home, bundle: Bundle, version: Versions): Home {
    var shared := if bundle.agentPresent then InstallAll(home.shared, bundle.entries, version) else home.shared;
    Home(shared, RemoveAll(Home(shared, home.legacy), bundle.entries, version))
  }

  /** The skill files of a user, changed in place by each launch. */
  class SkillDirs {
    var home: Home

    constructor (home: Home)
      ensures this.home == home
    {
      this.home := home;
    }

    method InstallSkills(bundle: Bundle, version: Versions)
      modifies this
      ensures home.legacy == old(home.legacy)
      ensures home.shared
           == if bundle.agentPresent then InstallAll(old(home.shared), bundle.entries, version) else old(home.shared)
    {
      if !bundle.agentPresent {
        return;
      }
      var entries := bundle.entries;
      for i := 0 to |entries|
        invariant home.legacy == old(home.legacy)
        invariant home.shared == InstallAll(old(home.shared), entries[..i], version)
      {
        assert entries[..i + 1][..i] == entries[..i];
        if entries[i].contents.None? {
          continue;
        }
        var bundled := entries[i].contents.value;
        if !Decide(bundled, Read(Get(home.shared, entries[i].name)), version).Install? {
          continue;
        }
        home := home.(shared := home.shared[entries[i].name := Text(bundled)]);
      }
      assert entries[..|entries|] == entries;
    }

    method RemoveMigrated(bundle: Bundle, version: Versions)
      modifies this
      ensures home.shared == old(home.shared)
      ensures home.legacy == RemoveAll(old(home), bundle.entries, version)
    {
      var entries := bundle.entries;
      for i := 0 to |entries|
        invariant home.shared == old(home.shared)
        invariant home.legacy == RemoveAll(old(home), entries[..i], version)
      {
        assert entries[..i + 1][..i] == entries[..i];
        var name := entries[i].name;
        var legacy, installed := Read(Get(home.legacy, name)), Read(Get(home.shared, name));
        if legacy.None? || installed.None? {
          continue;
        }
        var legacyVersion, installedVersion := version(legacy.value), version(installed.value);
        if legacyVersion.None? || installedVersion.None? {
          continue;
        }
        if LexLess(installedVersion.value, legacyVersion.value) {
          continue;
        }
        home := home.(legacy := home.legacy - {name});
      }
      assert entries[..|entries|] == entries;
    }

    method InstallBundledSkills(bundle: Bundle, version: Versions)
      modifies this
      ensures home == Launch(old(home), bundle, version)
    {
      InstallSkills(bundle, version);
      RemoveMigrated(bundle, version);
    }
  }

  // ----- a launch, skill by skill

  /** What a launch leaves of one skill in the shared directory. */
  function SharedAfter(before: Option<File>, bundled: Option<string>, version: Versions): Option<File> {
    if bundled.Some? && Decide(bundled.value, Read(before), version).Install? then Some(Text(bundled.value)) else before
  }

  function Bundled(entries: seq<Entry>, name: string): Option<string> {
    if entries == [] then None
    else if entries[|entries| - 1].name == name then entries[|entries| - 1].contents
    else Bundled(entries[..|entries| - 1], name)
  }

  /** The text a launch would install for a skill, if the agent is present. */
  function Offered(bundle: Bundle, name: string): Option<string> {
    if bundle.agentPresent then Bundled(bundle.entries, name) else None
  }

  predicate Lists(entries: seq<Entry>, name: string) {
    exists e <- entries :: e.name == name
  }

  lemma {:induction false} InstallIsPerSkill(shared: Dir, entries: seq<Entry>, version: Versions, name: string)
    requires Bundle(entries, true).Valid()
    ensures Get(InstallAll(shared, entries, version), name)
         == SharedAfter(Get(shared, name), Bundled(entries, name), version)
    ensures !Lists(entries, name) ==> Bundled(entries, name).None?
  {
    if entries == [] {
    } else {
      var before, last := entries[..|entries| - 1], entries[|entries| - 1];
      InstallIsPerSkill(shared, before, version, name);
      if last.name == name {
        assert !Lists(before, name);
      }
      assert last in entries && forall e <- before :: e in entries;
    }
  }

  lemma {:induction false} RemoveIsPerSkill(home: Home, entries: seq<Entry>, version: Versions, name: string)
    ensures Get(RemoveAll(home, entries, version), name)
         == if Lists(entries, name) && IsMigrated(home, name, version) then None else Get(home.legacy, name)
  {
    if entries == [] {
    } else {
      var before, last := entries[..|entries| - 1], entries[|entries| - 1];
      RemoveIsPerSkill(home, before, version, name);
      assert entries == before + [last];
      assert Lists(entries, name) <==> Lists(before, name) || last.name == name;
    }
  }

  lemma LaunchIsPerSkill(home: Home, bundle: Bundle, version: Versions, name: string)
    requires bundle.Valid()
    ensures var home' := Launch(home, bundle, version);
            && Get(home'.shared, name)
               == SharedAfter(Get(home.shared, name), Offered(bundle, name), version)
            && Get(home'.legacy, name)
               == if Lists(bundle.entries, name) && IsMigrated(Home(home'.shared, home.legacy), name, version)
                  then None else Get(home.legacy, name)
  {
    InstallIsPerSkill(home.shared, bundle.entries, version, name);
    RemoveIsPerSkill(Home(Launch(home, bundle, version).shared, home.legacy), bundle.entries, version, name);
  }

  // ----- what every launch keeps

  /** A file without a marker belongs to the user, also if it is not text. */
  predicate IsUserOwned(file: Option<File>, version: Versions) {
    file.Some? && VersionOf(file, version).None?
  }

  /** The greater of two optional versions; a missing one is below every other. */
  function Greater(a: Option<seq<nat>>, b: Option<seq<nat>>): Option<seq<nat>> {
    if a.None? then b else if b.None? || LexLe(b.value, a.value) then a else b
  }

  predicate AtMost(a: Option<seq<nat>>, b: Option<seq<nat>>) {
    a.None? || (b.Some? && LexLe(a.value, b.value))
  }

  /** The greatest managed version of a skill in either location. */
  function Best(home: Home, name: string, version: Versions): Option<seq<nat>> {
    Greater(VersionOf(Get(home.shared, name), version), VersionOf(Get(home.legacy, name), version))
  }

  lemma AtMostTransitive(a: Option<seq<nat>>, b: Option<seq<nat>>, c: Option<seq<nat>>)
    requires AtMost(a, b) && AtMost(b, c)
    ensures AtMost(a, c)
  {
    if a.Some? {
      LexTransitive(a.value, b.value, c.value);
    }
  }

  lemma GreaterIsBound(a: Option<seq<nat>>, b: Option<seq<nat>>)
    ensures AtMost(a, Greater(a, b)) && AtMost(b, Greater(a, b)) && (Greater(a, b) == a || Greater(a, b) == b)
  {
    if a.Some? {
      LexTotal(a.value, a.value);
    }
    if b.Some? {
      LexTotal(b.value, b.value);
    }
    if a.Some? && b.Some? {
      LexTotal(a.value, b.value);
    }
  }

  /** The shared copy only ever moves to a greater version, and a user's file moves exactly if it is
      not text and the skill is bundled. */
  lemma SharedNeverDowngrades(before: Option<File>, bundled: Option<string>, version: Versions)
    ensures AtMost(VersionOf(before, version), VersionOf(SharedAfter(before, bundled, version), version))
    ensures IsUserOwned(before, version) ==>
              (SharedAfter(before, bundled, version) == before <==> before.value.Text? || bundled.None?)
  {
    if VersionOf(before, version).Some? {
      var existing := VersionOf(before, version).value;
      LexTotal(existing, existing);
      if bundled.Some? && version(bundled.value).Some? {
        LexTotal(existing, version(bundled.value).value);
      }
    }
  }

  lemma BestNeverDecreases(home: Home, bundle: Bundle, version: Versions, name: string)
    requires bundle.Valid()
    ensures AtMost(Best(home, name, version), Best(Launch(home, bundle, version), name, version))
  {
    var home' := Launch(home, bundle, version);
    LaunchIsPerSkill(home, bundle, version, name);
    SharedNeverDowngrades(Get(home.shared, name), Offered(bundle, name), version);
    var shared, shared' := VersionOf(Get(home.shared, name), version), VersionOf(Get(home'.shared, name), version);
    var legacy, legacy' := VersionOf(Get(home.legacy, name), version), VersionOf(Get(home'.legacy, name), version);
    GreaterIsBound(shared, legacy);
    GreaterIsBound(shared', legacy');
    AtMostTransitive(shared, shared', Best(home', name, version));
    if legacy' != legacy {
      assert AtMost(legacy, shared');
      AtMostTransitive(legacy, shared', Best(home', name, version));
    }
  }

  function Launches(home: Home, bundles: seq<Bundle>, version: Versions): Home {
    if bundles == [] then home
    else Launch(Launches(home, bundles[..|bundles| - 1], version), bundles[|bundles| - 1], version)
  }

  /** Over any sequence of launches with any bundles: the greatest managed version of a skill across
      both locations never decreases, and a legacy file of the user never changes. */
  lemma {:induction false} LaunchesKeep(home: Home, bundles: seq<Bundle>, version: Versions, name: string)
    requires forall b <- bundles :: b.Valid()
    ensures var home' := Launches(home, bundles, version);
            && (IsUserOwned(Get(home.legacy, name), version) ==> Get(home'.legacy, name) == Get(home.legacy, name))
            && AtMost(Best(home, name, version), Best(home', name, version))
  {
    if bundles == [] {
      GreaterIsBound(Best(home, name, version), Best(home, name, version));
    } else {
      var before, last := bundles[..|bundles| - 1], bundles[|bundles| - 1];
      assert last in bundles;
      LaunchesKeep(home, before, version, name);
      var middle := Launches(home, before, version);
      BestNeverDecreases(middle, last, version, name);
      LaunchIsPerSkill(middle, last, version, name);
      AtMostTransitive(Best(home, name, version), Best(middle, name, version),
                       Best(Launch(middle, last, version), name, version));
    }
  }

  lemma LaunchesExtend(home: Home, bundles: seq<Bundle>, version: Versions, name: string)
    requires bundles != [] && forall b <- bundles :: b.Valid()
    ensures Get(Launches(home, bundles, version).shared, name)
         == SharedAfter(Get(Launches(home, bundles[..|bundles| - 1], version).shared, name),
                        Offered(bundles[|bundles| - 1], name), version)
  {
    assert bundles[|bundles| - 1] in bundles;
    LaunchIsPerSkill(Launches(home, bundles[..|bundles| - 1], version), bundles[|bundles| - 1], version, name);
  }

  /** No launch writes a file that is not text, so one that is replaced does not come back. */
  lemma {:induction false} TextStaysText(home: Home, bundles: seq<Bundle>, version: Versions, name: string, k: nat)
    requires k <= |bundles| && forall b <- bundles :: b.Valid()
    requires Read(Get(Launches(home, bundles[..k], version).shared, name)).Some?
    ensures Read(Get(Launches(home, bundles, version).shared, name)).Some?
  {
    if k == |bundles| {
      assert bundles[..k] == bundles;
    } else {
      var before := bundles[..|bundles| - 1];
      assert before[..k] == bundles[..k];
      TextStaysText(home, before, version, name, k);
      LaunchesExtend(home, bundles, version, name);
    }
  }

  /** A shared file of the user survives any sequence of launches exactly if it is text or no launch
      offers that skill. */
  lemma {:induction false} UserFileSurvives(home: Home, bundles: seq<Bundle>, version: Versions, name: string)
    requires IsUserOwned(Get(home.shared, name), version) && forall b <- bundles :: b.Valid()
    ensures Get(Launches(home, bundles, version).shared, name) == Get(home.shared, name)
       <==> home.shared[name].Text? || forall b <- bundles :: Offered(b, name).None?
  {
    if bundles == [] {
      assert Launches(home, bundles, version) == home;
    } else {
      var before, last := bundles[..|bundles| - 1], bundles[|bundles| - 1];
      var middle := Launches(home, before, version);
      assert bundles == before + [last] && last in bundles;
      UserFileSurvives(home, before, version, name);
      LaunchesExtend(home, bundles, version, name);
      if Get(middle.shared, name) == Get(home.shared, name) {
        SharedNeverDowngrades(Get(middle.shared, name), Offered(last, name), version);
      } else {
        ReplacedIsText(home, before, version, name);
        TextStaysText(home, bundles, version, name, |before|);
      }
    }
  }

  lemma {:induction false} ReplacedIsText(home: Home, bundles: seq<Bundle>, version: Versions, name: string)
    requires forall b <- bundles :: b.Valid()
    requires Get(Launches(home, bundles, version).shared, name) != Get(home.shared, name)
    ensures Read(Get(Launches(home, bundles, version).shared, name)).Some?
  {
    if bundles == [] {
    } else {
      LaunchesExtend(home, bundles, version, name);
      var before := bundles[..|bundles| - 1];
      if Get(Launches(home, before, version).shared, name) != Get(home.shared, name) {
        ReplacedIsText(home, before, version, name);
      }
    }
  }

  lemma SharedSettles(before: Option<File>, bundled: Option<string>, version: Versions)
    ensures SharedAfter(SharedAfter(before, bundled, version), bundled, version)
         == SharedAfter(before, bundled, version)
  {
    if bundled.Some? && version(bundled.value).Some? {
      LexTotal(version(bundled.value).value, version(bundled.value).value);
    }
  }

  lemma MapsEqual(a: Dir, b: Dir)
    requires forall name :: Get(a, name) == Get(b, name)
    ensures a == b
  {
    assert forall name :: name in a <==> name in b by {
      forall name ensures name in a <==> name in b {
        assert Get(a, name) == Get(b, name);
      }
    }
    forall name | name in a ensures a[name] == b[name] {
      assert Get(a, name) == Get(b, name);
    }
  }

  /** Launching again with the same bundle is a no-op. */
  lemma RelaunchIsNoOp(home: Home, bundle: Bundle, version: Versions)
    requires bundle.Valid()
    ensures Launch(Launch(home, bundle, version), bundle, version) == Launch(home, bundle, version)
  {
    var once := Launch(home, bundle, version);
    var twice := Launch(once, bundle, version);
    forall name ensures Get(twice.shared, name) == Get(once.shared, name) {
      LaunchIsPerSkill(home, bundle, version, name);
      LaunchIsPerSkill(once, bundle, version, name);
      SharedSettles(Get(home.shared, name), Offered(bundle, name), version);
    }
    MapsEqual(twice.shared, once.shared);
    forall name ensures Get(twice.legacy, name) == Get(once.legacy, name) {
      LaunchIsPerSkill(home, bundle, version, name);
      LaunchIsPerSkill(once, bundle, version, name);
    }
    MapsEqual(twice.legacy, once.legacy);
  }

  /** A managed legacy copy goes away exactly when the launch lists it and the shared directory then
      holds an equal or newer managed copy. */
  lemma MigrationRemovesExactly(home: Home, bundle: Bundle, version: Versions, name: string)
    requires bundle.Valid() && name in home.legacy
    ensures name !in Launch(home, bundle, version).legacy
       <==> && Lists(bundle.entries, name)
            && VersionOf(Get(home.legacy, name), version).Some?
            && AtMost(VersionOf(Get(home.legacy, name), version),
                      VersionOf(Get(Launch(home, bundle, version).shared, name), version))
  {
    LaunchIsPerSkill(home, bundle, version, name);
  }


  /** A user's file that is not text is replaced as soon as its skill is offered. */
  lemma NotTextIsReplaced(bytes: seq<nat>, name: string, contents: string, version: Versions)
    ensures var home := Home(map[name := NotText(bytes)], map[]);
            var bundle := Bundle([Entry(name, Some(contents))], true);
            && bundle.Valid()
            && IsUserOwned(Get(home.shared, name), version)
            && Get(Launch(home, bundle, version).shared, name) == Some(Text(contents))
  {
    var home := Home(map[name := NotText(bytes)], map[]);
    var bundle := Bundle([Entry(name, Some(contents))], true);
    LaunchIsPerSkill(home, bundle, version, name);
  }

  // ----- one directory for both

  /** A launch where the legacy directory is the shared one, as with `CODEX_HOME` at `~/.agents`. */
  function AliasedLaunch(dir: Dir, bundle: Bundle, version: Versions): Dir {
    var installed := if bundle.agentPresent then InstallAll(dir, bundle.entries, version) else dir;
    RemoveAll(Home(installed, installed), bundle.entries, version)
  }

  method LaunchInOneDir(dir: Dir, bundle: Bundle, version: Versions) returns (result: Dir)
    requires bundle.Valid()
    ensures result == AliasedLaunch(dir, bundle, version)
  {
    var dirs := new SkillDirs(Home(dir, map[]));
    dirs.InstallSkills(bundle, version);
    result := dirs.home.shared;
    ghost var installed := result;
    var entries := bundle.entries;
    for i := 0 to |entries|
      invariant result == RemoveAll(Home(installed, installed), entries[..i], version)
    {
      var name := entries[i].name;
      var legacy, installedFile := Read(Get(result, name)), Read(Get(result, name));
      assert entries[..i + 1][..i] == entries[..i] && !Lists(entries[..i], name);
      RemoveIsPerSkill(Home(installed, installed), entries[..i], version, name);
      if legacy.None? || installedFile.None? {
        continue;
      }
      var legacyVersion, installedVersion := version(legacy.value), version(installedFile.value);
      if legacyVersion.None? || installedVersion.None? || LexLess(installedVersion.value, legacyVersion.value) {
        continue;
      }
      result := result - {name};
    }
    assert entries[..|entries|] == entries;
  }

  /** Then every managed skill that is bundled ends up deleted, even if it was just installed. */
  lemma AliasedLaunchDeletes(dir: Dir, bundle: Bundle, version: Versions, name: string)
    requires bundle.Valid()
    ensures var installed := SharedAfter(Get(dir, name), Offered(bundle, name), version);
            var gone := Lists(bundle.entries, name) && VersionOf(installed, version).Some?;
            Get(AliasedLaunch(dir, bundle, version), name) == if gone then None else installed
  {
    var installed := if bundle.agentPresent then InstallAll(dir, bundle.entries, version) else dir;
    InstallIsPerSkill(dir, bundle.entries, version, name);
    RemoveIsPerSkill(Home(installed, installed), bundle.entries, version, name);
    if VersionOf(Get(installed, name), version).Some? {
      LexTotal(VersionOf(Get(installed, name), version).value, VersionOf(Get(installed, name), version).value);
    }
  }

  /** So the version of a skill in that directory never decreases exactly if it has none or the bundle
      does not list it. */
  lemma AliasedLaunchKeepsVersion(dir: Dir, bundle: Bundle, version: Versions, name: string)
    requires bundle.Valid()
    ensures AtMost(VersionOf(Get(dir, name), version),
                   VersionOf(Get(AliasedLaunch(dir, bundle, version), name), version))
       <==> VersionOf(Get(dir, name), version).None? || !Lists(bundle.entries, name)
  {
    AliasedLaunchDeletes(dir, bundle, version, name);
    SharedNeverDowngrades(Get(dir, name), Offered(bundle, name), version);
    InstallIsPerSkill(dir, bundle.entries, version, name);
  }

  // ----- what a launch writes

  lemma {:induction false} BundledIs(entries: seq<Entry>, entry: Entry)
    requires Bundle(entries, true).Valid() && entry in entries
    ensures Bundled(entries, entry.name) == entry.contents
  {
    var before, last := entries[..|entries| - 1], entries[|entries| - 1];
    if last != entry {
      assert entry in before;
      var i :| 0 <= i < |before| && before[i] == entry;
      assert entries[i].name != last.name;
      BundledIs(before, entry);
    }
  }

  /** What a launch with the agent present writes: a listed readable skill is installed where there is
      no text, and replaces a managed file exactly if it is managed too and strictly newer. */
  lemma LaunchWrites(home: Home, bundle: Bundle, version: Versions, entry: Entry, text: string)
    requires bundle.Valid() && bundle.agentPresent && entry in bundle.entries && entry.contents == Some(text)
    ensures var before, after := Get(home.shared, entry.name), Get(Launch(home, bundle, version).shared, entry.name);
            && (before.None? || before.value.NotText? ==> after == Some(Text(text)))
            && (before.Some? && before.value.Text? ==>
                  var old_, new_ := version(before.value.contents), version(text);
                  var wins := old_.Some? && new_.Some? && IsNewer(new_.value, old_.value);
                  after == if wins then Some(Text(text)) else before)
  {
    BundledIs(bundle.entries, entry);
    LaunchIsPerSkill(home, bundle, version, entry.name);
    if version(text).Some? && Get(home.shared, entry.name).Some? && Get(home.shared, entry.name).value.Text?
       && version(Get(home.shared, entry.name).value.contents).Some? {
      NewerIsLess(version(text).value, version(Get(home.shared, entry.name).value.contents).value);
    }
  }

  /** Version `a` is newer than `b`: the first difference decides, and a longer version is newer. */
  ghost predicate IsNewer(a: seq<nat>, b: seq<nat>) {
    (b <= a && a != b) || exists k :: FirstDifference(b, a, k) && b[k] < a[k]
  }

  lemma NewerIsLess(a: seq<nat>, b: seq<nat>)
    ensures LexLess(b, a) <==> IsNewer(a, b)
  {
    LexIsLexicographic(a, b);
    LexIsLexicographic(b, a);
    LexTotal(a, b);
    if LexLe(a, b) && LexLe(b, a) {
      LexAntisymmetric(a, b);
    }
    forall k | FirstDifference(a, b, k) ensures FirstDifference(b, a, k) {
    }
    forall k | FirstDifference(b, a, k) ensures FirstDifference(a, b, k) {
    }
  }

  /** Without the agent, or for a skill the bundle cannot offer, the shared directory is untouched. */
  lemma LaunchLeaves(home: Home, bundle: Bundle, version: Versions, name: string)
    requires bundle.Valid()
    requires !bundle.agentPresent || forall e <- bundle.entries :: e.name == name ==> e.contents.None?
    ensures Get(Launch(home, bundle, version).shared, name) == Get(home.shared, name)
  {
    LaunchIsPerSkill(home, bundle, version, name);
    if e :| e in bundle.entries && e.name == name {
      BundledIs(bundle.entries, e);
    } else {
      assert !Lists(bundle.entries, name);
      InstallIsPerSkill(home.shared, bundle.entries, version, name);
    }
  }
}
