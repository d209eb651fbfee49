# Clinch session layer: a verified model

A Dafny model of the parts of Clinch that decide which agent session a pane, a list or a launch
refers to, and of four smaller state machines of the app. Check it with
`dafny verify dfyconfig.toml`.

| file | what it models |
|---|---|
| `Text.dfy`, `Order.dfy`, `Collections.dfy` | Rust's whitespace, trimming, tokens, lexicographic order and stable sort |
| `Shell.dfy` | the shell word splitter and the quoting rewriter |
| `Posix.dfy` | a reference lexer (sections 2.2, 2.3 and 2.6.7 of the POSIX Shell Command Language) and the comparison with the splitter |
| `Atoms.dfy`, `Escapes.dfy` | that lexer as a machine, and exactly when it reads a rewritten command as the original, escapes included |
| `Launch.dfy` | launch commands: parsing, typing, rebranding, building |
| `Sightings.dfy`, `Conversations.dfy` | the stable sort and fold of journal and mirror sightings into the conversation list |
| `Records.dfy` | what a listed conversation says, in terms of journal lines and mirror files |
| `ListOrder.dfy`, `ListLimit.dfy` | exactly when that list, before and after its limit, depends on the order in which a map is walked |
| `Jsonl.dfy`, `Mirror.dfy`, `Forks.dfy` | the capped line reader, the prompt-mirror reader, prompts inherited by forks |
| `Restore.dfy`, `Toolbelt.dfy` | restore decisions and write-once suggestion resolutions |
| `Menu.dfy` | keyboard selection in a menu |
| `CrashRecovery.dfy` | the frame state machine and the chain of recovery processes |
| `Skills.dfy` | skill provisioning and migration over launches |
| `AppState.dfy` | saved windows and their indices |

Loops are methods proved equal to a specification function, objects are classes, and what the source
promises is proved about those functions. Disk contents, JSON and UTF-8 decoding, clocks, preference
reads and UUID syntax are inputs: maps, sequences or function parameters, over which every result is
quantified.

## What the proofs found

- The conversation list is not fixed by the data on disk. If two sessions are first seen in their
  prompt mirrors at the same timestamp, their order follows the iteration order of a `HashMap`
  (`ListOrder.ListOrderIsFixedUnlessTied`), and so does what is returned, unless the limit hides the
  tie (`ListLimit.ResultIsFixedUnlessTieShows`; `ListLimit.TiesExist` is such a disk).
- Where every backslash stands inside single quotes, the shell reads a rewritten command as it read
  the original exactly when every unquoted whitespace character is a space or a tab: the splitter
  also splits at newlines, other ASCII space characters and non-ASCII spaces, which are no blanks to
  the shell
  (`Posix.ShellReadsRewriteAlike`, `Posix.ForeignSpaceChangesMeaning`).
- Other backslashes may make the splitter and the shell disagree about quotes. The reading then
  survives exactly if no plain argument stands inside double quotes of the shell, and every gap inside
  quotes or after a backslash is one inner space (`Escapes.RewriteReadsAlike`,
  `Escapes.BackslashChangesMeaning`); a plain argument inside single quotes does no harm
  (`Escapes.SingleQuotesAreHarmless`).
- A command that already starts with `nocorrect`, with or without leading space, loses its session
  when it is typed into zsh again, and one with a tab after the launcher gains one
  (`Launch.TypedCommandKeepsSeed`, `Launch.TypingTwiceLosesSession`, `Launch.TypingGivesSession`).
- While a fork's first own prompt is in flight, prompts inherited from its parent are not shown
  (`Forks.ForkInFlightInheritsParent`, `Forks.FirstPromptInFlightLosesParent`).
- One journal line that is not UTF-8, of any pane, brings back sessions whose removal only the journal
  records (`Restore.OtherLinesAreIgnored`, `Restore.NotTextResurrects`).
- Where the legacy skill directory is the shared one, a launch deletes every managed skill it has just
  installed (`Skills.AliasedLaunchDeletes`).
- A user's skill file that is not UTF-8 counts as missing and is replaced, although files without a
  marker are said to be left alone (`Skills.UserFileSurvives`, `Skills.NotTextIsReplaced`).
- If writing a preference keeps failing, the same recovery process is spawned after every crash
  (`RecoveryChain.FailedWritesLoop`); each failed write costs one more recovery
  (`RecoveryChain.RecoveriesAreConserved`).
- A resolved suggestion is forgotten when another one is resolved while the learning file does not
  list it (`Toolbelt.ResolvedStaysResolved`, `Toolbelt.UnlistedResolutionIsForgotten`).
- With nothing selected, the first press of an arrow key picks row 0 even if it cannot be selected
  (`Menu.FirstPressPicksRowZero`, `Menu.SeparatorIsPicked`).

## Model

| member | source | states |
|---|---|---|
| `Shell.ShellWordSpans` | app/src/agent_resume.rs:1233-1263 | the splitting loop returns the words of the specification, which the next four rows pin down |
| `Shell.WordsAreWords` | app/src/agent_resume.rs:1233-1263 | splitting fails exactly when a quote is left open, and every word has its quotes closed and its whitespace quoted |
| `Shell.WordsAreALayout` | app/src/agent_resume.rs:1233-1263 | a command that splits is its words laid out with whitespace gaps, so nothing but unquoted whitespace is lost |
| `Shell.WordsOfLayout` | app/src/agent_resume.rs:1233-1263 | words laid out with any whitespace around them split back into those words |
| `Shell.WordsRoundTrip` | app/src/agent_resume.rs:1226-1229 | joining words with spaces and splitting again is the identity |
| `Shell.QuotingPreservesMeaning` | app/src/agent_resume.rs:1202-1231 | re-splitting the rewritten command gives as many words, each with the value of the original word; assignments and the program are untouched, every argument is quoted |
| `Shell.QuotingDomain` | app/src/agent_resume.rs:1206-1214 | the rewriter accepts exactly the commands with closed quotes whose words are plain or already quoted |
| `Shell.QuotingRefuses` | app/src/agent_resume.rs:1205-1214 | a command is refused if and only if a quote is left open or a word without quotes holds a character outside letters, digits and `_-./:=,@%+`, written out |
| `Shell.AssignmentsAre` | app/src/agent_resume.rs:1173-1179 | an assignment is a name of letters, digits and underscores that does not start with a digit, an equals sign and anything |
| `Shell.QuotingIsIdempotent` | app/src/agent_resume.rs:1205-1231 | rewriting a rewritten command changes nothing |
| `Posix.SplitterAgrees` | app/src/agent_resume.rs:1233-1263 | where every backslash is in single quotes and no whitespace is foreign, the splitter reads the fields the reference lexer reads |
| `Posix.SplitterDropsForeign` | app/src/agent_resume.rs:1246-1250 | where every backslash is in single quotes, the splitter and the reference fail together, and the reference keeps exactly the foreign whitespace the splitter drops |
| `Posix.ShellReadsRewriteAlike` | app/src/agent_resume.rs:1202-1231 | where every backslash is in single quotes, the shell reads the rewritten command as the original if and only if all unquoted whitespace is blanks |
| `Posix.ForeignSpaceChangesMeaning` | app/src/agent_resume.rs:1246-1250 | an input for every whitespace character other than space and tab at which the rewrite changes the meaning |
| `Escapes.RewriteReadsAlike` | app/src/agent_resume.rs:1202-1263 | for every command the rewriter takes, with any backslashes: the shell reads the result as the original if and only if it cannot read the original, or the leading gap is blanks, no newly quoted argument starts inside double quotes, and each gap is blanks, or one inner space where it is quoted or escaped |
| `Escapes.BackslashChangesMeaning` | app/src/agent_resume.rs:1238-1245 | a failing family: a gap between escaped quotes survives only if it is one space |
| `Escapes.SingleQuotesAreHarmless` | app/src/agent_resume.rs:1220-1224 | a plain argument inside single quotes of the shell keeps its reading when it is quoted |
| `Atoms.PiecesOfLayout` | app/src/agent_resume.rs:1233-1263 | the reference lexer reads a command word by word and gap by gap, from modes that depend on the words alone |
| `Launch.WithoutTypedPrefixes` | app/src/agent_resume.rs:1150-1171 | the loop strips `nocorrect` and leading assignments as the specification does |
| `Launch.ParseIsOnTokens` | app/src/agent_resume.rs:1162-1290 | the parser of launch commands depends only on the whitespace tokens and the character that ends each |
| `Launch.LaunchReadsBack` | app/src/agent_resume.rs:1274-1290 | either launcher, a space and two or more words laid out with any whitespace read back as agent and id without the quotes around them, and the other words joined with spaces as flags |
| `Launch.TooFewWords` | app/src/agent_resume.rs:1279-1281 | with fewer than two words there is no launch command |
| `Launch.SeedsAre` | app/src/agent_resume.rs:1297-1302 | a command names a session if and only if its agent is `claude` or `codex` and its id is made of letters, digits and hyphens |
| `Launch.TypedCommandWords` | app/src/agent_resume.rs:1192-1200 | what each shell is given: the command itself, or in zsh `nocorrect` and the command's words, quoted if the rewriter takes them |
| `Launch.MeaningfulIsTypedAsIs` | app/src/agent_resume.rs:1192-1214 | with a quote left open, or a bare word holding a character such as `&`, `$` or `*`, the zsh form is `nocorrect ` and the command |
| `Launch.TypedCommandNames` | app/src/agent_resume.rs:1192-1302 | for every command, the zsh form names what the command names with one space between its words, and nothing if that starts with `nocorrect` |
| `Launch.TypedCommandKeepsSeed` | app/src/agent_resume.rs:1192-1302 | for every command, the typed form names the same session, or none alike, if and only if the shell is not zsh, or the command names a session and has no leading `nocorrect`, or it names none and, with single spaces, either names none or has a leading `nocorrect` |
| `Launch.TypingTwiceLosesSession` | app/src/agent_resume.rs:1192-1200 | for every provider and safe id, typing the typed resume command again names no session |
| `Launch.TypingGivesSession` | app/src/agent_resume.rs:1192-1200 | for every provider and safe id, a resume command with a tab after the launcher names no session and its zsh form does |
| `Launch.NormalizeIsIdempotent` | app/src/agent_resume.rs:1137-1149 | rebranding twice is rebranding once |
| `Launch.NormalizeIs` | app/src/agent_resume.rs:1140-1149 | what rebranding yields: a legacy launcher, alone or before a space, replaced in the trimmed command, and any other command unchanged |
| `Launch.NormalizeKeepsLaunch` | app/src/agent_resume.rs:1137-1149 | rebranding keeps agent, id and flags of every stored command, and that it has none |
| `Launch.RemoteCommandReadsBack` | app/src/agent_resume.rs:304-316 | a remote command is built exactly for ids of letters, digits and hyphens of at most 256 characters, is the launcher, the provider and the trimmed id, and reads back as those, also after typing and rebranding |
| `Sightings.SortCommutesWithFilter` | app/src/agent_resume.rs:1716 | the stable sort by timestamp commutes with restricting the list |
| `Sightings.StableSortIsUnique` | app/src/agent_resume.rs:1716 | every sorted list with the same order at each timestamp is that sort |
| `Conversations.CollectJournal` | app/src/agent_resume.rs:1669-1705 | the loop over journal lines yields their sightings, field by field, and the latest known provider per session |
| `Conversations.CollectMirrors` | app/src/agent_resume.rs:1787-1820 | the loop over the provider map reads each mirror file, scoped before legacy, and yields the sightings in iteration order and the first prompts |
| `Conversations.BridgeHasSource` | app/src/agent_resume.rs:1689-1757 | a listed bridge is not empty, and a write of that session or its mirror named it |
| `Conversations.Fold` | app/src/agent_resume.rs:1717-1761 | the one-pass fold gives each session the record of its own sightings, and the sessions in order of first sighting |
| `Conversations.Assemble` | app/src/agent_resume.rs:1763-1782 | the list is the finished records newest first, without those that are past the limit and not bookmarked |
| `Conversations.EnrichFromTranscripts` | app/src/agent_resume.rs:2052-2081 | the two passes make every conversation with a native transcript resumable and give it a first prompt only if it has none |
| `Conversations.RecentConversations` | app/src/agent_resume.rs:1664-1785 | the whole reading returns the kept part of all records, enriched |
| `Conversations.RecordIgnoresIterationOrder` | app/src/agent_resume.rs:1712-1761 | every session's record is the same for every iteration order of the mirror map |
| `Conversations.FinalBridge` | app/src/agent_resume.rs:1750-1757 | the final bridge is b if and only if some sighting set b, no later one set any, and no scrub from then on named b |
| `Conversations.CwdIsLatest` | app/src/agent_resume.rs:1747-1749 | the directory is that of the latest sighting that carries one |
| `Records.RecordStates` | app/src/agent_resume.rs:1669-1776 | on lines and mirrors: the directory is d if and only if d is the non-empty directory of the latest record, in time and then in reading order, among the lines naming the session and its mirror's first record; agent and flags are those of the command on its latest line; the first prompt is the mirror's, excerpted |
| `Records.LatestMarkIs` | app/src/agent_resume.rs:1716 | that latest record exists if any line has the field, and every other one is earlier in time or, at the same time, in the list |
| `Conversations.CodesAreInOrder` | app/src/agent_resume.rs:1712-1716 | timestamps compare as their texts do |
| `Conversations.RecordIsFaithful` | app/src/agent_resume.rs:1712-1776 | a record starts at the session's least timestamp; agent and flags come from its last journal sighting, so the placeholder never survives; it is bookmarked exactly if its provider and id are |
| `Conversations.ListIsNewestFirst` | app/src/agent_resume.rs:1763-1782 | the list has no duplicate session and is newest first by start |
| `Conversations.ListCoversJournal` | app/src/agent_resume.rs:1707-1711 | the listed sessions are exactly those the journal names; mirror-only ones never appear |
| `Conversations.KeepIsNewestPlusBookmarked` | app/src/agent_resume.rs:1631-1635 | the result is the newest records up to the limit, then every older bookmarked one, in order |
| `ListOrder.TiedOrderFollowsKeys` | app/src/agent_resume.rs:1793-1819 | two sessions first seen in their mirrors at one time are listed in the order their mirrors are read |
| `ListOrder.ListOrderIsFixedUnlessTied` | app/src/agent_resume.rs:1712-1730 | the order before the limit is the same for every iteration order if and only if no two sessions are so tied |
| `ListLimit.InResult` | app/src/agent_resume.rs:1763-1782 | a session is returned if and only if it is listed and fewer than `limit` are listed before it, or it is bookmarked |
| `ListLimit.ResultIsFixedUnlessTieShows` | app/src/agent_resume.rs:1712-1785 | the returned list is the same for every iteration order if and only if no two tied sessions are both bookmarked or have fewer than `limit` sessions that start later |
| `ListLimit.TiesExist` | app/src/agent_resume.rs:1793-1819 | a disk on which a tie decides which session a limit of one returns |
| `Jsonl.ReadBoundedJsonl` | app/src/agent_resume.rs:2149-2197 | the values are those of the examined lines; the partial flag is set exactly when the file exceeds the cap or a non-blank examined line fails to decode |
| `Jsonl.ReadSource` | app/src/agent_resume.rs:2141-2158 | the cap is 5,242,880 bytes |
| `Jsonl.LinesAreDecoded` | app/src/agent_resume.rs:2176-2190 | a line without its final line feeds and carriage returns is decoded, unless it is all ASCII whitespace, and then neither yields a value nor fails |
| `Jsonl.LinesAreTheFile` | app/src/agent_resume.rs:2166-2170 | lines are the file cut after each newline, with nothing lost |
| `Jsonl.CapYieldsPrefix` | app/src/agent_resume.rs:2158-2175 | capped values are a prefix of the uncapped ones, all of them when the file fits, and otherwise come from the longest run of whole lines under the cap |
| `Mirror.ReadPromptMirror` | app/src/agent_resume.rs:2239-2302 | the one-pass reader yields the simple specification: nothing for a missing or empty file, else split at stop markers, keep typed prompts, drop adjacent repeats, concatenate; with first record and partial flag |
| `Mirror.OnePassIsCoalesced` | app/src/agent_resume.rs:2253-2297 | keeping the latest prompt of the open turn computes that specification |
| `Mirror.OnePromptIsKept` | app/src/agent_resume.rs:2270-2280 | a single prompt is kept if and only if it holds something and does not begin with one of the three markers, written out |
| `Mirror.InjectedPromptsAreInvisible` | app/src/agent_resume.rs:2275-2280 | inserting an injected prompt anywhere changes neither history nor completeness |
| `Forks.ClaudeForkReadsAsTranscript` | app/src/agent_resume.rs:1889-1925 | the result is a transcript prefix, whose length is `inherited`, and then the whole mirror; with the full tail aligned its texts are the transcript's, one prompt short the transcript's and that prompt; an unaligned mirror is returned as it is |
| `Forks.PlainSessionInheritsNothing` | app/src/agent_resume.rs:1889-1892 | a transcript equal to the mirror, or lagging it by one prompt, inherits nothing |
| `Forks.ForkInheritsParent` | app/src/agent_resume.rs:1889-1925 | a fork whose transcript is its parent's prompts and then its own inherits exactly the parent's, if and only if it has own prompts or the parent none |
| `Forks.ForkInFlightInheritsParent` | app/src/agent_resume.rs:1889-1910 | with the last own prompt not yet in the transcript, exactly the parent's prompts are inherited if and only if there are none, or an earlier own prompt exists and the own ones do not all repeat the parent's last |
| `Forks.FirstPromptInFlightLosesParent` | app/src/agent_resume.rs:1903-1906 | for every non-empty parent, a fork with only a prompt in flight inherits fewer |
| `Forks.ReadCodexPrompts` | app/src/agent_resume.rs:2404-2452 | user events if there are any, else user response items, in order, without blank or generated ones |
| `Forks.TypedPromptsAre` | app/src/agent_resume.rs:2404-2497 | a Codex prompt is kept if and only if it holds something and does not begin with one of the seven context markers, written out |
| `Forks.Rollouts.OneStep` | app/src/agent_resume.rs:1935-1954 | a rollout whose first record names a safe id that resolves to a readable parent inherits the prompts of the parent's first records, as many as the ordinal says, clamped, or all; any other inherits nothing |
| `Forks.Rollouts.WalkIsBounded` | app/src/agent_resume.rs:1929-1956 | on every fork graph, cyclic or not, the walk takes what a chain of at most `depth` ancestors contributes |
| `Forks.Rollouts.WalkFollowsChain` | app/src/agent_resume.rs:1929-1956 | that is the concatenation, oldest first, of the prompts of each parent's records up to the ordinal its child records |
| `Forks.Rollouts.DepthAddsAtFront` | app/src/agent_resume.rs:1932-1954 | raising the depth bound only adds prompts at the front |
| `Forks.Rollouts.ShortChainsAreComplete` | app/src/agent_resume.rs:1844-1886 | on chains of at most 8 ancestors the history is complete and no larger bound changes it |
| `Forks.Rollouts.LongChainsAreCut` | app/src/agent_resume.rs:1844-1845 | a longer chain contributes its first 8 ancestors |
| `Restore.RestoreIsLocal` | app/src/agent_resume.rs:1419-1487 | the decision depends only on the pane's registry entry, tombstone and own lines of the journal as far as that is readable |
| `Restore.RegistryWins` | app/src/agent_resume.rs:1425-1473 | a registered pane is restored from its registry entry, rebranded, whatever tombstone or removal line stands; any other, if at all, from the saved command, rebranded |
| `Restore.OtherLinesAreIgnored` | app/src/agent_resume.rs:1480-1487 | lines of other panes and lines that are no records, wherever they stand, change nothing if and only if all are text or the journal alone does not decide |
| `Restore.NotTextResurrects` | app/src/agent_resume.rs:1481 | a line that is not text restores a removed session |
| `Restore.NeverResurrects` | app/src/agent_resume.rs:1428-1473 | without a registry entry, the saved command is restored if and only if there is one and the session was not removed, or was at a readable time at most ten minutes before the updater launch |
| `Restore.RestoredSessionIsStored` | app/src/agent_resume.rs:1402-1428 | what is restored names the session of the stored command it came from |
| `Toolbelt.SuggestionsAreTheBest` | app/src/agent_resume.rs:647-711 | at most three suggestions, in order, all eligible and unresolved, and every other such pattern ranks after them |
| `Toolbelt.EligibleAre` | app/src/agent_resume.rs:664-688 | a pattern is eligible if and only if its id is a UUID, its text holds something, and it recurred by its count or in two listed conversations of a known agent |
| `Toolbelt.SuggestionsSay` | app/src/agent_resume.rs:664-700 | a suggestion carries id, text and last sight of its pattern, the larger of the two counts, and its known providers |
| `Toolbelt.SuggestionsAreInOrder` | app/src/agent_resume.rs:702-709 | more conversations first and, at one count, the more recent |
| `Toolbelt.ListedAre` | app/src/agent_resume.rs:765-775 | the ids listed are those of patterns with a UUID in a readable file of schema 1 |
| `Toolbelt.ResolutionsFile.ResolveSuggestion` | app/src/agent_resume.rs:760-805 | verdict and rewritten file of one call |
| `Toolbelt.ResolvedStaysResolved` | app/src/agent_resume.rs:771-788 | a resolved id keeps its outcome if and only if it is still listed or the call does not write; while listed, exactly its outcome is accepted again |
| `Toolbelt.UnlistedResolutionIsForgotten` | app/src/agent_resume.rs:771-788 | an input at which a resolution is forgotten |
| `Toolbelt.ResolutionsAreWriteOnce` | app/src/agent_resume.rs:760-805 | over any run in which no readable learning file drops the id: first outcome kept, one resolution per id, never suggested again |
| `Toolbelt.ResolvingShrinksEligible` | app/src/agent_resume.rs:789-805 | resolving a listed suggestion takes exactly its id out of the eligible ones |
| `Menu.SubMenu.SelectInternal` | app/src/menu.rs:1885-1954 | the new selection is the specified cell, and hover follows it |
| `Menu.SubMenu.SelectFirstSelectable` | app/src/menu.rs:2018-2029 | finds a selectable row if there is one, and then selects the first cell of the first one |
| `Menu.NextAdvancesRank` | app/src/menu.rs:1922-1949 | `Next` moves to the next cell in reading order, and from the last to the first |
| `Menu.PreviousLowersRank` | app/src/menu.rs:1889-1921 | `Previous` moves to the cell before, and from the first to the last |
| `Menu.NextAndPreviousAreInverse` | app/src/menu.rs:1885-1954 | the two moves undo each other on every cell |
| `Menu.NextIsOneCycle` | app/src/menu.rs:1885-1954 | pressing `Next` reaches every cell at exactly one step before returning |
| `Menu.CellsAre` | app/src/menu.rs:1518-1553 | the cells are the enabled items, the items of rows with an enabled one, submenus with entries and clickable headers; never separators |
| `Menu.FirstPressPicksRowZero` | app/src/menu.rs:1950 | with nothing selected a press lands on a cell if and only if row 0 is selectable |
| `Menu.SeparatorIsPicked` | app/src/menu.rs:1950 | a menu whose first press lands on a separator |
| `CrashRecovery.Recovery.OnDrawFrameError` | app/src/crash_recovery.rs:85-117 | one error updates state as the step function does |
| `CrashRecovery.Recovery.OnFrameDrawn` | app/src/crash_recovery.rs:126-271 | one drawn frame updates state as the step function does |
| `CrashRecovery.Recovery.TearDown` | app/src/crash_recovery.rs:273-277 | teardown drops and kills the child |
| `CrashRecovery.RunHolds` | app/src/crash_recovery.rs:60-277 | in every run the counters are the trailing errors and the successes of each window's frames, the running flag is true exactly while a child is held, the torn-down event fires at most once |
| `CrashRecovery.NextEventDecides` | app/src/crash_recovery.rs:101-277 | exit exactly at a window's third error in a row; the child is dropped exactly at teardown or a window's tenth success; only the latter fires the event |
| `CrashRecovery.DroppedStaysDropped` | app/src/crash_recovery.rs:242-277 | after that nothing changes any more, whatever events follow |
| `RecoveryChain.RecoveryLowersRemaining` | app/src/crash_recovery.rs:291-335 | a mechanism is chosen exactly while recoveries remain, and applying it lowers their number by one |
| `RecoveryChain.RecoveryIsFinite` | app/src/crash_recovery.rs:363-486 | a chain of crashes spawns exactly that many recoveries: at most 2 on Linux, 3 on Windows, 1 on macOS |
| `RecoveryChain.MechanismsInTurn` | app/src/crash_recovery.rs:291-486 | crash n is met by mechanism n of a list read off the first setup, which sets its own preference or backends and nothing else, and by none after that |
| `RecoveryChain.RecoveriesAreConserved` | app/src/crash_recovery.rs:435-486 | for any outcomes of the preference writes, recoveries spawned and recoveries left are together the ones left at the start and the failed writes |
| `RecoveryChain.FailedWritesLoop` | app/src/crash_recovery.rs:443-470 | with failing writes the chain is endless if and only if a preference would have to change |
| `Skills.SkillDirs.InstallSkills` | app/src/agent_skills.rs:62-89 | the install loop computes the shared directory of the specification and leaves the legacy one |
| `Skills.SkillDirs.RemoveMigrated` | app/src/agent_skills.rs:94-132 | the removal loop computes the legacy directory of the specification |
| `Skills.SkillDirs.InstallBundledSkills` | app/src/agent_skills.rs:207-212 | one launch installs and then removes, as the specification of a launch does |
| `Skills.LaunchIsPerSkill` | app/src/agent_skills.rs:62-132 | a launch treats each skill by itself, whatever the order of the bundle |
| `Skills.LaunchWrites` | app/src/agent_skills.rs:28-89 | an offered skill is installed where there is no text and replaces a managed file if and only if it is managed too and strictly newer |
| `Skills.LaunchLeaves` | app/src/agent_skills.rs:62-75 | without the agent, or for a skill the bundle cannot offer, the shared directory is untouched |
| `Skills.LaunchesKeep` | app/src/agent_skills.rs:28-132 | with two directories, over any launches the greatest managed version across both never decreases and a user's legacy file never changes |
| `Skills.LaunchInOneDir` | app/src/agent_skills.rs:62-132 | with one directory for both, the two loops compute the specification of that case |
| `Skills.AliasedLaunchDeletes` | app/src/agent_skills.rs:94-132 | with one directory for both, a launch leaves no managed skill that it lists, and otherwise what it installed |
| `Skills.AliasedLaunchKeepsVersion` | app/src/agent_skills.rs:94-132 | with one directory for both, the version of a skill never decreases if and only if it has none or is not listed |
| `Skills.UserFileSurvives` | app/src/agent_skills.rs:28-89 | over any launches a user's shared file stays if and only if it is text or no launch offers its skill |
| `Skills.NotTextIsReplaced` | app/src/agent_skills.rs:75-80 | every user file that is not text is replaced once its skill is offered |
| `Skills.RelaunchIsNoOp` | app/src/agent_skills.rs:62-132 | launching again with the same bundle changes nothing |
| `Skills.MigrationRemovesExactly` | app/src/agent_skills.rs:91-132 | a legacy copy goes exactly when it is managed, listed, and the shared directory then holds an equal or newer managed one |
| `AppState.GetAppState` | app/src/app_state.rs:437-516 | the saved windows in order; the active index names the active window's snapshot and is missing exactly if it was not saved |
| `AppState.SavedIndexNamesNearest` | app/src/app_state.rs:484-500 | the saved project index is in range and names the active project if kept, else its nearest kept predecessor, else the first |
| `AppState.SnapshotIs` | app/src/app_state.rs:447-481 | exactly the projects that are no drag preview and have tabs are saved, in order, and nothing if there is none or the window shows a drag preview |

## Left out

- File permissions, atomic renames, symlink checks, directory walks, process inspection and environment variables of `agent_resume.rs`: their results are inputs.
- The shell hooks and installer that write registry, journal and tombstones: results hold for arbitrary disk states instead.
- Expansions, comments (`#`, section 2.3) and operators other than newline in the reference lexer: the rewriter leaves words that contain quotes as they are, so a word such as `'a';b` is outside the comparison.
- The syntax of the marker in managed skill files (`managed_version`): every result holds for any reading of versions, so nothing depends on it. Writes and deletions of skill files are taken to succeed.
- Reading native transcripts (`prompt_history_from_claude_transcript`, `discover_first_prompts`) and the excerpt of a first prompt: the prompts found there and the excerpting function are inputs.
- `session_id_from_direct_resume_command`, fork commands and `reopen_command`: they build or match single strings that no other modelled operation reads back.
- Bookmark files and toggles: the list takes the set of bookmarks as an input, whoever wrote it.
- Pane-tree traversal and window geometry: the snapshot of a window is opaque to the index computation modelled here.
- Menu depth, hover, safe triangle and rendering; `select_internal` on an out-of-range row panics in the source and is excluded by a precondition.
- Exit codes, logging and the waiting loop of the recovery process.
- The 4 MiB limit on toolbelt files and the sorted form of `providers`, which is modelled as a set of the two provider names.
