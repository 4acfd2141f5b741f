# HomeFree: a verified model of its algorithms and state machines

HomeFree is a NixOS home server with a web platform and a few maintenance scripts. Most of it is
glue; this project models the parts that carry an algorithm or a protocol and proves what they are
for, over every input, every run or every reachable state. `dafny verify dfyconfig.toml` verifies
all of it.

| Part | Files | What is proved |
|---|---|---|
| Alert engine and its event log | `AlertStore`, `AlertEngine`, `AlertTicks`, `AlertRuns`, `AlertLedger` | The log of a source is its history of alarms; how many and which rows ticks cut between the transactions leave open |
| Version order, picker, pin bumper | `Text`, `Tags`, `TagGrammar`, `Picker`, `Bumper`, `PrintedTags` | Exactly which tags are versions and their order, the picker's soundness and completeness, and exactly when the bumper accepts what the picker recommends |
| Source index and rewriting | `Template`, `Expansion`, `SourceLine`, `SourceFile`, `EntryForm`, `RoundTrip`, `ApplyBumps`, `Upgrade` | Exactly which images give an entry, expansion is correct, rewrites commute, and what the bumper writes is read back: from the picked tag to the image's tag, over a whole apply loop |
| Upstream cache and merged catalog | `UpstreamCache`, `Catalog`, `CatalogProofs`, `CatalogKeys`, `CatalogRows` | Last known good over every run of refreshes; every container appears once; every row field by field; when keys are unique |
| Storage capacity | `Storage` | The two-copy formula is the optimum over all placements |
| Configuration sync | `OptionsParser`, `OptionsText`, `SyncConfig` | The brace-depth parser undoes a printer, and exactly when it reads an option's own default; the migration is idempotent and conservative |
| YAML overlay | `Overlay` | The merge is idempotent, keeps the user's data, and exactly when it associates |
| Dashboard history | `Retention` | The table is bounded, what it holds is known exactly, and pruning is invisible to readers |
| Blue/green status | `BlueGreen`, `LogicalUnits`, `StatusCases` | When each status is shown, in terms of logical units, of the listed units and of what systemd answers |

Code that updates state in place (the two stores, the cache file, the sampler loop, the unit
objects) is a class with methods; loops over lists and dictionaries are methods with loops. Each is
proved against a specification function or relation, and the theorems are about those.
Evaluators, registries, `systemctl` answers, `nix-instantiate` and clocks are arbitrary inputs.

## What the proofs found

Where a promise fails, the code was followed; a lemma names an input or a family of inputs that
fails, and another says exactly when the promise holds.

- The event log's peak can stay below the state's peak: a new high on the tick that falls from err to
  warn is not logged (`AlertRuns.DeescalationLosesThePeak`; exactly then, or when an escalating tick
  stops before its second log write, `AlertRuns.LoggedHighFallsShort`).
- An alarm opened at clock reading 0 can have two different starts
  (`AlertRuns.StartsDisagreeAtClockZero`; exactly when, `AlertRuns.OneOpenRowWhileFiring`).
- A source can have more or fewer open rows than its one alarm: a close cut before its log write
  strands a row (`AlertLedger.CutCloseStrandsARow`; exactly how many,
  `AlertLedger.ExcessIsBalance`). The next alarm's end closes the latest-started open row, which need
  not be its own: a cut opening gives one row two alarms (`AlertLedger.CutAlarmClosesAStrandedRow`), and
  after the clock stepped back a stranded row is closed before its own start
  (`AlertLedger.SteppedClockClosesAStrandedRow`). Without further cuts the stranded rows keep their
  starts exactly when no later alarm begins before one of them (`AlertLedger.StrandedStartsExactly`),
  and a row that all later alarms begin after is never closed (`AlertLedger.StrandedRowStays`).
- The picker can recommend a tag the bumper refuses: `1.2.3-rc5` over `1.2-rc5`, because the bumper
  compares all digit runs (`PrintedTags.SuffixNumbersRefuseANewerTag`). And the bumper can accept a
  value whose tag is not listed: a pin `v${version}` with only the bare tag listed
  (`PrintedTags.TemplateWritesAnUnlistedTag`). `Bumper.PickerAndBumperAgree` and
  `Bumper.TemplatedPinAgrees` give the exact conditions.
- A chain of five references outlives the four passes (`Expansion.ChainBeyondLimit`); what any number
  of passes leaves is `Expansion.PassesKeepMeaning`. A value that is a lone `$` can make a reference
  out of the text behind it (`RoundTrip.DollarValueLosesTheImage`); the image is read back exactly
  when, with the new tag, it holds no reference (`RoundTrip.EntryReadsBackExactly`).
- The schema parser misses an option's default behind any nested block, and can take a nested
  default for it (`OptionsText.NestedBlockHidesTheDefault`, `OptionsText.NestedDefaultIsTaken`; exactly
  when it reads the right line, `OptionsText.OwnDefaultIsReadExactly`).
- Two merged rows of one app get the same key, although the catalog's documentation calls keys unique
  (`CatalogKeys.TwoImagesOneKey`; exactly when, `CatalogKeys.KeysAreUniqueExactlyWhen`).
- An idle, socket-armed unit named like a colour pair's base hides the pair being down
  (`LogicalUnits.ArmedBaseHidesADownPair`; exactly when, `LogicalUnits.RunningExactlyWhen`) and, while
  the pair is starting, makes it count twice, so that a unit that is down goes unnoticed
  (`LogicalUnits.DownUnitIsCountedAway`; exactly when, `LogicalUnits.StatusRefinesLogicalUnits`; nothing
  else misleads, `LogicalUnits.OnlyArmedPairsMislead`).
- The status documentation says "anything still starting" shows as starting. A starting unit beside a
  stopped one shows as active and degraded (`LogicalUnits.StartingUnitShowsDegraded`); starting is shown
  exactly under the condition of `LogicalUnits.StartingExactlyWhen`.
- A sampler whose processes all end before their sixtieth tick never prunes
  (`Retention.RestartsDefeatPruning`); what the table holds after any run, exactly, is
  `Retention.TableExactly`.
- Overlay merges need not associate when kinds disagree (`Overlay.KindsMustAgree`; exactly when they do,
  `Overlay.AssociatesExactly`).

## Model

| member | source | states |
|---|---|---|
| AlertStore.AlertStateStore.GetState | web-platform/backend/services/alerts_state_store.py:132-148 | The stored row of the source, or none |
| AlertStore.AlertStateStore.SetState | web-platform/backend/services/alerts_state_store.py:169-194 | Replaces one source's state row and nothing else |
| AlertStore.AlertStateStore.OpenEvent | web-platform/backend/services/alerts_state_store.py:198-217 | Appends one open row; its id is its place in the log |
| AlertStore.AlertStateStore.UpdateSeverity | web-platform/backend/services/alerts_state_store.py:219-232 | Raises the severity of the source's open rows, never lowers one, touches no other row |
| AlertStore.AlertStateStore.UpdatePeak | web-platform/backend/services/alerts_state_store.py:234-244 | Raises the peak of the source's open rows, never lowers one, touches no other row |
| AlertStore.AlertStateStore.CloseEvent | web-platform/backend/services/alerts_state_store.py:246-259 | Closes one of the most recently started open rows of the source, whichever SQLite picks on a tie; with none open the log is unchanged |
| AlertEngine.RunSource | web-platform/backend/homefree_alerts_engine.py:114-271 | One evaluation moves state and log by the transition relation, wherever between two transactions it stops |
| AlertEngine.Tick | web-platform/backend/homefree_alerts_engine.py:274-292 | A tick is one act per enabled source in order, as far as it got, the last one as far as its writes got; none when alerts are off |
| AlertTicks.TickSkipsDisabled | web-platform/backend/homefree_alerts_engine.py:286-290 | A source that is disabled or not configured among those a tick reaches keeps its state and its rows |
| AlertTicks.TickStepsEnabled | web-platform/backend/homefree_alerts_engine.py:284-290 | With distinct ids an enabled source the tick reaches makes exactly one step, with its own verdict at the tick's time, and keeps its view without a verdict; only the last one reached can stop half way |
| AlertRuns.SourcesAreIndependent | web-platform/backend/homefree_alerts_engine.py:188-261 | An act changes only its own source's state and rows; a failed evaluator changes nothing |
| AlertRuns.LogIsTheAlarmHistory | web-platform/backend/homefree_alerts_engine.py:131-271 | After any run from an empty database in which no tick of the source stopped right after its state write, its rows are exactly its maximal stretches of firing verdicts, in order, with start, end, messages, worst severity and logged peak, and its state row follows the last verdict |
| AlertRuns.AlarmRowMeaning | web-platform/backend/homefree_alerts_engine.py:167-257 | A row's severity is the maximum seen in its alarm and its peak never exceeds the highest reading, and equals it exactly when the tick that set it made its peak write |
| AlertRuns.HighIsMaximum | web-platform/backend/homefree_alerts_engine.py:167-186 | The state's peak is the maximum reading while firing, first reached where recorded; a missing first reading counts as 0.0 |
| AlertRuns.LoggedHighFallsShort | web-platform/backend/homefree_alerts_engine.py:220-257 | The event's peak is the state's peak if and only if the tick of the new high neither fell from err to warn nor stopped between the two log writes of an escalation |
| AlertRuns.OneOpenRowWhileFiring | web-platform/backend/homefree_alerts_engine.py:167-261 | After any uncut run a source has exactly one open row, its newest, while it fires and none otherwise; the row starts with the alarm, and the state's start equals it exactly when the clock did not read 0 then or has read 0 ever since |
| AlertRuns.StartsDisagreeAtClockZero | web-platform/backend/homefree_alerts_engine.py:177 | A run in which the two starts differ |
| AlertRuns.DeescalationLosesThePeak | web-platform/backend/homefree_alerts_engine.py:237-257 | A run in which the event keeps 1.0 while the state has 5.0 |
| AlertRuns.AlarmsDoNotOverlap | web-platform/backend/homefree_alerts_engine.py:199-261 | With a clock that never runs backwards a source's rows are ordered, non-overlapping intervals |
| AlertLedger.ExcessStep | web-platform/backend/homefree_alerts_engine.py:188-261 | How one verdict, cut or not, moves the difference between open rows and the firing state |
| AlertLedger.ExcessIsBalance | web-platform/backend/homefree_alerts_engine.py:188-261 | After any run, cut or not, the open rows beyond the firing state are exactly the balance of the verdicts: what cut closes left minus what cut opens missed, a missing row forgotten by the next uncut clear |
| AlertLedger.OpenRowLedger | web-platform/backend/homefree_alerts_engine.py:188-261 | So they lie between minus the cut opens and the cut closes |
| AlertLedger.CutClosesAreInterruptions | web-platform/backend/homefree_alerts_engine.py:188-261 | Only interrupted ticks can strand a row |
| AlertLedger.OpenRowsBoundedByInterruptions | web-platform/backend/homefree_alerts_engine.py:188-261 | Open rows number at most one if firing, else zero, plus the interrupted ticks |
| AlertLedger.ExcessStays | web-platform/backend/services/alerts_state_store.py:246-259 | Without further cuts the number of excess rows never changes |
| AlertLedger.EarliestStayOpen | web-platform/backend/services/alerts_state_store.py:246-259 | Through any run without further cuts: counted up to the excess, the open rows started before any time t are those there were plus the alarms begun before t, as each alarm's end takes a latest start away |
| AlertLedger.StrandedStartsExactly | web-platform/backend/services/alerts_state_store.py:246-259 | Between two clear states the stranded rows' starts are unchanged if and only if no alarm began before one of them |
| AlertLedger.StrandedRowStays | web-platform/backend/services/alerts_state_store.py:246-259 | A stranded row stays that very open row as long as no further tick is cut and every later alarm begins after it |
| AlertLedger.CutCloseStrandsARow | web-platform/backend/homefree_alerts_engine.py:188-261 | A run that leaves a clear state and one open row, for any two clock readings |
| AlertLedger.CutAlarmClosesAStrandedRow | web-platform/backend/homefree_alerts_engine.py:188-261 | A run in which a second cut makes one row span two alarms |
| AlertLedger.SteppedClockClosesAStrandedRow | web-platform/backend/services/alerts_state_store.py:246-259 | A run in which a stepped-back clock closes a stranded row before its own start and leaves the new row open |
| AlertLedger.ClosedRowsAreFrozen | web-platform/backend/services/alerts_state_store.py:219-259 | Over any run, cut or not, no row is lost, a closed row never changes, and an open row keeps its start while severity and peak only rise |
| Tags.VersionOrder | web-platform/backend/resolvers/app_versions.py:180-213 | The sort key is strictly and totally ordered, so tags form a total preorder |
| Tags.PlainAboveSuffixed | web-platform/backend/resolvers/app_versions.py:190-193 | A plain release is above every suffixed tag of the same numbers |
| Tags.PiecesConcat | web-platform/backend/resolvers/app_versions.py:194-197 | The run splitter respects every seam between a digit and a non-digit |
| Tags.NumberedBuildsSortNumerically | web-platform/backend/resolvers/app_versions.py:180-197 | With one stem not ending in a digit, the smaller build number sorts first, whatever follows |
| Tags.TextRunsSortAsText | web-platform/backend/resolvers/app_versions.py:180-197 | Where two suffixes first differ in a run of text, the text decides, by the first differing character, a beginning before its continuation |
| Tags.LongerSuffixIsLater | web-platform/backend/resolvers/app_versions.py:194-197 | A suffix that goes on with another run comes later |
| Tags.LeadsAlikeExactly | web-platform/backend/resolvers/app_versions.py:239-244 | Two literal leads belong to one stream exactly when they are equal or one only has a v more, at the start or after - _ / |
| TagGrammar.VersionExactly | web-platform/backend/resolvers/app_versions.py:170-213 | A tag is a version exactly when it is a known lead in any letter case, an optional v, two to four numbers, and nothing or a longer suffix opened by - or +; its version is then its numbers padded and the key of its suffix |
| TagGrammar.ShapeOfCut | web-platform/backend/resolvers/app_versions.py:216-244 | The shape of a tag cut into lead, numbers and suffix: its normalised lead and its suffix |
| TagGrammar.ShapeExactly | web-platform/backend/resolvers/app_versions.py:216-244 | A tag has a shape exactly when it holds a digit, and can then be cut so |
| Picker.PickSoundAndComplete | web-platform/backend/resolvers/app_versions.py:276-355 | For a current tag that parses: a pick is listed, in current's shape and major, not below current and maximal among such tags; none exactly when there is none |
| Picker.UnanchoredPickSoundAndComplete | web-platform/backend/resolvers/app_versions.py:324-327 | For a current tag with a shape but no version: a maximal tag of its shape, the last in text order among equals, none exactly when the shape is not listed |
| Picker.PickKeepsLead | web-platform/backend/resolvers/app_versions.py:340-347 | Among equal versions the pick carries current's literal lead exactly when some listed tag does |
| Picker.PickIsFirstOfEquals | web-platform/backend/resolvers/app_versions.py:336-347 | Among tags of one version that carry current's literal lead alike the one listed first is picked |
| Picker.PickIgnoresOrder | web-platform/backend/resolvers/app_versions.py:276-355 | The picked version does not depend on the order or repetition of the listing |
| Picker.PinsStayInStream | web-platform/backend/resolvers/app_versions.py:276-355 | Repeated picks over changing listings keep shape and major and never lower the version |
| Picker.LoosePickSoundAndComplete | web-platform/backend/resolvers/app_versions.py:997-1024 | The loose picker takes a maximal parseable tag, the last in text order among equals, and refuses only an empty field or one all behind a parseable anchor |
| Bumper.DeriveReversesTemplate | scripts/upgrade-apps.py:133-140 | Putting the derived value back gives the tag if and only if the template can produce the tag, and the value is then the one it came from |
| Bumper.ParsesAgree | web-platform/backend/resolvers/app_versions.py:200-244 | The tuple parser and the shape parser read the same core and suffix of every tag that parses |
| Bumper.TagNumbers | scripts/upgrade-apps.py:143-147 | All digit runs of a tag are its core's numbers followed by its suffix's numbers |
| Bumper.PaddedOrder | scripts/upgrade-apps.py:165 | Greater as a padded tuple is greater as an unpadded list, except exactly when the old core is a proper prefix and the shared tail tips the balance |
| Bumper.VerdictOnNewer | scripts/upgrade-apps.py:156-172 | The verdict on a strictly newer tag of the same stream: a downgrade exactly when the suffix numbers mislead, else a scheme change exactly when the literal leads differ, else accepted |
| Bumper.VerdictOnOlder | scripts/upgrade-apps.py:156-172 | The verdict on a strictly older tag of the same stream: refused as a downgrade, unless the suffix numbers mislead the other way |
| Bumper.FirstDifferenceDecides | scripts/upgrade-apps.py:156-172 | For any two tags with a shape, across streams: where their numbers first differ, a smaller one is refused as a downgrade and a greater one is accepted exactly under the same literal lead |
| Bumper.PickerAndBumperAgree | scripts/upgrade-apps.py:156-172 | A pick is the pinned release or an accepted bump exactly when it ties with the pin, or the top version is listed under the pin's literal lead and the suffix numbers do not mislead |
| Bumper.DigitFreeSuffixAgrees | scripts/upgrade-apps.py:156-172 | With a digit-free suffix only the literal lead matters |
| Bumper.VerdictThroughTemplate | scripts/upgrade-apps.py:133-172 | Where no digit run spans the template's seams and a suffix with digits follows as many numbers: the verdict on the values is the verdict on the tags, and the values' own leads must agree too if the prefix holds a digit |
| Bumper.TemplatedPinAgrees | scripts/upgrade-apps.py:133-172 | The agreement for a pin written through such a template, if it can produce the pick; the derived value then writes exactly the picked tag |
| Bumper.DigitFreeTemplateAgrees | scripts/upgrade-apps.py:133-172 | In particular for every template without digits |
| PrintedTags.PrintedTagParses | web-platform/backend/resolvers/app_versions.py:175-257 | A tag printed from numbers and a suffix parses back to them |
| PrintedTags.SuffixNumbersRefuseANewerTag | scripts/upgrade-apps.py:156-172 | A family of picks the bumper refuses |
| PrintedTags.TemplateWritesAnUnlistedTag | scripts/upgrade-apps.py:133-172 | A family of accepted values whose tag is not listed |
| PrintedTags.SuchTagsExist | scripts/upgrade-apps.py:133-172 | Both families have members: v0.95.0 with 0.96.0, and 1.2-rc5 with 1.2.3-rc5 |
| Template.ResolveTemplate | web-platform/backend/resolvers/app_source_index.py:44-58 | The pass-limited loop computes the specification of repeated replacement |
| Expansion.ReplaceIsSubst | web-platform/backend/resolvers/app_source_index.py:53 | Replacing in the text is substituting in its tokens, for every text |
| Expansion.PassLowersDepth | web-platform/backend/resolvers/app_source_index.py:48-57 | Where no reference the full expansion itself holds is bound, a pass over bound names keeps the expansion and lowers the nesting depth, unless such a reference comes to stand in the text |
| Expansion.PassesKeepMeaning | web-platform/backend/resolvers/app_source_index.py:44-58 | Whatever the pass limit: when the full expansion holds no reference, the text returned still means it, and nests as much less as passes were made |
| Expansion.ResolveIsExpansion | web-platform/backend/resolvers/app_source_index.py:44-58 | For a template nested no deeper than the pass limit the loop returns the full recursive expansion, if that expansion holds no reference |
| Expansion.UnboundIsReached | web-platform/backend/resolvers/app_source_index.py:50-52 | A reachable unbound name makes the loop return nothing, with no condition on any text |
| Expansion.ResolveNoneIffUnboundReachable | web-platform/backend/resolvers/app_source_index.py:51-52 | Nothing is returned exactly when an unbound name is reachable |
| Expansion.ResolveExactly | web-platform/backend/resolvers/app_source_index.py:44-58 | Below the pass limit, where no reference made at a seam is bound: the full expansion is returned if it exists and holds no reference, and nothing otherwise |
| Expansion.ChainBeyondLimit | web-platform/backend/resolvers/app_source_index.py:48 | Every chain of five distinct names is returned with its last reference unexpanded |
| SourceLine.ScanPrinted | web-platform/backend/resolvers/app_source_index.py:39-41 | Scanning a binding line undoes printing it |
| EntryForm.LetBindExactly | web-platform/backend/resolvers/app_source_index.py:39 | A binding is read exactly from an indented line of the printed form |
| EntryForm.ImageLineExactly | web-platform/backend/resolvers/app_source_index.py:40 | An image exactly from such a line that binds image to some text |
| SourceLine.RewrittenLineScans | scripts/upgrade-apps.py:205-210 | A rewritten line matches and reads as the same binding with the new value |
| EntryForm.RewriteExactly | scripts/upgrade-apps.py:205-210 | A line is rewritten exactly when it still binds the name, and then only its quoted value changes |
| EntryForm.StaleLineIsLeft | scripts/upgrade-apps.py:200-210 | A planned line that is gone or no longer binds the name leaves the file alone; a rewrite touches no other line |
| SourceFile.CollectLines | web-platform/backend/resolvers/app_source_index.py:71-102 | One pass collects exactly the first-wins bindings and the image lines |
| SourceFile.FindEntry | web-platform/backend/resolvers/app_source_index.py:126-157 | The entry an image template yields, every skip included |
| SourceFile.ParseSourceFile | web-platform/backend/resolvers/app_source_index.py:105-158 | The entries of a file in order |
| EntryForm.EntryExactly | web-platform/backend/resolvers/app_source_index.py:126-157 | An image yields an entry exactly when it reads head : prefix reference suffix with the colon its last and the reference its tag's only opening, holds no digest, its name is bound and it resolves; the entry is then that name, its line and value, that prefix and suffix, and the resolved image |
| EntryForm.ImagesAreCollected | web-platform/backend/resolvers/app_source_index.py:87-102 | Every image line is collected once, in line order, and nothing else |
| EntryForm.FileEntries | web-platform/backend/resolvers/app_source_index.py:105-158 | The file's entries are those of its image lines, each once, from top to bottom |
| SourceFile.BindingsAreFirst | web-platform/backend/resolvers/app_source_index.py:98-101 | A name is bound to its first binding line, and every bound name is collected |
| SourceFile.RewriteThenCollect | scripts/upgrade-apps.py:200-242 | Rewriting a collected binding succeeds, changes one line, and collecting again finds the same images and bindings with the new value |
| SourceFile.BindingLinesAreDistinct | web-platform/backend/resolvers/app_source_index.py:71-102 | Distinct bindings sit on distinct lines |
| SourceFile.RewritesCommute | scripts/upgrade-apps.py:200-242 | Rewrites of two distinct bindings of one file commute |
| RoundTrip.EntryReadsBack | web-platform/backend/resolvers/app_source_index.py:126-157 | Under any new values without references an image that gave an entry: nested within the pass limit it means one whose tag is prefix, new value, suffix, found with that entry if it holds no reference of its own; nested deeper or in a cycle it is found with that entry and tag exactly when it resolves, if the new tag holds no reference |
| RoundTrip.TagResolves | web-platform/backend/resolvers/app_source_index.py:44-58 | Whatever the nesting and the bindings, what the loop returns ends in prefix, value, suffix, if that tag holds no reference |
| RoundTrip.EntryReadsBackExactly | web-platform/backend/resolvers/app_source_index.py:126-157 | It is found if and only if it holds no reference, for nesting below the pass limit where none of its references is bound |
| RoundTrip.ParseRewriteParse | scripts/upgrade-apps.py:200-242 | Parse, rewrite, parse, for any file and any image with an entry: writing a value without quote and reference succeeds, changes that binding only, and the image then reads with the tag prefix, value, suffix and the same binding, line, prefix and suffix, as EntryReadsBack says |
| RoundTrip.DollarValueLosesTheImage | web-platform/backend/resolvers/app_source_index.py:44-58 | A family of templates that resolve before a rewrite to a lone $ and to nothing after it |
| ApplyBumps.ApplyOne | scripts/upgrade-apps.py:607-641 | One bump: rewritten, checked, and put back if the check fails |
| ApplyBumps.Apply | scripts/upgrade-apps.py:606-642 | The whole loop over the planned bumps |
| ApplyBumps.RewriteIsLawful | scripts/upgrade-apps.py:200-242 | The file rewriter meets the law the loop's proof needs |
| ApplyBumps.ApplyReadsBack | scripts/upgrade-apps.py:606-642 | Whatever the checks answer: no planned bump fails on a moved line, each file reads back with exactly the accepted values, a rolled-back bump leaves no trace |
| ApplyBumps.AcceptedValuesAreRead | scripts/upgrade-apps.py:606-642 | With one bump per binding each accepted value is the one read afterwards and all others keep theirs |
| ApplyBumps.AcceptedExactlyWhenParsed | scripts/upgrade-apps.py:606-642 | A planned bump stays exactly when the check parses what its file holds with the bumps accepted before and this one; both outcomes are reported in planned order |
| ApplyBumps.ChangedFilesParse | scripts/upgrade-apps.py:606-642 | For any bumps and any writer, a file that was changed passes the check in the end |
| ApplyBumps.EveryBumpIsReported | scripts/upgrade-apps.py:606-642 | For any bumps and any writer, every planned bump is reported once, as bumped, rolled back or failed |
| ApplyBumps.UnwritableBumpFails | scripts/upgrade-apps.py:606-642 | A bump of a missing file or a moved line fails and changes nothing |
| Upgrade.PickIsReadBack | scripts/upgrade-apps.py:133-242 | A pick the template can produce, derived, written and read back, whatever the nesting: the image is found exactly when it resolves, carries exactly the picked tag, the entry pins it, and the same listing has nothing newer |
| Upgrade.PickedAgainIsSameRelease | web-platform/backend/resolvers/app_versions.py:260-355 | Once a pick is pinned, picking again from the same listing gives the same release |
| Upgrade.ImagesAfterApply | scripts/upgrade-apps.py:606-642 | After the whole loop, with any number of bumps and rollbacks in a file, every image whose binding has an accepted bump reads with the accepted value in its tag, as EntryReadsBack says |
| UpstreamCache.CacheFile.RefreshAll | web-platform/backend/resolvers/app_versions.py:1689-1769 | A refresh reads the previous cache, looks up every row and replaces the file by the new cache |
| UpstreamCache.CacheFile.ReadCache | web-platform/backend/resolvers/app_versions.py:1422-1431 | A missing or unreadable file reads as an empty cache |
| UpstreamCache.RefreshedAt | web-platform/backend/resolvers/app_versions.py:1703-1767 | A key's new entry depends on its own last row and its own previous entry only |
| UpstreamCache.CacheHoldsLastKnownGood | web-platform/backend/resolvers/app_versions.py:1689-1769 | Over every run of refreshes, catalog and strategy changes and lost files: the entry holds tag, time and details of the most recent successful lookup as long as only failures under the same strategy followed, and is stale exactly when one did |
| UpstreamCache.LatestStaysSet | web-platform/backend/resolvers/app_versions.py:1747-1765 | While a key stays listed with one strategy and a parseable image, a tag once set stays set |
| Catalog.SourceIndex | web-platform/backend/resolvers/app_versions.py:1507-1521 | Apps by repository and image by pin |
| Catalog.CollapseInstanceRows | web-platform/backend/resolvers/app_versions.py:1524-1587 | The grouping, naming and merging loops compute the specification |
| Catalog.ChooseKey | web-platform/backend/resolvers/app_versions.py:1643-1654 | The disambiguation loop terminates with the first free key in order of preference |
| Catalog.BuildCatalog | web-platform/backend/resolvers/app_versions.py:1590-1677 | Enabled rows, then source images that do not run, then host apps |
| CatalogProofs.EveryContainerAppearsOnce | web-platform/backend/resolvers/app_versions.py:1524-1587 | With distinct container names every enabled container appears exactly once, as its own row or one member of one merged row, and nothing else is shown as a container |
| CatalogProofs.MergedRowsArePins | web-platform/backend/resolvers/app_versions.py:1538-1582 | A merged row holds exactly the containers of one source pin, at least two |
| CatalogProofs.SamePinSharesARow | web-platform/backend/resolvers/app_versions.py:1545-1559 | Two containers of one source pin always share a row |
| CatalogProofs.MergedRowTracksTheSource | web-platform/backend/resolvers/app_versions.py:1537-1583 | A merged row carries the image its pin has in the source tree, not an instance's |
| CatalogRows.PinExactly | web-platform/backend/resolvers/app_versions.py:1507-1559 | An image belongs to a source pin exactly when some source pins its repository and only one app's sources do |
| CatalogRows.PinHasItsLastImage | web-platform/backend/resolvers/app_versions.py:1516-1521 | A pin's image is that of its last source line |
| CatalogRows.OwnRowIsShown | web-platform/backend/resolvers/app_versions.py:1590-1629 | A container that shares its pin with no other has a row of its own, with its name as key, its image, its external flag and its descriptor |
| CatalogRows.MergedRowIsShown | web-platform/backend/resolvers/app_versions.py:1554-1583 | A merged row, field by field: named like its app unless a container of another pin is, members in order, the descriptor of the first of its name, app and members that declares one, external as its first container |
| CatalogRows.CatalogParts | web-platform/backend/resolvers/app_versions.py:1590-1677 | The catalog is the enabled part, one disabled row for each source image no container runs, and one row for each host app with a new name, every field given |
| CatalogRows.KeyExactly | web-platform/backend/resolvers/app_versions.py:1637-1655 | A disabled row's key: the app, else the image's base name with the app in front unless it begins so, else the first free number from 2 on behind that |
| CatalogRows.SegmentExactly | web-platform/backend/resolvers/app_versions.py:1645 | The base name of an image is what stands after its last slash, up to tag or digest |
| CatalogKeys.FirstFreeIsTheFirst | web-platform/backend/resolvers/app_versions.py:1650-1654 | The numbering ends at the first number not taken |
| CatalogKeys.LaterKeysAreFresh | web-platform/backend/resolvers/app_versions.py:1631-1676 | Every disabled or host row's key differs from all keys placed before it, and the enabled part is left as it was |
| CatalogKeys.UncoveredImagesAreListed | web-platform/backend/resolvers/app_versions.py:1633-1660 | Exactly the source images no enabled container runs get a row, one each, in order |
| CatalogKeys.KeysAreUniqueExactlyWhen | web-platform/backend/resolvers/app_versions.py:1590-1677 | All keys are unique if and only if the merged groups' names differ and no fallback name meets a container that keeps its row |
| CatalogKeys.TwoImagesOneKey | web-platform/backend/resolvers/app_versions.py:1563-1565 | An app with two images run by two containers each gets one key twice |
| CatalogKeys.SuchCatalogsExist | web-platform/backend/resolvers/app_versions.py:1563-1565 | A concrete such catalog |
| Storage.MirroredUpperBound | web-platform/backend/resolvers/storage.py:678-681 | No two-copy placement exceeds half the total, nor the total without any one disk |
| Storage.GreedyIsMirrored | web-platform/backend/resolvers/storage.py:678-681 | Always using the two fullest-free disks is a valid placement |
| Storage.GreedyReachesFormula | web-platform/backend/resolvers/storage.py:678-681 | That placement stores exactly the formula's number of units |
| Storage.Raid1Optimal | web-platform/backend/resolvers/storage.py:672-690 | The raid1 capacity is the largest number of units storable on two distinct disks each |
| Storage.Raid1Monotone | web-platform/backend/resolvers/storage.py:672-690 | Adding or enlarging a disk never lowers it |
| Storage.StripedCapacity | web-platform/backend/resolvers/storage.py:672-690 | raid5 and raid6 hold the data units of as many stripes as fit on every disk, none without a disk to spare; single and raid0 hold the sum |
| OptionsParser.ReadEnableDefault | scripts/sync-config.py:147-157 | The forward scan for an enable default |
| OptionsParser.ParseOptionsAttrset | scripts/sync-config.py:160-198 | The line loop computes the scan over what the lines read as |
| OptionsParser.ScanLines | scripts/sync-config.py:160-198 | The depth-tracking loop itself |
| OptionsParser.ParseUndoesPrint | scripts/sync-config.py:160-198 | From any lines that read as a tree: exactly the top-level names, never a nested one, and the window scan of the last enable option; the scan stops at the matching close |
| OptionsText.ParsingUndoesPrinting | scripts/sync-config.py:160-198 | The round trip on text: from the line that opens a printed block, whatever stands before and after it, the parser returns the names bound at the block's own level and whether the first default or block end of its last enable option, read off the tree, is a true default in the window |
| OptionsText.OwnDefaultIsReadExactly | scripts/sync-config.py:147-157 | For every option body: the line read is the option's own default if and only if no nested block stands before it and it lies in the window of 15 lines |
| OptionsText.EnableDefaultExactly | scripts/sync-config.py:147-198 | When the value read agrees with the own default: with no nested block before it, unless a true default lies outside the window; otherwise exactly when the first nested block happens to say the same |
| OptionsText.NestedBlockHidesTheDefault | scripts/sync-config.py:155-157 | A true default behind an empty nested block reads as false |
| OptionsText.NestedDefaultIsTaken | scripts/sync-config.py:151-154 | A nested option's true default is taken for the option's own false |
| OptionsText.TreeReads | scripts/sync-config.py:160-198 | Every line of a printed tree reads as the tree says |
| OptionsParser.GroupHeaderReads | scripts/sync-config.py:190-193 | A printed group header reads as one |
| OptionsParser.OptionHeaderReads | scripts/sync-config.py:190-195 | A printed option header reads as one |
| OptionsParser.FooterReads | scripts/sync-config.py:155-183 | A printed footer reads as one |
| OptionsParser.LeafReads | scripts/sync-config.py:183-191 | A line without braces and key changes neither depth nor keys |
| OptionsParser.DefaultReads | scripts/sync-config.py:151-154 | A printed default line reads as that default |
| OptionsParser.KeyExactly | scripts/sync-config.py:190-193 | A key is read exactly from an assignment whose value opens with lib.mkOption or a brace |
| OptionsParser.DefaultExactly | scripts/sync-config.py:151-154 | A default is read exactly from an assignment of true or false to default, closed by a semicolon |
| SyncConfig.DropStale | scripts/sync-config.py:401-407 | Exactly the undeclared keys are popped |
| SyncConfig.AddMissing | scripts/sync-config.py:359-375 | Exactly the schema's missing services are added, with their defaults |
| SyncConfig.SweepServices | scripts/sync-config.py:388-407 | Every service is swept or skipped as the schema says |
| SyncConfig.Complete | scripts/sync-config.py:499-502 | Missing default keys are added, existing values win |
| SyncConfig.CompleteSections | scripts/sync-config.py:492-502 | Every required section is completed, or the configuration is reported malformed exactly when a section that is no object lacks a required key |
| SyncConfig.SyncConfig | scripts/sync-config.py:301-504 | The whole migration, the unreadable-schema exit and the malformed configuration included |
| SyncConfig.FixedIffInSync | scripts/sync-config.py:301-504 | A configuration is a fixed point if and only if it is in sync |
| SyncConfig.SyncReachesSync | scripts/sync-config.py:301-504 | One run puts a configuration in sync |
| SyncConfig.SyncIsIdempotent | scripts/sync-config.py:301-504 | A second run changes nothing |
| SyncConfig.ServicesAreKept | scripts/sync-config.py:327-407 | No service is removed; unknown services, services with an empty parsed schema and non-objects are untouched; known ones keep exactly their declared keys with their values |
| SyncConfig.ServicesAreAdded | scripts/sync-config.py:355-407 | A service only the schema names is added with enable set to its default and public to false, each exactly where the parsed subkeys are empty or declare it, and no other key |
| SyncConfig.DefaultsAreAdded | scripts/sync-config.py:492-502 | A missing section is added whole and a missing required key with its default, and no other key appears |
| SyncConfig.SectionsAreKept | scripts/sync-config.py:416-502 | Every other section keeps every key and value, except the renamed legacy key, whose value moves unless the new key exists |
| Overlay.MergeYaml | apps/home-assistant/merge-ha-yaml.py:30-53 | The recursion with its copied dictionary computes the specification |
| Overlay.MergeSelf | apps/home-assistant/merge-ha-yaml.py:30-53 | Overlaying a tree on itself changes nothing |
| Overlay.MergeAbsorbs | apps/home-assistant/merge-ha-yaml.py:30-53 | Applying the same defaults twice is applying them once |
| Overlay.TargetKept | apps/home-assistant/merge-ha-yaml.py:35-46 | What the target holds where the defaults are silent is kept |
| Overlay.DefaultsWin | apps/home-assistant/merge-ha-yaml.py:35-53 | A leaf of the defaults is what the result holds |
| Overlay.IdListsAreUnited | apps/home-assistant/merge-ha-yaml.py:26-51 | On id lists every target item with a new id survives, every default item is there, no other id appears, distinct ids stay distinct |
| Overlay.IdListsKeepOrder | apps/home-assistant/merge-ha-yaml.py:47-51 | The merged list is the target's surviving items in their order, then all of the defaults' items in theirs |
| Overlay.ListsCombineOnlyById | apps/home-assistant/merge-ha-yaml.py:26-27 | A list is replaced when either is empty or any item is no map with an id |
| Overlay.OthersAreReplaced | apps/home-assistant/merge-ha-yaml.py:30-53 | Whatever does not combine is replaced whole; a missing document gives way to the other |
| Overlay.MergedAt | apps/home-assistant/merge-ha-yaml.py:35-46 | Where both trees reach a path through maps, two containers are merged there and anything else takes the default |
| Overlay.AssociatesExactly | apps/home-assistant/merge-ha-yaml.py:30-53 | Two overlays are one overlay by the merged defaults if and only if, wherever the middle tree does not combine with the last and the first does, the first adds no key and no id to the last |
| Overlay.AddsNothingExactly | apps/home-assistant/merge-ha-yaml.py:35-51 | Overlaying leaves the defaults as they are exactly when the target has no key or id of its own, all the way down |
| Overlay.MergeAssociates | apps/home-assistant/merge-ha-yaml.py:30-53 | In particular on trees that agree in kind at shared paths |
| Overlay.KindsMustAgree | apps/home-assistant/merge-ha-yaml.py:37-45 | Three trees for which it fails: a scalar between two maps |
| Retention.DashboardHistoryStore.InsertSample | web-platform/backend/services/dashboard_history_store.py:101-122 | One row under its second, replacing an earlier one |
| Retention.DashboardHistoryStore.Prune | web-platform/backend/services/dashboard_history_store.py:138-145 | Exactly the rows before the cutoff go |
| Retention.DashboardHistoryStore.GetSamples | web-platform/backend/services/dashboard_history_store.py:149-191 | Exactly the rows of the window, strictly increasing in time |
| Retention.DashboardHistoryStore.LatestSample | web-platform/backend/services/dashboard_history_store.py:223-226 | The newest row, none exactly when the table is empty |
| Retention.Sampler.Run | web-platform/backend/dashboard_sampler.py:87-118 | The loop inserts each pass and prunes on every sixtieth tick of the process |
| Retention.SpacedKeysAreFew | web-platform/backend/services/dashboard_history_store.py:32-33 | Keys an interval apart in a window number at most the window over the interval, plus one |
| Retention.TableExactly | web-platform/backend/dashboard_sampler.py:99-117 | After every paced run, failed writes, failed prunes and restarts included, the table is exactly what was ever inserted from the cutoff of the last successful prune on, all of it without one |
| Retention.SizeExactly | web-platform/backend/dashboard_sampler.py:99-117 | Its size is exactly the number of inserts from that cutoff on |
| Retention.RowsAreBounded | web-platform/backend/dashboard_sampler.py:99-117 | In every paced run, failed writes, failed prunes and restarts included: at most one window of rows plus what was inserted since the last successful prune |
| Retention.HistoryIsBounded | web-platform/backend/dashboard_sampler.py:99-117 | In an undisturbed run never more than 8640 + 1 + 60 rows, and fewer between passes |
| Retention.PruningIsInvisible | web-platform/backend/services/dashboard_history_store.py:138-191 | A reader asking for the window or less gets exactly the listing of what was ever inserted in it |
| Retention.LatestEndsEveryWindow | web-platform/backend/services/dashboard_history_store.py:223-226 | The latest sample is the last of every window that is not empty |
| Retention.RestartsDefeatPruning | web-platform/backend/dashboard_sampler.py:99-114 | In every paced run whose processes all end before their sixtieth tick nothing is ever pruned: the table holds every sample inserted |
| Retention.UnboundedRuns | web-platform/backend/dashboard_sampler.py:99-114 | So the table grows without bound: a run with n rows for every n |
| BlueGreen.CollapseBlueGreen | web-platform/backend/resolvers/services.py:81-157 | The list to aggregate is the unpaired units and one verdict per pair; a role is set exactly on the two units of a pair with one running colour |
| BlueGreen.FindPairs | web-platform/backend/resolvers/services.py:103-113 | Each pair is found once, in order, and exactly the pairs' units are marked as paired |
| BlueGreen.JudgePair | web-platform/backend/resolvers/services.py:125-154 | A pair's verdict, running over starting over failed over inactive, and its two roles |
| BlueGreen.ReadUnits | web-platform/backend/resolvers/services.py:524-582 | The units' states from what systemd answers, errors and unknown units included, and as armed exactly the names of inactive units with an active trigger |
| BlueGreen.GetStatus | web-platform/backend/resolvers/services.py:488-624 | The aggregate status of a service and the roles of its units, unknown without units |
| LogicalUnits.CollapsedHoldsTheLogicalUnits | web-platform/backend/resolvers/services.py:81-157 | The list aggregated over holds exactly the logical units |
| LogicalUnits.RunningExactlyWhen | web-platform/backend/resolvers/services.py:584-607 | Running is shown if and only if every unpaired unit is healthy and every pair has a running colour or an armed unit under its base name |
| LogicalUnits.ArmedBaseHidesADownPair | web-platform/backend/resolvers/services.py:597-599 | For every base name without a colour suffix, a down pair shown as running |
| LogicalUnits.StatusRefinesLogicalUnits | web-platform/backend/resolvers/services.py:584-622 | The counted status is the same cascade read as every and some logical unit, without counting, exactly when doubly counted units do not cancel down ones |
| LogicalUnits.StartingExactlyWhen | web-platform/backend/resolvers/services.py:584-622 | Starting is shown if and only if some logical unit is starting, not all are healthy, and the down units are as many as the doubly counted ones |
| LogicalUnits.StartingUnitShowsDegraded | web-platform/backend/resolvers/services.py:515-622 | A starting unit beside a stopped one shows as active and degraded |
| StatusCases.FailedExactlyWhen | web-platform/backend/resolvers/services.py:136-141 | Failed is shown if and only if no unpaired unit is healthy or starting, no pair has a running or starting colour or an armed base, and some unit or colour has failed; or everything has failed, some of it armed or in sub-state start, and neither running nor starting is shown |
| StatusCases.FailedWhenSettled | web-platform/backend/resolvers/services.py:584-622 | For the units systemd can report only the first half remains |
| StatusCases.StoppedExactlyWhen | web-platform/backend/resolvers/services.py:611-618 | Stopped is shown if and only if nothing is up, armed or starting and nothing has failed |
| StatusCases.FailedPairShows | web-platform/backend/resolvers/services.py:138-141 | A pair that is down with a failed colour shows as failed |
| StatusCases.PairAlone | web-platform/backend/resolvers/services.py:125-154 | The status of a pair alone: up with one colour active and running, else starting, failed or stopped as one colour is |
| StatusCases.UnpairedStatus | web-platform/backend/resolvers/services.py:584-622 | The status of units without pairs, from the states systemd reports and the armed names |
| StatusCases.RunningByAnswers | web-platform/backend/resolvers/services.py:524-607 | Running is shown for units without pairs exactly when systemd answers up for each: found and active, running or exited, or inactive or not found with an active trigger; so errors, timeouts and a failed unit behind a socket show |
| LogicalUnits.NoStartingUnitIsArmed | web-platform/backend/resolvers/services.py:584-622 | In particular whenever no starting unit is socket-armed |
| LogicalUnits.DownUnitIsCountedAway | web-platform/backend/resolvers/services.py:605-609 | A family of services, only an idle unit armed, shown as starting although a unit is down, where the cascade without counting says degraded |
| LogicalUnits.ReadUnitsAreIdle | web-platform/backend/resolvers/services.py:566-571 | With distinct names, since only inactive units are armed: no armed unit read from systemd is starting by itself, unless systemd reports an armed inactive unit in sub-state start |
| LogicalUnits.OnlyArmedPairsMislead | web-platform/backend/resolvers/services.py:566-622 | So counting changes nothing unless a pair's base is an armed name |
| LogicalUnits.DownPairShows | web-platform/backend/resolvers/services.py:584-607 | Then, too, a pair that is down is never hidden |
| LogicalUnits.RolesOfAPair | web-platform/backend/resolvers/services.py:146-154 | The running colour of a pair is serving and the other standby; with both or none running there is no role |
| LogicalUnits.RolesMarkOneRunningColour | web-platform/backend/resolvers/services.py:146-154 | A unit has a role exactly when it belongs to a pair with one running colour, and it serves exactly when it runs |
| LogicalUnits.OrderDoesNotMatter | web-platform/backend/resolvers/services.py:67-624 | With distinct names neither the status nor any role depends on the order of units |

## Left out

- Expansion.ResolveExactly: leaves open what later passes make of a reference that a seam made and that names a binding; it can be replaced again and even come back.
- RoundTrip.ParseRewriteParse: says of an image that holds a reference of its own only what it means; the converse is EntryReadsBackExactly. Of templates nested deeper than the four passes or in a cycle it says when they are found, not whether they still resolve.
- RoundTrip.EntryReadsBackExactly: is about nesting below the pass limit and images none of whose references is bound.
- Bumper.TemplatedPinAgrees: leaves out templates whose fixed text joins a digit run of the value, or whose suffix holds digits while the two values hold different numbers of numbers.
- Upgrade.PickIsReadBack: asks for a picked tag without quote and `$`, which no registry tag holds.
- AlertRuns.LogIsTheAlarmHistory: starts from an empty database and assumes no SQLite errors; pre-severity rows and the column migration are not modelled.
- Text is ASCII and no modelled line or tag holds a newline; regular expressions are small matchers written out for the fixed patterns, and their digits, spaces and word characters are the ASCII ones.
- Alert channels, push messages and the per-item readings: they have no effect on the modelled state. Severities outside clear, warn and err do not occur; readings are reals, so there is no NaN.
- SQLite is a map and a sequence with each store method atomic; connection errors, journal modes and the history pagination are not modelled.
- File modes, ownership, the atomic replace and operating system errors of the bumper; `nix-instantiate` is an arbitrary check. The grouping of outdated rows into planned bumps, the Zitadel filter and the reports are command-line glue.
- The registry, GitHub and command fetchers, the rewriting of listings by per-app patterns and the one-click endpoint: a lookup is an arbitrary result.
- How an image string splits into registry and repository is a parameter of the catalog, and metadata entries are already resolved to a strategy and its parameters.
- raid10 shares the formula but stripes differently, so the theorem is about raid1; the pool preview's warnings are not.
- The walkers that find option blocks in module files, and the messages that report changes. A configuration for which the script raises is a malformed outcome here.
- The order of keys in JSON objects and YAML maps; Python's truthiness of ids, ids that cannot be hashed, and the equality of `1` and `true`.
- Sensor temperatures share the sample table's cadence and prune and add nothing; throughput counters and the connectivity probe are arbitrary sample contents. The sampler's clock is never negative, so that int() is the floor; the alert engine's clock is any integer, 0 included.
- Splitting `systemctl show` output into its properties: what it answers about a unit, and whether each triggering unit is active, are inputs.
- HTTP routes, authentication, device probing, secrets tooling, frontends and display code.
