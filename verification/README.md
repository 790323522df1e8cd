# Verified models of jmeter-rs

A Dafny model of the parts of jmeter-rs where a mistake is hardest to see, and proofs of what
those parts promise. Each model follows the code branch by branch; each main result relates it
to something defined without it: a naive specification, an inverse, an invariant of every run,
or a declarative winner.

| module | what it models |
|---|---|
| `Kmp`, `BoundaryExtraction` | The Boundary Extractor: the prefix-function search with its step budget, and the nested loops that extract matches under every limit. |
| `Utf8`, `Utf16` | UTF-8 (section 3 of RFC 3629) as far as slicing needs it, and the one-pass UTF-16 decoder with its pending high surrogate. |
| `VariablePlan` | The plan of variable mutations an extraction makes, applied over whole runs. |
| `DriveLoop` | The current-thread executor: `DriveState` and the drive loop against any lawful environment. |
| `WakeProtocol` | Wake signals: bump under the lock, then unpark, interleaved with the executor's check-then-park. |
| `XmlEntities`, `XmlScan`, `XmlTree`, `XmlParser` | The independent XML reader: character references, scanner, stack of open elements, normalisation, and text to tree. |
| `CsvRecord`, `CsvFile` | The independent CSV scanner, the record inventory with the delimiter it chooses, and the greedy header match. |
| `ReportInput` | The format probe in front of the report decoder. |
| `SaveConfig` | The precedence choice among save-configuration operations. |
| `JsonPreflight`, `JsonBounds` | The flat JSON preflight, and the recursive bounds applied after it. |
| `ThresholdRules`, `EvidenceGate` | The metric registry, the threshold validator, and the collected-evidence validator. |
| `Attainable`, `GateExample` | Which accepted configurations a run can complete at all, with a worked configuration. |
| `Prelude`, `Numerals` | Option and result types, and positional numerals, shared by the others. |

Code that changes things step by step is modelled by methods with loops, by classes whose
methods modify their fields, or by an array filled in place. Each such method is proved
equal to a specification function or predicate, and the properties are lemmas about that.

Main results:

- Extraction equals a naive recursive specification on every list of inputs, selecting the k-th
  match is selecting from all matches, every slice is legal UTF-8, and a budget of
  `2 * bytes * (max_matches + 2)` steps can never run out.
- Any mix of invocations for one reference name leaves no stale indexed variable.
- A drive ends, and makes at most `poll_budget + 2` polls in a row without a change of generation.
  If its parks end as `park_until_wait` ends them, it also makes at most `2 * wake_budget + 3` in a
  row, and at most `2^64`, whatever the budgets; for every policy the smallest of the three is
  attained. One of its three budget checks can never fire; a stalled provider is reported only
  after a repoll for the same deadline; the wake budget is exceeded exactly by the wakes on
  unchanged turns since the last semantic progress.
- No wake-up is lost in any interleaving of any number of signallers. The snapshots of any run obey
  the laws that the drive loop asks of its wakes, and a wake that ends a park is found by the next
  observation.
- The XML reader turns text into a tree for exactly the texts that write a report, and the CSV
  scanner reads exactly the records that can be printed; both round trips hold whatever follows.
- The JSON preflight measures exactly the depth, size and longest string of the value written.
  After it the depth check cannot fire, and the node check fires in exactly one case.
- Evidence accepted as completed counted no failure, drop or overflow and reached the minimums,
  whatever rules the configuration used. As far as the modelled checks go, measurements can be
  reported as completed exactly when they meet every rule, and some run can complete an accepted
  configuration exactly when a condition computed from the configuration holds.

Properties that do not hold as one might expect, each with the exact condition:

- `JsonBounds.SpellingsPass`: the raw string bound allows six characters for each permitted
  character, but an escaped surrogate pair is twelve. Every spelling of a text passes exactly
  when six times its UTF-16 length is within the bound. `JsonBounds.ShortTextStopped` is a text
  within the character bound that is stopped.
- `JsonBounds.AfterPreflight`: a text can pass the preflight and have one node too many, exactly
  at the limit with no empty container and no object member. `JsonBounds.NodeLimitReachable` is one.
- `XmlEntities.EscapeRoundTrip`: characters that XML does not allow are refused exactly in texts
  with something to escape. `XmlEntities.ControlBesideAmpersand` is an input for each side.
- `Utf16.UnmarkedText`: text without a byte-order mark is read back exactly when it does not
  begin with U+FEFF or U+FFFE. `Utf16.MarkCharacterLost` is a text that is not.
- `CsvFile.FileRoundTrip`: a printed table is read back exactly when the file is marked or does not
  begin with the bytes of a mark, and the delimiter chosen for the text is the one it was printed
  with, or the table has one column without the chosen one in a plain field. `CsvFile.MarkIsLost`,
  `CsvFile.TabIsLost` and `CsvFile.CommaIsLost` are tables that are not.
- `SaveConfig.InterleavingExact`: the choice ignores how the sources interleave exactly when some
  source has not withdrawn, or one source has all the operations.
  `SaveConfig.WithdrawalsShowOrder` is a pair of interleavings that differ.
- `Attainable.CompletableExactly`: an accepted configuration need not be one that a run can
  complete. Over the reals, some run can exactly when the metrics can be reported on, every rule is
  about something reported, no percentile is asked to be below zero, and for every other metric one
  computed value meets all its rules. (Over floats the computed value has to be one: the rules
  `> 1.0` and `< 1.0000000000000002` on `cpu_time_ns` have only reals between them.) `GateExample.BelowZeroIsAccepted` spoils any accepted
  configuration with one more accepted rule; `GateExample.ConfigIsCompletable` and
  `GateExample.ConfigIsSpoiled` are concrete.

Where code and comment differ, the code is followed: the comment at
`apps/jmeter-rs/src/current_thread_executor.rs:280-281` says that the wake budget counts wakes
without a wait change, while lines 889-914 keep the wake streak across wait changes.

## Model

| member | source | states |
|---|---|---|
| `Kmp.LeftmostIsLeftmost` | apps/jmeter-rs/src/boundary_extractor.rs:1064-1092 | the reference search returns an occurrence with none before it, or none when there is none |
| `Kmp.BorderBelowIsLongest` | apps/jmeter-rs/src/boundary_extractor.rs:1048-1062 | the reference table entry is the longest proper border of its prefix |
| `Kmp.PatternUnique` | apps/jmeter-rs/src/boundary_extractor.rs:1042-1062 | a pattern is valid exactly when its table is the reference table |
| `Kmp.NextEntry` | apps/jmeter-rs/src/boundary_extractor.rs:1052-1060 | one step of the table loop yields the longest border of the next prefix, from those before it |
| `Kmp.FallBack` | apps/jmeter-rs/src/boundary_extractor.rs:1052-1054 | the inner loop ends at the border that the reference fall ends at |
| `Kmp.NewPattern` | apps/jmeter-rs/src/boundary_extractor.rs:1048-1062 | the table filled in place holds the longest proper border of every prefix |
| `Kmp.FallKeeps` | apps/jmeter-rs/src/boundary_extractor.rs:1079-1082 | falling back through the table loses no longer match of the text |
| `Kmp.StepMatched` | apps/jmeter-rs/src/boundary_extractor.rs:1078-1090 | after each byte, the matched length is the longest suffix of the scanned text that begins the pattern |
| `Kmp.Advance` | apps/jmeter-rs/src/boundary_extractor.rs:1078-1090 | a full match is the leftmost one; otherwise none has ended yet |
| `Kmp.RunIsLeftmost` | apps/jmeter-rs/src/boundary_extractor.rs:1077-1091 | the automaton stops at the leftmost occurrence and takes at most two steps per scanned byte |
| `Kmp.SearchIsLeftmost` | apps/jmeter-rs/src/boundary_extractor.rs:1064-1092 | the same for a whole search: leftmost result, and cost at most twice the bytes up to its end |
| `Kmp.BumpSteps` | apps/jmeter-rs/src/boundary_extractor.rs:1095-1103 | success, limit or overflow, by where the counter stands |
| `Kmp.ScanFrom` | apps/jmeter-rs/src/boundary_extractor.rs:1077-1091 | the loop ends where the automaton ends, charges its exact cost, and fails exactly when the budget is smaller |
| `Kmp.FindFrom` | apps/jmeter-rs/src/boundary_extractor.rs:1064-1092 | without an error it returns the leftmost occurrence at or after the start, or none when there is none; it errs exactly when the budget does not cover the cost |
| `Utf8.DecodeFirstIffEncoded` | apps/jmeter-rs/src/boundary_extractor.rs:989-1031 | a scalar is read from the front of bytes exactly when its encoding stands there (section 3 of RFC 3629) |
| `Utf8.DecodeInvertsEncode` | apps/jmeter-rs/src/boundary_extractor.rs:989-1031 | every encoded text is valid and decodes to itself |
| `Utf8.BoundarySplits` | apps/jmeter-rs/src/boundary_extractor.rs:989-1031 | an index is a character boundary exactly when both halves are valid |
| `Utf8.SliceValid` | apps/jmeter-rs/src/boundary_extractor.rs:989-1031 | a slice between two boundaries is valid |
| `Utf8.OccurrenceAligned` | apps/jmeter-rs/src/boundary_extractor.rs:989-1031 | any byte-level occurrence of a non-empty valid boundary in valid text begins and ends on character boundaries |
| `BoundaryExtraction.Slice` | apps/jmeter-rs/src/boundary_extractor.rs:989-1031 | a legal slice of valid text is valid text |
| `BoundaryExtraction.PairRunValues` | apps/jmeter-rs/src/boundary_extractor.rs:1010-1030 | the pair loop finds the naive leftmost-left, leftmost-right values |
| `BoundaryExtraction.InputRunValues` | apps/jmeter-rs/src/boundary_extractor.rs:951-1031 | one input gives its naive values, in all four cases of empty boundaries |
| `BoundaryExtraction.FullRunValues` | apps/jmeter-rs/src/boundary_extractor.rs:902-926 | a list of inputs gives the concatenation of their naive values |
| `BoundaryExtraction.PlayCollects` | apps/jmeter-rs/src/boundary_extractor.rs:967-984 | an unselective success has collected every value, and no more than the limit |
| `BoundaryExtraction.PlaySelects` | apps/jmeter-rs/src/boundary_extractor.rs:967-984 | a selective success has the selected value, or nothing |
| `BoundaryExtraction.OutcomeIsNaive` | apps/jmeter-rs/src/boundary_extractor.rs:860-1031 | every success equals the naive specification on every list of inputs |
| `BoundaryExtraction.SelectionFollows` | apps/jmeter-rs/src/boundary_extractor.rs:967-984 | where collecting all succeeds, selecting one succeeds |
| `BoundaryExtraction.SelectionAgrees` | apps/jmeter-rs/src/boundary_extractor.rs:860-1031 | if all matches are L, match k is the k-th entry of L, or nothing when L is shorter |
| `BoundaryExtraction.PairRunCost` | apps/jmeter-rs/src/boundary_extractor.rs:1010-1030 | left scans of one input are disjoint; each match pays for one right scan |
| `BoundaryExtraction.SingleRunCost` | apps/jmeter-rs/src/boundary_extractor.rs:989-1005 | a scan for one boundary costs at most two steps per byte |
| `BoundaryExtraction.InputRunCost` | apps/jmeter-rs/src/boundary_extractor.rs:951-1031 | an input of n bytes costs at most 2·n·(max_matches + 2) |
| `BoundaryExtraction.FullRunCost` | apps/jmeter-rs/src/boundary_extractor.rs:902-926 | the same over a list of inputs and their total length |
| `BoundaryExtraction.CoveredPlay` | apps/jmeter-rs/src/boundary_extractor.rs:951-1031 | an invocation whose cost is covered is never stopped for its steps |
| `BoundaryExtraction.BudgetSuffices` | apps/jmeter-rs/src/boundary_extractor.rs:860-1031 | a budget of 2·bytes·(max_matches + 2) never gives a `search-steps` error |
| `BoundaryExtraction.Append` | apps/jmeter-rs/src/boundary_extractor.rs:967-984 | counts, bounds and keeps a value, or stops, as the run of events prescribes |
| `BoundaryExtraction.Search` | apps/jmeter-rs/src/boundary_extractor.rs:1011-1024 | one search finds the leftmost boundary, aligned, and charges its cost |
| `BoundaryExtraction.ScanToRight` | apps/jmeter-rs/src/boundary_extractor.rs:989-995 | the right-boundary case plays the events of its naive run |
| `BoundaryExtraction.ScanFromLeft` | apps/jmeter-rs/src/boundary_extractor.rs:996-1005 | the left-boundary case plays the events of its naive run |
| `BoundaryExtraction.ScanPairs` | apps/jmeter-rs/src/boundary_extractor.rs:1010-1030 | the nested pair loop plays the events of its naive run |
| `BoundaryExtraction.ScanInput` | apps/jmeter-rs/src/boundary_extractor.rs:951-1031 | one input plays the events of its naive run, under every limit |
| `BoundaryExtraction.ScanInputs` | apps/jmeter-rs/src/boundary_extractor.rs:899-926 | the loop over inputs plays the whole run |
| `BoundaryExtraction.ExtractBoundaryMatches` | apps/jmeter-rs/src/boundary_extractor.rs:860-927 | its outcome is that of the run; a success is the naive selection, and every value is valid UTF-8 |
| `Utf16.DecodeUnitsInvertsEncode` | apps/jmeter-rs/src/boundary_extractor.rs:1593-1650 | the lookahead decoder inverts the encoding of section 2.1 of RFC 2781 |
| `Utf16.UnitsInvertToBytes` | apps/jmeter-rs/src/boundary_extractor.rs:1606-1611 | units survive either byte order |
| `Utf16.TextInvertsEncodeText` | apps/jmeter-rs/src/boundary_extractor.rs:1593-1650 | every scalar sequence is read back in either declared order, and in either order announced by a mark |
| `Utf16.DecodedUnitCount` | apps/jmeter-rs/src/boundary_extractor.rs:1612-1648 | decoding loses no unit: a replacement stands for exactly one |
| `Utf16.UnmarkedText` | apps/jmeter-rs/src/boundary_extractor.rs:1598-1603 | without a mark the text is read back if and only if it does not begin with U+FEFF or U+FFFE |
| `Utf16.MarkCharacterLost` | apps/jmeter-rs/src/boundary_extractor.rs:1598-1603 | a text that is not: U+FEFF alone |
| `Utf16.NextUnit` | apps/jmeter-rs/src/boundary_extractor.rs:1612-1641 | one unit with a pending high surrogate does what looking ahead would |
| `Utf16.PushCharBounded` | apps/jmeter-rs/src/boundary_extractor.rs:1466-1482 | a character is appended exactly when its UTF-8 form fits |
| `Utf16.PushNext` | apps/jmeter-rs/src/boundary_extractor.rs:1466-1482 | pushing the next character keeps the output a prefix of the text, or shows that the text does not fit |
| `Utf16.PushUnit` | apps/jmeter-rs/src/boundary_extractor.rs:1612-1641 | one pass of the loop keeps output and pending surrogate in step with the lookahead decoder |
| `Utf16.DecodeUtf16` | apps/jmeter-rs/src/boundary_extractor.rs:1593-1650 | equals the lookahead decoder on every byte string, and fails exactly when the decoded UTF-8 exceeds the maximum |
| `VariablePlan.DecimalValue` | apps/jmeter-rs/src/boundary_extractor.rs:1729-1729 | a count printed in decimal has that value |
| `VariablePlan.StoredCountReadsBack` | apps/jmeter-rs/src/boundary_extractor.rs:1786-1794 | a stored match count is read back as itself |
| `VariablePlan.NamesDistinct` | apps/jmeter-rs/src/boundary_extractor.rs:1796-1802 | the reference name, its count key and its indexed names never collide |
| `VariablePlan.IndexedNamesDistinct` | apps/jmeter-rs/src/boundary_extractor.rs:1800-1802 | indexed names are equal exactly when their indices are |
| `VariablePlan.ApplyLookup` | apps/jmeter-rs/src/boundary_extractor.rs:1703-1775 | applying a plan with distinct keys sets and removes exactly what the plan says |
| `VariablePlan.PlanUpsert` | apps/jmeter-rs/src/boundary_extractor.rs:1804-1824 | one key is replanned, all others keep their plan, keys stay distinct |
| `VariablePlan.PlanOwn` | apps/jmeter-rs/src/boundary_extractor.rs:1720-1726 | plans the reference name and nothing else |
| `VariablePlan.PlanCount` | apps/jmeter-rs/src/boundary_extractor.rs:1729-1746 | plans the match count and nothing else |
| `VariablePlan.PlanIndex` | apps/jmeter-rs/src/boundary_extractor.rs:1730-1736 | plans the next indexed name and nothing else |
| `VariablePlan.PlanRemovals` | apps/jmeter-rs/src/boundary_extractor.rs:1741-1749 | plans the removal of a range of indexed names |
| `VariablePlan.PlanListing` | apps/jmeter-rs/src/boundary_extractor.rs:1728-1744 | plans every match, the count, and the removal of what was beyond it |
| `VariablePlan.ShapeSize` | apps/jmeter-rs/src/boundary_extractor.rs:1703-1775 | a plan has distinct keys and at most 2 + max(matches, previous count) entries |
| `VariablePlan.ShapeHasEffect` | apps/jmeter-rs/src/boundary_extractor.rs:1703-1775 | a plan of that shape, applied, has exactly the documented effect on every variable |
| `VariablePlan.PlanVariableMutations` | apps/jmeter-rs/src/boundary_extractor.rs:1703-1775 | fails for a stale count or a failed draw exactly when those happen; otherwise distinct keys, bounded size, and the documented effect |
| `VariablePlan.EffectKeepsNoStale` | apps/jmeter-rs/src/boundary_extractor.rs:1703-1824 | after any invocation an indexed name is present if and only if its index is within the stored count |
| `VariablePlan.RunsLeaveNoStale` | apps/jmeter-rs/src/boundary_extractor.rs:1703-1824 | over any sequence of invocations for one name, no stale index and never a stale-count error |
| `DriveLoop.DriveState.constructor` | apps/jmeter-rs/src/current_thread_executor.rs:848-858 | starts with empty streaks, no race used and no expired wait |
| `DriveLoop.DriveState.Observe` | apps/jmeter-rs/src/current_thread_executor.rs:860-931 | the full new state of an accepted observation, and exactly when each error is returned |
| `DriveLoop.DriveState.ExpiredWaitAction` | apps/jmeter-rs/src/current_thread_executor.rs:933-956 | not expired, repoll once for a deadline, or stalled when that deadline was repolled before |
| `DriveLoop.SteadyIsLawful` | apps/jmeter-rs/src/current_thread_executor.rs:475-517 | the laws asked of an environment can be met: by one where nothing ever changes |
| `DriveLoop.Notice` | apps/jmeter-rs/src/current_thread_executor.rs:510-511 | an observation in the environment's terms: the new streaks and marks, and exactly when a counter or the wake budget is passed |
| `DriveLoop.Attend` | apps/jmeter-rs/src/current_thread_executor.rs:510-615 | an observed poll keeps the state in step with the environment; what each error says, and the exact step of a turn on which no generation moved |
| `DriveLoop.TakeTurn` | apps/jmeter-rs/src/current_thread_executor.rs:475-517 | one turn keeps the state in step with the environment, moves both streaks by the rule, and what each error and each turn without a change comes to |
| `DriveLoop.Settle` | apps/jmeter-rs/src/current_thread_executor.rs:519-615 | the branches after an observation: what each continues with and what each error means |
| `DriveLoop.GenerationsGrow` | apps/jmeter-rs/src/current_thread_executor.rs:475-517 | generations only grow, and stand still exactly on an unchanged turn |
| `DriveLoop.StreakOn` | apps/jmeter-rs/src/current_thread_executor.rs:860-931 | the streak is the length of the current run of unchanged polls, and no run is longer than its bound |
| `DriveLoop.TurnsGrow` | apps/jmeter-rs/src/current_thread_executor.rs:475-616 | every turn is paid for by a generation or by the streak |
| `DriveLoop.RememberedOn` | apps/jmeter-rs/src/current_thread_executor.rs:519-615 | the marks for an excused race and a repolled deadline tell what the log of past turns shows |
| `DriveLoop.Explain` | apps/jmeter-rs/src/current_thread_executor.rs:519-615 | what each error says about the turns before it |
| `DriveLoop.TrackedOn` | apps/jmeter-rs/src/current_thread_executor.rs:475-616 | the measure of remaining generations and remaining streak goes down with every turn |
| `DriveLoop.LastAdvanceMeans` | apps/jmeter-rs/src/current_thread_executor.rs:887-894 | the turn that wakes are counted from: nothing progressed since, and something did just before |
| `DriveLoop.WakeDebtOn` | apps/jmeter-rs/src/current_thread_executor.rs:889-914 | the wakes on unchanged turns since the last semantic progress survive a wait change and nothing else clears them |
| `DriveLoop.DebtPasses` | apps/jmeter-rs/src/current_thread_executor.rs:904-914 | only an unchanged turn can carry them past the budget |
| `DriveLoop.WakeOwes` | apps/jmeter-rs/src/current_thread_executor.rs:538-551 | a turn that finds a notification pays for itself and for a park before it |
| `DriveLoop.IdleOwes` | apps/jmeter-rs/src/current_thread_executor.rs:553-615 | a turn without one goes on at most twice in a run of unchanged turns before the next notification: once parked or raced, and once for a passed deadline |
| `DriveLoop.StreakWakes` | apps/jmeter-rs/src/current_thread_executor.rs:889-914 | the notifications found in a run of unchanged turns all count against the wake budget |
| `DriveLoop.RestedOn` | apps/jmeter-rs/src/current_thread_executor.rs:475-616 | both together over an honest run: its unchanged polls stay within twice its wakes and two |
| `DriveLoop.TightWakes` | apps/jmeter-rs/src/current_thread_executor.rs:736-758 | the wakes of the environment below obey the laws of a wake signal |
| `DriveLoop.TightIsLawful` | apps/jmeter-rs/src/current_thread_executor.rs:475-616 | the environment in which every other turn parks, a wake ends each park, and the deadline passes when a budget is used up, is lawful |
| `DriveLoop.TightEnds` | apps/jmeter-rs/src/current_thread_executor.rs:1047-1118 | each of its parks ends over a wake that the next turn finds, or past the deadline |
| `DriveLoop.TightGoes` | apps/jmeter-rs/src/current_thread_executor.rs:475-616 | a turn of it goes on to the next or is the last one of the longest run |
| `DriveLoop.AttainBound` | apps/jmeter-rs/src/current_thread_executor.rs:475-616 | over that environment the loop body polls exactly the longest run of times without a change before it reports the stall, or the poll counter's overflow; for every valid policy |
| `DriveLoop.Loop` | apps/jmeter-rs/src/current_thread_executor.rs:475-616 | the loop ends, within both its bounds, with every error explained |
| `DriveLoop.Drive` | apps/jmeter-rs/src/current_thread_executor.rs:457-618 | at most `poll_budget + 2` unchanged polls in a row, and if the parks end for a reason at most the smallest of that, `2 * wake_budget + 3` and `2^64`; a bounded number of turns, a stalled provider only after a repoll for the same deadline throughout, no error from the budget check after progress, and the wake budget kept on every continued turn and reported exactly when passed |
| `WakeProtocol.WakeSignal.constructor` | apps/jmeter-rs/src/current_thread_executor.rs:723-734 | starts with generation one and no notification |
| `WakeProtocol.WakeSignal.Signal` | apps/jmeter-rs/src/current_thread_executor.rs:760-789 | one generation and one notification more, or the overflow mark and nothing else |
| `WakeProtocol.WakeSignal.TakeSnapshot` | apps/jmeter-rs/src/current_thread_executor.rs:736-758 | a consistent signal never reports inconsistent bookkeeping |
| `WakeProtocol.StepKeepsInv` | apps/jmeter-rs/src/current_thread_executor.rs:760-789 | every step of signallers and executor keeps the invariant |
| `WakeProtocol.RunKeepsInv` | apps/jmeter-rs/src/current_thread_executor.rs:1001-1118 | the invariant holds in every world of every run |
| `WakeProtocol.NoLostWakeUp` | apps/jmeter-rs/src/current_thread_executor.rs:1001-1118 | whenever the executor is blocked without a token and a generation is unseen, some signaller has its unpark still to do |
| `WakeProtocol.Accounting` | apps/jmeter-rs/src/current_thread_executor.rs:736-789 | generation is notifications plus one, the counter never overflows, and reported plus unseen is recorded |
| `WakeProtocol.GenerationsOnlyGrow` | apps/jmeter-rs/src/current_thread_executor.rs:760-789 | generations, records and reports only grow over a run |
| `WakeProtocol.SnapshotsAreLawful` | apps/jmeter-rs/src/current_thread_executor.rs:736-758 | any two snapshots of a run, in order, obey the wake laws of the drive loop, and the later is never refused by an observation after the earlier |
| `WakeProtocol.ObservedStays` | apps/jmeter-rs/src/current_thread_executor.rs:1047-1118 | what the executor observed stays fixed until it observes again |
| `WakeProtocol.ChangeIsFound` | apps/jmeter-rs/src/current_thread_executor.rs:1001-1118 | a park or race that ends over a signal leaves it to be found by every snapshot up to the next observation |
| `WakeProtocol.SignalEndsThePark` | apps/jmeter-rs/src/current_thread_executor.rs:1047-1118 | a signal before the end of a park makes it end as `Changed`, or with the overflow error |
| `WakeProtocol.ObservationCatchesUp` | apps/jmeter-rs/src/current_thread_executor.rs:860-914 | after an observation every recorded signal has been reported |
| `WakeProtocol.SignalIsDelivered` | apps/jmeter-rs/src/current_thread_executor.rs:1047-1118 | a pending unpark leads a blocked executor, step by step, to report the change |
| `CsvRecord.ScanQuoted` | fuzz/fuzz_targets/jtl_csv.rs:282-299 | an escaped field is scanned back byte by byte, whatever follows its closing quote |
| `CsvRecord.ScanToken` | fuzz/fuzz_targets/jtl_csv.rs:265-332 | a printed field brings the scanner to its end with its value and flag |
| `CsvRecord.ScanRecord` | fuzz/fuzz_targets/jtl_csv.rs:252-345 | a printed record is scanned back and the scan stops exactly at its end |
| `CsvRecord.StepKeepsCoherent` | fuzz/fuzz_targets/jtl_csv.rs:265-332 | after every byte the input so far is the printing of what was read |
| `CsvRecord.ScannedStands` | fuzz/fuzz_targets/jtl_csv.rs:252-345 | every record scanned stands printed in the input |
| `CsvRecord.ScanExact` | fuzz/fuzz_targets/jtl_csv.rs:252-345 | the scanner returns a record if and only if it stands printed there within the limits (section 2 of RFC 4180, LF or CRLF, any bytes after it) |
| `CsvRecord.RawCsvRecord` | fuzz/fuzz_targets/jtl_csv.rs:252-345 | the byte loop returns exactly the record that stands printed at the offset within the limits, or nothing |
| `CsvFile.SplitField` | fuzz/fuzz_targets/jtl_csv.rs:238-246 | splitting at a byte gives back the fields that were joined with it |
| `CsvFile.TabIsChosen` | fuzz/fuzz_targets/jtl_csv.rs:230-250 | a plain header between tabs, without commas, is read with a tab if and only if one of its fields names a column |
| `CsvFile.CommaIsChosen` | fuzz/fuzz_targets/jtl_csv.rs:230-250 | a header of several columns between commas is read with a comma if no line break is quoted in its first field |
| `CsvFile.RawCsvInventory` | fuzz/fuzz_targets/jtl_csv.rs:198-228 | all records, read with the chosen delimiter, of equal width and within the limits, or nothing |
| `CsvFile.FileScansBack` | fuzz/fuzz_targets/jtl_csv.rs:198-228 | a printed table is scanned back record by record |
| `CsvFile.PrintsAlike` | fuzz/fuzz_targets/jtl_csv.rs:252-345 | a record printed with two delimiters has one length, the same bytes outside them, and is different if it has two columns |
| `CsvFile.ReadMeans` | fuzz/fuzz_targets/jtl_csv.rs:198-228 | records that are given back were printed with that delimiter, or have one column each that it cannot split |
| `CsvFile.ReadExactly` | fuzz/fuzz_targets/jtl_csv.rs:198-228 | where the text of a table stands, a delimiter reads it back if and only if it is the printed one or has nothing to delimit |
| `CsvFile.MarkSwallowed` | fuzz/fuzz_targets/jtl_csv.rs:198-228 | a file that begins with the bytes of a mark, read from its fourth byte with any delimiter, never gives its own records |
| `CsvFile.FileRoundTrip` | fuzz/fuzz_targets/jtl_csv.rs:198-250 | printing a table and taking its inventory gives it back if and only if the file is marked or does not begin with the bytes of a mark, and the delimiter chosen from its first line is the printed one or has nothing to delimit |
| `CsvFile.MarkIsLost` | fuzz/fuzz_targets/jtl_csv.rs:198-228 | a table that is not given back, for its mark |
| `CsvFile.TabIsLost` | fuzz/fuzz_targets/jtl_csv.rs:230-250 | one that is not, because its columns are unknown |
| `CsvFile.CommaIsLost` | fuzz/fuzz_targets/jtl_csv.rs:230-250 | one that is not, because a line break in quotes cuts off the line that is looked at |
| `CsvFile.EarliestOn` | fuzz/fuzz_targets/jtl_csv.rs:397-410 | the greedy choice is at or before every other embedding |
| `CsvFile.MatchHeaders` | fuzz/fuzz_targets/jtl_csv.rs:397-410 | the greedy match succeeds exactly when some embedding exists, and gives the earliest |
| `XmlEntities.NumericReference` | fuzz/fuzz_targets/jtl_xml.rs:534-541 | every character has a decimal and a hexadecimal reference that reads back |
| `XmlEntities.DecodeXmlEntities` | fuzz/fuzz_targets/jtl_xml.rs:515-548 | the loop from ampersand to ampersand computes the left-to-right expansion |
| `XmlEntities.SpellingExpands` | fuzz/fuzz_targets/jtl_xml.rs:515-548 | every spelling of a text expands to that text |
| `XmlEntities.ExpandedIsSpelled` | fuzz/fuzz_targets/jtl_xml.rs:515-548 | every text that expands was a spelling of the result |
| `XmlEntities.DecodedIsSpelling` | fuzz/fuzz_targets/jtl_xml.rs:515-555 | a text with an ampersand decodes to t if and only if it spells t and t has only characters XML allows |
| `XmlEntities.EscapeRoundTrip` | fuzz/fuzz_targets/jtl_xml.rs:515-555 | escaping then decoding gives the text back if and only if all its characters are allowed or none needed escaping |
| `XmlEntities.ControlBesideAmpersand` | fuzz/fuzz_targets/jtl_xml.rs:515-555 | a control character beside an ampersand is refused, and alone it is passed |
| `Numerals.NumeralReads` | fuzz/fuzz_targets/jtl_xml.rs:534-541 | a number printed in any base up to sixteen is read back, and has only digits of that base |
| `XmlScan.FindIsFirst` | fuzz/fuzz_targets/jtl_xml.rs:509-513 | the marker search returns the first place and only that |
| `XmlScan.AttributeScans` | fuzz/fuzz_targets/jtl_xml.rs:428-459 | a written attribute is scanned back, whatever follows |
| `XmlScan.AttributesScan` | fuzz/fuzz_targets/jtl_xml.rs:409-460 | the attributes of a tag are scanned back in order, with its ending |
| `XmlScan.StartsTag` | fuzz/fuzz_targets/jtl_xml.rs:356-409 | exactly which names a start tag can have without being taken for something else |
| `XmlScan.LexemeScans` | fuzz/fuzz_targets/jtl_xml.rs:356-466 | every tag, text, CDATA section, comment or instruction is scanned back, whatever follows |
| `XmlScan.WrittenScans` | fuzz/fuzz_targets/jtl_xml.rs:356-466 | a text written lexeme by lexeme is scanned back to its tokens |
| `XmlScan.AttributesScanned` | fuzz/fuzz_targets/jtl_xml.rs:409-460 | attributes that are scanned were written, distinct and within the limits |
| `XmlScan.LexemeScanned` | fuzz/fuzz_targets/jtl_xml.rs:356-466 | whatever is scanned was written as a lexeme |
| `XmlScan.ScannedIsWritten` | fuzz/fuzz_targets/jtl_xml.rs:356-466 | a text that is scanned was written lexeme by lexeme |
| `XmlScan.ScanIsExact` | fuzz/fuzz_targets/jtl_xml.rs:356-507 | the scanner accepts exactly the writable texts, and gives their tokens |
| `XmlParser.RawXmlParser.constructor` | fuzz/fuzz_targets/jtl_xml.rs:263-281 | begins after an optional byte-order mark |
| `XmlParser.RawXmlParser.ParseName` | fuzz/fuzz_targets/jtl_xml.rs:468-482 | reads a name and stops where it ends, or refuses an empty one |
| `XmlParser.RawXmlParser.SkipSpace` | fuzz/fuzz_targets/jtl_xml.rs:484-492 | moves past blanks and nothing else |
| `XmlParser.RawXmlParser.Expect` | fuzz/fuzz_targets/jtl_xml.rs:494-500 | moves past one given character, or stays |
| `XmlParser.RawXmlParser.SkipPast` | fuzz/fuzz_targets/jtl_xml.rs:502-507 | moves past the first place of a marker, or refuses |
| `XmlParser.RawXmlParser.ParseQuoted` | fuzz/fuzz_targets/jtl_xml.rs:442-458 | reads, bounds and decodes a quoted value |
| `XmlParser.RawXmlParser.ParseAttribute` | fuzz/fuzz_targets/jtl_xml.rs:428-459 | reads one attribute as specified |
| `XmlParser.RawXmlParser.ParseAttributes` | fuzz/fuzz_targets/jtl_xml.rs:410-460 | the attribute loop computes the specified scan |
| `XmlParser.RawXmlParser.NextToken` | fuzz/fuzz_targets/jtl_xml.rs:373-466 | reads one token as specified |
| `XmlParser.RawXmlParser.Next` | fuzz/fuzz_targets/jtl_xml.rs:356-371 | passes comments and instructions, and yields the next token of the whole scan |
| `XmlParser.ScanTokens` | fuzz/fuzz_targets/jtl_xml.rs:283-288 | the tokens of the whole text, or nothing |
| `XmlParser.ParseReport` | fuzz/fuzz_targets/jtl_xml.rs:263-338 | from text to tree: succeeds exactly for texts that write a report within the limits, and returns the normal form of its tree |
| `XmlTree.ReadElement` | fuzz/fuzz_targets/jtl_xml.rs:283-354 | the tokens of an element are read to exactly that element, within the depth and node limits |
| `XmlTree.ReadDocument` | fuzz/fuzz_targets/jtl_xml.rs:283-354 | the tokens of a document are read to exactly its root |
| `XmlTree.Tell` | fuzz/fuzz_targets/jtl_xml.rs:283-354 | every sequence the stack loop accepts so far is a path of open elements, a whole document, or a second root |
| `XmlTree.ReadIsDocument` | fuzz/fuzz_targets/jtl_xml.rs:283-354 | a reading that ends with an empty stack and a root has read a balanced, single-rooted document within the limits |
| `XmlTree.NormalizeKeeps` | fuzz/fuzz_targets/jtl_xml.rs:557-575 | normalising keeps the characters, elements and their order, and leaves no adjacent texts |
| `XmlTree.NormalizeFixes` | fuzz/fuzz_targets/jtl_xml.rs:557-575 | normalising is idempotent, and changes nothing exactly on normal trees |
| `XmlTree.NormalFormsCanonical` | fuzz/fuzz_targets/jtl_xml.rs:557-575 | two trees without empty text normalise alike if and only if they say the same |
| `XmlTree.NormalizeRawXmlNode` | fuzz/fuzz_targets/jtl_xml.rs:557-575 | the rewriting loop computes the normal form |
| `XmlTree.ReadTokens` | fuzz/fuzz_targets/jtl_xml.rs:283-354 | the stack loop computes the specified reading |
| `XmlTree.Parse` | fuzz/fuzz_targets/jtl_xml.rs:283-338 | accepts exactly the token sequences of reports within the limits, and returns the normal form of the tree they spell |
| `ReportInput.MarkerStable` | apps/jmeter-rs/src/report_input.rs:208-227 | a decision taken on a prefix is the decision on the whole stream |
| `ReportInput.MarkerBeyond` | apps/jmeter-rs/src/report_input.rs:208-227 | an undecided prefix means the deciding byte lies beyond it, or the prefix is part of a mark |
| `ReportInput.Decides` | apps/jmeter-rs/src/report_input.rs:124-169 | deciding on a prefix gives what the whole stream prescribes |
| `ReportInput.Undecided` | apps/jmeter-rs/src/report_input.rs:124-169 | a full undecided probe means `PrefixLimit` |
| `ReportInput.Ends` | apps/jmeter-rs/src/report_input.rs:124-169 | a short undecided stream is ambiguous, decided by its end, or failed |
| `ReportInput.Detect` | apps/jmeter-rs/src/report_input.rs:124-199 | however the reader splits the stream the result is the same function of it, at most 65,537 bytes are read, and prefix plus remainder is the stream |
| `SaveConfig.Rank` | fuzz/fuzz_targets/save_config.rs:298-361 | the first position of a source in the precedence, or none |
| `SaveConfig.FirstSpeakerMeans` | fuzz/fuzz_targets/save_config.rs:326-348 | the declared winner is the highest-ranked source that has not withdrawn |
| `SaveConfig.InterleavingIrrelevant` | fuzz/fuzz_targets/save_config.rs:298-361 | the decision depends only on each source's own operations in order |
| `SaveConfig.FoldOperations` | fuzz/fuzz_targets/save_config.rs:299-324 | the loop over operations leaves each source's last operation, active or absent |
| `SaveConfig.Collect` | fuzz/fuzz_targets/save_config.rs:326-353 | exactly the active, or exactly the absent, entries |
| `SaveConfig.LowestRanked` | fuzz/fuzz_targets/save_config.rs:336-340 | an entry of the highest-ranked source |
| `SaveConfig.LatestOrder` | fuzz/fuzz_targets/save_config.rs:350-353 | an entry no other comes after |
| `SaveConfig.BestAgrees` | fuzz/fuzz_targets/save_config.rs:336-348 | that entry is the one the declared decision selects |
| `SaveConfig.AllWithdrew` | fuzz/fuzz_targets/save_config.rs:350-361 | when every source has withdrawn, the absent entries include the very last operation |
| `SaveConfig.IndependentChoice` | fuzz/fuzz_targets/save_config.rs:298-361 | selects the last operation of the highest-ranked source that has not withdrawn, is ambiguous exactly when such a source has no rank, and never reaches its impossible arms |
| `SaveConfig.PickedBy` | fuzz/fuzz_targets/save_config.rs:336-361 | which operation of which source the returned choice picks, by each declared decision |
| `SaveConfig.InterleavingHidden` | fuzz/fuzz_targets/save_config.rs:298-361 | where some source speaks or one source has all operations, the returned choices for two interleavings pick the same operation |
| `SaveConfig.AnyCanBeLast` | fuzz/fuzz_targets/save_config.rs:298-361 | any source with an operation can be put last without changing any source's own order |
| `SaveConfig.InterleavingShows` | fuzz/fuzz_targets/save_config.rs:350-361 | otherwise some interleaving is picked from differently |
| `SaveConfig.InterleavingExact` | fuzz/fuzz_targets/save_config.rs:298-361 | the picked operation is the same for every interleaving if and only if some source has not withdrawn or one source has all the operations |
| `SaveConfig.WithdrawalsShowOrder` | fuzz/fuzz_targets/save_config.rs:350-361 | two withdrawals in either order: the returned choices pick different operations |
| `SaveConfig.DecodePrecedence` | fuzz/fuzz_targets/save_config.rs:94-103 | a precedence drawn from the sources has the asked length and no source twice |
| `JsonPreflight.FeedString` | tools/perf/orchestrator.py:196-212 | a string, whatever brackets and escapes it holds, changes nothing but the longest length |
| `JsonPreflight.ValueCounts` | tools/perf/orchestrator.py:185-223 | scanning the rendering of a value adds exactly its nesting, structural characters and longest string (sections 4, 5 and 7 of RFC 8259) |
| `JsonPreflight.PassesPrefix` | tools/perf/orchestrator.py:185-223 | a text within the limits at its end never left them |
| `JsonPreflight.PreflightJsonText` | tools/perf/orchestrator.py:185-223 | succeeds exactly when the whole text is within the limits, and otherwise reports the first limit crossed |
| `JsonPreflight.PreflightIsExact` | tools/perf/orchestrator.py:185-223 | the text of a value passes if and only if its container nesting, structural count and longest raw string are within the limits |
| `JsonBounds.BoundText` | tools/perf/orchestrator.py:239-265 | accepts a string exactly when it is short enough and has no lone surrogate |
| `JsonBounds.BoundItems` | tools/perf/orchestrator.py:271-276 | the list loop accepts exactly the items that fit together, and counts their nodes |
| `JsonBounds.BoundMembers` | tools/perf/orchestrator.py:263-270 | the object loop accepts exactly the members that fit together, and counts their nodes |
| `JsonBounds.BoundJson` | tools/perf/orchestrator.py:246-277 | with one shared counter it accepts exactly the values whose nodes, depth, strings and widths fit; a size or depth refusal is never a false alarm |
| `JsonBounds.CountsAgree` | tools/perf/orchestrator.py:185-277 | nodes plus slack is the structural count plus one, and the deepest node lies within the nesting |
| `JsonBounds.AfterPreflight` | tools/perf/orchestrator.py:185-277 | after a preflight the depth check cannot fire, and the node check fires if and only if the count is exactly the limit and the slack is zero |
| `JsonBounds.NodeLimitReachable` | tools/perf/orchestrator.py:185-277 | such a value exists |
| `JsonBounds.RawAtMost` | tools/perf/orchestrator.py:196-212 | no spelling of a string is longer than six characters per UTF-16 unit of its text |
| `JsonBounds.EscapedSpells` | tools/perf/orchestrator.py:196-212 | the all-escaped spelling decodes to the text and is exactly that long |
| `JsonBounds.SpellingsPass` | tools/perf/orchestrator.py:196-212 | every spelling of a text passes the raw bound if and only if six times its UTF-16 length does |
| `JsonBounds.ShortTextStopped` | tools/perf/orchestrator.py:196-212 | a text within the character bound with a spelling that is stopped |
| `ThresholdRules.MetricRegistry` | tools/perf/orchestrator.py:1430-1448 | one dictionary of all metrics, refused exactly when an identity is used again |
| `ThresholdRules.UnderMeans` | tools/perf/orchestrator.py:1540-1576 | the reference grouping holds for each metric exactly the rules that name it |
| `ThresholdRules.GroupedNext` | tools/perf/orchestrator.py:1576-1576 | filing the next rule keeps the dictionary equal to the reference grouping for every metric |
| `ThresholdRules.GroupedCovers` | tools/perf/orchestrator.py:1540-1576 | a metric is filed exactly when some rule names it, with exactly those rules in order |
| `ThresholdRules.CheckLatency` | tools/perf/orchestrator.py:1583-1599 | the percentile coverage checks decide the coverage of the rule list |
| `ThresholdRules.CheckZeroes` | tools/perf/orchestrator.py:1602-1612 | the loop over required metrics decides whether each has a zero ceiling |
| `ThresholdRules.CheckCoverage` | tools/perf/orchestrator.py:1579-1621 | the checks on the dictionary decide what the rule list covers |
| `ThresholdRules.ValidateThresholds` | tools/perf/orchestrator.py:1537-1626 | accepts exactly the configurations whose rules are sound, distinct, cover what they must and stay within capacity |
| `EvidenceGate.ValidateEvidenceMetrics` | tools/perf/orchestrator.py:2163-2242 | accepts exactly one observation of each scalar metric, in range and unit, with the summary fields repeating them |
| `EvidenceGate.ValidateEvidenceHistograms` | tools/perf/orchestrator.py:2245-2281 | accepts exactly one monotone record of each declared histogram |
| `EvidenceGate.CheckRecords` | tools/perf/orchestrator.py:2374-2423 | the loop over records decides whether each answers the rule with its identity, none twice |
| `EvidenceGate.LookupIsPointwise` | tools/perf/orchestrator.py:2374-2425 | lookup by identity and the same order is the same as answering rule by rule |
| `EvidenceGate.ValidateEvidenceThresholds` | tools/perf/orchestrator.py:2332-2428 | accepts exactly the records forced by the rules and the measurements, with the verdict they give |
| `EvidenceGate.ValidateCollectedEvidence` | tools/perf/orchestrator.py:2550-2633 | accepts exactly the documents that satisfy all parts together |
| `EvidenceGate.VerdictIsTrue` | tools/perf/orchestrator.py:2422-2428 | accepted evidence passes if and only if the measured values meet every declared rule |
| `EvidenceGate.VerdictIsForced` | tools/perf/orchestrator.py:2374-2428 | the measurements allow one account of rules and verdict only |
| `EvidenceGate.CompletedMeets` | tools/perf/orchestrator.py:2631-2633 | a completed run meets each rule with a measured value in range |
| `EvidenceGate.CompletedHasNoFailures` | tools/perf/orchestrator.py:1602-1612 | every metric that must be zero was observed, and is zero |
| `EvidenceGate.CompletedReaches` | tools/perf/orchestrator.py:1613-1621 | a completion or sample metric with a floor was observed at or above it |
| `EvidenceGate.GateIsSound` | tools/perf/orchestrator.py:2550-2633 | evidence accepted as completed has zero failures, drops and overflows, and completions and samples at least the configured minimums, whatever rules were used |
| `EvidenceGate.MeasuredInRange` | tools/perf/orchestrator.py:2163-2281 | every value the rules are applied to is in range once the measurements are accepted |
| `EvidenceGate.CompletedExactly` | tools/perf/orchestrator.py:2332-2428 | measurements in good order can be reported as a completed run if and only if they meet every declared rule |
| `EvidenceGate.BelowZeroNeverCompletes` | tools/perf/orchestrator.py:2332-2428 | with a rule strictly below zero, no evidence is accepted as completed |
| `Attainable.RuleAttainable` | tools/perf/orchestrator.py:1551-1555 | a single rule holds at some value in range if and only if it is not strictly below zero or strictly above the largest value |
| `Attainable.CandidateHolds` | tools/perf/orchestrator.py:1924-1935 | if any value, or any count, meets a list of rules, the computed one does |
| `Attainable.CommonIsDecided` | tools/perf/orchestrator.py:1924-1935 | the rules for a metric have a common permitted value if and only if the computed value is one |
| `Attainable.MeasuredIsCollectable` | tools/perf/orchestrator.py:2163-2281 | accepted measurements show that the metrics can be reported on |
| `Attainable.CompletedIsSatisfiable` | tools/perf/orchestrator.py:2332-2428 | a completed run shows that the rules can be met together |
| `Attainable.MeasurementsFor` | tools/perf/orchestrator.py:2163-2281 | conversely, measurements in good order at the computed values exist |
| `Attainable.Attained` | tools/perf/orchestrator.py:2550-2633 | and evidence accepted as completed is built from them |
| `Attainable.CompletableExactly` | tools/perf/orchestrator.py:1537-1626 | some evidence is accepted as completed for an accepted configuration if and only if a condition computed from the configuration holds |
| `GateExample.OneMoreRule` | tools/perf/orchestrator.py:1537-1626 | an accepted configuration stays accepted with one more sound rule of a new identity |
| `GateExample.BelowZeroIsAccepted` | tools/perf/orchestrator.py:1551-1573 | every accepted configuration with room stays accepted with a rule for fewer than no dropped results, and no run can complete it then |
| `GateExample.ConfigIsAccepted` | tools/perf/orchestrator.py:1537-1626 | a concrete configuration is accepted |
| `GateExample.ConfigIsCompletable` | tools/perf/orchestrator.py:2550-2633 | some evidence is accepted as completed for it |
| `GateExample.ConfigIsSpoiled` | tools/perf/orchestrator.py:1551-1573 | with one more rule it is still accepted, and nothing completes it |

## Left out

- Boundary Extractor property decoding, accessors and error codes: field checks, one branch each.
- Boundary Extractor text sources other than UTF-16: the ASCII, Latin-1 and Windows-1252 tables add easy members, and lossy UTF-8 decoding rests on a library's error-length convention.
- The random source of `plan_variable_mutations`: a parameter, which may also fail.
- Counter overflow arms other than that of `bump_steps`: with limits below the machine word they cannot be reached.
- Future, progress handle, wait registry, clock and parking time of the executor: an environment that answers each turn. Its generations never decrease and a wait snapshot is determined by its generation, below generation exhaustion. How a park ends is a further law on the parks a run makes, and only the second bound on its polls needs it.
- Panic catching, pinning, mutex poisoning and future drop: effects of the language runtime.
- XmlParser.ParseReport: does not model input that is not UTF-8, because the scanner works on characters; the source passes over such bytes inside a comment. It collects all tokens before building the tree, where the source interleaves the two; both refuse with the same empty result.
- `normalize_opaque_xml_node` and the comparison of inventories: they strip layout, one newline per call.
- JsonBounds.BoundJson: the check that a float is finite is not modelled, because the parser has already refused such numbers.
- Duplicate object keys: refused by the parser before the bounds are applied.
- ThresholdRules.ValidateThresholds: of the checks of single JSON fields only ranges and the patterns of rule identities and metric paths are modelled; the others, baseline policy and baseline artifact only refuse more.
- `validate_metrics`: pattern and list checks; none of them is needed for the gate.
- EvidenceGate.ValidateEvidenceMetrics: the workload mode and target-rate fields are not modelled; they only refuse more.
- EvidenceGate.ValidateEvidenceThresholds: artifact linkage and the baseline policy are not modelled; they only refuse more.
- EvidenceGate.CompletedExactly: that completed evidence exists is relative to the modelled checks; a check that is left out could still refuse it.
- Attainable.MeasurementsFor: the values are reals, some of which no float is; see the rounding below.
- Attainable.Attained: likewise.
- Attainable.CompletableExactly: likewise, and relative to the modelled checks; and `validate_metrics`, which is left out, already ensures some of the condition on the metrics.
- EvidenceGate.ValidateCollectedEvidence: artifacts, reproducibility, runtime, fixtures, leak sampling and ownership are not modelled; they only refuse more, so what `GateIsSound` guarantees of accepted evidence is unaffected.
- Rounding of the gate's numbers: they are reals; every number compared is below 2^53 where it is an integer. The gate itself only compares, so what it accepts is unaffected; what a run can report is a float.
- Fuzz drivers, the native HTTP run, component factories, the bootstrap lock and file writing: decision tables, or input and output.
