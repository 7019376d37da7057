# qsh in Dafny

A model of the parts of qsh, a QUIC remote shell, whose correctness is not
visible from any one function: the admission gate in front of a host, the
private certificate authority, the config editor, the datagram path, the root
command line, and three pieces of the project's own measurement tooling. Each
module models one component and proves what that component promises over all
inputs, all runs, or all interleavings.

| file | component |
|---|---|
| SourceKeys.dfy | the key a peer is counted under |
| SketchModel.dfy, Sketch.dfy | the two-generation count sketch: reference counts, and the in-place table |
| SketchRace.dfy | the sketch under concurrent callers |
| RateLimit.dfy | what the per-source limiter lets through |
| AuditWindows.dfy | aggregation of rejection records in one category |
| GateModel.dfy, Gate.dfy | the whole gate: runs of events, and the in-place object |
| CertAuthority.dfy | creation of the CA by processes that crash and fail |
| ConfigEdit.dfy, ConfigKeys.dfy | editing a config document, and the key registry |
| DatagramFrame.dfy | the datagram frame and the size budget of a part |
| DatagramHub.dfy | routing datagrams to channel receivers |
| Reassembly.dfy | cutting a screen update into parts and rejoining them |
| CommandLine.dfy | finding operands and fencing the remote command |
| LeastSquares.dfy | the leak detector's regression slope |
| PortSampling.dfy | the preflight's port grid |
| Medians.dfy, PerfTrend.dfy | the nightly trend judge |
| Arithmetic.dfy, Options.dfy | facts about products and quotients; a value that may be missing |

Where the source updates something in place, the model does too, and is proved
against functions on values: `Sketches.Sketch` is the counter table,
`Gates.Gate` the gate, `CertAuthority.CaDir` the CA directory,
`DatagramHubModel.DatagramHub` the hub, `Reassembly.DatagramReassembler` the
reassembler and `PerfTrend.History` the trend file. Concurrency is modelled as
state machines whose steps are the atomic actions of the source
(`SketchRace`, `CertAuthority`, `DatagramHubModel`), with theorems over every
reachable state. Time, hash functions, generated keys, faults and arriving
bytes are parameters.

## Where the source and its comments differ

- The comment at `crates/qsh-core/src/admission.rs:50-65` says a source at
  exactly the sustained rate is never over its budget. `SustainedRatePasses`
  gives the exact condition, for a source that starts at any time: it holds
  unless the source's attempts fall on epoch boundaries and a full epoch of
  them lies behind it. Then every reading is one over (`SteadyWindowBound`).
- `issue_device_leaf` reads only the key file. A leaf it signs on its own is
  sure to pair with the root exactly when the root is visible as it signs
  (`LeafIsSafeExactlyWhenRootVisible`); `OrphanLeaf` is an interleaving in
  which it was not. `cert_issue` looks at the root first and is not affected
  (`LeavesPair`).
- The text of `scripts/soak/preflight_udp.py` says once that runs narrower
  than the gap cannot be missed. It is runs of at least the gap
  (`NoRunMissed`). The exact width from which on nothing is missed is the gap
  or one less (`NoRunMissedExactlyWhen`, `GapIsThresholdOrOneMore`), and below
  it `MissedRun` gives a run that is missed. The lower probability the text
  describes for wide ranges cannot arise with real port numbers
  (`RealRangesAreCertain`).
- Injected points "never enter a median", but they do take up places in the
  history of 365. `TrimKeepsVerdict` says exactly when trimming changes a
  verdict, and `InjectedRunsCrowdOut` shows that injected points can do it.
- `DatagramReassembler` keeps parts by state number only. With one encoding for
  each state number what comes out is what was sent (`ComesOutAsSent`). Two
  encodings of one state are safe together exactly when no mix of their parts
  is an update of its own (`FaithfulMeansNoMix`). Cut at one size, that is
  when they have unequally many parts or differ in at most one
  (`FaithfulExactlyWhen`); otherwise an update nobody sent can come out.

## Model

| member | source | states |
|---|---|---|
| SourceKeys.KeysShared | crates/qsh-core/src/admission.rs:248-262 | two peers share a key if and only if both stand for one IPv4 address, plain or mapped with the segments spelled out, or both are other IPv6 peers in one /64; so an IPv4 key is never an IPv6 key |
| SourceKeys.IPv4Keys | crates/qsh-core/src/admission.rs:248-262 | a mapped address has the key of the plain one, and different IPv4 addresses have different keys |
| SourceKeys.IPv6Keys | crates/qsh-core/src/admission.rs:248-262 | every other IPv6 address has a key shared exactly within its first four segments |
| SketchModel.ColumnsShared | crates/qsh-core/src/admission.rs:226-229 | two keys share a column if and only if their hashes agree modulo the number of columns |
| SketchModel.EstimateIsLeast | crates/qsh-core/src/admission.rs:337-355 | the estimate is at most every row's reading and equals one of them |
| SketchModel.CellCoversKey | crates/qsh-core/src/admission.rs:203-229 | for any hash functions a cell counts at least as much as any one key in it |
| SketchModel.CellIsKeyWhenAlone | crates/qsh-core/src/admission.rs:203-229 | a cell that one key had to itself in an epoch counts exactly that key there |
| SketchModel.NeverUnderestimates | crates/qsh-core/src/admission.rs:337-355 | short of 2^32 hits of one cell in one epoch, the estimate is never below the key's own sliding window, whatever else was sent |
| SketchModel.NeverOverestimatesIsolated | crates/qsh-core/src/admission.rs:337-355 | a key alone in its column in some row, in the two epochs a reading looks at, is never overestimated, wrapped cells included |
| SketchModel.ExactWhenIsolated | crates/qsh-core/src/admission.rs:337-355 | for such a key the estimate is its sliding window, up to the 32-bit ceiling, whatever shared the column in earlier epochs |
| Sketches.Sketch.constructor | crates/qsh-core/src/admission.rs:279-291 | a new table represents the empty history |
| Sketches.Sketch.ClearGeneration | crates/qsh-core/src/admission.rs:302-323 | one row's generation becomes zero and no other cell changes |
| Sketches.Sketch.AdvanceTo | crates/qsh-core/src/admission.rs:302-323 | for any epoch gap, afterwards each cell holds the true count of its epoch: the current one, and the one before |
| Sketches.Sketch.HitRow | crates/qsh-core/src/admission.rs:337-355 | one row's increment and its two reads are the counts of the extended history |
| Sketches.Sketch.RecordAndEstimate | crates/qsh-core/src/admission.rs:337-355 | the table stays the exact count table of the whole history, and the result is the reference estimate, for current and stale epochs alike |
| SketchRace.ToClearIsAll | crates/qsh-core/src/admission.rs:302-323 | an advance clears every counter that has gone stale |
| SketchRace.ToClearIsOnly | crates/qsh-core/src/admission.rs:302-323 | an advance clears no other counter |
| SketchRace.SpawnKeeps | crates/qsh-core/src/admission.rs:337-343 | a caller arriving with any epoch keeps the invariant |
| SketchRace.EnterKeeps | crates/qsh-core/src/admission.rs:302-306 | taking the epoch lock, with or without work to do, keeps the invariant |
| SketchRace.ClearKeeps | crates/qsh-core/src/admission.rs:307-321 | clearing one cell keeps the invariant while others increment |
| SketchRace.PublishKeeps | crates/qsh-core/src/admission.rs:322-323 | moving the pointer and unlocking keeps the invariant |
| SketchRace.IncrementKeeps | crates/qsh-core/src/admission.rs:344-354 | a lock-free increment by a caller of any epoch, at any moment, keeps the invariant |
| SketchRace.InvariantOverRuns | crates/qsh-core/src/admission.rs:302-355 | the invariant holds after every interleaving |
| SketchRace.NothingUndercounted | crates/qsh-core/src/admission.rs:302-355 | in every reachable state with the lock free, each cell of the current and the previous epoch holds all increments of that epoch, and beyond them only those of callers left behind by two epochs or more |
| SketchRace.CallerSeesItsEpoch | crates/qsh-core/src/admission.rs:344-354 | an increment by a caller of the pointer's epoch or the one before gives back at least the increments made for its epoch, even while an advance is clearing cells |
| SketchRace.ExactWithoutLateCallers | crates/qsh-core/src/admission.rs:302-355 | with no caller that late, every such cell is exact |
| RateLimit.HistoryCounts | crates/qsh-core/src/admission.rs:337-355 | with time never going back, the sketch's history counts each source's attempts in each epoch |
| RateLimit.IsolatedVerdict | crates/qsh-core/src/admission.rs:581-598 | a source isolated in this epoch and the one before is judged by its own attempts alone |
| RateLimit.PassMeansWithinBudget | crates/qsh-core/src/admission.rs:581-598 | a passed check means the source's own attempts are within its budget |
| RateLimit.EpochBudget | crates/qsh-core/src/admission.rs:337-355 | a source passes at most twice its rate in any epoch, whatever the hash functions and the other traffic |
| RateLimit.WeightedComplement | crates/qsh-core/src/admission.rs:337-355 | what the weighting drops of the previous epoch is exactly the elapsed share, rounded up |
| RateLimit.SlidingBudget | crates/qsh-core/src/admission.rs:581-598 | passes in the previous and the current epoch, up to a passing check, are at most twice the rate plus the elapsed share of the previous epoch's attempts |
| RateLimit.NothingLimitedAtTheCeiling | crates/qsh-core/src/admission.rs:581-598 | a budget at the 32-bit ceiling limits nobody, so the bound above needs a smaller one |
| RateLimit.NoFalseThrottle | crates/qsh-core/src/admission.rs:581-598 | such a source with at most its rate of attempts in each of the two epochs is never limited |
| RateLimit.RecoversAfterSilence | crates/qsh-core/src/admission.rs:581-598 | after one silent epoch such a source has its whole burst back |
| RateLimit.EvenWeight | crates/qsh-core/src/admission.rs:50-65 | the weighted share of an evenly filled epoch, exactly, for every position and phase |
| RateLimit.PartWeight | crates/qsh-core/src/admission.rs:50-65 | after an epoch that was only partly filled the weighted share leaves room for every attempt |
| RateLimit.SteadyWindowBound | crates/qsh-core/src/admission.rs:50-65 | for a source that starts at any time, the window at the sustained rate is twice the rate once a full epoch lies behind it, one more exactly on epoch boundaries, and never more before that |
| RateLimit.SteadyExamples | crates/qsh-core/src/admission.rs:50-65 | two concrete sources: on the boundaries from the origin on, one over at the third attempt; from the middle of an epoch on, not |
| RateLimit.SteadyReading | crates/qsh-core/src/admission.rs:50-65 | what an evenly spaced source at its sustained rate reads at each attempt, whenever it started |
| RateLimit.SustainedRatePasses | crates/qsh-core/src/admission.rs:50-65 | such a source passes if and only if its attempts are off the epoch boundaries or no full epoch of them lies behind it |
| AuditWindows.Conservation | crates/qsh-core/src/admission.rs:612-679 | rejections are written occurrences plus summed counts plus the open count plus those lost to a full 32-bit count |
| AuditWindows.OpenMeansOccurred | crates/qsh-core/src/admission.rs:612-679 | summaries, counting an open window as one, never outnumber occurrences |
| AuditWindows.AnnouncesIffWritten | crates/qsh-core/src/admission.rs:612-644 | an occurrence is written if and only if the rejection finds no open window, with its own peer, behind the closed window's summary |
| AuditWindows.OccurrencesSpaced | crates/qsh-core/src/admission.rs:612-679 | two occurrences of a category are at least ten seconds apart |
| AuditWindows.OpenedByLatest | crates/qsh-core/src/admission.rs:612-644 | an open window was opened by the latest occurrence, at that occurrence's time |
| AuditWindows.AnnouncesExactlyWhen | crates/qsh-core/src/admission.rs:612-644 | a rejection is written out if and only if every occurrence before it is at least ten seconds old |
| AuditWindows.HeldBackBriefly | crates/qsh-core/src/admission.rs:659-679 | with a flush every ten seconds no count is held back for twenty |
| AuditWindows.SummaryPrompt | crates/qsh-core/src/admission.rs:659-679 | with such flushes every summary comes out ten to twenty seconds after its window opened, and carries the whole count |
| AuditWindows.CollectOrSum | crates/qsh-core/src/admission.rs:612-679 | an open window goes on counting, or is closed once expired and its whole count written |
| AuditWindows.SuppressedIsSummed | crates/qsh-core/src/admission.rs:659-679 | with such flushes every suppressed rejection is in a summary less than twenty seconds after its window opened |
| GateModel.PermitsConserved | crates/qsh-core/src/admission.rs:502-573 | permits out and permits available add up to the cap in every reachable state |
| GateModel.DecidePermits | crates/qsh-core/src/admission.rs:502-573 | what one attempt does to the pool, from any state |
| GateModel.PermitUse | crates/qsh-core/src/admission.rs:502-573 | only an admission takes a permit, and exactly one; a refusal for capacity happens only with all permits out; an unvalidated attempt never touches the pool |
| GateModel.ReleaseFrees | crates/qsh-core/src/admission.rs:161-166 | a release gives one permit back, if one is out, and touches nothing else |
| GateModel.DecideWindows | crates/qsh-core/src/admission.rs:502-573 | a decision writes to the audit window of the reason it gives and to no other |
| GateModel.FlushOne | crates/qsh-core/src/admission.rs:659-679 | one sweep flushes each category as if it were alone |
| GateModel.FlushOrder | crates/qsh-core/src/admission.rs:659-679 | a sweep reports the categories in their fixed order, each with what it had before |
| GateModel.WindowIsOwn | crates/qsh-core/src/admission.rs:612-679 | over any run each category's window and records are those of its own rejections and sweeps |
| GateModel.AuditConservation | crates/qsh-core/src/admission.rs:612-679 | over any run of the gate, rejections of a category equal its occurrences, summed counts and open count; nothing is lost below 2^32 |
| GateModel.AuditVolume | crates/qsh-core/src/admission.rs:67-91 | over any run of the gate two occurrences of a category are ten seconds apart |
| GateModel.WindowIsYoung | crates/qsh-core/src/admission.rs:67-91 | over such a run no window stays open for twenty seconds |
| GateModel.AuditLatency | crates/qsh-core/src/admission.rs:612-679 | over any run with a sweep every ten seconds, every rejection about which nothing was written is in a summary less than twenty seconds after its window opened, and that summary is of the same window, with a count not below the one right after it |
| GateModel.CountersExact | crates/qsh-core/src/admission.rs:461-468 | `ignore` and `refuse` agree with the audit categories, and the four counters add up to the number of decisions |
| GateModel.NonInterference | crates/qsh-core/src/admission.rs:405-424 | deleting one side's attempts from any run changes no decision, record or permit of the other side, both ways |
| GateModel.AddressesOfOneKeyAreOne | crates/qsh-core/src/admission.rs:502-573 | spreading a run over any addresses of the same keys gives the same states and verdicts |
| GateModel.SketchIsHistory | crates/qsh-core/src/admission.rs:581-598 | each side's sketch is the history of that side's rate checks |
| GateModel.PassedIffPasses | crates/qsh-core/src/admission.rs:502-573 | an attempt gets past its rate check in the gate if and only if it passes in the limiter's model |
| GateModel.DecisionExactly | crates/qsh-core/src/admission.rs:502-573 | in any run, which decision each attempt gets and for which reason: Retry, Ignore, Admit and Refuse each if and only if, in terms of the limiter's model and the permits out |
| GateModel.PassedCountIsPassCount | crates/qsh-core/src/admission.rs:502-573 | so the gate lets through exactly as many attempts as the limiter's model |
| GateModel.SourceBudget | crates/qsh-core/src/admission.rs:502-598 | in any run of the gate one source gets past its rate check at most twice its rate of times in an epoch, on either side |
| Gates.Gate.constructor | crates/qsh-core/src/admission.rs:433-455 | a new gate is the model's initial state |
| Gates.Gate.RateExceeded | crates/qsh-core/src/admission.rs:581-598 | records one check in the side's own sketch and compares the exact estimate with the budget |
| Gates.Gate.RecordRejection | crates/qsh-core/src/admission.rs:612-644 | the window and the records are those of the model |
| Gates.Gate.DecideUnvalidated | crates/qsh-core/src/admission.rs:502-573 | the unvalidated branch is the model's decision and new state |
| Gates.Gate.DecideValidated | crates/qsh-core/src/admission.rs:502-573 | the validated branch is the model's decision and new state |
| Gates.Gate.Decide | crates/qsh-core/src/admission.rs:502-573 | the decision and the whole new state are the model's |
| Gates.Gate.ReleasePermit | crates/qsh-core/src/admission.rs:161-166 | dropping an admission gives its permit back |
| Gates.Gate.FlushExpired | crates/qsh-core/src/admission.rs:659-679 | a sweep is the model's step |
| CertAuthority.StepKeeps | crates/qsh-core/src/ca.rs:88-142 | every step of every process, crashes and failed writes included, keeps the invariant and never takes back a root |
| CertAuthority.RootIsPairedAndUnique | crates/qsh-core/src/ca.rs:88-172 | in every reachable state a visible certificate pairs with the key on disk, all `init`s and readers that returned a root returned this one, and at most one process created it |
| CertAuthority.RootIsForever | crates/qsh-core/src/ca.rs:88-172 | once a root is visible neither file changes again and every later `init` returns it |
| CertAuthority.LeavesPair | crates/qsh-core/src/ops/cert.rs:76-94 | a leaf from `cert_issue` is always signed by the visible root's key; a leaf signed alone is, if the root was visible |
| CertAuthority.CreationSucceeds | crates/qsh-core/src/ca.rs:88-142 | a key without a certificate is no root and stands in nobody's way: an undisturbed `init` creates a fresh pair |
| CertAuthority.IssueSucceeds | crates/qsh-core/src/ops/cert.rs:76-94 | once a root is visible `cert_issue` left alone ends with a leaf signed by the root's key |
| CertAuthority.IssueFails | crates/qsh-core/src/ops/cert.rs:76-94 | before that it fails, whatever is in the key file |
| CertAuthority.InitReturnsRoot | crates/qsh-core/src/ca.rs:97-104 | once a root is visible an `init` that gets the lock returns it as not created, and frees the lock |
| CertAuthority.OrphanLeaf | crates/qsh-core/src/ca.rs:190-242 | an interleaving in which a leaf signed before the root was visible pairs with no root |
| CertAuthority.AnyRootCanFollow | crates/qsh-core/src/ca.rs:88-142 | from any reachable state without a root, some continuation ends with a root of any given key |
| CertAuthority.LeafIsSafeExactlyWhenRootVisible | crates/qsh-core/src/ca.rs:190-242 | a leaf signed alone pairs with the root in every continuation if and only if the root is visible as it is signed |
| CertAuthority.CaDir.constructor | crates/qsh-core/src/ca.rs:88-142 | an empty directory |
| CertAuthority.CaDir.Init | crates/qsh-core/src/ca.rs:88-142 | for every fault, what `init` does to the directory is a run of the protocol ending as its result says; it succeeds exactly when no fault was in its way, and what is left on disk is stated for each fault |
| CertAuthority.CaDir.Create | crates/qsh-core/src/ca.rs:106-142 | the creating part extends that run and succeeds exactly without a fault in it |
| CertAuthority.CaDir.StoreCert | crates/qsh-core/src/ca.rs:132-142 | the certificate is visible exactly if its write succeeded |
| ConfigEdit.SetThenRead | crates/qsh-core/src/config_edit.rs:277-313 | a successful `set` then a read gives the parsed argument, reports the old value, and leaves no alias |
| ConfigEdit.SetFailsExactlyWhen | crates/qsh-core/src/config_edit.rs:277-313 | `set` fails if and only if the key cannot be read or the argument does not fit |
| ConfigEdit.ReadsFirstPresent | crates/qsh-core/src/config_edit.rs:203-220 | what a key reads is what stands under the first of its spellings that is there |
| ConfigEdit.ReadsUnsetExactlyWhen | crates/qsh-core/src/config_edit.rs:203-220 | a key reads as unset if and only if none of its spellings is there |
| ConfigEdit.ReadExactly | crates/qsh-core/src/config_edit.rs:190-220 | reading in terms of the document alone: unset, a scalar, or an error |
| ConfigEdit.SetLeavesOneSpelling | crates/qsh-core/src/config_edit.rs:277-313 | after `set` the value stands under the key's own name and under no other spelling |
| ConfigEdit.SetAppendsNew | crates/qsh-core/src/config_edit.rs:277-313 | a key that was not there under its own name is added behind the fields left |
| ConfigEdit.SetLeavesOthers | crates/qsh-core/src/config_edit.rs:277-313 | every key that shares no spelling reads as before, errors included |
| ConfigEdit.SetTwice | crates/qsh-core/src/config_edit.rs:277-313 | a repeated `set` leaves the document unchanged |
| ConfigEdit.SetTouchesOnlyItsKey | crates/qsh-core/src/config_edit.rs:277-313 | all other sections and fields keep their order, blanks and comments; the section keeps its place and its own comment, or is added at the end |
| ConfigEdit.SetKeepsComment | crates/qsh-core/src/config_edit.rs:277-313 | an existing value is replaced where it stands among the fields left, and keeps its blanks and comment |
| ConfigEdit.UnsetThenRead | crates/qsh-core/src/config_edit.rs:323-357 | after `unset` the key reads as unset and every other key as before, even when the section went |
| ConfigEdit.UnsetLeavesNoSpelling | crates/qsh-core/src/config_edit.rs:323-357 | after `unset` no spelling of the key is left in the section |
| ConfigEdit.CommentKeepsSection | crates/qsh-core/src/config_edit.rs:323-357 | a comment in front of a section keeps the section |
| ConfigEdit.UnsetTouchesOnlyItsKey | crates/qsh-core/src/config_edit.rs:323-357 | only the key's spellings go, and the section if and only if that emptied an uncommented table; a section that stays keeps its place and its own comment |
| ConfigEdit.ShowThenParse | crates/qsh-core/src/config_edit.rs:223-255 | parsing the decimal digits of a number gives the number back |
| ConfigEdit.ParseThenShow | crates/qsh-core/src/config_edit.rs:223-255 | a decimal without a needless zero is what its number is written as |
| ConfigEdit.LeadingZero | crates/qsh-core/src/config_edit.rs:223-255 | a leading zero changes no number |
| ConfigEdit.ParseExactly | crates/qsh-core/src/config_edit.rs:223-255 | a number argument is accepted if and only if it is decimal digits, with or without a plus sign, in 64 bits |
| ConfigEdit.ArgumentsAreValues | crates/qsh-core/src/config_edit.rs:223-255 | accepted arguments stand for exactly the values that fit the key's type |
| ConfigEdit.SettingWhatIsRead | crates/qsh-core/src/config_edit.rs:277-319 | setting a key to what it reads changes the document only to replace old spellings |
| ConfigEdit.SetInPlace | crates/qsh-core/src/config_edit.rs:277-313 | the step-by-step edit is `Set` |
| ConfigEdit.UnsetInPlace | crates/qsh-core/src/config_edit.rs:323-357 | the step-by-step removal is `Unset` |
| ConfigKeys.LookupIn | crates/qsh-core/src/config_edit.rs:171-178 | a path is found if and only if it is listed, and the key found is in the registry under it |
| ConfigKeys.RegistryIndependent | crates/qsh-core/src/config_edit.rs:90-158 | no two of the registry's keys share a spelling, and none is its own alias |
| ConfigKeys.RegistryLaws | crates/qsh-core/src/config_edit.rs:90-357 | so the laws of `set` and `unset` hold between any two registry paths |
| DatagramFrames.CodecRoundTrip | crates/qsh-proto/src/datagram.rs:82-108 | accepted bytes encode back to themselves, and a frame survives exactly when within the cap |
| DatagramFrames.WireLayout | crates/qsh-proto/src/datagram.rs:26-88 | the place of the channel, the kind with its wire value, and the payload |
| DatagramFrames.DecodeExactly | crates/qsh-proto/src/datagram.rs:90-108 | bytes decode if and only if they are some frame's encoding within the cap, and each error if and only if its cause |
| DatagramFrames.PartFits | crates/qsh-core/src/datagram.rs:44-47 | a part filled to its budget fits the datagram with both headers, for any state number and part number |
| DatagramFrames.PartFitsIsTight | crates/qsh-core/src/datagram.rs:29-47 | only at 2^56 bytes would the overhead allowance be too small |
| DatagramFrames.BudgetExact | crates/qsh-core/src/datagram.rs:44-47 | the budget is refused exactly below 105 bytes, and otherwise leaves exactly both headers |
| DatagramHubModel.RegisterKeeps | crates/qsh-core/src/datagram.rs:114-125 | registering a channel keeps the invariant |
| DatagramHubModel.ReadKeeps | crates/qsh-core/src/datagram.rs:150-177 | decoding a datagram and looking up its channel keeps the invariant |
| DatagramHubModel.HandOverKeeps | crates/qsh-core/src/datagram.rs:150-177 | handing a frame to a queue that may be full or gone by then keeps the invariant |
| DatagramHubModel.HandOverExactly | crates/qsh-core/src/datagram.rs:150-177 | a frame is queued behind the others if and only if its receiver is there with fewer than 256 waiting; otherwise only the overflow counter grows |
| DatagramHubModel.ReadOneExactly | crates/qsh-core/src/datagram.rs:150-177 | which single counter each datagram adds to, and which queue it goes into |
| DatagramHubModel.ReceiveKeeps | crates/qsh-core/src/datagram.rs:189-191 | receiving keeps the invariant |
| DatagramHubModel.DropKeeps | crates/qsh-core/src/datagram.rs:204-212 | dropping a receiver keeps the invariant |
| DatagramHubModel.RunKeeps | crates/qsh-core/src/datagram.rs:114-212 | the invariant holds after every interleaving |
| DatagramHubModel.DatagramsConserved | crates/qsh-core/src/datagram.rs:150-177 | datagrams read are malformed plus unknown plus overflow plus delivered |
| DatagramHubModel.ReceiversSeeAPrefix | crates/qsh-core/src/datagram.rs:150-191 | each receiver gets a prefix, in arrival order, of exactly the frames delivered to it, all of its channel, at most 256 behind |
| DatagramHubModel.ArrivalsCreateNothing | crates/qsh-core/src/datagram.rs:150-177 | no arrival adds or removes a channel or a receiver |
| DatagramHubModel.RoutingKeptExactlyWhenDistinct | crates/qsh-core/src/datagram.rs:114-125 | a step keeps every live receiver routed if and only if it does not reuse a live channel id |
| DatagramHubModel.ReuseUnroutes | crates/qsh-core/src/datagram.rs:204-212 | after such a reuse, dropping the old receiver unroutes the new one |
| DatagramHubModel.DatagramHub.constructor | crates/qsh-core/src/datagram.rs:86-112 | a new hub is the model's empty hub |
| DatagramHubModel.DatagramHub.Accounted | crates/qsh-core/src/datagram.rs:150-177 | in every state of the in-place hub the four counters add up to the datagrams read, no queue is over 256, and what a receiver got and has queued is what was delivered to it |
| DatagramHubModel.DatagramHub.RegisterChannel | crates/qsh-core/src/datagram.rs:114-125 | the tables after a registration are the model's |
| DatagramHubModel.DatagramHub.TakeOne | crates/qsh-core/src/datagram.rs:150-177 | one turn of the reader is the model's and keeps the invariant of the runs |
| DatagramHubModel.DatagramHub.Route | crates/qsh-core/src/datagram.rs:150-177 | decoding, looking up, handing over and counting one datagram is the model's |
| DatagramHubModel.DatagramHub.ReadLoop | crates/qsh-core/src/datagram.rs:150-177 | the loop over all arriving datagrams is the model's |
| DatagramHubModel.DatagramHub.Recv | crates/qsh-core/src/datagram.rs:189-191 | takes the oldest queued frame, or nothing |
| DatagramHubModel.DatagramHub.DropRx | crates/qsh-core/src/datagram.rs:204-212 | the tables after a drop are the model's |
| Reassembly.ChunksFlatten | crates/qsh-proto/src/screen/parts.rs:131-137 | the parts of an update, joined, are the update, and none is over the size asked for |
| Reassembly.PushKeeps | crates/qsh-proto/src/screen/parts.rs:170-214 | one offer, of whatever content, keeps the counts and the limits |
| Reassembly.MemoryBounded | crates/qsh-proto/src/screen/parts.rs:139-222 | over any offers at most 64 slots and the update cap are held |
| Reassembly.PushExactly | crates/qsh-proto/src/screen/parts.rs:170-214 | each refusal if and only if its cause; what bad, outdated, repeated, contradicting and oversized offers do to the state |
| Reassembly.CompletionRemembered | crates/qsh-proto/src/screen/parts.rs:206-210 | only completing an update moves the mark below which offers are outdated |
| Reassembly.NeverGoesBack | crates/qsh-proto/src/screen/parts.rs:139-222 | over any offers the updates that come out never go back to an older state |
| Reassembly.SentAgainCompletes | crates/qsh-proto/src/screen/parts.rs:147-149 | a state that is not outdated completes again whenever its parts are sent again |
| Reassembly.ComesOutAsSent | crates/qsh-proto/src/screen/parts.rs:139-222 | with parts lost, repeated, reordered and mixed between updates, none of the sender's parts is refused and whatever comes out is the update sent, byte for byte |
| Reassembly.CutAndRejoined | crates/qsh-proto/src/screen/parts.rs:131-222 | the same from the encoding, through the cut, to the encoding |
| Reassembly.FilledAsOffered | crates/qsh-proto/src/screen/parts.rs:170-214 | until the newest update completes exactly the parts offered of it are kept |
| Reassembly.AllPartsComplete | crates/qsh-proto/src/screen/parts.rs:139-222 | if every part of the newest update arrives, in any order, it comes out |
| Reassembly.MixRun | crates/qsh-proto/src/screen/parts.rs:170-214 | whatever comes out of the parts of two encodings of one state number, of equally or unequally many parts, takes each part from one of them and is within the limits |
| Reassembly.MixedEncodings | crates/qsh-proto/src/screen/parts.rs:170-214 | and every such mix within the limits does come out of some parts |
| Reassembly.FaithfulMeansNoMix | crates/qsh-proto/src/screen/parts.rs:139-222 | for any two encodings: only one of the two can come out if and only if every mix of them within the limits is one of the two |
| Reassembly.FaithfulExactlyWhen | crates/qsh-proto/src/screen/parts.rs:139-222 | for encodings that were cut at one size if they have equally many parts: only one of the two can come out if and only if they have unequally many parts or differ in at most one |
| Reassembly.UnfaithfulExample | crates/qsh-proto/src/screen/parts.rs:139-222 | two updates of two one-byte parts for which it fails |
| Reassembly.DatagramReassembler.constructor | crates/qsh-proto/src/screen/parts.rs:156-160 | a new reassembler is idle |
| Reassembly.DatagramReassembler.Clear | crates/qsh-proto/src/screen/parts.rs:216-221 | a reset forgets the half-built update but not what was completed |
| Reassembly.DatagramReassembler.Accept | crates/qsh-proto/src/screen/parts.rs:170-214 | the answer and the whole new state are the model's |
| CommandLine.ScanExact | crates/qsh-cli/src/cli.rs:376-408 | the scan finds a word if and only if that word ends the options, or follows the `--` that does |
| CommandLine.ClassifyExactly | crates/qsh-cli/src/cli.rs:366-408 | which words are operands, options and options that take the next word |
| CommandLine.OptionSkipped | crates/qsh-cli/src/cli.rs:376-408 | an option is stepped over, and the next word with it exactly if it takes one |
| CommandLine.FirstOperandExactly | crates/qsh-cli/src/cli.rs:414-416 | the first operand is the word that ends the options, or follows the `--` that does |
| CommandLine.UsageErrorExactly | crates/qsh-cli/src/cli.rs:460-466 | a mistake belongs to a subcommand if and only if an unforced first operand names one |
| CommandLine.OperandFrom | crates/qsh-cli/src/cli.rs:376-408 | the cursor loop, which always ends, computes the scan |
| CommandLine.CommandAtMeans | crates/qsh-cli/src/cli.rs:424-439 | a fence is due exactly at the second of two unforced operands, the first no subcommand |
| CommandLine.OperandKept | crates/qsh-cli/src/cli.rs:376-408 | words behind an operand have no say in finding it |
| CommandLine.TerminatorFound | crates/qsh-cli/src/cli.rs:376-408 | a `--` where the options end forces the next word |
| CommandLine.NormalizeInserts | crates/qsh-cli/src/cli.rs:424-439 | the result is the input, or the input with one `--`, behind which the command word is found as forced and the rest is untouched |
| CommandLine.NormalizeKeepsFirstOperand | crates/qsh-cli/src/cli.rs:414-466 | the first operand and the usage-error verdict are the same before and after |
| CommandLine.NormalizeIdempotent | crates/qsh-cli/src/cli.rs:424-439 | normalizing twice is normalizing once |
| CommandLine.NormalizeInPlace | crates/qsh-cli/src/cli.rs:424-439 | the inserting form computes the same |
| LeastSquares.SlopeExists | scripts/soak/summarize.py:224-240 | there is a slope if and only if two points differ in x |
| LeastSquares.Expand | scripts/soak/summarize.py:232-240 | the squared residuals of any line, written in the sums the code computes |
| LeastSquares.SlopeIsOptimal | scripts/soak/summarize.py:224-240 | with its intercept the slope has the least sum of squared residuals of all lines, and is the only one that has |
| LeastSquares.RecoversALine | scripts/soak/summarize.py:224-240 | points on a line give that line's slope |
| LeastSquares.SlopeUnmoved | scripts/soak/summarize.py:224-240 | shifting all points changes nothing, absence of a slope included |
| Arithmetic.CeilDivIsLeast | scripts/soak/preflight_udp.py:56-57 | the rounded-up quotient is the least multiple count that reaches the dividend |
| PortSampling.RoundIsNearestEven | scripts/soak/preflight_udp.py:79 | rounding gives the nearest integer, and the even one of two equally near, and nothing else does |
| PortSampling.Stride | scripts/soak/preflight_udp.py:73-80 | despite rounding, neighbouring grid points are at most one rounded-up stride apart, and distinct when there are ports enough |
| PortSampling.WindowHit | scripts/soak/preflight_udp.py:73-80 | every window of a stride's width has a grid point |
| PortSampling.SampleCount | scripts/soak/preflight_udp.py:73-80 | after duplicates are gone there is one port for each grid point, or every port of a small range |
| PortSampling.EndsProbed | scripts/soak/preflight_udp.py:73-80 | the ports are strictly increasing from exactly the low to exactly the high end |
| PortSampling.TinyRange | scripts/soak/preflight_udp.py:73-76 | a range of at most one port is its low end |
| PortSampling.NoRunMissed | scripts/soak/preflight_udp.py:118-123 | every run of at least `gap` ports inside the range has a probed port |
| PortSampling.NeighboursWithinGap | scripts/soak/preflight_udp.py:118-123 | neighbouring probed ports are at most `gap` apart |
| PortSampling.WidestStride | scripts/soak/preflight_udp.py:73-80 | some stride has the full rounded-up width |
| PortSampling.MissedRun | scripts/soak/preflight_udp.py:73-80 | for every width below the threshold, a run of that width inside the range that is missed |
| PortSampling.NoRunMissedExactlyWhen | scripts/soak/preflight_udp.py:73-80 | every run of a width has a probed port if and only if the width reaches the rounded-up stride |
| PortSampling.GapIsThresholdOrOneMore | scripts/soak/preflight_udp.py:118-123 | the reported gap is that width or one more, and at least two |
| PortSampling.NarrowRunMissed | scripts/soak/preflight_udp.py:118-123 | so every width below the gap by two or more has a missed run |
| PortSampling.EveryPortProbedExactlyWhen | scripts/soak/preflight_udp.py:73-80 | for width one: no single port is missed if and only if the range has at most 32 |
| PortSampling.GapWithin | scripts/soak/preflight_udp.py:48-80 | for widths from 300 up, the gap is within the width if and only if the range has at most 255 times as many ports |
| PortSampling.RealRangesAreCertain | scripts/soak/preflight_udp.py:118-123 | on every range of real ports the gap is at most 300, so the reported probability is always one |
| Medians.SortAscending | xtask/src/perf.rs:103-104 | the sorted values ascend |
| Medians.SortPermutes | xtask/src/perf.rs:103-104 | and are a permutation of the values |
| Medians.MedianOfAnyOrder | xtask/src/perf.rs:103-111 | the median does not depend on the order |
| Medians.MedianIsMiddle | xtask/src/perf.rs:103-111 | the median is the middle of the values in order, or halfway between the two middle ones |
| Medians.MajorityRules | xtask/src/perf.rs:103-111 | of an odd number of values, the median passes a rising test if and only if more than half of the values do |
| Medians.MajorityStraddles | xtask/src/perf.rs:103-111 | the median lies between the least and the greatest of any majority; of seven, of any four |
| Medians.InsertInPlace | xtask/src/perf.rs:103-104 | the last value sinks to its place, the rest of the array untouched |
| Medians.SortInPlace | xtask/src/perf.rs:103-104 | the array ends up sorted |
| Medians.MedianInPlace | xtask/src/perf.rs:103-111 | sorting in place and reading the middle gives the median, for odd and even counts |
| PerfTrend.BaselineIsNewest | xtask/src/perf.rs:136-142 | the baseline is the newest seven points without injection, newest first |
| PerfTrend.SameCleanSameVerdict | xtask/src/perf.rs:114-184 | two histories with the same clean points give the same verdict |
| PerfTrend.InjectedPointsInvisible | xtask/src/perf.rs:114-184 | injected points put in or taken out anywhere change no verdict |
| PerfTrend.TrimExactly | xtask/src/perf.rs:187-192 | trimming leaves the newest 365 points, or all there are |
| PerfTrend.TrimKeepsVerdict | xtask/src/perf.rs:187-192 | trimming changes no trend verdict if and only if it leaves seven clean points or all there were; it changes no verdict of the judge if and only if that, or a low screen ratio is all there is to report |
| PerfTrend.StoredIsNewest | xtask/src/perf.rs:240-244 | after any runs the file holds the newest 365 points |
| PerfTrend.RunsJudgeFullRecord | xtask/src/perf.rs:240-244 | every run judges as if nothing had ever been trimmed, under the condition above |
| PerfTrend.InjectedRunsInvisible | xtask/src/perf.rs:240-244 | over whole runs, injected runs in between change no later verdict, under that condition |
| PerfTrend.InjectedRunsCrowdOut | xtask/src/perf.rs:187-192 | 359 injected runs after seven clean ones leave the judge without a baseline |
| PerfTrend.RedExactlyWhen | xtask/src/perf.rs:114-184 | a point is red if and only if its screen ratio is too low, or four of the seven make it slow, or four have a positive echo and four (not always the same) an echo low enough to make it late; each cause is one reason, in order; a point is only recorded exactly without a baseline |
| PerfTrend.ReportedNumbers | xtask/src/perf.rs:114-184 | the ratios and reasons of a judged point carry its own numbers and those in the middle of the seven |
| PerfTrend.BaselineOrderIrrelevant | xtask/src/perf.rs:136-184 | the order of the seven does not matter |
| PerfTrend.MedianOf | xtask/src/perf.rs:148-149 | the median of a copy of the values |
| PerfTrend.History.constructor | xtask/src/perf.rs:240 | holds the points read |
| PerfTrend.History.JudgePoint | xtask/src/perf.rs:136-184 | the step-by-step comparison is the trend verdict |
| PerfTrend.History.TrimPoints | xtask/src/perf.rs:187-192 | exactly the newest 365 points stay |
| PerfTrend.History.Run | xtask/src/perf.rs:240-244 | the verdict is on the points stored before, and the new point is stored whatever the verdict |

## Left out

Deliberately weaker than the source, or under a condition the source has not:

- SketchRace.NothingUndercounted: steps are atomic and in one order, so weaker memory orderings are not modelled; cells do not wrap; what a caller reads for the previous epoch while an advance is under way is not constrained.
- RateLimit.EpochBudget: supposes that no cell is hit 2^32 times in one epoch, after which a cell starts again at zero.
- RateLimit.SlidingBudget: the same, and a budget below 2^32 - 1; at that ceiling nobody is limited.
- RateLimit.SteadyReading: the weighting is exact integer arithmetic over ticks, where the source multiplies floating-point numbers.
- SketchModel.NeverUnderestimates: the same two points; hash functions are arbitrary, so nothing is said about how likely a collision is.
- Gates.Gate.Decide: one caller at a time; the concurrent behaviour of the counter table is in SketchRace, that of the audit windows is behind a mutex in the source.
- Gates.Gate.ReleasePermit: needs a permit to be out, which in the source is the existence of the permit object.
- CertAuthority.CaDir.Init: alone in its critical section; interleavings are in the protocol part of the same module.
- CertAuthority.RootIsPairedAndUnique: a key is a number and a certificate is its key and a serial; a write takes effect whole or not at all, as the atomic rename does.
- ConfigEdit.SetThenRead: for keys that do not list their own name as an alias, which `RegistryIndependent` shows of all keys of the registry.
- ConfigEdit.SetTouchesOnlyItsKey: a document is its sections and fields with their blanks and comments; TOML text, its parser and its printer are not part of this model.
- DatagramFrames.PartFits: for parts below 2^56 bytes; `PartFitsIsTight` shows where it stops holding.
- DatagramHubModel.DatagramHub.ReadLoop: the loop without other steps in between; interleavings are in the protocol part of the same module.
- DatagramHubModel.DatagramHub.Recv: waiting for a frame is modelled as getting none.
- Reassembly.ComesOutAsSent: for one encoding of each state number; `FaithfulMeansNoMix` is the law for two.
- Reassembly.FaithfulExactlyWhen: equally many parts cut at two different sizes are covered by `FaithfulMeansNoMix` only.
- CommandLine.OperandFrom: words are strings; the lossy conversion of words that are not valid Unicode is not modelled. The subcommand names are a parameter.
- LeastSquares.SlopeIsOptimal: over exact real numbers; floating-point rounding, infinities and NaN are not modelled.
- PortSampling.NoRunMissed: the quotient is rounded as an exact fraction, not as a floating-point number.
- PerfTrend.RedExactlyWhen: over exact real numbers; the text of the reasons and the fields no verdict reads are not modelled.
- Medians.SortInPlace: the library's sort is modelled by an insertion sort on the array.

Not modelled:

- Field strings and timestamps of audit records, the audit sink, tracing.
- X.509, key generation, PEM and file permissions.
- Recovery from a poisoned lock; wrap-around of 64-bit counters.
- The in-order stream reassembler, the connection registry of the hub, sending datagrams.
- Option parsing beyond finding operands; the rest of the command line.
- The probing loop of the preflight, the other evaluations of the soak summary, reading and writing the trend file.
- Defaults and paths of the configuration, diagnostics, session transport, screen emulation and prediction.
- That `unset` after `set` restores a document: a section that was empty before is dropped.
