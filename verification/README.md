# Replay verification model

A Dafny model of the replay renderer's deterministic core. It covers three things.

* **Record, replay, bisect.** A toy guest is an FNV-1a register and a hash chain folded
  every 4096 icounts. The segment writer merges input events, frame marks, epoch hashes and
  an optional skew into one sealed stream while it steps that guest. The mock hypervisor
  re-executes a stream, compares the recorded hashes, and bisects a divergence first over
  epoch records and then over icounts, every probe paid from one run budget. Two drivers
  use it: `verify` walks a path segment by segment, `bisect` decides between an unstable
  replay and a divergent recording and reports where it starts.
* **Formats.** The DHILOG segment header, record framing and structural validator; the
  lineage rules R1 to R6; assembly; the `.dilog` container writer and reader; the helpers
  that corrupt a segment on purpose.
* **Frame packs.** The `.rfp` writer and reader.

Everything is at the level of bytes. The 32-byte hash is an arbitrary function
(`Bytes.BLAKE3` has no definition), so round trips hold for every hash. Where a result
needs two different states to have different hashes, the lemma says so for the inputs it
compares (`Divergence.Apart`, `Divergence.NoCollision`), and never for all inputs. The FNV
register is concrete: its byte step is proved injective modulo 2^64. The skew's fold and a
flake of value 0 or 1 change every register (`Divergence.SkewAlwaysMoves`,
`Flakes.FlakeAlwaysMoves`); for other folds, whether they change the register they meet
(`Divergence.Bites`) is part of what the results say.

The meaning of an execution is given once, without stepping anything:
`Guest.StateAt(origin, acts, n)` is the guest at icount `n` after living through a timeline
of folds, epoch chains included. The writer, the replay loop, the exact-icount probe and the
recorded-side oracle are methods over a mutable guest. Each is proved to compute that state
for its own timeline, and the results about searches, drivers and paths are then proved
about timelines.

Reading order: `Bytes`, `Fnv`, `Guest`, `Divergence`, `Hashed`; `Dhilog`, `Validator`;
`Merge`, `Writer`, `Recording`, `SegmentWriter`; `Hv`, `Replay`, `Search`, `Mock`,
`MockHypervisor`, `Faults`; `WrittenReplay`, `WriterOrder`, `Oracle`, `Localize`, `Bisect`,
`Reports`, `ReportFields`; `Rules`, `PathNames`, `VerifyPath`, `Paths`, `Chains`; `Flakes`,
`Probes`, `FlakyPaths`, `Events`; `Container`, `ContainerReader`, `ContainerCodec`, `Assemble`;
`Corrupt`; `Rfp`, `RfpCodec`, `RfpTorn`, `TornPacks`; `Layouts`, `Refusals`.

The functions that methods are proved against are definitions of this project, so what they
say is stated again without them. `Layouts` gives the formats offset by offset, `Refusals`,
`Faults` and `PathNames` the error of every refusal, `WriterOrder`, `Hashed` and `Events` the
bytes, hashes and events of an execution, `RfpTorn` and `ReportFields` what a torn pack and a
report hold, in literal numbers, tags and positions.
`dafny verify dfyconfig.toml` verifies them together. Many small lemmas named `...Is`,
`...Parts`, `...Facts` or `...From` unfold or fold one definition, so that the larger proofs
can hide every definition and reason from contracts alone.

Three places where the code does less than its comments suggest are kept as they are. Each
has an input that shows it and the exact condition under which the code does what it should.

* The window of native bisection can start past the skew when the budget ends inside the
  search over epoch records: `Localize.SkewMissed`, on the input of
  `Localize.SkewMissedExists`. `Localize.SkewLocalized` says when the window holds the skew.
* An exact-icount probe simulates segment 0, whichever segment it probes:
  `Probes.EarlyProbeWrong`. `Probes.ProbeAgreesIff` says when its hash is that of the replay.
* A torn pack can read as complete, in two ways. The cut can fall where a record starts
  with the footer of the pack before it: `TornPacks.TornReadsComplete`, where the cut pack
  is byte for byte a finished one. Or the footer lies over the header:
  `TornPacks.TornHeaderReadsComplete`, and `Rfp.FooterOverHeader` for a 65-byte file.
  `Rfp.CompletePrefixIff` says exactly which truncations read as complete;
  `RfpCodec.CompleteIff` and `RfpCodec.ShortCompleteIff` what does, for every file.

`Rules.LastSnapshotUnchecked` records that R3 never looks at the last node's snapshot.

## Model

| member | source | states |
|---|---|---|
| Fnv.FoldByteInjective | crates/replay-mockhv/src/guest.rs:103-108 | Folding one byte keeps different registers different: xor, then a product with an odd prime modulo 2^64, can be undone |
| Fnv.FoldByteInjectiveInByte | crates/replay-mockhv/src/guest.rs:103-108 | Folding different bytes into one register leaves different registers |
| Fnv.FoldBytesInjective | crates/replay-mockhv/src/guest.rs:103-108 | Folding any byte string keeps different registers different |
| Hashed.FoldStep | crates/replay-mockhv/src/guest.rs:103-108 | One step is the exclusive or, bit by bit, and the product with 0x100000001b3 modulo 2^64 |
| Hashed.RegisterIs | crates/replay-mockhv/src/guest.rs:51-108 | The register at an icount is the fold, from the 64-bit offset basis, of the bytes of everything that landed at or before it, in order |
| Hashed.HashInputs | crates/replay-mockhv/src/guest.rs:51-119 | The chain starts from the tag, the machine configuration and the base snapshot; every 4096th icount takes in the register of everything strictly before; the state hash is over chain, register and icount |
| Hashed.InjectIs | crates/replay-verify/src/mock.rs:69-79 | An extra fold lands after every earlier act and before every act at its own icount |
| Guest.FollowsIsStateAt | crates/replay-mockhv/src/guest.rs:84-119 | A guest stepped act by act through a timeline, nothing left at or before its icount, is the reference state there |
| Guest.StepFollows | crates/replay-mockhv/src/guest.rs:79-100 | Stepping over any number of boundaries between two acts keeps the chain of the reference semantics |
| Guest.GuestSim.constructor | crates/replay-mockhv/src/guest.rs:51-61 | A new guest has the offset basis, the seeded chain and icount 0 |
| Guest.GuestSim.StepTo | crates/replay-mockhv/src/guest.rs:79-100 | The loop folds the chain once per boundary crossed or landed on, the register unchanged, and stops at the target |
| Guest.GuestSim.Fold | crates/replay-mockhv/src/guest.rs:103-108 | The byte loop computes the FNV-1a fold of the whole string |
| Guest.GuestSim.Hash | crates/replay-mockhv/src/guest.rs:113-119 | The state hash is over chain, register and icount, in that order |
| Divergence.RegistersAgreeIff | crates/replay-verify/src/mock.rs:384-388 | Two executions that differ by one extra fold have equal registers at an icount if and only if the fold has not landed there or changes nothing: divergence is permanent |
| Divergence.StateHashesAgreeIff | crates/replay-verify/src/mock.rs:384-395 | State hashes agree exactly below the extra fold, to the end of the segment |
| Divergence.StatesAgreeIff | crates/replay-verify/src/mock.rs:384-395 | For any fold at all, state hashes agree if and only if it has not landed or leaves the register it meets alone |
| Divergence.SkewAlwaysMoves | crates/replay-mockhv/src/guest.rs:18 | The skew's 21 bytes change every register: none keeps its low three bits |
| Divergence.ChainsAgreeIff | crates/replay-verify/src/mock.rs:389-395 | Epoch chains agree exactly at boundaries up to the fold, a boundary at the fold's own icount included |
| Dhilog.ParseOfEncode | crates/replay-splice/src/dhilog.rs:76-105 | A written header parses back to itself whatever body follows |
| Dhilog.EncodeOfParse | crates/replay-splice/src/dhilog.rs:76-105 | Whatever parses is byte for byte the encoding of what was parsed |
| Layouts.SegmentHeaderLayout | crates/replay-mockhv/src/writer.rs:17-45 | Every field of the 256-byte header at its offset, in its width, least significant byte first, the last 16 bytes zero |
| Layouts.SegmentRecordLayout | crates/replay-mockhv/src/writer.rs:309-320 | Every field of a record at its offset, then the payload, then zeroes to a multiple of eight |
| Refusals.HeaderRefused | crates/replay-splice/src/dhilog.rs:76-90 | Which error an unreadable header gives: length, magic, header length, reserved bytes, in that order |
| Dhilog.RecordIter.Next | crates/replay-splice/src/dhilog.rs:160-199 | Each call yields the next frame of the walk, or a framing error after which the iterator is at the end; it always advances |
| Dhilog.FramesOfEncode | crates/replay-splice/src/dhilog.rs:160-199 | Records written one after the other are walked back in order, undamaged |
| Dhilog.EncodeOfFrames | crates/replay-splice/src/dhilog.rs:160-206 | A walk with no damage and zero padding is over exactly the encoding of its records |
| Validator.ParseSegment | crates/replay-splice/src/dhilog.rs:115-119 | A segment keeps its bytes and the header they parse to, or the parse error |
| Validator.ValidateStructure | crates/replay-splice/src/dhilog.rs:300-393 | The validator's loop returns the first rule broken, check by check in the program's order |
| Validator.AcceptsExactlyWellFormed | crates/replay-splice/src/dhilog.rs:291-393 | Passing is equivalent to: sealed, nonzero end hash, matching body hash, and a body that is exactly the encoding of records within the limits, numbered by position, icounts ordered and bounded, with one END, last, at the end icount with the header's hash, and the stated count |
| Refusals.RefusedAt | crates/replay-splice/src/dhilog.rs:300-381 | A bad seal is R4. Under a good one the first offending record gives the rule: R5 after an END; R4 for padding, flags, kind or size; R5 for its number or icount; for an END, R4 for its length, R5 for its icount, R4 for its hash |
| Refusals.RefusedWhole | crates/replay-splice/src/dhilog.rs:382-393 | With no offending record the segment passes if and only if it ends undamaged in an END with the stated count, and is R4 otherwise |
| Recording.CanonicalInOrder | crates/replay-mockhv/src/writer.rs:193-223 | The merged emissions contain the input events in script order, each once |
| Recording.EpochsInOrder | crates/replay-mockhv/src/writer.rs:194-206 | The merged emissions contain one epoch hash per boundary up to the end icount, in order |
| Recording.KeptShape | crates/replay-mockhv/src/writer.rs:156-223 | Everything but the skew leaves a record, ordered by icount, with the END last and only there; what stands at one icount is `WriterOrder.WrittenAt` |
| Recording.MergedActs | crates/replay-mockhv/src/writer.rs:156-267 | The folds made in merge order are the input timeline with the skew injected after earlier acts and before those at its own icount |
| WriterOrder.WrittenAt | crates/replay-mockhv/src/writer.rs:151-320 | What stands at each icount of a written segment, byte for byte: the epoch hash of a boundary, then the inputs there in script order, then the frame marks there in script order, then the END; kinds, flags, instruction pointers and payloads as the format has them, and nothing else |
| WriterOrder.KindsInOrder | crates/replay-mockhv/src/writer.rs:151-223 | Of two records at one icount the later is no epoch hash, only a frame mark or the END follows a frame mark, and nothing follows the END |
| WriterOrder.RecordedTimeline | crates/replay-mockhv/src/writer.rs:110-119 | The recorded guest folds each input as its record's kind and payload, in script order, and the skew's tag after earlier inputs and before those at its icount |
| WriterOrder.WrittenHeaderIs | crates/replay-mockhv/src/writer.rs:270-305 | Version 0x0100, sealed with auxiliary records, the epoch bit unless they were omitted, the spec's identities and clock, the number of records, the end icount, its virtual time rounded down, the end state hash and the hash of everything after the header |
| Recording.WriterAndParserAgree | crates/replay-mockhv/src/writer.rs:179-320 | For every well-formed spec the output parses to its own header, its records walk back as exactly the merged list without the skew, and it is accepted if and only if its end hash is nonzero |
| SegmentWriter.WriteSegment | crates/replay-mockhv/src/writer.rs:179-305 | The emission loop over a stepping guest produces the sealed segment of the merged list (`WriterOrder.WrittenAt` and `WriterOrder.WrittenHeaderIs` give its bytes), every epoch hash and the end hash being those of the recorded execution and the end hash that of the loop's own guest (`SegmentWriter.WriterGuest`) |
| SegmentWriter.PushRecord | crates/replay-mockhv/src/writer.rs:309-320 | One record is appended: header fields, payload, zero padding to eight |
| Hv.RunBudget.TryConsume | crates/replay-verify/src/hv.rs:107-114 | One run is consumed if and only if one remains; used never passes the maximum |
| Replay.SimResultIs | crates/replay-verify/src/mock.rs:149-177 | A simulation that meets nothing it cannot apply ends in the reference state of the whole timeline: records and folds past the stop make no difference |
| Replay.TrackFire | crates/replay-verify/src/mock.rs:69-79 | Landing the pending defect fold when no later act is behind it keeps the guest on the timeline with the fold injected |
| Replay.TrackLand | crates/replay-verify/src/mock.rs:132-145 | Landing the next canonical record, the fold before or after it, keeps the guest on that timeline |
| Mock.VirtualFold.MaybeApply | crates/replay-verify/src/mock.rs:69-79 | The fold lands once, at its own icount, before any record past it and before any record there but an epoch hash |
| Mock.VirtualFold.Finish | crates/replay-verify/src/mock.rs:81-87 | A fold still pending lands if it is due by the stop |
| Mock.MeetTracks | crates/replay-verify/src/mock.rs:160-173 | Meeting one more record, the lazily applied fold included, keeps the simulation on the timeline of its side |
| MockHypervisor.Hypervisor.SimTo | crates/replay-verify/src/mock.rs:149-177 | A simulation to a stop ends in the reference state of its side's timeline, or with the first record it cannot apply |
| MockHypervisor.Hypervisor.Replay | crates/replay-verify/src/mock.rs:235-298 | The honest replay stops at the first epoch hash that disagrees or goes through to the end hash, with one event per hash that agreed |
| Faults.SimFaults | crates/replay-verify/src/mock.rs:149-177 | A simulation faults with the icount of the first unknown input up to its stop, with icount 0 for damage once every record is met, and never for what is past the stop |
| Faults.ReplayFault | crates/replay-verify/src/mock.rs:235-298 | A replay that reproduces every hash before it faults at the first unknown input or epoch hash of the wrong size, or at the damage after the last record |
| Faults.RunFaults | crates/replay-verify/src/mock.rs:298-345 | A run returns its replay's fault; a run that disagrees returns a divergence, or the fault of the diagnosing simulation over the whole segment |
| Events.RunEventsAre | crates/replay-verify/src/mock.rs:231-296 | One start, then good epochs, then one completion unless the run faulted, all with the segment's number |
| MockHypervisor.Hypervisor.SearchEpochRecords | crates/replay-verify/src/mock.rs:320-382 | The probing loop is the binary search over which hashes are good, one run a probe, and leaves the window of its final state |
| MockHypervisor.Hypervisor.NarrowIcounts | crates/replay-verify/src/mock.rs:384-422 | The icount loop and the confirming run compute the final window and whether it was confirmed |
| MockHypervisor.Hypervisor.VerifySegment | crates/replay-verify/src/mock.rs:213-437 | Base mismatch and empty budget refuse without a run; otherwise the outcome, the events and the runs used are those of the replay and its bisection, and on every return the run count grows by exactly what the budget lost |
| MockHypervisor.Hypervisor.RunToIcount | crates/replay-verify/src/mock.rs:439-463 | An exact-icount probe costs one run and returns the state hash of segment 0's replayed side, or refuses without a run |
| Search.SearchBrackets | crates/replay-verify/src/mock.rs:350-375 | At every turn the record before the open range was probed good and the one after it bad, whatever the probes say |
| Search.SearchFinds | crates/replay-verify/src/mock.rs:350-375 | With a threshold and bit-length many runs the search ends at the first bad record |
| Search.SearchMeetsBad | crates/replay-verify/src/mock.rs:350-375 | Some probe comes back bad if and only if the runs reach the first descent into the bad half |
| Search.SearchHits | crates/replay-verify/src/mock.rs:350-375 | The first bad record is the answer if and only if the runs last until it is probed |
| Search.HitBound | crates/replay-verify/src/mock.rs:350-375 | Meeting a bad record takes no more probes than hitting the first one, and that no more than the bit length of the number of records |
| Search.PinpointKeeps | crates/replay-verify/src/mock.rs:394-422 | Whatever the budget, the icount window keeps the divergence, a single icount is it, and enough runs confirm it |
| Search.BitsOfLog | crates/replay-verify/src/mock.rs:350-361 | The number of epoch probes is one more than the base-two logarithm of the number of epoch records, rounded down |
| WrittenReplay.WrittenActs | crates/replay-verify/src/mock.rs:160-171 | Replaying a written segment folds exactly the recorded input events |
| WrittenReplay.WrittenEpochs | crates/replay-verify/src/mock.rs:329-343 | Its epoch records stand at every boundary with the recorded guest's chain |
| WrittenReplay.ValidatedIsSteppable | crates/replay-verify/src/mock.rs:69-87 | A validated segment never makes the replay step backwards, and with 40-byte epoch payloads nothing in it can fault |
| Oracle.OracleRefinesWriter | crates/replay-verify/src/mock.rs:149-177 | Simulating the recorded side to any stop gives the writer's own guest after its emissions up to that stop |
| Oracle.OracleReproducesRecording | crates/replay-verify/src/mock.rs:384-395 | The recorded side reproduces every recorded epoch hash and the end hash |
| Localize.SkewThreshold | crates/replay-verify/src/mock.rs:346-375 | On a skewed recording the epoch hashes a clean replay reproduces are exactly those at boundaries up to the skew |
| Localize.SkewCaught | crates/replay-verify/src/mock.rs:283-317 | Every replay of a skewed recording disagrees with it |
| Localize.SkewLocalized | crates/replay-verify/src/mock.rs:322-436 | For every number of runs: the window never ends before the skew, and holds it if and only if no bad epoch was probed or the first bad one was; a window of one icount is the skew; a full search finds it; the registers reported are those of both sides at the window's end, and differ |
| Localize.ExactLocalization | crates/replay-verify/src/mock.rs:322-436 | With 16 plus log2 of the number of epoch records runs on entry, native bisection ends with the skew's icount as both bounds |
| Localize.SkewMissed | crates/replay-verify/src/mock.rs:376-381 | Four epoch records, a skew in the first epoch and two runs: the window starts past the skew |
| Localize.SkewMissedExists | crates/replay-verify/src/mock.rs:376-381 | Four epochs without inputs and a skew at icount 1 are such a recording, if the hash confuses no two of the compared inputs |
| Probes.ProbeAgreesIff | crates/replay-verify/src/mock.rs:439-463 | For every defect, segment, stop and run: an exact-icount probe returns the state hash of the replay of its segment if and only if segment 0 and its segment get the same fold, the stop is before the one that differs, or that fold changes nothing |
| Probes.ProbeMissesFlake | crates/replay-verify/src/mock.rs:459-462 | Probing a flaky segment other than segment 0 is right exactly before its flake, or if the flake changes nothing |
| Probes.ProbeBorrowsFlake | crates/replay-verify/src/mock.rs:459-462 | With the flake on segment 0, probing any other segment is right exactly before that flake, or if the flake changes nothing |
| Probes.EarlyProbeWrong | crates/replay-verify/src/mock.rs:459-462 | In the runs of a fresh mock with an index below the period, and in the first, the probe of a flaky segment other than segment 0 is wrong at every stop from the flake on, whatever the segment holds |
| Probes.ReportActual | crates/replay-verify/src/bisect.rs:117-226 | For every defect, budget and option: the hash a report gives as the replay's is that of the last phase-one run, of the bisected run, of a diverging phase one with the budget spent, or of the closing probe; the last is the replay's if and only if the probe is right at the end |
| Bisect.MinWindow | crates/replay-verify/src/bisect.rs:100-114 | The first narrowest window among the divergences, the whole segment if there are none |
| Bisect.PhaseOne | crates/replay-verify/src/bisect.rs:76-98 | Runs are repeated up to the retries plus one while budget lasts; the first fault is returned |
| Bisect.Bisect | crates/replay-verify/src/bisect.rs:65-228 | Both phases return the report determined by the defect, the segment, the options and the runs already made; the run count grows by exactly the runs used, never past the maximum, and the report says exhausted exactly when they are equal |
| Reports.BisectTotal | crates/replay-verify/src/bisect.rs:62-64 | On a segment that cannot fault there is a report for every budget and option, nondeterministic if and only if phase one is not skipped and two of its `retries + 1` runs, as far as the budget goes, differ |
| ReportFields.ReportIsConsistent | crates/replay-verify/src/bisect.rs:65-260 | Every report carries the hash asked for, a run count within the budget and equal to it exactly when the budget is used up, the page of its diagnostics and the next; without diagnostics the whole segment and no page but that of the end; and a nondeterministic one used exactly the first phase's runs |
| ReportFields.WrongBase | crates/replay-verify/src/bisect.rs:76-228 | From a wrong base the first run's fault is returned, but for the closing probe of a segment without epoch hashes, whose fault the report lists; without a run to make there is none |
| Reports.NeverFalselyFlaky | crates/replay-verify/src/bisect.rs:78-125 | Without a flake on the segment, skewed or not, a replay is never called nondeterministic |
| Reports.FlakeDetection | crates/replay-verify/src/bisect.rs:78-125 | On a fresh mock a flake of period p is reported if and only if phase one is not skipped and makes p retries, one at least, within the budget; the window then holds it |
| Reports.SkewedReport | crates/replay-verify/src/bisect.rs:127-228 | For every budget and option an exact icount in the report is the skew's; the offset never ends before the skew, and holds it exactly when bisection did not run or its epoch search kept it; `retries + 1` runs, unless phase one is skipped, and 16 plus log2 of the epoch records more make it exact; diagnostics are there exactly when bisection ran, and show two different registers |
| Flakes.FlakeAlwaysMoves | crates/replay-verify/src/mock.rs:110-113 | A flake of value 0 or 1 changes every register |
| Flakes.FlakeFolds | crates/replay-verify/src/mock.rs:102-116 | Run r of the flaky segment folds the tag and the eight bytes of the v for which v * p <= r < (v + 1) * p, p being the period or one; nothing else gets that fold |
| Flakes.SkewFolds | crates/replay-verify/src/mock.rs:102-130 | The recorded side of the skewed segment folds the skew's tag, and no replay does |
| Flakes.FlakeCaughtIff | crates/replay-verify/src/mock.rs:235-298 | A flaky run of an unskewed recording diverges if and only if its flake changes the register it meets, and verifies otherwise |
| Flakes.FlakyReport | crates/replay-verify/src/bisect.rs:127-228 | A flake the first phase did not report, on any mock: an exact icount is the flake's; the offset never ends before it, and holds it exactly when bisection did not run, the flake changes nothing or the epoch search kept it; enough runs make it exact; diagnostics are there exactly when bisection ran on a flake that changes the register, and show two different ones |
| Flakes.MissedFlakeReport | crates/replay-verify/src/bisect.rs:127-228 | On a fresh mock whose first phase is skipped or makes no more runs than the period, the report is a recorded divergence that says of the flake what it would say of a skew, whatever the inputs |
| Flakes.FlakeDetectionIff | crates/replay-verify/src/bisect.rs:78-125 | On any mock a flake is reported if and only if two runs of the first phase fold it into different registers |
| Flakes.FlakeDetectionByQuotient | crates/replay-verify/src/mock.rs:110-113 | While the quotients of the phase's runs share all but their lowest byte, that is if and only if the first and the last differ |
| FlakyPaths.FlakyPath | crates/replay-verify/src/verify.rs:37-83 | On a chain of unskewed recordings with a flake on any segment number, for every budget: `verify` names the first segment whose run the flake lands on and changes, after as many runs as its index; else a spent budget or a complete pass |
| FlakyPaths.FlakeNamed | crates/replay-verify/src/verify.rs:37-83 | With the flake on segment j + 1 and runs enough, `verify` names it after j + 1 runs if and only if the flake of that run changes the register it meets, and otherwise verifies all |
| FlakyPaths.LateVerifies | crates/replay-verify/src/mock.rs:81-87 | A flake past the end of its segment never lands: the run verifies |
| Rules.R1Versions | crates/replay-splice/src/rules.rs:49-78 | The first segment with an unsupported version is named |
| Rules.R2MachineUniformity | crates/replay-splice/src/rules.rs:82-109 | The first segment that differs from the first one's machine or clock is named |
| Rules.R3Adjacency | crates/replay-splice/src/rules.rs:114-168 | The first segment off its parent's snapshot, its predecessor's end or its parent node is named |
| Rules.R4R5Structure | crates/replay-splice/src/rules.rs:173-182 | The first segment the validator refuses is named with the rule it broke |
| Rules.R6DigestTable | crates/replay-splice/src/rules.rs:187-211 | Missing hashes are all listed; otherwise the first node whose hash differs is named |
| Rules.Validate | crates/replay-splice/src/rules.rs:38-45 | The rules are applied in order and the first violation is returned |
| Rules.AcceptsExactlyLineages | crates/replay-splice/src/rules.rs:36-45 | Passing all rules is equivalent to being a uniform, linked path of well-formed segments whose nodes carry their end hashes |
| PathNames.NamesFirst | crates/replay-splice/src/rules.rs:32-211 | The first segment to offend at the first stage where one does is named by one more than its position, with the rule of that stage, the structural one being the segment's own verdict |
| PathNames.NamesMissing | crates/replay-splice/src/rules.rs:187-198 | A path that fails nothing else but lacks state hashes is unsupported, listing exactly the nodes without one, in path order |
| Rules.LastSnapshotUnchecked | crates/replay-splice/src/rules.rs:125-147 | No verdict depends on the last node's snapshot |
| VerifyPath.Verify | crates/replay-verify/src/verify.rs:30-84 | The driver returns, uses runs and streams events exactly as the segment-by-segment induction says, for every path and budget |
| Paths.VerifiedHash | crates/replay-verify/src/verify.rs:64-73 | A verified outcome always carries the recorded end hash, so on a validated path the later comparison cannot fail |
| Paths.FreeLocalization | crates/replay-verify/src/verify.rs:37-83 | On a validated path `verify` names segment j + 1, its edge, the recorded end hash and the replay's, if and only if position j is the first to disagree and the budget reaches it, after j + 1 runs; else a spent budget or a clean pass, and never a fault of another kind |
| Paths.StopsAtFirst | crates/replay-verify/src/verify.rs:37-83 | On any path, validated or not, `verify` stops at the first segment that starts off its parent's snapshot, that the budget does not reach, whose run faults or disagrees, or whose verified hash is not its node's, and gives that refusal, fault or segment number with both hashes |
| Chains.CleanVerifies | crates/replay-verify/src/mock.rs:235-298 | A clean replay of an unskewed recording verifies with every epoch hash good and the writer's end hash |
| Chains.ChainIsReady | crates/replay-splice/src/rules.rs:38-45 | Any chain of adjacent recordings, skewed or not, passes all six rules and cannot fault |
| Chains.ChainAssembles | crates/replay-splice/src/assemble.rs:35-100 | With log ids in its rows it assembles |
| Chains.CleanPath | crates/replay-verify/src/verify.rs:30-84 | A chain of unskewed recordings verifies completely, in exactly one run a segment |
| Chains.CleanEvents | crates/replay-verify/src/mock.rs:231-296 | A clean segment streams one start, one epoch event for every 4096 icounts in order, and one completion |
| Events.PathEventsAre | crates/replay-verify/src/verify.rs:37-57 | A path's events are its runs' events in turn, those of position n with number n + 1 |
| Events.SkewedEvents | crates/replay-verify/src/mock.rs:231-296 | Replaying a skewed recording streams a start, one event for every boundary up to the skew with its number and icount, and a completion |
| Events.FlakyEvents | crates/replay-verify/src/mock.rs:231-296 | So does a replay whose flake changes the register, up to the flake |
| Chains.SkewedPath | crates/replay-verify/src/verify.rs:37-83 | A chain with skewed recordings passes the rules and `verify` names exactly the first of them, by its number, with the recorded end hash and that of the inputs alone, after as many runs |
| Chains.SkewFound | crates/replay-verify/src/bisect.rs:1-5 | On a chain whose first skewed recording is segment j, `verify` names that segment, and bisecting it from its own base on the same mock, 16 plus log2 of its epoch records runs after phase one, reports the exact icount of the skew |
| Container.Write | crates/replay-splice/src/container.rs:117-168 | The buffer loops produce the one encoding: header, metadata, table with running offsets, blobs, footer |
| ContainerReader.Read | crates/replay-splice/src/container.rs:171-376 | The reader returns, for every byte string, the container or the first error in the order it looks |
| ContainerCodec.WriteOfRead | crates/replay-splice/src/container.rs:117-376 | Whatever is read, writing it gives back the same bytes, for every byte string |
| ContainerCodec.ReadOfWrite | crates/replay-splice/src/container.rs:117-376 | Every canonical container is read back from what was written |
| ContainerCodec.AcceptsExactlyWritten | crates/replay-splice/src/container.rs:1-12 | A byte string is accepted if and only if it is the encoding of a canonical container |
| Layouts.ContainerFileLayout | crates/replay-splice/src/container.rs:117-168 | Where everything in a written container stands: each header field at its offset, metadata and blobs padded with zeroes to eight, one 152-byte entry a segment with the blob's running offset, the footer's hash of all before it, and the two magics |
| Refusals.EndsRefused | crates/replay-splice/src/container.rs:171-203 | Which error a file with wrong ends gives: length, magic, version, reserved bits, end magic, hash, in that order |
| Refusals.FrontRefused | crates/replay-splice/src/container.rs:205-250 | Then the count, the extents and the metadata |
| Refusals.EntryRefused | crates/replay-splice/src/container.rs:257-354 | Then each segment: its offset, its extent, its padding, whether it is a supported sealed segment, whether the table agrees with its header, the container and the segment before; otherwise the entry's fields |
| Refusals.TailRefused | crates/replay-splice/src/container.rs:346-376 | Last, bytes between the last blob and the footer and a flag that is not the conjunction of the segments' are refused; otherwise the header's fields and what was read are the container |
| Assemble.Assemble | crates/replay-splice/src/assemble.rs:35-100 | The container, the first broken rule, or the first row without a log |
| Assemble.AssemblesExactlyLineages | crates/replay-splice/src/assemble.rs:35-100 | Assembly succeeds exactly on nonempty lineages whose rows all have logs |
| Assemble.AssembledFields | crates/replay-splice/src/assemble.rs:60-100 | Goal, root, image, rates, machine, clock and epoch flag of the container, and node, log, snapshots, hash and bytes of every row, in terms of the path and the context |
| Assemble.AssemblyRefused | crates/replay-splice/src/assemble.rs:35-80 | An empty path is R3 at no segment, a broken rule is that rule, a row without a log is R3 at its number |
| Assemble.SurvivesStorage | crates/replay-splice/src/assemble.rs:31-34 | What was assembled, written and read is the same container, with each segment's bytes where its blob starts |
| Corrupt.Records | crates/replay-mockhv/src/corrupt.rs:27-44 | The walker finds every record of a well-formed file at its offset with its fields |
| Corrupt.MetaReads | crates/replay-mockhv/src/corrupt.rs:27-44 | A record's metadata is what stands at its offset; the first offset is 256 and the next is the next multiple of eight after the payload |
| Corrupt.GapSeq | crates/replay-mockhv/src/corrupt.rs:107-112 | In place, one sequence number is bumped and the body hash recomputed, and nothing else changes |
| Corrupt.SetRecordIcount | crates/replay-mockhv/src/corrupt.rs:116-120 | In place, one icount is replaced and the body hash recomputed, and nothing else changes |
| Corrupt.StripEndRecord | crates/replay-mockhv/src/corrupt.rs:94-104 | The END is gone, count and body hash fixed up |
| Corrupt.WrittenIsIntact | crates/replay-mockhv/src/corrupt.rs:1-6 | Every writer output with a nonzero end hash is a file these corruptions apply to |
| Corrupt.GapTouches | crates/replay-mockhv/src/corrupt.rs:107-112 | Only the four bytes of the sequence number, one more than before, and the body hash change |
| Corrupt.MoveTouches | crates/replay-mockhv/src/corrupt.rs:116-120 | Only the eight bytes of the icount and the body hash change |
| Corrupt.StripTouches | crates/replay-mockhv/src/corrupt.rs:94-104 | The last record is cut off, and only the count, one less, and the body hash change |
| Corrupt.GapTripsR5 | crates/replay-mockhv/src/corrupt.rs:106-112 | A gap at any index makes validation fail with R5 there, every earlier check passing |
| Corrupt.LateTripsR5 | crates/replay-mockhv/src/corrupt.rs:114-120 | An icount past the end at any index makes it fail with R5 there, every earlier check passing |
| Corrupt.StripTripsR4 | crates/replay-mockhv/src/corrupt.rs:94-104 | A stripped END makes it fail with R4 after every record has passed |
| Rfp.RfpWriter.New | crates/replay-frames/src/rfp.rs:104-120 | A header starts an empty pack; a format without an encoding is refused |
| Rfp.RfpWriter.Push | crates/replay-frames/src/rfp.rs:122-134 | One record is appended and counted |
| Rfp.RfpWriter.Finish | crates/replay-frames/src/rfp.rs:138-146 | The footer carries the count, the verdict and the hash of everything before it |
| Layouts.PackHeaderLayout | crates/replay-frames/src/rfp.rs:104-120 | Every field of the 60-byte header at its offset |
| Layouts.PackRecordLayout | crates/replay-frames/src/rfp.rs:122-134 | Every field of a record at its offset, then its bytes |
| Layouts.FinishedPackLayout | crates/replay-frames/src/rfp.rs:138-146 | Header, records, and a footer of magic, count, verdict and the hash of both |
| Rfp.ReadRfp | crates/replay-frames/src/rfp.rs:166-247 | The reader returns, for every byte string, a header error or the records up to the damage, complete or torn |
| Rfp.ReadsBack | crates/replay-frames/src/rfp.rs:103-247 | A finished pack reads back its header and records, complete exactly when finished so |
| Rfp.TornNeverResumes | crates/replay-frames/src/rfp.rs:1-6 | Cut anywhere from the end of its header on, a pack reads as torn with its header, unless the end magic stands over the header or at a record start |
| Rfp.CompletePrefixIff | crates/replay-frames/src/rfp.rs:191-246 | A truncation reads as complete if and only if its last 49 bytes are a footer, hash included, marked complete, over the header with count 0 or at the start of record i with count i |
| Rfp.FooterOverHeader | crates/replay-frames/src/rfp.rs:194-198 | A 65-byte file whose footer lies over its header reads as a complete pack of no records |
| RfpTorn.TornIff | crates/replay-frames/src/rfp.rs:164-245 | A file whose header reads and which has no footer gives back, as torn, exactly the records it starts with, up to the first bytes that hold none, and nothing else |
| RfpTorn.FinishedTornIff | crates/replay-frames/src/rfp.rs:191-246 | With a footer after the header: exactly the records before it, or before the damage, when there is damage, the footer is not marked complete or counts other records |
| RfpTorn.TornKeepsPrefix | crates/replay-frames/src/rfp.rs:164-245 | A pack cut anywhere from the end of its header on, without a footer in the cut, gives back every record that lies in it whole, and no other |
| RfpTorn.DamageKeepsRecords | crates/replay-frames/src/rfp.rs:199-231 | Damage after k whole records, a short head, a short record or an unknown compression byte, keeps exactly those k |
| RfpTorn.HeaderErrors | crates/replay-frames/src/rfp.rs:166-189 | Which error a damaged header gives: length, magic, version, pixel format, in that order; any other file reads |
| TornPacks.CutIsFinished | crates/replay-frames/src/rfp.rs:122-146 | For any records, a next one that stores the footer of the pack before it, and anything after it, however the pack was finished: cut 49 bytes into that record it is byte for byte the finished pack of the records before it |
| TornPacks.TornReadsComplete | crates/replay-frames/src/rfp.rs:1-6 | So that truncation, a proper one, reads as complete |
| TornPacks.TornHeaderReadsComplete | crates/replay-frames/src/rfp.rs:1-6 | A pack whose header and first record store the footer of the header's first 20 bytes reads as complete and empty when cut at 69 bytes, for every hash |
| RfpCodec.CompleteIff | crates/replay-frames/src/rfp.rs:166-247 | A file with room for a header and a footer reads as complete with these records if and only if it is the finished pack of them, but for the padding bytes the reader skips |
| RfpCodec.ShortCompleteIff | crates/replay-frames/src/rfp.rs:191-246 | A shorter file reads as complete if and only if its header reads and its last 49 bytes are a complete footer counting no records; it then has none |
| RfpCodec.WrittenWithZeroes | crates/replay-frames/src/rfp.rs:103-146 | The writer's finished pack is that with zero padding |

## Left out

- MockHypervisor.Hypervisor.VerifySegment: takes segments whose icounts are ordered and bounded by the end icount, with an END followed only by records at the end icount and one more epoch of room in 64 bits; on others the program steps backwards, which panics, or past the last word. A segment that breaks this only behind a record where the run stops early is left out with them. Every validated segment with that room satisfies it (`WrittenReplay.ValidatedIsSteppable`).
- MockHypervisor.Hypervisor.Replay: under the same condition, as are the two searches and `bisect`.
- MockHypervisor.Hypervisor.SimTo: asks it only of the records a simulation to the stop meets, as an exact-icount probe does.
- VerifyPath.Verify: takes paths whose nodes all carry a state hash, as the program's own `expect` does (R6 guarantees it), and asks the condition above of every segment, also of those behind the first one named.
- SegmentWriter.WriteSegment: takes specs the program's assertions accept, with fewer than 2^32 records and 4096 icounts of room below 2^64; the overflow panics beyond that are not modelled.
- Reports.FlakeDetection: is about a fresh mock; `Flakes.FlakeDetectionIff` has the condition on any mock.
- Rfp.TornNeverResumes: goes one way, from the absence of the end magic; `Rfp.CompletePrefixIff` is the exact condition, hash included.
- Corrupt.StripEndRecord: works on a byte sequence; truncation of the vector in place is not modelled. The other two helpers edit an array in place.
- Container.Write: grows a byte sequence; vector capacity and the in-place header stores are not modelled.
- Rfp.RfpWriter.Push: appends to a byte sequence held in a field, as the program appends to its vector.
- Record iteration: the replay loops index the framed records of a segment; that framing is the one `Dhilog.RecordIter.Next` yields call by call. A segment with a framing error keeps its leading records and a torn mark.
- The writer's `sort_by_key` is an insertion sort on the same key, which is unique; order of equal keys does not arise.
- Diagnostics keep the icount and the two registers; boundary rips, page indices and the cause text are fixed functions of the icount. The report keeps page indices where it carries them alone.
- Report identity, hex strings, versions, repro command, JSON schema and error detail strings.
- Events are returned in a list instead of a callback; tracing is absent.
- The run counter of the mock is unbounded; the quotient folded for a flake wraps at 2^64.
- `usize` overflow branches of the container reader are merged with the bound checks that follow them: on unbounded integers both give the same error.
- Container metadata: printing and parsing are arbitrary functions; the producer string is an arbitrary constant. Canonical containers require metadata that parses back from its print.
- R1's mixed-version branch is kept and unreachable: one version is supported.
- `set_version`, `set_machine_config_hash`, `set_clock`, `set_base_snapshot_id`, `set_end_state_hash`, `clear_sealed_flag`, `flip_body_byte`: single-field overwrites.
- `decode_pad_set`, `decode_frame_mark`: payload decoders nothing here consumes.
- LZ4, PNG and pixel conversion, overlays, stills, the encoding session, gRPC adapters, agents and daemons.
- BLAKE3 itself.
