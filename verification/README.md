# Verified model of the SOA gateway's safety core

The gateway connects an autonomous-driving computer to a safety supervisor on a second
core. This project models the parts of it that carry state across calls, cores or threads,
and proves what holds of them for all inputs, runs and interleavings:

- **End-to-end protection and cross-core ring** (`ShiftRegister`, `Crc`, `ErrorDetection`,
  `IpcSlot`, `BoundaryMap`, `SlotBursts`, `SpscRing`, `IpcBridge`, `IpcProtocol`). A checksum
  over a 148-byte slot, a wrapping counter, and a ring of 32 slots shared with a consumer on
  the other core.
- **Rate limiter** (`TokenBuckets`, `RateLimiter`, `TokenRace`). Per-source token buckets.
- **Safety arbitrator** (`DegradationMatrix`, `ArbitratorState`, `ArbitrationCycle`,
  `LiveDomains`, `DomainRace`, `LogRace`, `SafetyArbitrator`, `Bytes`, `CommandCodec`,
  `CommandStream`).
  Time-outs, degradation matrix, transition log, and the commands that reach the other core.
- **Event queue** (`SoaServiceManager`, `EventDispatch`), **liveness table**
  (`DeadSubscriberMonitor`, `SubscriberLiveness`), **authorisation and audit ring** (`IamSecurityController`,
  `AuditRace`).

Code that updates fields or arrays in place is a class whose methods are proved against
functions on values; the theorems over whole runs are about those functions. Code that two
sides run at once is also given as a machine whose steps are single memory accesses, and the
theorems quantify over every sequence of steps. Each main operation also has laws that
name none of its specification functions but the fields, bytes, times and limits as numbers. Clock readings, the calls made by callbacks
and what handlers publish are inputs. Handlers and callbacks are known by a number.

## Findings

The model follows the code. Where that differs from what comments or documents say, or where
a natural property fails, the exact condition is proved.

- The shift register moves right but feeds back `0x8005` (src/IpcBridge.cpp:33), where the
  CRC-16/ARC named in the comments feeds back `0xA001`; the two differ already on one byte
  (`DiffersFromArc`). The detection results hold for every constant with bit 15 set (bursts)
  and an odd number of ones (odd errors), and `0x8005` is such a constant. With it any two
  valid slots differ in at least four bits.
- In memory the checksum field lies in front of the bytes it protects. Bursts of up to 16 bits
  inside the field or inside the protected bytes are always noticed; across the boundary
  exactly seven error patterns pass the checksum (`BurstPassesExactly`), the shortest 13 bits
  long (`BoundaryBurstOf13`). All seven change the counter, so no burst of up to 16 bits is
  accepted under the expected counter (`BurstNeverAccepted`). Of the bursts of exactly 17 bits
  in checksum order one pattern passes (`Burst17Exact`), in the payload of every valid slot
  (`PayloadBurstOf17`).
- Zeroed memory passes the check with counter 0 (`ZeroedSlotPasses`).
- For whole calls "20 burst, 5 per ms" holds from the allocation of a source's first bucket on
  (`AdmissionBound`). Seen from a later moment it does not: 39 packets can pass in one instant
  (`WindowBoundFails`). It holds on every continuation exactly when tokens plus outstanding
  refill do not exceed 20 (`WindowBoundExact`).
- A bucket is active before its stamp is stored, and the refill task runs on another core. If it
  has read the old stamp by then, 40 packets pass at once (`FortyAtOnce`). From allocation on
  the rate holds exactly when what the refiller has under way is covered by the time since the
  new stamp (`RateExactly`); for a refiller that read the clock before, when it is at rest, or
  done with the same stamp (`CoveredEarly`).
- `ComputeRequiredState` never returns the emergency stop, so the latch is never reached from
  `Init`; the emergency rows of the documented matrix are not in the code.
- Severity is not monotone in the set of failed domains; `SeverityDropsExactly` says when one
  more failure lowers it. Only the minimal risk region is upward closed.
- Arbitrate takes its masks from what the domains hold after the scan. A report that lands
  between scan and masks can hide a timed-out domain (`DegradedReportHides`): the bit is
  published if and only if no report on the domain came in that gap or the last one said
  failed (`PublishedExactly`, `TimedDetection`).
- IngestFault and RecordHeartbeat are meant to be safe from any thread. A heartbeat that has
  read a zero count stores nominal over a loss reported meanwhile (`HeartbeatUndoesLoss`), and
  a nominal report can clear the count of a loss that overtook it (`NominalReportForgetsLoss`).
  Health and count match throughout if and only if no two calls cross (`MatchedExactly`).
- The other core can hold a command while the arbitrator still reports the state before it:
  the state is stored only after Send has returned (`ReceiverAhead`). The last command received
  shows the current state exactly when no accepted command awaits that store
  (`DrainedStreamIsCurrent`).
- Domain index 7 is scanned but cannot be refreshed, so its fault bit is set for good 100 ms
  after `Init` (`InvalidDomainLost`).
- A failed send still commits the new state and is not repeated: its sequence number is
  missing from the receiver's stream (`MissingExactlyFailed`). Commands are sent before their
  transition time is filled in, so the receiver always reads zero there.
- The fault count is 32 bits wide; when it wraps, a heartbeat clears a failed domain
  (`WrapClears`, `WrapIsReached`). Below 2^32 calls, one after
  another, recovery needs a nominal report.
- The audit ring loses 128 entries at once when a decision is taken while 127 wait, if calls come
  one after another (`AuditFaithfulExactly`). A drain under way can save them
  (`AppendDuringDrain`). Access by access an append is harmless exactly when some slot is no
  longer needed as it starts (`AppendSafeExactly`).
- DrainTransitionLog reads head and count apart. A transition counted in between, or a drain
  within a commit, yields a record of a transition that was never performed
  (`PhantomTransition`); between its two readings of the count the log can be outrun
  (`CountOutrunsLog`). `DrainedExactly` says which drains return the end of the history.
- A request for several actions at once is granted when any single one of them is allowed, so
  permission to read grants a request for all actions (`AnyActionSuffices`, `ReadGrantsAll`).

## Model

| member | source | states |
|---|---|---|
| `Crc.GenerateCrcEntry` | src/IpcBridge.cpp:29-39 | the entry for a byte is the register after eight steps from that byte |
| `Crc.MakeCrcTable` | src/IpcBridge.cpp:41-51 | all 256 entries are such entries |
| `Crc.ComputeE2eCrc` | src/IpcBridge.cpp:99-114 | for every byte string the table loop computes the bit-serial checksum, least significant bit first |
| `Crc.TableUpdate` | src/IpcBridge.cpp:107-111 | one table look-up feeds exactly the eight bits of one byte |
| `Crc.DiffersFromArc` | src/IpcBridge.cpp:29-39 | on a one-byte message the checksum differs from that of feedback constant 0xA001 |
| `ShiftRegister.SerialLinear` | src/IpcBridge.cpp:31-37 | for any constant the register is linear over exclusive or of start value and message |
| `ShiftRegister.TableSplit` | src/IpcBridge.cpp:29-39 | eight steps split into the shifted high half and eight steps of the low half |
| `ErrorDetection.Residue` | src/IpcBridge.cpp:131-135 | message and check field agree if and only if feeding both leaves the register at zero |
| `ErrorDetection.OddErrorsDetected` | src/IpcBridge.cpp:29-39 | constants with an odd number of ones: two codewords never differ in an odd number of bits |
| `ErrorDetection.BurstDetected` | src/IpcBridge.cpp:29-39 | constants with bit 15 set: codewords that differ only within 16 consecutive bits are equal |
| `ErrorDetection.Burst17Exact` | src/IpcBridge.cpp:29-39 | 16 is the limit in checksum order: an error that starts at some bit and ends at most 16 bits on passes if and only if it is the constant behind a one |
| `ErrorDetection.NoEarlyReturn` | src/IpcBridge.cpp:33 | with 0x8005 the register started at one does not return to one within 1183 steps |
| `ErrorDetection.MinimumDistance` | src/IpcBridge.cpp:99-142 | with 0x8005 different codewords of up to 1184 bits differ in at least four bits |
| `IpcSlot.ImageRoundTrip` | include/IpcBridge.hpp:46-72 | the 148-byte memory image determines every field of the slot |
| `IpcSlot.FrameVerifies` | src/IpcBridge.cpp:148-167 | a stamped slot passes with its own counter, gives a sequence error with any other, and carries the event |
| `IpcSlot.FrameLayout` | include/IpcBridge.hpp:46-72 | every byte of a framed slot behind the checksum field by its offset: counter, constants, ids and session lowest byte first, payload, zeros |
| `IpcSlot.PassesIsCodeword` | src/IpcBridge.cpp:120-135 | the checksum part of the check passes if and only if the 1184 bits of the slot are a codeword |
| `SlotBursts.BurstMismatch` | src/IpcBridge.cpp:120-142 | errors of a valid slot in memory order, confined to 16 consecutive bits inside the field or inside bytes 2 to 147, are a checksum mismatch |
| `SlotBursts.ProtectedBurstMismatch` | src/IpcBridge.cpp:120-142 | two slots with the same field whose bytes 2 to 147 differ within 16 consecutive bits are not both valid |
| `SlotBursts.BurstPassesExactly` | include/IpcBridge.hpp:46-72 | wherever a burst of up to 16 bits lies in the slot, it passes the checksum if and only if it is one of seven patterns across bytes 1 and 2 |
| `SlotBursts.BurstNeverAccepted` | src/IpcBridge.cpp:120-142 | no burst of up to 16 bits anywhere in a valid slot is accepted under the slot's own counter |
| `SlotBursts.BoundaryBurstOf13` | include/IpcBridge.hpp:46-72 | in every valid slot 13 consecutive bits can be turned over so that it is valid under another counter |
| `SlotBursts.PayloadBurstOf17` | src/IpcBridge.cpp:120-142 | in every valid slot, from every payload byte on, 17 bits can be turned over unnoticed |
| `BoundaryMap.CarriedIsUnseen` | src/IpcBridge.cpp:107-111 | the words that 1168 register steps carry from below a bit of the header to that bit and above in the field are exactly the seven listed |
| `IpcSlot.OddFlipsMismatch` | src/IpcBridge.cpp:120-142 | any odd number of flipped bits, check field included, is a checksum mismatch |
| `IpcSlot.FewFlipsMismatch` | src/IpcBridge.cpp:120-142 | one, two or three flipped bits anywhere in a valid slot are a checksum mismatch |
| `IpcSlot.ZeroedSlotPasses` | src/IpcBridge.cpp:76-80 | a slot of zeroed memory passes with counter 0 |
| `IpcBridge.Bridge.Init` | src/IpcBridge.cpp:64-93 | null and repeated initialisation refused without effect; otherwise an empty zeroed ring behind the magic |
| `IpcBridge.Bridge.VerifyE2e` | src/IpcBridge.cpp:120-142 | checksum verdict before counter verdict |
| `IpcBridge.Bridge.ApplyE2eHeader` | src/IpcBridge.cpp:148-167 | stamps one slot, leaves the others, counts modulo 256 |
| `IpcBridge.Bridge.Send` | src/IpcBridge.cpp:173-237 | each error exactly when its condition holds and without effect; success appends the event to what the ring holds, framed with counter k mod 256 |
| `IpcBridge.FilledAndStamped` | src/IpcBridge.cpp:208-224 | whatever a slot held before, filling and stamping it gives the frame of the event |
| `IpcBridge.SharedRing.Take` | include/IpcBridge.hpp:79-85 | the consumer gets the oldest untaken frame, or nothing exactly when none is left |
| `SpscRing.WriteKeepsUnread` | src/IpcBridge.cpp:209-224 | torn writes to the slot being filled leave every unread slot untouched |
| `SpscRing.RingSafety` | src/IpcBridge.cpp:184-231 | every interleaving: deliveries are a prefix of what was published, at most n - 1 pending, each intact |
| `SpscRing.Verdicts` | src/IpcBridge.cpp:193-206 | a send is refused exactly when n - 1 items are unread as tail is read; the consumer turns away exactly when none is as head is read |
| `SpscRing.SendDecided` | src/IpcBridge.cpp:193-236 | whatever the consumer does in between, one send ends ready, refused if and only if n - 1 items are unread as tail is read, and published otherwise |
| `SpscRing.SendCompletes` | src/IpcBridge.cpp:193-236 | a send that nobody interrupts is refused with n - 1 unread and otherwise publishes exactly its item |
| `SpscRing.TakeCompletes` | include/IpcBridge.hpp:79-85 | a take that nobody interrupts delivers the oldest unread item |
| `IpcProtocol.DeliveredInOrder` | src/IpcBridge.cpp:173-237 | every interleaving: the k-th slot taken passes the check with counter k mod 256 and carries the k-th accepted event |
| `IpcProtocol.OwnCounterOnly` | src/IpcBridge.cpp:120-142 | every interleaving: for any other byte than k mod 256 the check of the k-th slot taken gives a sequence error |
| `TokenBuckets.ApplyValid` | src/RateLimiter.cpp:69-220 | every operation keeps tokens in range, keys unique, and refills since the last packet in the bucket |
| `TokenBuckets.EvictRoom` | src/RateLimiter.cpp:194-220 | eviction and re-allocation give a source nothing it would not have had by waiting |
| `TokenBuckets.WindowBound` | src/RateLimiter.cpp:69-220 | from any state on, across evictions, passes are at most the room at the start plus five per millisecond |
| `TokenBuckets.AdmissionBound` | src/RateLimiter.cpp:69-220 | from Init on, for every run of whole calls: passes by time t are at most 20 + 5 * (t - allocation of the first bucket), and none without a bucket |
| `TokenBuckets.WindowBoundExact` | src/RateLimiter.cpp:102-171 | 20 + 5 per millisecond holds on every continuation if and only if tokens plus outstanding refill are at most 20 |
| `TokenBuckets.WindowBoundFails` | src/RateLimiter.cpp:102-171 | a run from Init after which 39 packets of one source pass in one instant |
| `TokenBuckets.RefillGuarantees` | src/RateLimiter.cpp:102-133 | after a refill at least five packets per millisecond since the previous one pass in one instant, up to 20 |
| `TokenBuckets.LifetimeBalance` | src/RateLimiter.cpp:102-171 | within one life of a bucket, passes plus tokens left are at most the first tokens plus 5 per millisecond between the refill stamps |
| `TokenBuckets.RefillSchedule` | src/RateLimiter.cpp:102-133 | any schedule of refills without packets ends like one refill at the last instant |
| `TokenBuckets.EvictExactly` | src/RateLimiter.cpp:194-220 | a tracked source is gone after an eviction if and only if it was last seen more than 5000 ms before; every other bucket is unchanged |
| `TokenBuckets.AdmitExactly` | src/RateLimiter.cpp:139-171 | admitted if and only if the source has a bucket with a token, or has none and some bucket is free; refused for the table only if it has none and all are taken |
| `TokenBuckets.EvictionMakesRoom` | src/RateLimiter.cpp:204-216 | with some source silent for over 5000 ms, a new source is admitted after the eviction |
| `TokenBuckets.SeenSourceStays` | src/RateLimiter.cpp:152-216 | a source seen at most 5000 ms ago, admitted or turned away, keeps its bucket |
| `TokenBuckets.LifetimeCounts` | src/RateLimiter.cpp:157-168 | within one life of a bucket its counters count the packets admitted and those turned away |
| `RateLimiter.Limiter.Init` | src/RateLimiter.cpp:41-63 | 32 free full buckets, once |
| `RateLimiter.Limiter.FindOrAllocate` | src/RateLimiter.cpp:69-96 | first active bucket of the source, else first free one opened full, else the table-full index |
| `RateLimiter.Limiter.RefillBucket` | src/RateLimiter.cpp:102-133 | the bucket becomes the ideal one, min(20, tokens + 5 * elapsed): the 1000 ms clamp never shows |
| `RateLimiter.Limiter.Admit` | src/RateLimiter.cpp:139-171 | verdict and new table, other sources untouched |
| `RateLimiter.Limiter.RefillAll` | src/RateLimiter.cpp:177-188 | exactly the active buckets are refilled |
| `RateLimiter.Limiter.EvictIdle` | src/RateLimiter.cpp:194-220 | exactly the buckets idle for over 5000 ms are freed |
| `TokenRace.TokenSafety` | src/RateLimiter.cpp:118-132 | every interleaving of swaps, wherever the refiller stands at allocation: tokens in 0..20, 20 + added - taken = tokens, pass counter behind by the threads in flight |
| `TokenRace.RateExactly` | src/RateLimiter.cpp:74-133 | packets stay within 20 + 5 per millisecond since allocation on every interleaving if and only if the refiller's work under way then is covered by the time since the new stamp |
| `TokenRace.CoveredEarly` | src/RateLimiter.cpp:102-110 | a refiller whose clock reading is not after the allocation is covered if and only if it is at rest or done with the same stamp |
| `TokenRace.FortyAtOnce` | src/RateLimiter.cpp:78-88 | a refill that has read the old stamp when the new one is stored lets 40 packets pass in one millisecond |
| `DegradationMatrix.HealthMaskExact` | src/SafetyArbitrator.cpp:306-321 | bit i of a mask is set if and only if domain i has that health |
| `DegradationMatrix.MasksDisjoint` | src/SafetyArbitrator.cpp:306-321 | fault mask and active mask have no bit in common |
| `DegradationMatrix.RequiredIsMatrix` | src/SafetyArbitrator.cpp:331-390 | the decision on bitmasks equals a declarative matrix over health and fault counts |
| `DegradationMatrix.NeverEmergencyStop` | src/SafetyArbitrator.cpp:331-390 | the decision is never the emergency stop; full operation means no matrix sensor failed |
| `DegradationMatrix.MrcUpwardClosed` | src/SafetyArbitrator.cpp:331-365 | more failed domains and higher counts never leave the minimal risk condition |
| `DegradationMatrix.SeverityDropsExactly` | src/SafetyArbitrator.cpp:367-386 | one more failed domain lowers severity if and only if a stated condition on the failed set holds |
| `DegradationMatrix.SeverityDropExample` | src/SafetyArbitrator.cpp:367-378 | camera alone: 30 km/h state; lidar and camera: 100 km/h state |
| `ArbitratorState.MatrixInForce` | src/SafetyArbitrator.cpp:594-625 | after every Arbitrate: the matrix in force, masks exact and disjoint, full operation only with live matrix sensors |
| `ArbitratorState.NeverLatched` | src/SafetyArbitrator.cpp:618-621 | no run from a state other than the emergency stop reaches it |
| `LiveDomains.ScanExactly` | src/SafetyArbitrator.cpp:285-296 | a domain that had not failed fails and counts one fault if and only if it is over 100 ms old, and is left alone otherwise |
| `LiveDomains.StateExactly` | src/SafetyArbitrator.cpp:331-390 | the state after an Arbitrate by failed domains and counts, one condition per state |
| `LiveDomains.LiveDomainActive` | src/SafetyArbitrator.cpp:158-321 | every run: a domain with nothing counted whose signs of life are never over 100 ms old at a scan is in the active mask and not in the fault mask |
| `LiveDomains.LiveFromInit` | src/SafetyArbitrator.cpp:158-321 | from Init: so is every domain from its first heartbeat or nominal report on |
| `LiveDomains.AllLiveIsFull` | src/SafetyArbitrator.cpp:331-390 | in every run from Init: while all seven sensors keep giving signs of life the state after each Arbitrate is full operation, whichever are mandatory |
| `LiveDomains.SilentFromInit` | src/SafetyArbitrator.cpp:108-118 | from Init: a domain nothing is heard of is never active, and failed if and only if some scan came over 100 ms after Init |
| `LiveDomains.StateLimits` | src/SafetyArbitrator.cpp:500-533 | the bit patterns as numbers: 130, 100, 30 or 20 km/h, and the deceleration of each state |
| `LiveDomains.TriggerFrom` | src/SafetyArbitrator.cpp:536-545 | the trigger is the failed domain with the lowest number |
| `LiveDomains.TransitionRecorded` | src/SafetyArbitrator.cpp:549-588 | a transition is the newest drained record: states, trigger, times; the last command carries its masks |
| `LiveDomains.TimeoutExactly` | src/SafetyArbitrator.cpp:549-588 | a change of state whose send took over 50 ms, and nothing else, is reported as a time-out |
| `ArbitrationCycle.UndisturbedPass` | src/SafetyArbitrator.cpp:594-625 | scan, masks and decision with nothing in between are one Arbitrate |
| `ArbitrationCycle.PublishedExactly` | src/SafetyArbitrator.cpp:600-606 | every run of scans, masks, decisions and reports in between: a domain timed out at the scan is published if and only if no report on it came before the masks or the last one said failed |
| `ArbitrationCycle.TimedDetection` | src/SafetyArbitrator.cpp:275-300 | calls at most a period apart: from t + 100 + period on, at every moment of a timed run, the bit of a domain silent since t is published under exactly that condition, and then a matrix sensor rules out full operation |
| `ArbitrationCycle.DegradedReportHides` | src/SafetyArbitrator.cpp:600-603 | a degraded report behind the scan leaves a silent domain unpublished |
| `ArbitratorState.InvalidDomainLost` | src/SafetyArbitrator.cpp:164-166 | domain 7 is in the fault mask after every Arbitrate later than 100 ms after Init |
| `ArbitratorState.HealthMatchesCount` | src/SafetyArbitrator.cpp:158-212 | states reached by whole calls one after another: nominal means count 0, failed means at least 1 |
| `ArbitratorState.RecoveryNeedsReport` | src/SafetyArbitrator.cpp:158-212 | whole calls one after another: no heartbeats, arbitrations and non-nominal reports make a failed domain active again |
| `DomainRace.CallsAlone` | src/SafetyArbitrator.cpp:158-300 | the accesses of one uninterrupted call are the call |
| `DomainRace.MatchedExactly` | src/SafetyArbitrator.cpp:155-212 | every interleaving of accesses: health and count match throughout if and only if no two calls cross |
| `DomainRace.DisjointNeverCross` | src/SafetyArbitrator.cpp:155-212 | calls whose windows do not overlap never cross |
| `DomainRace.OverlapCanCross` | src/SafetyArbitrator.cpp:155-212 | once a call overlaps with a report of failure, the calls under way can complete so that they cross |
| `DomainRace.RestsAsWholeCalls` | src/SafetyArbitrator.cpp:155-212 | from Init a run without crossings is, whenever no call is under way, as after whole calls |
| `DomainRace.HeartbeatUndoesLoss` | src/SafetyArbitrator.cpp:203-209 | a heartbeat around or inside a loss report leaves the domain nominal with one loss counted |
| `DomainRace.NominalReportForgetsLoss` | src/SafetyArbitrator.cpp:169-182 | a nominal report overtaken by a loss leaves the domain failed with nothing counted |
| `DomainRace.RecoveryExactly` | src/SafetyArbitrator.cpp:191-212 | a lost domain stays lost on every interleaving without a nominal report if and only if a loss is counted and no heartbeat that read zero is still to store |
| `ArbitratorState.WrapClears` | src/SafetyArbitrator.cpp:181 | one more fault and a heartbeat clear a domain if and only if the 32-bit count wraps |
| `ArbitratorState.WrapIsReached` | src/SafetyArbitrator.cpp:181 | a run from Init that reaches the wrap and clears a domain reported lost 2^32 times |
| `ArbitratorState.DrainIsEndOfHistory` | src/SafetyArbitrator.cpp:396-414 | whole calls: the drained log is the end of the full history newest first; the history is a numbered chain to the current state |
| `LogRace.DrainedExactly` | src/SafetyArbitrator.cpp:702-725 | every interleaving of commits with a drain that no overwriting has reached: it returns the end of the history if and only if it returns no more records than were logged as it read head; further records are blank |
| `LogRace.SteadyCount` | src/SafetyArbitrator.cpp:708-715 | with an unmoved count the drain returns as many records as count, log and buffer allow |
| `LogRace.PhantomTransition` | src/SafetyArbitrator.cpp:708-725 | a first transition between the two reads, or around the drain: a transition that was never performed is returned |
| `LogRace.CountOutrunsLog` | src/SafetyArbitrator.cpp:709-713 | the 33rd transition between the two readings of the count: 33 records are returned from a log of 32 |
| `LogRace.OvertakenDrain` | src/SafetyArbitrator.cpp:718-722 | a commit before the 32nd record is copied: the newest transition is returned as the oldest |
| `SafetyArbitrator.Arbiter.Init` | src/SafetyArbitrator.cpp:85-133 | initial state, refused when repeated or without bridge |
| `SafetyArbitrator.Arbiter.IngestFault` | src/SafetyArbitrator.cpp:158-185 | raw health byte stored; nominal clears the count and refreshes, anything else counts |
| `SafetyArbitrator.Arbiter.RecordHeartbeat` | src/SafetyArbitrator.cpp:191-212 | refreshes; nominal only at count 0 |
| `SafetyArbitrator.Arbiter.IngestSoaEvent` | src/SafetyArbitrator.cpp:224-253 | decodes domain, health and code; short payloads refused |
| `SafetyArbitrator.Arbiter.ScanTimeouts` | src/SafetyArbitrator.cpp:275-300 | exactly the domains silent for over 100 ms become failed and count one fault on the way |
| `SafetyArbitrator.Arbiter.UpdateBitmasks` | src/SafetyArbitrator.cpp:306-321 | both masks from the health of the domains |
| `SafetyArbitrator.Arbiter.ComputeRequiredState` | src/SafetyArbitrator.cpp:331-390 | the loop with early return computes the decision function |
| `SafetyArbitrator.Arbiter.LogTransition` | src/SafetyArbitrator.cpp:396-414 | one entry at the head, head moved on modulo 32 |
| `SafetyArbitrator.Arbiter.SendCommandToM7` | src/SafetyArbitrator.cpp:432-474 | accepted exactly when the bridge has room; then the encoded command is the newest sent event |
| `SafetyArbitrator.Arbiter.ExecuteTransition` | src/SafetyArbitrator.cpp:481-588 | the new state whatever the send did; late, failed and good results told apart |
| `SafetyArbitrator.Arbiter.Arbitrate` | src/SafetyArbitrator.cpp:594-625 | scan, masks, decision, latch and transition; at most one command, sent exactly on a transition with room |
| `SafetyArbitrator.Arbiter.DrainTransitionLog` | src/SafetyArbitrator.cpp:702-725 | fills the buffer newest first and touches nothing else |
| `CommandCodec.CodecRoundTrip` | src/SafetyArbitrator.cpp:432-474 | decoding the 24-byte payload gives the command back |
| `Bytes.WordRoundTrip` | src/SafetyArbitrator.cpp:446-471 | a 32-bit number encoded and read again is itself |
| `Bytes.WordDigits` | src/SafetyArbitrator.cpp:446-471 | byte i of an encoded number, as a number, is its i-th digit to the base 256 from the lowest |
| `Bytes.ReadDigits` | src/SafetyArbitrator.cpp:239-243 | reading weighs the four bytes with 1, 256, 65536 and 16777216 |
| `CommandCodec.CommandOnTheWire` | src/SafetyArbitrator.cpp:432-474 | the 148 bytes of a command: magic 01 00 FE 5A at 20, state number, masks, then limits, time and number, each lowest byte first |
| `CommandCodec.ReportTakesEffect` | src/SafetyArbitrator.cpp:224-253 | byte 0 is the domain that changes, byte 1 its health, bytes 4 to 7 its fault code, lowest first; domains from 7 on are refused without effect |
| `CommandStream.StreamIsSubsequence` | src/SafetyArbitrator.cpp:481-588 | every interleaving: the k-th slot received decodes to the k-th transition whose send succeeded, among those performed and the one that awaits its commit |
| `CommandStream.StreamOnTheWire` | src/SafetyArbitrator.cpp:432-588 | every interleaving: the k-th slot received holds, byte by byte, the counter k mod 256 and the k-th accepted command |
| `CommandStream.MissingExactlyFailed` | src/SafetyArbitrator.cpp:488-496 | numbers increase strictly and one is missing if and only if its send failed |
| `CommandStream.DrainedStreamIsCurrent` | src/SafetyArbitrator.cpp:549-560 | latest send succeeded and ring drained: the last decoded state is the current state if and only if no accepted command awaits its commit |
| `CommandStream.ReceiverAhead` | src/SafetyArbitrator.cpp:549-560 | whenever the ring is drained and a transition is due, the receiver can hold the new command before the state is stored |
| `CommandStream.ReceiverAheadFromInit` | src/SafetyArbitrator.cpp:549-560 | a run from Init that ends in that window |
| `SoaServiceManager.Manager.Subscribe` | src/SoaServiceManager.cpp:117-137 | appends to the table or reports the exact reason not to |
| `SoaServiceManager.Manager.PublishEvent` | src/SoaServiceManager.cpp:139-153 | accepted unless 63 events wait |
| `SoaServiceManager.Manager.ProcessEvents` | src/SoaServiceManager.cpp:155-178 | ends with an empty queue even when handlers publish, having dispatched old and new events in publish order |
| `SoaServiceManager.Manager.DispatchOne` | src/SoaServiceManager.cpp:166-173 | the event under the reference is not overwritten while its handlers publish |
| `SoaServiceManager.FanOutExact` | src/SoaServiceManager.cpp:167-173 | each matching subscriber exactly once, nobody else, in subscription order |
| `SoaServiceManager.SeenBy` | src/SoaServiceManager.cpp:167-173 | a handler is called with an event if and only if service and event are those it subscribed to |
| `EventDispatch.ReferenceStable` | src/SoaServiceManager.cpp:166 | every interleaving: the slot under the reference holds the oldest unreleased event |
| `EventDispatch.ExactlyOnceInOrder` | src/SoaServiceManager.cpp:139-178 | every interleaving: each released event went once, in order, to the matching subscribers of its call's snapshot |
| `DeadSubscriberMonitor.EffectValid` | src/DeadSubscriberMonitor.cpp:83-139 | every call keeps active keys unique |
| `DeadSubscriberMonitor.Monitor.RegisterSubscriber` | src/DeadSubscriberMonitor.cpp:83-116 | first free slot, or the exact reason not to |
| `DeadSubscriberMonitor.Monitor.RecordHeartbeat` | src/DeadSubscriberMonitor.cpp:122-139 | refreshes exactly the entry with the key |
| `DeadSubscriberMonitor.Monitor.DeregisterSubscriber` | src/DeadSubscriberMonitor.cpp:207-225 | frees exactly the entry with the key |
| `DeadSubscriberMonitor.Monitor.ScanAndEvict` | src/DeadSubscriberMonitor.cpp:145-201 | with re-entrant callbacks: table and evictions of the scan function; evicts only entries stale since the start, one callback each, keys unique, nothing stale left; without callbacks evicts exactly the stale ones |
| `DeadSubscriberMonitor.Monitor.GetStats` | src/DeadSubscriberMonitor.cpp:231-252 | alive and warning entries counted; the dead count is always zero |
| `SubscriberLiveness.BeatingStays` | src/DeadSubscriberMonitor.cpp:83-225 | every run of calls and scans with re-entrant callbacks: a subscriber whose newest heartbeat is at most 2000 ms old at each scan is in no eviction and keeps slot and callback; with 500 ms it stays alive |
| `SubscriberLiveness.RegisteredStays` | src/DeadSubscriberMonitor.cpp:83-201 | the same at every point of a run that begins with its registration |
| `SubscriberLiveness.HeartbeatRestores` | src/DeadSubscriberMonitor.cpp:122-139 | a heartbeat takes back a warning, and beats within 500 ms keep it away |
| `SubscriberLiveness.ScanDecides` | src/DeadSubscriberMonitor.cpp:153-198 | a subscriber the callbacks leave alone is evicted, with the entry as it stood, if and only if its last beat is over 2000 ms old, and then gone; shown as warning over 500 ms; else unchanged |
| `SubscriberLiveness.RegisterExactly` | src/DeadSubscriberMonitor.cpp:83-116 | the condition of each answer on the entries, and the entry a registration stores |
| `SubscriberLiveness.DeregisterFrees` | src/DeadSubscriberMonitor.cpp:207-225 | afterwards a heartbeat for the key is not found, and registering it again succeeds |
| `SubscriberLiveness.CountIsNumber` | src/DeadSubscriberMonitor.cpp:231-252 | the counts of the statistics are numbers of active entries by health |
| `IamSecurityController.FirstMatchDecides` | src/IamSecurityController.cpp:108-132 | the first matching policy alone decides; no match denies |
| `IamSecurityController.AnyActionSuffices` | include/IamSecurityController.hpp:41-58 | a request for several actions is granted if and only if the request for some single one of them would be |
| `IamSecurityController.ReadGrantsAll` | include/IamSecurityController.hpp:41-58 | a policy that allows reading alone grants a request for all actions |
| `IamSecurityController.GrantedExactly` | src/IamSecurityController.cpp:108-132 | granted if and only if the first policy with the principal, the service and the method or 0xFFFF shares a bit with the actions asked for |
| `IamSecurityController.ReadOnlyDenies` | include/IamSecurityController.hpp:41-58 | a read-only policy in front denies writing, executing and administration |
| `IamSecurityController.StrangerDenied` | src/IamSecurityController.cpp:127-132 | without a policy for principal and service everything is denied |
| `IamSecurityController.WindowAppend` | src/IamSecurityController.cpp:80-98 | the unchecked ring is a queue that empties itself at 128 |
| `IamSecurityController.Controller.AppendAuditEntry` | src/IamSecurityController.cpp:80-98 | the method has that effect on the visible entries |
| `IamSecurityController.Controller.Authorise` | src/IamSecurityController.cpp:100-132 | decision of the first matching policy, recorded as made |
| `IamSecurityController.Controller.DrainAuditLog` | src/IamSecurityController.cpp:134-155 | copies the oldest visible entries and removes exactly those |
| `IamSecurityController.AuditFaithfulExactly` | src/IamSecurityController.cpp:80-155 | whole calls: drains plus visible entries are the whole history if and only if no decision found 127 waiting; the visible count is the true one modulo 128 |
| `AuditRace.DrainedIntact` | src/IamSecurityController.cpp:80-155 | every interleaving of appends and drains: while no append starts with all slots needed, drained entries are an intact prefix of the recorded ones |
| `AuditRace.AppendSafeExactly` | src/IamSecurityController.cpp:85-97 | an append keeps that so on every continuation if and only if a slot is free as it starts |
| `AuditRace.AppendDuringDrain` | src/IamSecurityController.cpp:140-152 | with 127 waiting, an append between a drain's read of head and its copy loses nothing, while the same append before the drain makes the ring look empty |

## Left out

- Weak memory: the machines are sequentially consistent; the fences around head and tail are taken to provide that.
- The consumer on the other core is not in the repository; it is modelled from the shared structure and takes slots oldest first.
- Two producers at once on one ring, that is a handler publishing while another thread also publishes, or two decisions recorded at once: the code assumes a single producer.
- Concurrent first packets of one source, and eviction racing admission: the code assumes a single admission path, so these calls are atomic.
- Sensor reports inside Arbitrate: module `ArbitrationCycle` lets whole reports and heartbeats fall between its parts and `DomainRace` interleaves single accesses of one record; elsewhere scan and masks are one step.
- The stores after the send (state, last command, count, log entry): one step, behind the window in which the command is already out.
- Clock failure, which the code maps to time 0, and clocks that run backwards: run theorems take readings that do not decrease where the order matters.
- Null data for the checksum and 16-bit length truncation: the data is a sequence of any length.
- Listeners of the arbitrator and their registration: they are called after the commit and cannot change it.
- ScanAndEvict called again from inside a callback, and heartbeats from other threads during a scan: callbacks may register, deregister and record heartbeats.
- Arithmetic on speeds and decelerations: each is the 32-bit pattern of its single-precision constant, which `StateLimits` reads as a number.
- Weak compare-and-swap that fails for ever: spurious failures are steps, termination of the retry loops is not claimed.
- Service registration, offer and stop states, roles, physical-envelope validators and plain getters: each is settled by reading one branch.
- HseAdapter, NetworkAdapter and DdsQosPolicy: hardware registers, an abstract interface and a table look-up.
