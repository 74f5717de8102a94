# usbtrace: a verified model

usbtrace watches USB traffic on a Linux machine through kernel probes and turns it into diagnoses, video-frame
health, HID report rates and URB latencies. This project models the parts of it that carry state and decide
something, and proves what those decisions mean.

**Diag rule engine** (`src/modules/diag/engine.c`, `src/modules/diag/diag.c`)

| file | content |
|---|---|
| `DiagTypes.dfy` | events, conditions, rules, findings, the per-event tests |
| `DiagQuery.dfy` | the lookback query as a specification, one-sided truncation, clusters as connected components |
| `DiagConditions.dfy` | the clauses of a condition in plain arithmetic: comparisons, lookback, count, span |
| `DiagDevice.dfy` | one device window as a value: recording an event, event rules, deadline rules, ticks |
| `DiagWindow.dfy` | class `Window`: the 1024-entry ring and the per-rule state, updated in place |
| `DiagSlots.dfy` | the 128-slot table as a value; refinement of an unbounded map, non-interference |
| `DiagEngine.dfy` | class `Engine`: ingest and tick over 128 windows, proved to step that table |
| `DiagTrace.dfy` | what a device's reports are in terms of the raw input trace: episodes, deadlines, cooldowns |
| `DiagRun.dfy` | the poll loop, and the detection latency it guarantees |
| `Template.dfy` | the template expander of the findings |

**Video** (`src/modules/uvc/uvc.bpf.c`, `src/modules/uvc/uvc.c`)

| file | content |
|---|---|
| `UvcFrames.dfy` | packet decoding and the per-packet step of the frame assembler |
| `UvcHeader.dfy` | the payload header layout and the parser as its inverse |
| `UvcCut.dfy` | the segmentation of a packet sequence into frames: declarative, unique, refined, conserving |
| `UvcCharge.dfy` | which frame each packet's status is charged to: declarative and unique |
| `UvcErrored.dfy` | `errored` and `err_packets` against their documentation |
| `UvcTiming.dfy` | frame times, telescoping intervals, class `FrameStats` |
| `UvcAssembler.dfy` | classes `Stream` and `Assembler`: one URB at a time over a bounded table of streams, and whole runs |
| `UvcSummary.dfy` | bytes conserved from the packets of all streams to the summary |
| `UvcDrops.dfy` | drop causes tagged at decode and taken at completion |
| `UvcVb2.dfy` | buffer sequence numbers and gaps |

**Other cores**: `JsonEscape.dfy` (`src/usbtrace_cli.c`), `HidRate.dfy` and `HidWindows.dfy` (`src/modules/hid/hid.c`),
`UrbPairing.dfy` (`src/modules/urb/urb.bpf.c`). `Base.dfy` holds machine integers and small helpers.

## How the model is built

State that the program changes in place is a class with those fields. Each method's contract gives the new
state as a function of the old one, and what matters about that function is proved as lemmas. For the engine
there are three layers: `Engine` methods step `DiagSlots.Slots`; `Slots` refines, device by device,
`DiagSlots.StepDevice`; and a run of `StepDevice` is characterised in `DiagTrace` by quantities read off the
input trace alone. Histories are kept newest event first, so the ring's content is the beginning of the full
history.

Inputs that come from outside are parameters: which events arrive, what the clock shows each time it is read
(an event carries one reading per rule, because the engine reads the clock when a rule is about to fire),
how each poll ends, what the probes read from kernel memory. Times are `u64` with the program's wrap-around
subtraction (`Sub64`), millisecond settings are any integer and are scaled modulo 2^64, 32-bit counters and
intervals wrap. Where a property needs times in order, that is a premise with a name (`Ordered`,
`SteadyClock`, `DeliveredWithin`, `Forward`, `Steady`). Counters that the program keeps in `unsigned long` or
`uint64_t` are unbounded.

Places where the code and its comments differ, modelled as coded:

- `include/usbtrace/uvc.h:27-29` says a frame is errored when a packet that contributed to it had an error, and
  line 37 that `err_packets` counts those of the packets that carried it. The status of a packet is charged
  before its length and its frame id are looked at (`src/modules/uvc/uvc.bpf.c:564` against `:568` and `:596`):
  a bad packet that reveals a lost end of frame is charged to the frame it closes, and a bad packet without data
  to the frame that is closed next. A frame that is opened and closed by one such packet is charged nothing at
  all. `UvcErrored.HiddenError` and `UvcErrored.BorrowedError` are instances,
  `UvcErrored.FrameErroredIff` the exact condition.
- `include/usbtrace/uvc.h:38` has the duration run to the last payload of the frame. It runs to the packet that
  closes the frame, which after a lost end is the first one of the next. See
  `UvcTiming.DurationAsDocumentedIff` and, for an instance, `UvcTiming.DurationRunsOn`.
- A payload header may carry a source clock reference without a presentation time (eight bytes, section 2.4.3.3
  of USB Video Class 1.5). The parser reads a clock reference only behind a presentation time
  (`src/modules/uvc/uvc.bpf.c:614`). See `UvcHeader.ClockDeliveredIff` and `UvcHeader.LoneClockIsLost`.
- `include/usbtrace/uvc.h:88` describes `seq_gap` as "sequence != last + 1"; a repeated number is not a gap
  (`src/modules/uvc/uvc.bpf.c:114`). See `UvcVb2.SeqGapAsDocumentedIff`.
- `src/modules/diag/engine.c:651` speaks of one report per episode. An idle eviction also ends an episode, and
  a deadline longer than the ten-second retention time can be lost that way. `DiagTrace.SwallowedIffForgottenEarly`
  gives the exact condition and `DiagTrace.LongDeadlineSwallowed` an instance.

## Model

| member | source | states |
|---|---|---|
| `DiagQuery.MatchingSelects` | src/modules/diag/engine.c:194-203 | a condition selects, in order and once each, exactly the events inside its lookback that pass its kind, field and status tests |
| `DiagConditions.OperatorLaws` | src/modules/diag/engine.c:157-165 | `>=` holds from its threshold upwards and no lower, `<=` from it downwards and no higher, both at it alone, where `==` holds and `!=` fails |
| `DiagConditions.NamedFields` | src/modules/diag/engine.c:118-154 | the named fields are told apart: writing one component of an event changes the field of that name and no other; setup fields read -1 without a setup packet, absent ones 0 |
| `DiagConditions.ClausesAreConjunction` | src/modules/diag/engine.c:167-203 | kind, comparisons and statuses are a conjunction: each clause added selects exactly the events that meet it, of those selected before; a trigger ignores statuses |
| `DiagConditions.OneFieldTrigger` | src/modules/diag/engine.c:157-178 | a trigger on one field carries over to larger values for `>=` and to smaller for `<=`, and holds at its threshold and not below it |
| `DiagConditions.EnumerationEvents` | src/modules/diag/engine.c:575-586 | which events the engine itself takes for state transitions, attaches and disconnects, in terms of the fields rules see |
| `DiagConditions.LookbackMeans` | src/modules/diag/engine.c:498-501 | a lookback of w ms selects what the condition without it selects of the last w ms before the reference time, ends included |
| `DiagConditions.NoLookbackMeans` | src/modules/diag/engine.c:498-503 | without one it selects the events up to the reference time that pass its test, and none later |
| `DiagConditions.EvidenceInWindow` | src/modules/diag/engine.c:520-530 | every evidence event of a conjunction whose conditions look back lies in the reported window and passed one of the conditions, inside its own lookback |
| `DiagConditions.OneIsEnough` | src/modules/diag/engine.c:599-612 | a plain condition without a count holds iff one event passes |
| `DiagConditions.CountIsAsked` | src/modules/diag/engine.c:599-612 | a condition with a count holds iff its answer reaches that count |
| `DiagConditions.ClusterGapMeans` | src/modules/diag/engine.c:492-493 | clusters are apart by the milliseconds stated; a setting that is not positive means no clustering |
| `DiagConditions.SpanMeans` | src/modules/diag/engine.c:527-532 | the span test fails iff fewer than two are counted or no two selected events are the stated milliseconds apart |
| `DiagQuery.HeadsSelects` | src/modules/diag/engine.c:513-519 | clustering keeps, in order and once each, exactly the events that open a cluster |
| `DiagQuery.ClustersExactIff` | src/modules/diag/engine.c:513-524 | whatever the arrival order, the clustered count is the number of connected components of the graph joining events at most `cluster_ms` apart if and only if no two joined events have a cluster boundary between them |
| `DiagQuery.ClustersAreComponents` | src/modules/diag/engine.c:513-524 | for events in time order the clustered count is that number |
| `DiagQuery.HeadIsNewestOfComponent` | src/modules/diag/engine.c:513-521 | each component has exactly one cluster head, and it is the newest event of the component |
| `DiagQuery.ClusteredWhenCountsEpisodes` | src/modules/diag/engine.c:485-533 | the answer of a clustering condition whose selected events arrived in time order is the number of components, or zero when the span test fails |
| `DiagQuery.ClusteredWhenExactIff` | src/modules/diag/engine.c:485-533 | for selected events in any order the answer of a condition past its span test is that number exactly when no boundary splits two joined events, and too large exactly when one does |
| `DiagQuery.ClustersNeverUndercount` | src/modules/diag/engine.c:513-524 | whatever the arrival order, clustering never counts fewer episodes than there are |
| `DiagQuery.OutOfOrderOvercounts` | src/modules/diag/engine.c:515 | such events exist: two joined events that arrive out of order are counted as two episodes although they form one component |
| `DiagQuery.TruncationOneSided` | src/modules/diag/engine.c:22-30 | over any prefix of a history, plain, clustered or span-tested, a condition counts at most what it counts over the whole |
| `DiagQuery.TruncationExact` | src/modules/diag/engine.c:485-533 | count and evidence are those of the full history whenever every selected event is still held |
| `DiagQuery.TruncationExactPlain` | src/modules/diag/engine.c:485-533 | for a condition without clustering and span that is exactly when the count is the same |
| `DiagQuery.SpanIsExtreme` | src/modules/diag/engine.c:507-510 | the span test compares the least and the greatest timestamp selected |
| `DiagQuery.MatchingTimeOrdered` | src/modules/diag/engine.c:496-522 | selection keeps time order |
| `DiagDevice.WhensMeaning` | src/modules/diag/engine.c:599-612 | a rule holds iff every condition reaches its count, and the reported count is the largest of them |
| `DiagDevice.WindowIsLongestLookback` | src/modules/diag/engine.c:610-611 | the reported window is the longest lookback among the conditions, never negative |
| `DiagDevice.EvidenceIsFirstSix` | src/modules/diag/engine.c:520-530 | the evidence is the first six events offered by the conditions in order; a failed span test offers none |
| `DiagDevice.WhensTruncationOneSided` | src/modules/diag/engine.c:599-612 | a rule that holds over the ring holds over the full history, with a count at least as large |
| `DiagDevice.EventRulesFrame` | src/modules/diag/engine.c:588-616 | trying the event rules changes only cooldowns and reports about this device only |
| `DiagDevice.EventRuleEffect` | src/modules/diag/engine.c:535-542 | a rule reports at most once per event, iff it triggers and has cooled down, and then its cooldown restarts at its own clock reading; no other rule interferes |
| `DiagDevice.DeadlinesFrame` | src/modules/diag/engine.c:630-655 | checking deadlines changes only latches and reports about this device only |
| `DiagDevice.DeadlineEffect` | src/modules/diag/engine.c:630-655 | a deadline rule reports at most once per tick, iff it is overdue and not latched, and then latches |
| `DiagDevice.ReportsInRuleOrder` | src/modules/diag/engine.c:588-655 | one event, or one tick on one device, reports in the order of the rules, at most once each |
| `DiagWindow.MatchFields` | src/modules/diag/engine.c:167-178 | true iff every field constraint holds |
| `DiagWindow.StatusOk` | src/modules/diag/engine.c:180-191 | true iff the status list is empty or contains the status |
| `DiagWindow.CondEventPred` | src/modules/diag/engine.c:194-203 | true iff kind, fields and status all match |
| `DiagWindow.TriggerHolds` | src/modules/diag/engine.c:206-211 | true iff kind and fields match; the status list is not consulted |
| `DiagWindow.Window.Claim` | src/modules/diag/engine.c:233-247 | a claimed slot is a fresh window of the new device, whatever it held |
| `DiagWindow.Window.Push` | src/modules/diag/engine.c:250-256 | the ring afterwards holds the new event followed by its former content, cut to 1024 |
| `DiagWindow.Window.At` | src/modules/diag/engine.c:259-264 | the i-th newest event |
| `DiagWindow.Window.EvalWhen` | src/modules/diag/engine.c:485-533 | one pass over the ring computes the count and evidence the query specification calls for |
| `DiagWindow.Window.ResetEnumState` | src/modules/diag/engine.c:555-560 | clears seen states, their times and the deadline latches, nothing else |
| `DiagWindow.Window.Record` | src/modules/diag/engine.c:568-586 | records time, learned ids, the event, and its effect on the enumeration episode |
| `DiagWindow.Window.CooldownOk` | src/modules/diag/engine.c:535-542 | passes iff the rule never fired or its last firing is at least 2 s back, and only then restarts the cooldown |
| `DiagWindow.Window.EvalRule` | src/modules/diag/engine.c:599-612 | stops at the first condition that falls short, otherwise yields largest count, longest window and shared evidence |
| `DiagSlots.FindKey` | src/modules/diag/engine.c:226-229 | the first used slot with the key, or none |
| `DiagSlots.FindFree` | src/modules/diag/engine.c:233-239 | the first unused slot, or none |
| `DiagSlots.Lru` | src/modules/diag/engine.c:240-241 | among used slots the first of those seen longest ago |
| `DiagSlots.RecycledIsLeastRecentlySeen` | src/modules/diag/engine.c:243-247 | a recycled device was held, all slots were used, and no device was seen longer ago |
| `DiagSlots.IngestRefines` | src/modules/diag/engine.c:562-617 | seen from any device, an event does to the table what it does to the map machine, except for the recycled device |
| `DiagSlots.TickRefines` | src/modules/diag/engine.c:619-661 | seen from any device, a tick does to the table what it does to that device alone |
| `DiagSlots.StepRefines` | src/modules/diag/engine.c:562-661 | one input: findings and state of every device are those of the per-device machine, and used slots keep distinct keys |
| `DiagSlots.ForgottenOnlyWhen` | src/modules/diag/engine.c:243-247 | a device is forgotten iff it is recycled as least recently seen or idle over 10 s at a tick |
| `DiagSlots.StepRefinesMap` | src/modules/diag/engine.c:562-661 | the table as a map takes exactly one step of the unbounded map machine after dropping at most one recycled device, and every device gets exactly that step's findings |
| `DiagSlots.RunRefinesMap` | src/modules/diag/engine.c:562-661 | the same at every input of every run from an empty table, recycling included: state, keys distinct, and the findings of every device |
| `DiagSlots.RunKeepsDistinct` | src/modules/diag/engine.c:220-248 | no two used slots ever share a key |
| `DiagSlots.RunRefines` | src/modules/diag/engine.c:562-661 | over a whole run, state and findings of a device that is not recycled are those of its own machine |
| `DiagSlots.NonInterference` | src/modules/diag/engine.c:562-661 | findings of a device under any interleaving are all the findings of an engine fed only its own events and the same ticks |
| `DiagEngine.Engine.constructor` | src/modules/diag/engine.c:690-699 | an engine starts with no device, no finding and zero counters |
| `DiagEngine.Engine.FindOwn` | src/modules/diag/engine.c:226-229 | finds the slot of a key by linear search |
| `DiagEngine.Engine.FindFreeOrLru` | src/modules/diag/engine.c:233-243 | finds the first free slot, else the least recently seen one |
| `DiagEngine.Engine.WinGet` | src/modules/diag/engine.c:220-248 | the chosen slot holds the device's window, kept or fresh; every other slot is untouched |
| `DiagEngine.Engine.Emit` | src/modules/diag/engine.c:544-551 | the finding is printed and counted; the table is untouched |
| `DiagEngine.Engine.Ingest` | src/modules/diag/engine.c:562-617 | the new table and the findings are those of the slot machine; summary counters keep counting the findings |
| `DiagEngine.Engine.RuleHolds` | src/modules/diag/engine.c:594-612 | an event rule holds iff its trigger matches and its conditions hold, and yields the finding |
| `DiagEngine.Engine.Tick` | src/modules/diag/engine.c:619-661 | the new table and the findings are those of the slot machine |
| `DiagEngine.Engine.TickOne` | src/modules/diag/engine.c:624-660 | one slot: all its deadlines are checked before it is evicted |
| `DiagEngine.Engine.CheckDeadline` | src/modules/diag/engine.c:631-654 | one rule on one window: reports and latches iff overdue and not latched |
| `DiagEngine.Engine.Evict` | src/modules/diag/engine.c:657-659 | drops the window iff it has been idle for more than 10 s |
| `DiagEngine.CountersAddUp` | src/modules/diag/engine.c:549-550 | the per-rule counters of an engine add up to its total, which is the number of findings printed |
| `DiagTrace.WindowIsLife` | src/modules/diag/engine.c:562-573 | ring, last-seen time and learned ids of a window are those of the device's full history since it was last forgotten, the ring being its newest 1024 events |
| `DiagTrace.IdsAreNewest` | src/modules/diag/engine.c:569-572 | those ids are of its newest event that carries them, zero if none does |
| `DiagTrace.EpisodeOutlivesRing` | src/modules/diag/engine.c:575-586 | `seen_states` and `state_ts` are the set and first non-zero times of the states reached since the last NOTATTACHED (inclusive), disconnect or eviction, over the full history |
| `DiagTrace.FirstTsIsFirst` | src/modules/diag/engine.c:580-581 | with positive timestamps the recorded time is that of the first event of the state in the episode |
| `DiagTrace.LatchIsWasDue` | src/modules/diag/engine.c:651-653 | a latch is set iff its rule was due earlier in this episode |
| `DiagTrace.DeadlineReports` | src/modules/diag/engine.c:629-655 | a deadline rule reports one finding at the first tick of the episode at which it is due and none at any other input |
| `DiagTrace.ExactlyOnePerEpisode` | src/modules/diag/engine.c:651-653 | within one episode a deadline rule reports exactly once if it was ever due and never otherwise |
| `DiagTrace.DueInOrder` | src/modules/diag/engine.c:640-650 | in time order, due means: the state was reached, the cancelling one was not, and the tick is at or after first-seen plus timeout |
| `DiagTrace.IdleInSeconds` | src/modules/diag/engine.c:657-659 | a tick forgets a device iff its newest event is more than ten seconds back; until then the window holds its newest 1024 events |
| `DiagTrace.CancelledNeverReports` | src/modules/diag/engine.c:642-647 | an episode that sees the cancelling state before its rule is due never reports |
| `DiagTrace.IdleNeverSwallows` | src/modules/diag/engine.c:657-659 | with a timeout of at most 10 s, a device forgotten while stalled has been reported in that episode, at that tick at the latest |
| `DiagTrace.SwallowedIffForgottenEarly` | src/modules/diag/engine.c:648-659 | for any timeout, a stalled device is forgotten unreported iff the evicting tick comes before its deadline |
| `DiagTrace.LongDeadlineSwallowed` | src/modules/diag/engine.c:657-659 | a 20 s deadline that is lost to idle eviction |
| `DiagTrace.CooldownIsLastReport` | src/modules/diag/engine.c:535-542 | the cooldown register is the clock reading of the rule's last report in the trace since the device was last forgotten |
| `DiagTrace.EventReports` | src/modules/diag/engine.c:588-616 | an event rule reports iff its trigger matches, its conditions hold over the newest 1024 events of the full history, and its last report in the trace is at least 2 s back; the finding is spelled out |
| `DiagTrace.ReportedEvidence` | src/modules/diag/engine.c:535-551 | in any run a report's evidence is of the device's own history, lies in the window the finding states before its reference time, and passed the rule's conditions |
| `DiagTrace.CooldownInSeconds` | src/modules/diag/engine.c:535-542 | a rule that triggers reports iff it has not reported since the device was last forgotten or did so at least two seconds ago |
| `DiagTrace.OnlyEventsFire` | src/modules/diag/engine.c:594-595 | event rules report at those inputs and no other, which are events of the device |
| `DiagTrace.CooldownWithinLife` | src/modules/diag/engine.c:535-542 | two reports of one rule on one device within the life of its window are at least 2 s apart |
| `DiagTrace.CooldownLostIffForgotten` | src/modules/diag/engine.c:657-659 | a rule that triggers again less than 2 s after its last report reports again if and only if the device was forgotten as idle in between |
| `DiagTrace.CooldownAcrossEviction` | src/modules/diag/engine.c:535-542 | reports stay 2 s apart across idle evictions when events arrive in order and at most 8 s and 1 ns late |
| `DiagTrace.LateDeliveryBreaksCooldown` | src/modules/diag/engine.c:657-659 | that bound is the best: for every longer lag there is a run within it, in order and on a steady clock, with two reports less than 2 s apart |
| `DiagTrace.EngineShowsTrace` | src/modules/diag/engine.c:562-661 | in an engine run the findings about a device at each input are those of its trace, while it keeps its slot |
| `DiagRun.Run` | src/modules/diag/diag.c:502-524 | the engine is fed exactly the delivered events and a tick whenever half a second has passed since the last; interrupted polls skip the tick, a failed one ends the loop |
| `DiagRun.EveryEventIsFed` | src/modules/diag/diag.c:342-350 | without its ticks, what the loop feeds the engine is the events of all polls in order, interrupted ones included, up to and including the first that failed; the loop lives until one fails |
| `DiagRun.PollFeeds` | src/modules/diag/diag.c:502-524 | a poll's events come next, all and in order, and at most one tick behind them, exactly when the poll ended normally half a second or more after the last |
| `DiagRun.Deliver` | src/modules/diag/diag.c:342-350 | every delivered event is ingested, in order |
| `DiagRun.TickNeverLags` | src/modules/diag/diag.c:518-523 | after every completed iteration the last tick is less than 500 ms old |
| `DiagRun.TickSoonAfter` | src/modules/diag/diag.c:502-524 | whatever moment one picks, the loop ticks less than 500 ms plus one iteration later |
| `DiagRun.ReportedByTick` | src/modules/diag/engine.c:648-654 | a stall is reported, in its own episode and not before its deadline, at or before any tick at or after the deadline, idle or not |
| `DiagRun.DetectionLatency` | src/modules/diag/diag.c:502-524 | a stall that is undisturbed up to the first tick past its deadline is reported, after it was seen and in its own episode, at a tick no earlier than first-seen + timeout and earlier than that + 500 ms + one iteration |
| `DiagRun.StallIsReported` | src/modules/diag/engine.c:648-654 | that report is the device's one finding of the rule in the engine's output at that tick |
| `DiagRun.StallIsLogged` | src/modules/diag/diag.c:502-524 | an engine that the loop has run holds the finding in its log, with a reference time within that bound |
| `Template.Expand` | src/modules/diag/engine.c:269-320 | for every template and every buffer of at least one byte, the output is the first size-1 characters of the unbounded expansion, terminated |
| `Template.UnknownIsLiteral` | src/modules/diag/engine.c:281-317 | templates without a recognised variable come out unchanged: plain text, unmatched, unknown and over-long braces |
| `Template.VariableExpands` | src/modules/diag/engine.c:276-315 | a braced key after text without an opening brace is replaced by its value and expansion resumes behind it |
| `Template.VariablesDenote` | src/modules/diag/engine.c:287-307 | each variable's text denotes its own number, ids in hexadecimal and the rest in decimal; a name is copied |
| `Template.LongDenotes` | src/modules/diag/engine.c:293-304 | every 64-bit number prints in at most 20 characters that denote it |
| `UvcHeader.ParserReadsLayout` | src/modules/uvc/uvc.bpf.c:568-617 | for every flag combination, announced header length and room: when a packet has a payload, and exactly which of its announced PTS and SCR are read, with which values |
| `UvcHeader.ClockDeliveredIff` | src/modules/uvc/uvc.bpf.c:611-617 | a header as long as its fields has them all delivered iff its SCR comes with a PTS and the transfer has room for twelve bytes (or the fields are zero) |
| `UvcHeader.LoneClockIsLost` | src/modules/uvc/uvc.bpf.c:614 | an eight-byte header whose SCR is sent and not read |
| `UvcHeader.EveryHeaderIsLaidOut` | src/modules/uvc/uvc.bpf.c:574-590 | every packet with two readable bytes has a header of that form |
| `UvcFrames.UrbSelects` | src/modules/uvc/uvc.bpf.c:547-567 | an URB's packets are exactly its readable descriptors among the first 32 of the announced number, in order and once each, bad iff the status is not zero; none without a transfer buffer |
| `UvcCut.CutIsSegmentation` | src/modules/uvc/uvc.bpf.c:591-620 | frames are runs of one frame id ending at an end-of-frame bit, and a frame without one is followed by a payload of the other id; no payload is lost or reordered |
| `UvcCut.CutIsUnique` | src/modules/uvc/uvc.bpf.c:591-620 | the payload headers admit only one such segmentation |
| `UvcCut.AssemblerRefinesCut` | src/modules/uvc/uvc.bpf.c:550-621 | emitted frames are the closed pieces of that cut, field by field (`errored` iff no EOF, an ERR bit or a bad status charged, by the unique charges of `UvcCharge.ChargedCutIsUnique`), and the state is the open piece |
| `UvcCut.ClocksAreLast` | src/modules/uvc/uvc.bpf.c:611-617 | a frame's PTS and SCR are those of its last payload that carries them, zero if none does, both parts of the SCR from the same payload |
| `UvcCut.CountsAdd` | src/modules/uvc/uvc.bpf.c:564-607 | byte and error counts are sums: a payload counts its own bytes, a bad packet one |
| `UvcCut.RegroupingInvariant` | src/modules/uvc/uvc.bpf.c:550-621 | two deliveries of the same packets give the same frames, times aside |
| `UvcCut.ChargesPartition` | src/modules/uvc/uvc.bpf.c:564-567 | every packet's status is charged exactly once, in order, to a closed frame or to the open one |
| `UvcCharge.CutIsCharged` | src/modules/uvc/uvc.bpf.c:564-604 | the charges of the frames up to any frame are exactly the packets up to the one that closes it: the one with its end of frame, or the one whose frame id toggled, bad packets without data included |
| `UvcCharge.ChargedCutIsUnique` | src/modules/uvc/uvc.bpf.c:564-604 | the packets admit only one such cut into frames and charges |
| `UvcErrored.ErrPacketsOfFrame` | src/modules/uvc/uvc.bpf.c:564-567 | how a frame's error count differs from its documentation (`include/usbtrace/uvc.h:37`): plus bad packets without data, plus a bad packet that revealed its own lost end, minus its bad first packet if that revealed the lost end before it |
| `UvcErrored.FrameErroredIff` | src/modules/uvc/uvc.bpf.c:486 | when an emitted frame's `errored` is the documented one (`include/usbtrace/uvc.h:27-29`), as an if and only if on the packets |
| `UvcErrored.HiddenError` | src/modules/uvc/uvc.bpf.c:564-604 | two packets whose second frame is documented as errored and not flagged |
| `UvcErrored.BorrowedError` | src/modules/uvc/uvc.bpf.c:564-567 | two packets whose frame is flagged although the packet that carried it was good |
| `UvcCut.Conservation` | src/modules/uvc/uvc.bpf.c:477-508 | emitted plus pending bytes, packets and error packets equal payload bytes, well-formed packets and bad-status descriptors |
| `UvcTiming.FrameTimes` | src/modules/uvc/uvc.bpf.c:480-482 | every frame ends at the delivery of the packet that closes it, lasts since the delivery of its own first packet, and its interval runs from the previous frame's end, all modulo 2^32 |
| `UvcTiming.FramesInOrder` | src/modules/uvc/uvc.bpf.c:480-482 | on a clock that does not go back, a frame begins no earlier than the one before it ends and its times are plain differences |
| `UvcTiming.DurationAsDocumentedIff` | src/modules/uvc/uvc.bpf.c:480 | when the duration is the documented time from first to last payload (`include/usbtrace/uvc.h:38`), as an if and only if; for frames that fit 32 bits: iff the frame has its end of frame or its closing toggle came with its last payload |
| `UvcTiming.DurationRunsOn` | src/modules/uvc/uvc.bpf.c:596-604 | two packets whose first frame, of one payload, lasts 40 ns |
| `UvcTiming.IntervalsTelescope` | src/modules/uvc/uvc.bpf.c:480-501 | intervals add up to last frame end minus first frame end |
| `UvcTiming.DurationWithinInterval` | src/modules/uvc/uvc.bpf.c:480-482 | a frame never lasts longer than its non-zero interval |
| `UvcTiming.FrameStats.TallyFrame` | src/modules/uvc/uvc.c:136-151 | the totals stay those of the frames tallied: frames, bytes, errored, non-zero intervals, their sum and extremes |
| `UvcTiming.TotalsMean` | src/modules/uvc/uvc.c:136-151 | the summary's counts are numbers of frames: errored ones, and ones with an interval |
| `UvcTiming.SumsAdd` | src/modules/uvc/uvc.c:136-151 | its sums add up frame by frame |
| `UvcTiming.AverageWithinExtremes` | src/modules/uvc/uvc.c:142-150 | the average interval lies between the reported extremes |
| `UvcAssembler.StreamKeyInjective` | src/modules/uvc/uvc.bpf.c:532 | streams do not share a key |
| `UvcAssembler.Stream.EmitFrame` | src/modules/uvc/uvc.bpf.c:465-510 | the frame reports the gathered state, which is then reset except for the frame end time |
| `UvcAssembler.Stream.OnPayload` | src/modules/uvc/uvc.bpf.c:591-620 | boundary in front, gathering, boundary behind, in that order |
| `UvcAssembler.Stream.OnPacket` | src/modules/uvc/uvc.bpf.c:564-620 | the status is charged first; malformed packets gather nothing |
| `UvcAssembler.Stream.Parse` | src/modules/uvc/uvc.bpf.c:547-621 | an URB is the run over its first 32 readable descriptors |
| `UvcAssembler.Assembler.ParseFrames` | src/modules/uvc/uvc.bpf.c:512-622 | only the URB's own stream is stepped; a filtered URB, or a new stream in a full table, changes nothing |
| `UvcAssembler.UrbsAreOneRun` | src/modules/uvc/uvc.bpf.c:547-621 | a stream over its URBs is one run over all their packets |
| `UvcAssembler.StreamRun` | src/modules/uvc/uvc.bpf.c:512-622 | in any run of the assembler a tracked stream has the state and the frames of one run over the packets of its own URBs, whatever the other streams do; a stream is untracked only if it had no URB or the table was full |
| `UvcAssembler.FilterMeans` | src/modules/uvc/uvc.bpf.c:523-524 | what the device filter lets through, for each way to set it |
| `UvcAssembler.StreamIsEndpoint` | src/modules/uvc/uvc.bpf.c:527-532 | a stream's URBs are those of one endpoint of one device |
| `UvcAssembler.UrbGroupingInvariant` | src/modules/uvc/uvc.bpf.c:512-622 | two runs of the assembler that give a stream the same packets in other URBs of at most 32, among whatever other streams, give it the same frames but for the times |
| `UvcSummary.SummaryConserves` | src/modules/uvc/uvc.c:136-151 | the summary's byte total plus the bytes of open frames, over all streams, is the payload bytes those streams were sent |
| `UvcDrops.Tagger.AddTo` | src/modules/uvc/uvc.bpf.c:718-730 | adds a cause to a tagged buffer, or tags it if the table has room |
| `UvcDrops.Tagger.TakeTag` | src/modules/uvc/uvc.bpf.c:732-743 | returns and removes the tag |
| `UvcDrops.Tagger.OnDecodeIsoc` | src/modules/uvc/uvc.bpf.c:795-833 | tags the buffer iff a readable descriptor among the first 32 has a negative status |
| `UvcDrops.Tagger.OnQueueComplete` | src/modules/uvc/uvc.bpf.c:841-899 | the tag is taken on every path; a drop is reported iff the queue drops corrupted frames and the buffer is in error |
| `UvcDrops.TagsAreLosses` | src/modules/uvc/uvc.bpf.c:711-743 | a tag is never stale: the buffer lost a packet since its last completion |
| `UvcDrops.LostSinceMeaning` | src/modules/uvc/uvc.bpf.c:795-833 | loss since the last completion: some decode tagged the buffer and no completion came after it |
| `UvcDrops.TaggedAreLost` | src/modules/uvc/uvc.bpf.c:711-743 | with at most 64 such buffers the tagged ones are exactly those that lost a packet |
| `UvcDrops.DropReason` | src/modules/uvc/uvc.bpf.c:876-897 | a drop's reason has ISO iff the buffer lost a packet since its previous completion, SHORT iff the frame is short, OTHER iff neither, and is never empty |
| `UvcDrops.DropsSelect` | src/modules/uvc/uvc.bpf.c:841-897 | over a run the drops reported are exactly the completions, of capture buffers of the device watched, in error on a queue that drops corrupted frames, in order and once each; short iff uncompressed, of known size and not full |
| `UvcDrops.DecodeTags` | src/modules/uvc/uvc.bpf.c:795-833 | a decode tags its buffer iff it is one of those and a readable descriptor among the first 32 has a negative status, table permitting; nothing else changes |
| `UvcDrops.DropNeverBlamedFalsely` | src/modules/uvc/uvc.bpf.c:876-897 | with more buffers a cause may be missed but is never invented |
| `UvcDrops.DropStats.TallyDrop` | src/modules/uvc/uvc.c:270-283 | the totals stay those of the drops tallied |
| `UvcDrops.CausesBoundDrops` | src/modules/uvc/uvc.c:270-283 | over any run the three causes add up to between one and two times the drops |
| `UvcVb2.SeqGap` | src/modules/uvc/uvc.bpf.c:110-120 | a gap iff the number neither repeats nor follows its predecessor modulo 2^32 |
| `UvcVb2.SeqGapAsDocumentedIff` | src/modules/uvc/uvc.bpf.c:110-120 | the flag is the documented one (`include/usbtrace/uvc.h:88`) iff the number does not repeat |
| `UvcVb2.Tracker.EmitDone` | src/modules/uvc/uvc.bpf.c:338-380 | a completed buffer steps its own queue only; filtered ones, or a new queue in a full table, leave no trace |
| `UvcVb2.QueueRun` | src/modules/uvc/uvc.bpf.c:338-380 | in any run of the tracker a tracked queue has the state and the events of its own buffers that pass the filter; a queue is untracked only if it had none or the table was full |
| `UvcVb2.OwnSelects` | src/modules/uvc/uvc.bpf.c:338-357 | a queue's own buffers are those that name it and are empty or between 100 kB and 32 MiB, in order and once each |
| `UvcVb2.QueueEvents` | src/modules/uvc/uvc.bpf.c:361-380 | its events carry the kernel's number, or the buffer's ordinal when that is unknown, and the time since the queue's previous buffer |
| `UvcVb2.QueueIntervalsTelescope` | src/modules/uvc/uvc.bpf.c:374-380 | its intervals add up to its last completion minus its first |
| `UvcVb2.AllTracked` | src/modules/uvc/uvc.bpf.c:350-357 | with at most 64 queues every one that completes a buffer past the filter is tracked |
| `UvcVb2.GapIffJump` | src/modules/uvc/uvc.bpf.c:363-373 | in any run, a tracked queue has no gap flagged iff every known number repeats or follows the one before |
| `UvcVb2.GapFreeRunLosesNothing` | src/modules/uvc/uvc.bpf.c:338-380 | in any run, a tracked queue without a flagged gap visited every number from its first to its last, and the last is the first plus the number of advances, modulo 2^32 |
| `JsonEscape.Escape` | src/usbtrace_cli.c:74-117 | the buffer holds the escape of the longest prefix whose bytes all find room, terminated in bounds; an empty buffer is untouched |
| `JsonEscape.StandardEscapes` | src/usbtrace_cli.c:83-112 | the escapes are those of section 7 of RFC 8259, byte by byte |
| `JsonEscape.NoControls` | src/usbtrace_cli.c:99-107 | no control byte survives |
| `JsonEscape.RoundTrip` | src/usbtrace_cli.c:74-117 | for every text and size the output decodes, as a JSON string body, to a prefix of the text |
| `JsonEscape.WholeIffRoom` | src/usbtrace_cli.c:81 | it decodes to the whole text iff every byte finds two free bytes, six for a \u escape |
| `JsonEscape.SufficientSize` | src/usbtrace_cli.c:81-107 | 6n+1 bytes always suffice, 2n+1 when every control byte has a short escape |
| `HidRate.Meter.SlotGet` | src/modules/hid/hid.c:167-186 | the first slot of the endpoint, else a new zeroed one, else none when all 16 are taken |
| `HidRate.Meter.NoteInterval` | src/modules/hid/hid.c:212-235 | an interval up to 50 ms enters count, sum and extremes of window and totals; a longer one is a gap; zero is ignored |
| `HidRate.Meter.FlushWindow` | src/modules/hid/hid.c:273-300 | prints one line per slot with reports and clears every window, unless no time has passed or a final window is shorter than a quarter period |
| `HidRate.Meter.OnIn` | src/modules/hid/hid.c:302-335 | the new slots, window start and lines outright: only the first slot of the endpoint takes note, and a good report starts the window or flushes it once a period has passed; totals equal printed windows plus the open one and the start never goes back |
| `HidRate.Meter.Record` | src/modules/hid/hid.c:325-329 | one report enters window and totals |
| `HidRate.Meter.OnStop` | src/modules/hid/hid.c:418-431 | at exit the open window is flushed up to the last report of any slot, unless too short |
| `HidRate.EndpointRun` | src/modules/hid/hid.c:302-335 | in any run an endpoint's slot holds what its own URBs alone add up to, whatever other endpoints and flushes do; an endpoint has none only if it had no URB or all 16 were taken |
| `HidRate.EndpointAccounting` | src/modules/hid/hid.c:212-235 | in any run, for an endpoint whose own reports come at rising times: reports = 1 + intervals + gaps, intervals plus gap time = last minus first, min*n <= sum <= max*n, max <= 50 ms |
| `HidRate.PrintedLinesAccount` | src/modules/hid/hid.c:273-300 | the printed lines of the endpoint plus its open window add up to just that |
| `HidWindows.CountsMean` | src/modules/hid/hid.c:212-235 | over a stretch of reports the counts are the numbers of reports, of intervals up to 50 ms and of longer silences, the least and greatest interval occur in it, and all others lie between |
| `HidWindows.WindowsCover` | src/modules/hid/hid.c:273-335 | in any run an endpoint's printed lines and its open window behind them cover its good reports, each once and in order, and count just those |
| `HidWindows.PrintedLineMeans` | src/modules/hid/hid.c:237-271 | so every printed line, the final ones included, tells the numbers and the attained extremes of a stretch of consecutive reports |
| `HidWindows.SumTelescopes` | src/modules/hid/hid.c:212-235 | for rising times the interval sum and silences of a stretch make up the time from the report before it to its last |
| `HidWindows.EndpointExtremes` | src/modules/hid/hid.c:212-235 | for rising times the extremes of the totals are steps between consecutive reports, with every step of at most 50 ms between them |
| `HidWindows.WindowsRoll` | src/modules/hid/hid.c:331-335 | a window closes with the first good report that finds it a period old, and not before; its lines show its age; the start never goes back |
| `HidWindows.LatestMeans` | src/modules/hid/hid.c:418-431 | the final flush ends at the last report of any slot |
| `HidRate.PrintedExtremes` | src/modules/hid/hid.c:212-235 | every printed line and open window has min*n <= sum <= max*n and max <= 50 ms, whatever the arrival order |
| `HidRate.SlotAccounting` | src/modules/hid/hid.c:212-235 | the same for one slot alone |
| `UrbPairing.Tracker.OnSubmit` | src/modules/urb/urb.bpf.c:101-130 | stamps a tracked URB if the map has room or knows it, and reports the submission when asked to |
| `UrbPairing.Tracker.OnGiveback` | src/modules/urb/urb.bpf.c:145-189 | reports a tracked completion with its latency and forgets the stamp on every path |
| `UrbPairing.LastSubmitIsLatest` | src/modules/urb/urb.bpf.c:118 | the submission used is the latest tracked one with no completion after it |
| `UrbPairing.StampsAreLatest` | src/modules/urb/urb.bpf.c:118-187 | every stamp is the latest tracked submission of its URB since its last completion, even if the map overflows |
| `UrbPairing.DomainIsOutstanding` | src/modules/urb/urb.bpf.c:118-187 | within capacity the map's keys are exactly the tracked URBs not yet given back |
| `UrbPairing.CompletionLatency` | src/modules/urb/urb.bpf.c:165-187 | within capacity a completion's latency is its time minus the latest tracked submission since the previous completion, zero if none |
| `UrbPairing.RecordsSelect` | src/modules/urb/urb.bpf.c:101-189 | over a run the records are exactly the completions, and submissions when asked for, of the device and pipe type configured, in order and once each, with their own URB, time and status |
| `UrbPairing.StampUsedOnce` | src/modules/urb/urb.bpf.c:180-187 | a stamp found after a completion was made after it |

## Left out

- Kernel and user-space plumbing: BPF loading, ring and perf buffers, epoll, kernel memory reads, pt_regs and
  CO-RE offsets. What they deliver is an arbitrary input; each packet, submission and completion is one atomic
  step with values already read, so races between CPUs on one map value are not modelled. A missing field
  offset (`src/modules/uvc/uvc.bpf.c:866`), which skips taking a drop tag, is not modelled either.
- Rule files: the YAML loader is not part of this model; rules are values, at most 64 of them.
- Event normalisation and the wide field switch (`src/modules/diag/engine.c:118-154`): fields the engine only
  copies out for matching are a table with default zero.
- Rule ids, names, severities and the printed form of findings, frames and summaries. A finding is a record in
  a log; floating-point rates and averages are not computed.
- The expander is tied to its template and variables, not to the finding that supplies them.
- Wire-to-buffer correlation and starvation records (`src/modules/uvc/uvc.bpf.c:149-336`), buffer queue and
  dequeue records, and the per-URB class records.
- HID role guessing (`src/modules/hid/hid.c:188-210`) and the `--no-rate` switch.
- Setup packets, transfer lengths, endpoint and direction bits and process names of URB records, which are
  copied through.
- Surrogate pairs in the JSON decoder: the escaper never writes one.
- HidRate.Meter.FlushWindow: the quarter-period test is done on integers, not in floating point.
- UvcTiming.IntervalsTelescope: per stream; the summary of several streams adds their intervals together.
- DiagRun.DetectionLatency: says nothing about polls that are interrupted, which postpone the tick without bound.
