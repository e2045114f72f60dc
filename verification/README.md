# Waypipe: verified model of buffer replication

Waypipe keeps a remote copy of shared-memory buffers in step. The sender turns damage
rectangles into byte intervals, splits these into worker tasks, diffs each against a local copy
of the buffer (the "mirror") and sends the diffs over a byte stream. The receiver cuts the
stream into messages and lets worker threads decompress and apply them. This project models
those stages in Dafny and proves what each of them promises, up to the statement that in every
interleaving of all steps both sides agree once nothing is left to do.

`dafny verify dfyconfig.toml` checks everything.

## Layout

| file | what it models |
|---|---|
| `Bytes.dfy`, `Replay.dfy` | words and alignment; the effect of positioned writes |
| `DiffFormat.dfy`, `DiffKernel.dfy`, `DiffApply.dfy`, `RoundTrip.dfy` | the diff format, its construction line by line, its replay, the two together |
| `Intervals.dfy`, `UnionDamage.dfy` | the gap closure of a set of intervals; merging two damage lists |
| `DamageRows.dfy`, `DamageSweep.dfy`, `Damage.dfy`, `DamageSegments.dfy` | from rectangles to damaged intervals |
| `Sharding.dfy`, `Mirror.dfy`, `DiffTask.dfy`, `DiffRound.dfy`, `Updates.dfy` | splitting damage into tasks, range locks, running the tasks, a whole round |
| `WireMsg.dfy`, `DiffMessage.dfy`, `ReadBuffer.dfy` | message framing, diff messages, the zero-copy read buffer |
| `Receive.dfy` | taking in diff messages, and a round of updates end to end |
| `TaskQueue.dfy`, `Scheduler.dfy`, `Workers.dfy` | the shared task set, every interleaving of the workers' steps, and the calls that make these steps |
| `Replica.dfy`, `Progress.dfy` | both sides of all files, the stream between them, convergence, and coming to rest |
| `CKernel.dfy`, `MergeStack.dfy`, `MergeExact.dfy` | the diff kernel and the damage merge of the C implementation |
| `CopyRegions.dfy` | planning copies between a linear buffer and an image |
| `Codec.dfy` | Wayland messages written and parsed from their signatures |

Code that works in place is modelled in place: diffs, mirrors, read chunks and targets are
arrays, the mirror, the task set and the read buffer are classes, loops are loops. What the
methods compute is tied to specifications that do not follow the code: the effect of a list of
records on a buffer (`Replay.Explains`, `Replay.Override`), the gap closure defined byte by byte
(`Intervals.InClosure`, and `Intervals.ClosureUnique`, which makes it a function), the simple
length-prefixed parser (`WireMsg.Frames`), and the sequential application of all updates
(`Scheduler.Fold`).

The concurrent parts are state machines. `Scheduler.Step` has one atomic step for each
acquisition of the task set's lock, each byte stored and each report received, and
`Workers.Receiver` ties the calls on the task set to these steps. `Replica.Step` adds, for any
number of files, rounds of diff tasks that each take their own snapshot, sending in any order of
completion and mixed with messages of other types, reading the stream in pieces of any size, and
delivery. The steps use the very predicates that
the contracts of the corresponding methods establish (`TaskQueue.Popped`, `DiffTask.TaskDone`,
`DiffApply.IsSpan`, `Updates.Independent`), and `Workers.RunDiff` shows a diff task run by a
kernel to be such a step.

## Model

| member | source | states |
|---|---|---|
| `Replica.RunConverges` | src/mainloop.rs:4327-4367 | in every run of the whole system, at every point, for every file: applying the receiver's unfinished updates in sequence order to its memory gives, for mapping and mirror alike, the mirror the sender held at any moment when just the messages handled so far had been sent, except where results were still to be sent; in any case each byte is one the sender's mirror has held; once all is quiet, mapping, receiver mirror and sender mirror are equal byte for byte |
| `Progress.AlwaysConverges` | src/mainloop.rs:4327-4367 | however the whole system goes on without new rounds or other messages, in whatever order, it reaches a quiet point at which all copies of all files agree |
| `Progress.EveryStepNearer` | src/mainloop.rs:4327-4367 | every step that changes anything and brings in no new work lowers a well-founded measure |
| `Progress.AlwaysAStep` | src/mainloop.rs:4327-4367 | until the system is quiet there is such a step, whatever the buffers hold |
| `Progress.WorkIsBounded` | src/mainloop.rs:4327-4367 | without arrivals the workers take boundedly many steps, in whatever order, and when none is left everything is applied |
| `Progress.RunCanConverge` | src/mainloop.rs:4327-4367 | every run has a continuation, whatever the buffers hold, to a quiet point at which all copies of all files agree |
| `Replica.StepKeeps` | src/mainloop.rs:2683-2737 | every step keeps: each file's mirror is all its diffs sent overridden by results not yet sent, the stream is the concatenation of diffs of all files and messages of other types, the receiver's updates are the diffs handled, in order |
| `Replica.AlwaysConverging` | src/mainloop.rs:3668-3725 | in any state that satisfies the invariant, completing the receiver's unfinished updates gives, for every file, what the diffs among the messages handled make of a blank file |
| `Replica.MirrorIsSent` | src/mainloop.rs:2683-2737 | what all diffs sent so far make of a blank file is the sender's mirror, wherever no result is still to be sent |
| `Replica.SentWasHeld` | src/mainloop.rs:2683-2737 | in every run, what the diffs sent amount to at a byte is a value that the sender's mirror has held there |
| `Replica.QuietConverged` | src/mainloop.rs:3343-3368 | the agreement of all three copies in any quiet state |
| `Replica.FoldIsSent` | src/mainloop.rs:2215-2260 | applying the receiver's updates for the first n messages one after the other gives, for every file, what the diffs among the first n messages sent make of a blank file |
| `Replica.DeliverEnabled` | src/mainloop.rs:3343-3368 | a diff message that was read completely always parses, decodes, has a span and can be handed to the workers |
| `Scheduler.RunSerialisable` | src/mainloop.rs:4327-4367 | in every run: the assertion on sequence numbers holds whenever a task is chosen, regions being written are pairwise disjoint, and drained memory equals the messages that arrived, applied one after the other to the memory the run began with |
| `Scheduler.OverlapInOrder` | src/mainloop.rs:4327-4367 | in every run, of two overlapping updates the earlier is completely applied before the later starts |
| `Scheduler.StepKeeps` | src/mainloop.rs:4445-4490 | every atomic step keeps the invariant: numbering in order of arrival, applies started in that order, exclusive regions, memory right wherever nothing is left to store, exact counters |
| `Scheduler.ChoiceSafe` | src/mainloop.rs:4342-4347 | whatever is being applied is earlier than whatever waits, so the assertion never fires |
| `Scheduler.OutstandingCompletes` | src/mainloop.rs:4327-4367 | at any moment, repeating the unfinished updates in order on top of current memory gives the sequential result |
| `Scheduler.DrainedIsSequential` | src/mainloop.rs:4445-4490 | once nothing is queued or in progress, memory is the sequential fold of all messages |
| `Scheduler.NeverStuck` | src/mainloop.rs:4327-4367 | with idle workers there is always a task to take until everything is applied |
| `Scheduler.ReportKeeps` | src/mainloop.rs:5316-5330 | when a completed apply is reported its object's counter is at least one, so the subtraction cannot underflow |
| `Scheduler.CounterZero` | src/mainloop.rs:5343-5357 | a counter that is back to zero means every update to that object that arrived is applied and its bytes are final |
| `TaskQueue.TaskSet.PopTask` | src/mainloop.rs:4327-4367 | the task taken: the lowest apply if nothing earlier is decompressing and nothing overlapping is being applied, else the next decompression with the next number, else a construction; everything else unchanged |
| `Workers.Receiver.Arrive` | src/mainloop.rs:1525-1537 | handing a message to the task set is the arrival step of the scheduler and keeps its invariant |
| `Workers.Receiver.Take` | src/mainloop.rs:4327-4367 | taking a task is a step of the scheduler; an update handed out to be applied is the next in order of arrival, and every earlier update of an overlapping region is already in place |
| `Workers.Receiver.FinishDecomp` | src/mainloop.rs:4445-4473 | reporting a decompression is a step of the scheduler and keeps its invariant |
| `Workers.Receiver.FinishApply` | src/mainloop.rs:4474-4490 | reporting an apply is a step of the scheduler, and all bytes of the update are then in memory |
| `Workers.RunDiff` | src/mainloop.rs:2683-2808 | running a diff task with any sound kernel while its ranges are free is a step of the whole system, with the bytes returned as its message |
| `TaskQueue.NothingOverlapping` | src/mainloop.rs:4342-4348 | true exactly when no region in progress intersects the given one |
| `DiffKernel.ConstructSegment` | src/kernel.rs:491-602 | for every sound line rule: the diff bytes encode ascending disjoint records that turn the old contents into the new ones, lie more than the skip gap apart and each change something; every record begins in a changed line and ends in one, leaves out just the words that the rule counts as unchanged at these ends, and no unchanged stretch of lines inside it exceeds the gap; the reference becomes the new contents, at most `len + 8` bytes are ever written, nothing else changes |
| `DiffKernel.NoLongStretch` | src/kernel.rs:539-596 | between the first and the last line of a record, unchanged lines never amount to more words than the skip gap |
| `DiffKernel.ScalarSound` | src/kernel.rs:491-602 | the scalar kernel leaves out the first half of a line just when it is unchanged, and never skips a changed word |
| `DiffKernel.Avx2Sound` | src/kernel.rs:293-346 | nor do the counts of the AVX2 kernel, which leaves the last line of a closed record unstored |
| `DiffKernel.Avx2CountsAll` | src/kernel.rs:293-346 | on later lines the AVX2 kernel counts every unchanged word at the end: the word before those it counts changed |
| `DiffKernel.Avx2FirstLineMask` | src/kernel.rs:184-292 | on the first changed line the AVX2 kernel counts no unchanged words at either end |
| `DiffFormat.DecodeEncode` | src/kernel.rs:667-708 | reading a diff back gives the records written |
| `DiffFormat.EncodeDecode` | src/kernel.rs:667-708 | a byte sequence that reads as a diff is the encoding of what it reads as |
| `RoundTrip.DiffRoundTrip` | src/kernel.rs:828-880 | encoded records that explain a change are applicable in range and turn the old contents into the new |
| `RoundTrip.ReplicateSegment` | src/kernel.rs:828-880 | diffing an interval and replaying the diff on a copy of the old contents leaves both sides with the new contents, for every sound rule |
| `Replay.ExplainsEffect` | src/kernel.rs:491-602 | records that explain a change yield the new contents byte for byte and write nowhere else |
| `Replay.NoneIfUnchanged` | src/kernel.rs:491-602 | the diff of an interval is empty exactly when nothing changed |
| `DiffTask.NullIffUnchanged` | src/mainloop.rs:2683-2737 | a diff task reports neither records nor trailing bytes exactly when nothing it examines changed |
| `DiffTask.ConstructDiff` | src/kernel.rs:154-180 | many intervals: the diffs follow each other, fit in the sum of `8 + len`, bring exactly those intervals up to date; for ascending intervals each record is one that the kernel makes for one of them with a skip gap of sixteen words |
| `DiffTask.CopyTailIfDiff` | src/kernel.rs:631-651 | the bytes after the last whole chunk are copied to diff and mirror, and the result tells exactly whether any of them changed |
| `DiffRound.DiffInner` | src/mainloop.rs:2683-2737 | a diff task, when its ranges are free: records, trailing bytes and mirror all as they should be, within the space allocated, and the locks released |
| `DiffRound.RunDiffTask` | src/mainloop.rs:2740-2808 | the message it produces is empty exactly when nothing the task examines changed; otherwise it carries exactly the records and trailing bytes, and replaying it on a copy of the old mirror gives the new mirror |
| `DiffRound.RunTasks` | src/mainloop.rs:2225-2256 | for tasks in any order: after all of them every byte examined agrees with the buffer, every other byte is old or new, and replaying the messages in order on a copy of the old mirror gives the new mirror |
| `Updates.CollectUpdates` | src/mainloop.rs:2215-2260 | for listed damage and for damage to everything: a byte is examined by some task exactly when it is damaged, and tasks need disjoint parts of the mirror; only damage to the whole of an empty buffer runs into an assertion |
| `Updates.ExaminedIffDamaged` | src/mainloop.rs:2225-2256 | the same for any sharding, including the incomplete last chunk, for every buffer size |
| `Updates.DamageRound` | src/mainloop.rs:2215-2260 | from rectangles to mirror: after computing, splitting and running everything, the mirror agrees with the buffer on every in-buffer byte of every damaged rectangle, and the messages turn a copy of the old mirror into the new one |
| `Receive.ApplyTask` | src/mainloop.rs:3668-3700 | whenever it succeeds, file and mirror both get exactly the effect of the diff and the lock is released; it succeeds when the diff is in range and its span is free |
| `Receive.ApplyMessage` | src/mainloop.rs:3343-3368 | whenever it succeeds, the message parses and file and mirror both get exactly the effect of its diff; it succeeds on every message that carries a diff in range |
| `Receive.ApplyRound` | src/mainloop.rs:3668-3725 | the same for all messages of a round, in order |
| `Receive.ReplicateRound` | src/mainloop.rs:2215-2260 | a round end to end: file, receiver mirror and sender mirror agree again, agree with the buffer on every damaged byte, and hold old or new contents elsewhere |
| `DiffApply.ApplyDiff` | src/kernel.rs:710-752 | succeeds exactly when the diff is well formed and in range; then file and mirror slice both have the diff's effect and nothing else; otherwise both have that of the records before the first that does not fit, and an error is returned exactly when its header fails the range test |
| `DiffApply.ApplyDiffOne` | src/kernel.rs:667-708 | succeeds exactly when some prefix of the diff that exceeds the records' part by at most eight bytes is well formed and in range; then the mirror slice has exactly the effect of that prefix and the tail, otherwise that of the records before the first that does not fit, and an error is returned exactly when its header fails the range test |
| `DiffApply.OverrunAccepted` | src/kernel.rs:685 | a diff that is not well formed and passes, given eight or four bytes of slack |
| `DiffApply.StopsThere` | src/kernel.rs:679-700 | there is at most one such prefix, and it is where the loop stops |
| `DiffApply.ComputeDiffSpan` | src/kernel.rs:755-791 | the span of a well-formed diff contains everything it writes and is attained at both ends; for every other diff, too, the result is determined: from the least start and the greatest end that its headers name, or a panic where these cannot be read or make no range |
| `DiffApply.FootprintSound` | src/kernel.rs:755-791 | everything a diff writes lies in its span, and applying it to that slice is applying it to the whole buffer |
| `Mirror.Mirror.GetMutRange` | src/mirror.rs:208-268 | a range is granted exactly when it is nonempty, inside the mirror and disjoint from all live ranges; live ranges stay disjoint |
| `Mirror.OverlapIsSharing` | src/mirror.rs:36-38 | the test for overlap tells exactly whether two ranges share a byte |
| `Mirror.Mirror.Release` | src/mirror.rs:40-46 | dropping a range removes it and no other |
| `Mirror.Mirror.Extend` | src/mirror.rs:271-317 | growing keeps the old contents and adds zeros |
| `Sharding.SplitEven` | src/util.rs:154-157 | both endpoints are hit and neighbouring split points are the quotient, or one more, apart |
| `Sharding.SplitMonotone` | src/util.rs:154-157 | split points never decrease |
| `Sharding.ShardSize` | src/mainloop.rs:2078-2159 | shards are nonempty and at most 4096 chunks |
| `Sharding.SplitDamage` | src/mainloop.rs:2078-2159 | the parts concatenate to the damage clipped to whole chunks, in order, cut only at chunk boundaries, each nonempty and at most 262144 bytes; the trailing bytes are included exactly when damaged; fewer than 2^15 parts |
| `Sharding.PartsAscend` | src/mainloop.rs:2078-2159 | regions of different parts are disjoint and ascending |
| `Damage.ProcessGroup` | src/damage.rs:50-150 | the heap sweep: always valid, aligned, covering damage; the budget is hit exactly when the work of the whole sweep exceeds an eighth of the group's length; if not, the result is the gap closure of all rows, and if so, the intervals of that closure up to one that is extended to the end of the group; at most `len/32 + 1` steps |
| `DamageSweep.StepCostIsLog` | src/damage.rs:135 | the cost of a step is the whole binary logarithm of the heap's size, or of sixteen if that is more |
| `DamageSweep.WithinBudgetSuffices` | src/damage.rs:130-145 | a budget for the dearest heap step at every piece is enough |
| `Intervals.ClosurePrefix` | src/damage.rs:136-144 | intervals that start later can only grow the last interval of a closure and add more behind it |
| `DamageSegments.ComputeDamagedSegments` | src/damage.rs:162-240 | aligned, separated, covers every byte of every pixel of every rectangle; put together from one part for each group, which is the gap closure of its rows or, over budget, that closure with its end filled in, after at most `len/32 + 1` steps; equal to the gap closure of all aligned rows whenever the work of every group is within its budget |
| `DamageSegments.AmpleBudget` | src/damage.rs:130-145 | a sufficient condition on the number of rows for every group to be within its budget |
| `DamageSegments.GroupRects` | src/damage.rs:191-223 | consecutive groups with tight spans, each going on for as long as the next rectangle joins it, too far apart to interact |
| `DamageSegments.GroupsUnique` | src/damage.rs:191-223 | there is only one such grouping of the sorted rectangles |
| `DamageRows.RowIsPixels` | src/damage.rs:75-110 | an aligned row consists of exactly the alignment units that hold a byte `offset + y * stride + x * bpp + b` of one of its pixels |
| `DamageRows.LineBytes` | src/damage.rs:82-84 | the bytes of the pixels of a line are those from its first to its last |
| `DamageRows.BoundingEnds` | src/damage.rs:17-47 | the span of a rectangle, from offset, stride and pixel size: it runs on to the line after the last, rounded outwards by less than a unit |
| `DamageRows.MergesIff` | src/damage.rs:74-79 | a rectangle is treated as one interval exactly when there are fewer bytes than the minimum gap between its lines |
| `DamageRows.MergedRowsClosure` | src/damage.rs:74-79 | when the gap between rows is too small to keep, one interval for the whole rectangle is the gap closure of its rows |
| `DamageSweep.PiecesAsRows` | src/damage.rs:50-150 | replacing such rectangles by one interval each does not change the closure of the whole group |
| `UnionDamage.UnionDamage` | src/damage.rs:246-299 | the merge loop computes the gap closure of both lists |
| `UnionDamage.UnionMeaning` | src/damage.rs:246-299 | what the merged list covers: both inputs and the gaps below the minimum, with endpoints taken from the inputs |
| `UnionDamage.UnionKeepsAlignment` | src/damage.rs:246-299 | aligned inputs give an aligned result |
| `UnionDamage.UnionCommutes` | src/damage.rs:246-299 | the order of the inputs does not matter |
| `UnionDamage.UnionAssociates` | src/damage.rs:246-299 | nor does the grouping of three |
| `UnionDamage.UnionIdempotent` | src/damage.rs:246-299 | merging a valid list with itself or with nothing gives it back if and only if no two of its intervals touch |
| `UnionDamage.TouchingAreJoined` | src/damage.rs:246-299 | a valid list for a minimum gap of zero that merging changes |
| `UnionDamage.ValidateOutput` | src/damage.rs:301-328 | accepts exactly the lists that are nonempty interval by interval, aligned, ascending and far enough apart |
| `Intervals.AbsorbClosure` | src/damage.rs:105-116 | growing the last interval or starting a new one keeps the gap closure of what was seen |
| `Intervals.ClosureUnique` | src/damage.rs:246-328 | a separated list with the right bytes is the closure: there is only one |
| `WireMsg.HeaderRoundTrip` | src/util.rs:169-206 | a header word is 32 times the length plus one of 24 types, and both are recovered from it |
| `WireMsg.FirstFrame` | src/read.rs:103-118 | the first frame of a stream in numbers: with a type below 24 and a length of four or more it has the least multiple of four not below that length; any other header word is bad |
| `WireMsg.FramesMore` | src/read.rs:173-201 | framing a stream piece by piece is framing it at once |
| `WireMsg.FramesConcat` | src/read.rs:173-201 | messages and rest make up the stream, and the rest holds no complete message |
| `WireMsg.FramesAreMessages` | src/read.rs:173-201 | every frame is exactly one complete message |
| `WireMsg.FramesOfConcat` | src/read.rs:173-201 | a concatenation of messages is cut back into them |
| `DiffMessage.ParseBuild` | src/mainloop.rs:2799-2808 | a diff message is one frame with its four words in place, diff and trailing bytes after them and zeros up to a multiple of four, and its parts read back as sent |
| `DiffMessage.BuildParse` | src/mainloop.rs:3215-3226 | whatever reads as a diff message is, up to its padding, the message for the parts read |
| `ReadBuffers.ReadStream` | src/read.rs:173-347 | however the stream is fragmented, the messages popped are those of the simple parser on the whole stream, and reading fails exactly when there is a bad header |
| `ReadBuffers.Session` | src/read.rs:203-352 | over any sequence of reads and pops: a read takes something whenever something is there and no bad header came before, a pop adds one view exactly when a message is left, and in the end each view still holds the frame it was issued for |
| `ReadBuffers.ReadBuffer.ReadMore` | src/read.rs:265-347 | one read: takes what is there up to a room that is never zero, keeps the framing of everything consumed, changes no byte of any view issued, fails exactly on a broken source or a bad header |
| `ReadBuffers.ReadBuffer.ReadWithPrevious` | src/read.rs:203-263 | the same while the last message of the previous chunk is being completed |
| `ReadBuffers.ReadBuffer.ExtractMessages` | src/read.rs:173-201 | queues every complete message and stops at an incomplete one or a bad header |
| `ReadBuffers.ReadBuffer.MoveTailToNew` | src/read.rs:149-171 | relocating the pending message keeps its bytes and every issued view |
| `ReadBuffers.ReadBuffer.MakeRoom` | src/read.rs:269-328 | the choice of chunk: kept while a message of 2^18 bytes fits behind the pending one; else completed before a new one of 2^20 bytes, or, when the pending message does not fit or its length is not known, replaced by one of 2^20 bytes or twice the message; afterwards at least one byte fits before the reserve, and the source's own assertions hold |
| `ReadBuffers.ReadBuffer.PopNextMsg` | src/read.rs:349-352 | hands over the next message: one complete message, the corresponding frame of the stream consumed |
| `ReadBuffers.ReadBuffer.WriteView` | src/read.rs:355-367 | writing through a popped view affects neither pending bytes nor any other view |
| `ReadBuffers.ReadBuffer.Refines` | src/read.rs:32-43 | in every valid state the issued views, in order, and the pending bytes are the framing of all bytes consumed, and no two views ever issued overlap |
| `CKernel.RunIntervalDiff` | waypipe-c/kernel.c:36-99 | for every range and window: the base becomes the modified contents, the diff encodes records that explain exactly that, records further apart than half the window and each needed; every record begins and ends with a changed word and spans no unchanged stretch of more than half the window; at most `len + 8` bytes, the lone last word neither missed nor repeated |
| `CKernel.ConstructDiffCore` | waypipe-c/kernel.c:171-186 | the same over a list of intervals, with a window of 24 words |
| `CKernel.ConstructDiffTrailing` | waypipe-c/kernel.c:187-208 | for every alignment: trailing bytes are emitted exactly when they changed, and are up to date afterwards |
| `CKernel.ApplyDiffBoth` | waypipe-c/kernel.c:209-242 | succeeds exactly when some prefix of the diff that exceeds the records' part by at most four bytes is well formed and in range; then both targets have exactly the effect of that prefix and the tail, otherwise that of the records before the first that does not fit, and an error is returned exactly when its header fails the range test |
| `CKernel.OverrunAcceptedBoth` | waypipe-c/kernel.c:222-223 | a diff that is not well formed and passes this test, for targets of four bytes |
| `CKernel.ReplicateBuffer` | waypipe-c/kernel.c:171-242 | diff and replay together: base and both targets agree, new on the damaged intervals and the tail, unchanged elsewhere |
| `MergeStack.StreamMerge` | waypipe-c/interval.c:41-79 | for every margin the sentinel merge of two runs is sorted, covers their gap closure and takes its endpoints from them; with a positive margin it is their gap closure |
| `MergeStack.FixMergeStackProperty` | waypipe-c/interval.c:81-119 | merges the two topmost runs for exactly as long as the upper is more than half as long as the other, or it is forced; then halving holds, or one run is left; the runs still represent everything put in, and what is counted as absorbed is what the runs have become shorter by |
| `MergeStack.UnpackExtInterval` | waypipe-c/interval.c:121-146 | the rounded rows with touching ones joined |
| `MergeStack.StackFits` | waypipe-c/interval.c:157-163 | halving runs of disjoint intervals never need more than 31 slots before a push |
| `MergeStack.MergeMergesort` | waypipe-c/interval.c:152-241 | for any number of inputs the 32 slots suffice; exactly the old list and the pieces of each valid new interval go in; an interval is compacted by force exactly when more than 30000 intervals have been absorbed or fewer than a tenth of those put in are left, both counted from the runs; the result is sorted, disjoint, covers all that went in and otherwise only gaps below the margin |
| `MergeExact.NothingForced` | waypipe-c/interval.c:193-209 | as long as the inputs lie at least the margin apart none is compacted by force, nor is the next one, and the runs hold each of them once |
| `MergeExact.SpacedExact` | waypipe-c/interval.c:152-241 | for such inputs inside the index range the result is the gap closure of the old list and all rounded rows |
| `MergeStack.UnforcedExact` | waypipe-c/interval.c:190-215 | the pieces of an interval inside the index range that is not compacted by force: its rounded rows, and otherwise only gaps below the margin between them |
| `CopyRegions.MakeCopyRegions` | src/dmabuf.rs:2957-3084 | a pixel is in some region exactly when all its bytes are in some segment, at the buffer position of those bytes, inside the image and never in row padding, and never twice for disjoint segments; no region is empty |
| `CopyRegions.DisjointIsNoSharing` | src/dmabuf.rs:2983 | what the planner assumes: no two segments share a byte of the view |
| `CopyRegions.SegmentRegions` | src/dmabuf.rs:2982-3081 | the same for one segment, with its regions in ascending rows |
| `CopyRegions.SeveralRows` | src/dmabuf.rs:3035-3081 | a segment over several rows: first part, whole rows, last part; the assertion on the middle rows holds |
| `Codec.MessageRoundTrip` | protogen.py:272-466 | for every signature: what the writer emits has the computed length, a multiple of four, and parses to the same arguments with nothing left over; id, length and opcode are recovered whatever the descriptor tag |
| `Codec.AcceptedMessage` | protogen.py:370-466 | whatever the parser accepts has the length computed for its arguments, and writing them again parses to the same |
| `Codec.ArgWritten` | protogen.py:226-269 | for every argument type the generated length is the length of what the generated writer writes |
| `Codec.ArgBytes` | protogen.py:312-367 | the bytes of each type of argument: words, two's complement words, strings and arrays with length, contents and zeros, a generic new id as string and two words, nothing for a descriptor |
| `Codec.StringRoundTrip` | src/wayland.rs:91-114 | every nullable string reads back, so null and empty stay distinct |
| `Codec.ArrayRoundTrip` | src/wayland.rs:101-179 | every array reads back and leaves the rest of the message |
| `Codec.HeaderRoundTrip` | src/wayland.rs:84-158 | id, length and opcode survive the header, whatever the number of tagged descriptors, which stands in the five bits between them |
| `Codec.PutMessage` | protogen.py:297-367 | the in-place writer stores exactly the message at the cursor and advances by its length; the header has object, length and opcode, and between them the number of descriptors among the arguments if they are tagged, else zero |

## Where code and comments differ

- The range tests at src/kernel.rs:685 and waypipe-c/kernel.c:222-223 leave out the record header,
  wholly or by half, so a last record may run up to eight or four bytes on into the trailing bytes.
  The contracts of `DiffApply.ApplyDiffOne` and `CKernel.ApplyDiffBoth` say exactly which diffs
  are accepted, and `DiffApply.OverrunAccepted` gives one that is not well formed.
- src/mirror.rs:223-227 records a range before testing it against the size, so a refused range can
  stay recorded; the contract of `Mirror.Mirror.GetMutRange` says so.

## Left out

- CKernel.ConstructDiffCore: the portable kernel with its 8-byte words only; the vector kernels that can stand in for it have their own alignments.
- Receive.ApplyMessage: does not say which of the messages that carry no well-formed diff in range are refused.
- DamageSegments.ComputeDamagedSegments: machine-word saturation and overflow of byte offsets is not modelled, positions are unbounded.
- MergeStack.MergeMergesort: 32-bit wrap-around in rounding an end up past the largest index is not modelled; failed allocations are left out.
- CopyRegions.MakeCopyRegions: 32-bit wrap-around of buffer offsets is not modelled.
- Codec.PutMessage: nullable strings as arguments are outside the model; the generator's branch for them (protogen.py:348) stands beside a length computed for plain strings. The reading and writing of the field itself is covered.
- Replica.RunConverges: files of fixed size, writable, updated from one side, sent without compression, in runs without errors; messages of other types are taken not to write to these files.
- Extending a file while updates to it are pending, and updates from both sides at once.
- LZ4 and Zstd, sockets, polling, signals, process handling and command lines.
- The reading of memory that another process changes: every task takes one snapshot.
- SIMD instructions as such: a kernel is a rule for counting unchanged words at the ends of a line, and the AVX2 rule is what its masks compute.
- Vulkan, GBM, video encoding, and the fast path that copies to an image before updates are ordered.
- Object tracking and protocol handling of Wayland messages, and the acknowledgement counting in the channel writer.
- `stride_shifted_copy` of the C implementation, which would repeat the row arithmetic of the copy planning.
- Uninitialised memory and reference counts of read chunks: a chunk lives as long as anything refers to it.
