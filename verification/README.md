# Kernel exercises: a verified model

The repository is a set of operating-system exercises. This project models the four programs
in it whose behaviour depends on state built up over many steps, and proves what they keep.

**Two-node shared memory** (`s2dsm.c`). Two processes share pages under an M/S/I protocol. Each
has a main thread with `r` and `w` commands and a responder thread for the peer's requests; one
connection joins each main to the other's responder.
`Protocol` is the transition system: both mains, both responders, both connections, and a log
of completed writes and reads. A list of moves is a schedule, so a theorem about
`Run(Init(n), moves)` speaks of every interleaving of every sequence of commands.
`Matching` holds with no discipline on the commands; `Coherence` and most of `Progress` assume the
page discipline (no write to a page overlaps another operation on that page, an operation being
one loop iteration); `Starvation` says exactly when a command finishes without it; `Witnesses`
gives schedules on which the guarantees fail without it, for two writes and for a read and a
write, and the one message, `"NULL"`, for which a fetched read fails even with it.
`PageBytes`, `SharedNode`, `Numerals` and `Wire` carry the same protocol down to array stores,
byte loops, C strings and the texts on the wire. `Commands` says what whole commands do when
they run one at a time, and `Schedules` proves each such command to be one schedule of the
transition system. `Processes` carries out any schedule at all, step by step, on the real arrays
of two processes, so that what is proved of every interleaving holds of the bytes.

**CPU-time profiler** (`perftop.c`). Each scheduling event closes an interval in a hash table,
re-keys a node of a search tree ordered by total but searched by pid, and opens another
interval. `SearchTree` (nodes linked in place), `IntervalTable` (chained buckets) and `Profiler`
are the module's own loops; `ProfilerModel` is what one event does, next to an account of the
same events that uses neither table nor tree; `ProfilerTheorems` relates the two for every
sequence of events.

**Data-structure exercises** (`kds.c`): `TreeExercise`, `ListParser`, `Bitmap`.
**Demand paging** (`uffd.c`): `DemandPaging`.

Four of the results say that the code does not always do what it is for, and exactly when it
does: a page whose text is `"NULL"` cannot be fetched (`Coherence.ReadsShowLastWrite`); a pid whose
time comes to exactly another's loses its total, and short of that all totals are exact
(`ProfilerTheorems.ExactUnlessTied`); the list parser stores past its array when the text is
empty or ends in a space (`ListParser.ConvertStrToIntegers`); and a command that runs outside the
page discipline fails to finish exactly when a page handed out to it is found empty as the reply
is formatted (`Starvation.FinishedIffNeverFormattedEmpty`).

Hypotheses. Messages are free of NUL and shorter than a page; those typed at the prompt are not
empty (`scanf` never yields an empty one). There are 1 to 99 pages, because the state array has
100 entries and its initialisation fills one past the last page (`s2dsm.c:127`). The shared
memory is smaller than 2^31 bytes, since offsets are ints. Messages are delivered whole and in
order on each connection, and `communicateWithPeer` gives its caller the reply by value.
Profiler timestamps are positive, below 2^64 and never go back.

## Model

| member | source | states |
|---|---|---|
| Coherence.ReadsShowLastWrite | Assignment 3 User faults/Part 3/s2dsm.c:65-124 | In every disciplined interleaving of the two mains and two responders, the text shown by each completed read of a page, and by each print after a write that finds the page valid, equals the message of the last completed write to the page by either node (empty if none) if and only if it is not a fetch of a page whose message reads "NULL", which shows nothing |
| Protocol.PromptTakes | Assignment 3 User faults/Part 3/s2dsm.c:312-330 | In every reachable state and at either node, a prompt takes a read, or a write of a non-empty message, of any one page or of all of them (-1), which puts that main on page q, or on the first of all the pages, and changes nothing else |
| Protocol.PromptTakesOnly | Assignment 3 User faults/Part 3/s2dsm.c:312-330 | And it takes nothing else |
| Coherence.FreeToInterleave | Assignment 3 User faults/Part 3/s2dsm.c:114-122 | The page discipline leaves free mains between iterations, operations on different pages, and reads of one page by both; between iterations and at the prompt no page is being operated on |
| Coherence.OverlapMeans | Assignment 3 User faults/Part 3/s2dsm.c:114-122 | What it forbids is exactly a write of some page by one node during an operation on that page by the other |
| Coherence.SoloIsDisciplined | Assignment 3 User faults/Part 3/s2dsm.c:312-337 | With commands at one node only, every schedule keeps the discipline |
| Coherence.SingleWriterAgreeingReaders | Assignment 3 User faults/Part 3/s2dsm.c:354-405 | In every disciplined run, while no operation on a page is in progress: M at one node means I at the other, every copy that is not I holds the last message written, and a page once written is valid at one node at least |
| Coherence.CoherentAlways | Assignment 3 User faults/Part 3/s2dsm.c:99-124 | The invariant behind both, covering every intermediate step of reads, writes and invalidations, holds after every disciplined run |
| Coherence.ServeKeepsPage | Assignment 3 User faults/Part 3/s2dsm.c:367-405 | No step of a responder breaks the page invariant, whether it serves that page or another |
| Coherence.AdvanceKeepsPage | Assignment 3 User faults/Part 3/s2dsm.c:65-124 | No step of a main breaks the page invariant, the last write being replaced when an invalidation is acknowledged |
| Matching.MatchedAlways | Assignment 3 User faults/Part 3/s2dsm.c:46-63 | In every interleaving, with no discipline, at most one of a connection's two directions or the peer's responder carries a main's current request, and nothing is under way for a main that is not waiting |
| Matching.ReplyMatchesRequest | Assignment 3 User faults/Part 3/s2dsm.c:46-63 | In every interleaving each connection holds at most one message, and the reply a main consumes answers its own latest request: same page, same operation, same serial number, and "Success" for an invalidation |
| Matching.TwoMsOnlyWhilePending | Assignment 3 User faults/Part 3/s2dsm.c:99-110 | In every interleaving, with no discipline, M at both nodes means that one of them is writing the page, has stored M, and its peer has not yet applied its invalidation |
| Matching.OneMWhenSettled | Assignment 3 User faults/Part 3/s2dsm.c:99-110 | With no write to the page under way at most one node is M |
| Progress.WorkIsBounded | Assignment 3 User faults/Part 3/s2dsm.c:46-63 | In every interleaving, with no discipline, the steps that do not start a command each lower a measure of pages left and of the place in the exchange, so only so many can follow any reachable state |
| Progress.NeverStuck | Assignment 3 User faults/Part 3/s2dsm.c:367-405 | In every disciplined run with an unfinished command, some step other than starting a command is enabled and keeps the discipline, even with both mains blocked in read |
| Progress.CommandsFinish | Assignment 3 User faults/Part 3/s2dsm.c:312-337 | Every disciplined run can be carried on, without a new command and within the measure, to both mains being back at the prompt |
| Progress.NothingLeftMeansFinished | Assignment 3 User faults/Part 3/s2dsm.c:312-337 | Every disciplined run that no step but the start of a command can carry on within the discipline has both mains at the prompt |
| Starvation.StarvedIffFormattedEmpty | Assignment 3 User faults/Part 3/s2dsm.c:396-402 | In every interleaving, with no discipline, the reply a main waits for will not come if and only if at some step the peer's responder, having decided to hand the page out, found it empty as it formatted it |
| Starvation.BusyCanMove | Assignment 3 User faults/Part 3/s2dsm.c:367-405 | With no discipline, as long as that has not happened to it a busy main can move, or the responder that serves it can |
| Starvation.FinishedIffNeverFormattedEmpty | Assignment 3 User faults/Part 3/s2dsm.c:312-337 | With no discipline, when neither thread can move a command on any more the main is back at its prompt if and only if that never happened |
| Starvation.UnfinishedForever | Assignment 3 User faults/Part 3/s2dsm.c:402-402 | Otherwise it is in a read, and stays there under every continuation |
| Starvation.RunOut | Assignment 3 User faults/Part 3/s2dsm.c:312-337 | With no discipline, from any reachable state, within the measure and without a new command, a run comes to where no thread can move |
| Starvation.DisciplineFeeds | Assignment 3 User faults/Part 3/s2dsm.c:396-398 | Under the page discipline no page is ever formatted empty |
| Progress.LostForever | Assignment 3 User faults/Part 3/s2dsm.c:402-402 | Such a main stays blocked under every continuation |
| Witnesses.OverlapLosesWrite | Assignment 3 User faults/Part 3/s2dsm.c:112-124 | Without the discipline: a schedule of two overlapping writes after which, with no operation on the page, the M node holds an empty page though "y" was written last |
| Witnesses.OverlapBlocksReader | Assignment 3 User faults/Part 3/s2dsm.c:402-402 | The same carried on: a reader is sent zero bytes and stays blocked under every continuation of the schedule |
| Witnesses.OverlapKeepsStaleCopy | Assignment 3 User faults/Part 3/s2dsm.c:80-83 | A schedule of a read overlapping a write: the reader stores S after its responder has served the invalidation, leaving M and a stale S with nothing under way, and a read that showed the older message |
| Witnesses.NullMessageIsMisread | Assignment 3 User faults/Part 3/s2dsm.c:81-90 | A disciplined schedule in which a written message "NULL" is shown as empty by the other node |
| Schedules.WriteCommandIsASchedule | Assignment 3 User faults/Part 3/s2dsm.c:323-330 | From any matched state with one main at its prompt, a write of a message to page q, or to all pages (-1), is taken and has a schedule without the other main that ends at the prompt, with exactly the target pages M with the message here and I and empty there, every other page as it was, and a write and then a print of the message logged for each target page in order |
| Schedules.ReadCommandIsASchedule | Assignment 3 User faults/Part 3/s2dsm.c:320-321 | The same of a read of page q or of all pages: it is taken and ends with the caches and texts of `ReadPages`, back at the prompt if every page was shown, else blocked under every continuation on the page whose reply never comes |
| Schedules.WriteIsASchedule | Assignment 3 User faults/Part 3/s2dsm.c:112-124 | The nine steps of one write iteration (copy, store M, send, serve, acknowledge) add up to `WritePage` |
| Schedules.ReadIsASchedule | Assignment 3 User faults/Part 3/s2dsm.c:68-95 | The steps of one read iteration add up to `ReadPage`, whether the page is valid here, fetched, refused, skipped or never answered |
| Schedules.Answering | Assignment 3 User faults/Part 3/s2dsm.c:386-402 | The responder's separate steps for one request add up to the whole answer that `SharedNode` gives |
| Commands.WritePagesEffect | Assignment 3 User faults/Part 3/s2dsm.c:112-124 | A write of one page or all leaves exactly the target pages M with the message here and I and empty there, and every other page of both nodes as it was |
| Commands.ReadPagesEffect | Assignment 3 User faults/Part 3/s2dsm.c:65-97 | A read shows this node's valid text, else the peer's valid text, else nothing; both end S after a fetch; a valid page reading "NULL" is treated as none; the print after a write shows valid text here, else nothing, and changes nothing; at a page whose read stalls only the peer goes to S, and pages outside the range or further on keep |
| Commands.ReadStopsAtStall | Assignment 3 User faults/Part 3/s2dsm.c:53-53 | A read gets exactly as far as the first page that is I here and valid but empty at the peer, whose empty reply never comes |
| Commands.WriteThenRead | Assignment 3 User faults/Part 3/s2dsm.c:65-124 | Writing pages and reading them at the writer or at the peer shows the message on each, except "NULL" fetched at the peer |
| Commands.WriteThenEcho | Assignment 3 User faults/Part 3/s2dsm.c:329-330 | The print after a write shows the message for every page written and changes nothing |
| SharedNode.Node.constructor | Assignment 3 User faults/Part 3/s2dsm.c:302-302 | A new node has every page I and empty |
| SharedNode.Node.FillWithInvalid | Assignment 3 User faults/Part 3/s2dsm.c:126-130 | Sets entries 0 to num_pages inclusive to I and no other |
| SharedNode.Node.StoreMessage | Assignment 3 User faults/Part 3/s2dsm.c:115-119 | The byte loop puts the message and a NUL at page * page_size, whatever bytes the page held, and changes no other byte; the page's C string becomes the message and every other page's keeps |
| SharedNode.Node.Discard | Assignment 3 User faults/Part 3/s2dsm.c:85-88 | Dropping a page makes its text empty, keeps all other texts and changes no byte outside the page |
| SharedNode.Node.ReadText | Assignment 3 User faults/Part 3/s2dsm.c:69-69 | %s yields the bytes from page * page_size up to the first NUL, and stops within the page |
| SharedNode.Node.TransitionStateOnRead | Assignment 3 User faults/Part 3/s2dsm.c:342-352 | M becomes S, nothing else changes |
| SharedNode.Node.GetResponse | Assignment 3 User faults/Part 3/s2dsm.c:354-365 | Hands out the page exactly when it was M or S, and turns M into S |
| SharedNode.Node.Respond | Assignment 3 User faults/Part 3/s2dsm.c:380-402 | From the bytes received to the bytes sent, on arrays, the responder does what `Commands.Answered` says, and changes no byte outside the page, none at all for a read |
| SharedNode.Node.CommunicateWithPeer | Assignment 3 User faults/Part 3/s2dsm.c:46-63 | Printing the request and having the peer parse and answer it has the effect and reply of the whole answer; the reply never comes if and only if it is empty |
| SharedNode.Node.TransitionStateOnWrite | Assignment 3 User faults/Part 3/s2dsm.c:99-110 | The page is M here and answered with an invalidation there |
| SharedNode.Node.WriteRange | Assignment 3 User faults/Part 3/s2dsm.c:114-123 | The write loop on arrays over a range of pages refines `Commands.WritePages` and touches no byte of either node outside it |
| SharedNode.Node.UpdatePageContents | Assignment 3 User faults/Part 3/s2dsm.c:112-124 | For each page p: if requestPage is -1 or p, it is M with the message here and I and empty there; else state and text of both nodes are as before; for a single page no byte outside it changes in either node |
| SharedNode.Node.PrintPage | Assignment 3 User faults/Part 3/s2dsm.c:69-95 | One iteration of the read loop on arrays refines `Commands.ReadPage`, the read that never comes back included |
| SharedNode.Node.ReadRange | Assignment 3 User faults/Part 3/s2dsm.c:68-96 | The read loop on arrays over a range of pages refines `Commands.ReadPages`, as far as it gets |
| SharedNode.Node.PrintPageContents | Assignment 3 User faults/Part 3/s2dsm.c:65-97 | For each page p: if requestPage is -1 or p, what is shown of it, and its state and text at both nodes, are as told page by page, up to the first page whose read stalls; every other page is as before; no byte outside a single page changes here and none there |
| SharedNode.WriteHereReadThere | Assignment 3 User faults/Part 3/s2dsm.c:312-337 | A write command at one node and a read command at the other, on the real arrays and wire texts, show the message on every page named |
| SharedNode.Node.StoreState | Assignment 3 User faults/Part 3/s2dsm.c:388-388 | Stores one page's state and nothing else |
| Processes.Process.AdvanceOnBytes | Assignment 3 User faults/Part 3/s2dsm.c:65-124 | A main's next step on the real arrays does what the transition system's step does |
| Processes.Process.ServeOnBytes | Assignment 3 User faults/Part 3/s2dsm.c:367-405 | A responder's next step on the real arrays does what the transition system's step does |
| Processes.RunOnBytes | Assignment 3 User faults/Part 3/s2dsm.c:312-405 | Two processes with real arrays carry out any schedule of both mains and both responders and stand exactly where `Run` does, with its log |
| Processes.RunDisciplined | Assignment 3 User faults/Part 3/s2dsm.c:65-124 | After any disciplined schedule every read shown is the last completed write, "NULL" fetched excepted, and on every page with no operation under way the bytes of each valid copy spell that write, with one writer or agreeing readers |
| PageBytes.StoreText | Assignment 3 User faults/Part 3/s2dsm.c:115-119 | Message and NUL over the start of a page change that page's C string to the message and no other page's, whatever bytes were there, with a NUL or without |
| PageBytes.DiscardText | Assignment 3 User faults/Part 3/s2dsm.c:389-392 | Zeroing one page's bytes empties its C string and no other |
| Wire.RequestRoundTrip | Assignment 3 User faults/Part 3/s2dsm.c:380-384 | strtok and atoi recover page and operation from "%d-%d" without their signs, so exactly if and only if neither is negative |
| Wire.RequestTexts | Assignment 3 User faults/Part 3/s2dsm.c:49-49 | A read request is the page number, a dash and 1; an invalidation ends in 2 |
| Wire.AtoiSigned | Assignment 3 User faults/Part 3/s2dsm.c:382-384 | atoi skips white space of any kind and obeys a sign |
| Wire.OneTokenIsNone | Assignment 3 User faults/Part 3/s2dsm.c:383-384 | A buffer without a dash is no request: the second token is missing |
| Wire.HandshakeRoundTrip | Assignment 3 User faults/Part 3/s2dsm.c:233-257 | The second node recovers the address and num_pages * page_size modulo 2^64 always, and the number of pages if and only if the product is below 2^64 |
| Wire.StrtoulDecimal | Assignment 3 User faults/Part 3/s2dsm.c:251-251 | Base-0 strtoul reads a printed decimal as decimal, having no leading zero |
| Wire.StrtoulHex | Assignment 3 User faults/Part 3/s2dsm.c:251-251 | Base-0 strtoul reads digits after 0x as hexadecimal |
| Wire.StrtoulOctal | Assignment 3 User faults/Part 3/s2dsm.c:251-251 | And digits after a leading 0 as octal |
| Wire.StrtoulSaturates | Assignment 3 User faults/Part 3/s2dsm.c:251-251 | A number of 2^64 or more reads as the largest unsigned long |
| Wire.ScanPrinted | Assignment 3 User faults/Part 3/s2dsm.c:257-257 | %p reads a printed pointer back |
| Wire.ScanBare | Assignment 3 User faults/Part 3/s2dsm.c:257-257 | Also without its 0x |
| Wire.PagesRecovered | Assignment 3 User faults/Part 3/s2dsm.c:253-253 | len / page_size gives num_pages back exactly when the product fits the word |
| ProfilerTheorems.TotalsAreBounded | Assignment 4 Profiler/Part 2/perftop.c:218-232 | After any events an open pid's total is at most its switch-in time less the first timestamp, a closed pid's at most the last less the first, and the next closing's sum + curr - old modulo 2^64 is the true total even when sum + curr wraps |
| ProfilerTheorems.TwoWayIndex | Assignment 4 Profiler/Part 2/perftop.c:109-175 | After any events the walk strictly ascends by total and holds each pid at most once, so the scan by pid finds the key of the pid's only node, 0 if it has none |
| ProfilerTheorems.TimeIsConserved | Assignment 4 Profiler/Part 2/perftop.c:213-236 | After any events the totals in the tree plus the totals dropped for a taken key equal the time of all closed intervals, overall and for each pid |
| ProfilerTheorems.ExactUnlessTied | Assignment 4 Profiler/Part 2/perftop.c:109-121 | After any events every pid's total is the sum of its own closed intervals if and only if no event, as it closed an interval, brought its pid's time, not 0, to exactly the time of another pid: a condition on the events alone |
| ProfilerTheorems.ATieDropsATotal | Assignment 4 Profiler/Part 2/perftop.c:119-120 | Three switches after which a pid that ran for 5 has total 0 because another pid also has 5 |
| ProfilerTheorems.TableAgrees | Assignment 4 Profiler/Part 2/perftop.c:47-106 | After any events the table holds exactly the pids switched in and not out since, with their latest switch-in times, all within the first and last timestamps |
| ProfilerTheorems.SwitchesAccountedFor | Assignment 4 Profiler/Part 2/perftop.c:218-234 | The post count is the number of events, and the switch count equals open entries plus closed intervals plus entries overwritten by a repeated switch-in |
| ProfilerTheorems.SwitchEntries | Assignment 4 Profiler/Part 2/perftop.c:218-233 | A switch from prev to next stores the time for next, drops an open prev, and leaves every other pid's entry |
| ProfilerTheorems.SwitchTotals | Assignment 4 Profiler/Part 2/perftop.c:222-231 | It adds the interval closed, modulo 2^64, to the total of prev, which is lost if another pid has exactly that total, and leaves every other pid's total |
| ProfilerModel.WithoutPidMembers | Assignment 4 Profiler/Part 2/perftop.c:128-140 | What removal leaves is every node of another pid and no node of this one |
| Profiler.LookupTotal | Assignment 4 Profiler/Part 2/perftop.c:166-175 | The scan loop returns the first total of the pid on the walk, else 0 |
| Profiler.RemoveTotal | Assignment 4 Profiler/Part 2/perftop.c:128-140 | The erasing scan leaves the walk without the pid's nodes, in order |
| Profiler.AddToTotal | Assignment 4 Profiler/Part 2/perftop.c:225-229 | Re-keys a pid's node: removed with the old total, inserted with the sum modulo 2^64 unless that key is taken |
| Profiler.Perftop.constructor | Assignment 4 Profiler/Part 2/perftop.c:43-45 | The module starts with nothing open, no totals and both counts 0 |
| Profiler.Perftop.CloseInterval | Assignment 4 Profiler/Part 2/perftop.c:220-231 | On the linked tree and the chained table, closes an open interval as `ProfilerModel.Close` does, and does nothing for an absent pid |
| Profiler.Perftop.ReturnHandler | Assignment 4 Profiler/Part 2/perftop.c:213-236 | With both tasks present and different: the table holds now for next's pid, an open prev is gone from it, no other entry changes, only prev's total changes and by the interval closed, and both counters go up; otherwise only the post count does. It is `ProfilerModel.Step` on the event seen |
| Profiler.Perftop.PrintTree | Assignment 4 Profiler/Part 2/perftop.c:142-156 | The reverse walk with its counter emits the last ten entries of the walk, or all |
| Profiler.ReportIsTopTen | Assignment 4 Profiler/Part 2/perftop.c:142-156 | The report has min(10, size) entries of the tree in strictly falling total, and every entry left out is below every one listed |
| Profiler.ReportIsBusiest | Assignment 4 Profiler/Part 2/perftop.c:142-156 | After timed events without a tie the report gives true CPU times, strictly falling, and every pid left out has none, or less than each of ten listed |
| Profiler.CallTimeIsCpuTime | Assignment 4 Profiler/Part 2/perftop.c:213-236 | The time a pid spends between being the next task and then the previous one, over the calls themselves, is the CPU time of the events they stand for |
| Profiler.TimedIff | Assignment 4 Profiler/Part 2/perftop.c:218-219 | The calls have positive 64-bit times that never go back exactly when the events do |
| Profiler.TieFreeIff | Assignment 4 Profiler/Part 2/perftop.c:119-120 | No call brings its previous task's time to another pid's exactly when no event ties |
| Profiler.WatchAndReport | Assignment 4 Profiler/Part 2/perftop.c:180-186 | For any hash function and any sequence of returns with timed switches and no tie, the report lists, falling, the pids with the most time between being next and then prev, with their true times; in any case it is that of the events' profile |
| IntervalTable.Table.Lookup | Assignment 4 Profiler/Part 2/perftop.c:47-56 | Returns the map's value for the pid, 0 if absent, for any hash function |
| IntervalTable.Table.Remove | Assignment 4 Profiler/Part 2/perftop.c:58-69 | Removes the pid from the map and keeps one node a pid |
| IntervalTable.Table.Insert | Assignment 4 Profiler/Part 2/perftop.c:97-106 | Sets the pid's time in the map, replacing an older node |
| SearchTree.Tree.Insert | Assignment 4 Profiler/Part 2/perftop.c:109-126 | The pointer descent links the node at the one place that keeps the walk ascending, or reports that the key is taken and changes nothing |
| SearchTree.Tree.Descend | Assignment 2 Kernel Data Structures/kds.c:41-53 | The loop over child pointers terminates, and stops at the key or under the node where it belongs |
| SearchTree.Tree.Link | Assignment 2 Kernel Data Structures/kds.c:54-56 | Setting the one link at the end of the descent gives a well-formed tree with exactly one more node |
| SearchTree.Tree.Lookup | Assignment 2 Kernel Data Structures/kds.c:61-76 | Returns the number if and only if some node of the tree holds it, else -1 |
| SearchTree.Tree.Entries | Assignment 2 Kernel Data Structures/kds.c:78-89 | The rb_first / rb_next walk lists the nodes in order |
| SearchTree.GraftInsertsInOrder | Assignment 2 Kernel Data Structures/kds.c:41-59 | For any shape of tree, adding a leaf where the descent ends is insertion into the ascending walk |
| SearchTree.FindsIffInWalk | Assignment 2 Kernel Data Structures/kds.c:61-76 | For any shape of tree the descent finds a key if and only if it is in the walk |
| SearchTree.LinkedGraft | Assignment 2 Kernel Data Structures/kds.c:54-56 | One changed link turns the tree linked as a shape into one linked as the grafted shape |
| Ordered.InsertAbsent | Assignment 4 Profiler/Part 2/perftop.c:109-126 | A new key splits the walk into the smaller keys before it and the larger after it |
| TreeExercise.InsertedSorts | Assignment 2 Kernel Data Structures/kds.c:110-115 | After inserting any array the walk is strictly increasing and holds exactly the array's values |
| TreeExercise.InsertAll | Assignment 2 Kernel Data Structures/kds.c:103-115 | Each print, before and after each insertion, is strictly ascending and holds exactly the values inserted so far |
| TreeExercise.LookupAll | Assignment 2 Kernel Data Structures/kds.c:117-123 | Reports as not found exactly the negative values, as often as they occur, though they are in the tree |
| TreeExercise.RunRedBlackTrees | Assignment 2 Kernel Data Structures/kds.c:103-127 | Both loops on one tree, for any array |
| ListParser.CountIntegers | Assignment 2 Kernel Data Structures/kds.c:433-440 | Counts the fields, the last one only if it is not empty |
| ListParser.ConvertStrToIntegers | Assignment 2 Kernel Data Structures/kds.c:412-423 | Every entry gets its field's value in C int arithmetic, and the last store is out of bounds if and only if the text is empty or ends in a space |
| ListParser.ReadBack | Assignment 2 Kernel Data Structures/kds.c:412-449 | Any non-empty list of non-negative ints printed with single spaces is counted and read back entry by entry, all stores in bounds |
| ListParser.FieldsOfJoin | Assignment 2 Kernel Data Structures/kds.c:433-449 | The fields of a joined list are the printed numbers |
| ListParser.ValueOfNumeral | Assignment 2 Kernel Data Structures/kds.c:418-418 | Summing up the digits of a printed int in wrapping arithmetic gives the int back |
| ListParser.Wrap | Assignment 2 Kernel Data Structures/kds.c:418-418 | The int arithmetic of the parser: the result is the 32-bit int congruent to the exact value |
| Bitmap.SetBits | Assignment 2 Kernel Data Structures/kds.c:225-234 | Halving sets exactly the bits of the value's binary expansion, none past bit 30 |
| Bitmap.FillBitmap | Assignment 2 Kernel Data Structures/kds.c:221-235 | The bitmap is the union of the values' binary expansions |
| Bitmap.RunBitmap | Assignment 2 Kernel Data Structures/kds.c:217-239 | The bits printed are, ascending, exactly those b below 10 for which some positive value has (n / 2^b) % 2 = 1 |
| Bitmap.ShownBitsSum | Assignment 2 Kernel Data Structures/kds.c:237-239 | The powers of two of the bits shown for one value sum to it if and only if it is below 1024 |
| Bitmap.AllBitsShown | Assignment 2 Kernel Data Structures/kds.c:228-239 | The halving loops set only bits that are shown if and only if every value is below 1024 |
| Bitmap.BitsSumToRemainder | Assignment 2 Kernel Data Structures/kds.c:228-234 | The powers of two of a value's bits below b sum to the value modulo 2^b |
| DemandPaging.MaskIsPageStart | Assignment 3 User faults/Part 1-2/uffd/uffd.c:128-129 | For any power-of-two page size, address & ~(page_size - 1) is the start of the page holding the address |
| DemandPaging.PlacedAtAnyPage | Assignment 3 User faults/Part 1-2/uffd/uffd.c:213-213 | The region may be any range of whole pages of the 64-bit address space |
| DemandPaging.MaskedPage | Assignment 3 User faults/Part 1-2/uffd/uffd.c:128-129 | The masked address of an access anywhere in the region is the start of the page accessed |
| DemandPaging.Region.Fault | Assignment 3 User faults/Part 1-2/uffd/uffd.c:120-132 | The handler, going by the masked address, fills the page accessed and no other with 'A' + fault_cnt % 20, and counts one fault |
| DemandPaging.Region.Touch | Assignment 3 User faults/Part 1-2/uffd/uffd.c:120-132 | An access to a missing page fills that page alone with the next letter and counts one fault; a present page is left as it is |
| DemandPaging.Region.DropAll | Assignment 3 User faults/Part 1-2/uffd/uffd.c:288-290 | Every page becomes missing |
| DemandPaging.Region.ReadPass | Assignment 3 User faults/Part 1-2/uffd/uffd.c:256-262 | A pass of reads faults once on each missing page, in order, and sees at every address the letter of that page |
| DemandPaging.Region.WritePass | Assignment 3 User faults/Part 1-2/uffd/uffd.c:326-332 | A pass of writes faults once on each missing page and leaves the character everywhere |
| DemandPaging.Demonstrate | Assignment 3 User faults/Part 1-2/uffd/uffd.c:255-378 | For any number n of pages, power-of-two page size of at least 1024 and place of the region: at address l passes 1-2 print 'A' + (l / page_size) % 20, passes 3-4 'A' + (n + l / page_size) % 20, 5-6 '@', 7-8 '^', each at every 1024th address, and there are 3n faults |

## Left out

- Messages split or merged by TCP, closed connections, and the dangling buffer that `communicateWithPeer` returns (`s2dsm.c:61-62`).
- The address hint given to the second node's `mmap` (`s2dsm.c:258`): each node's pages are addressed from its own start.
- Socket set-up, `poll`, `ioctl`, thread creation, prompts and informational printing; `madvise` and the shared-memory fault handler appear as "the next touch of the page finds zeros".
- In `Protocol`, copying a message into a page, formatting a page and formatting a reply are each one step; a byte loop interleaved with the other thread's access to the same page is not modelled. The load and store inside `getResponse` and inside `transitionStateOnRead` are one step, as the header of `Protocol` justifies.
- The `v` command, an unknown command letter, a page number below -1 or above the last, an operation that is neither read nor invalidate, and messages as long as a page.
- Claims about contents outside the page discipline: there the project proves matching, at most one M with no write under way, bounded work and exactly when commands finish, and shows by schedules that coherence fails.
- SharedNode.Node.PrintPageContents: covers commands run one at a time, with the peer answering while the caller waits; interleavings are covered by `Protocol` and `Processes`. Where the program would wait for ever it returns what was shown.
- Processes.RunOnBytes: connections carry requests and replies as values; that the printed request is parsed back is `Wire.RequestRoundTrip`.
- SharedNode.Node.Respond: does not cover buffers the peer's `communicateWithPeer` cannot send, on some of which `atoi(NULL)` would fault.
- The kernel's rebalancing and erasing: SearchTree.Tree.Rebalance and SearchTree.Tree.Erase stand for `rb_insert_color` and `rb_erase` and promise only what becomes of the in-order walk. Their own bodies are one way to meet that promise and model nothing.
- Iteration that frees the current node before reading its successor (`perftop.c:58-95`, `perftop.c:128-140`, `kds.c:92-101`): the removing loops here step on first. `remove_hash_table_all` empties one bucket only and is not modelled.
- Unlocked use of the hash table and of `rdtsc` across processors, the entry handler and its count, 32-bit wrap of the event counters, allocation failure and leaks.
- Demand paging with a length of 2^31 or more, where the int offset of the passes would overflow; the comments in `uffd.c` describe one page and the letters A and B only, the model follows the code for any number of pages.
- The linked list, hash table, radix tree and xarray exercises of `kds.c`, the earlier parts of `s2dsm.c` and `perftop.c`, `s2fs.c`, the socket programs, `runner.c`, the patches and the Makefiles: thin wrappers over kernel calls or reduced versions of what is modelled.
