# NVMeVirt: translation layer, victim heap and I/O scheduler

A Dafny model of the three stateful parts of the NVMeVirt kernel module, with proofs.

- **The flash translation layer** (`ftl.c`). Logical pages are mapped to flash pages by a log: a
  write goes to the page under a striped write pointer, an overwrite leaves an invalid page behind,
  and a greedy collector copies the valid pages out of the line with the fewest of them and erases
  it. The model has the forward and the reverse table, page states, block and line counters, the
  four roles of a line, the write pointer, and the time each LUN is busy.
- **The intrusive heap** (`pqueue.c`, `femu/pqueue.c`) that orders victim lines. Priorities and
  positions are fields of the elements, so the heap is right only as long as every change of a
  queued line's valid count goes through it.
- **The completion scheduler** (`io.c`). A fixed table with a chain of free slots and a chain of
  requests in flight, a dispatcher that inserts and reclaims, a worker that completes, and the
  completion ring the host reads by phase tag.

Geometry, thresholds, latencies, table sizes and queue sizes are parameters; nothing is bounded.

## The shape of the proof

Each part is written twice: as functions on values (`Ssds`, `PriorityHeap`, `Scheds`, `Ring`), about
which the properties are proved, and as classes that change arrays and fields in place (`Ftl`,
`PQueue`, `ProcInfo`, `CompletionQueue`, and `Device`, which joins the first and the third), each
method proved equal to its function. The source's `NVMEV_ASSERT`s on the state modelled here are
assertions of the methods; the two that are not are named under "Left out".

| file | what it holds |
|---|---|
| `Common`, `Arith` | sizes of sets and sequences, digits and remainders |
| `Geometry` | page addresses, `ppa2pgidx` as a bijection, the write order of a line |
| `Heap`, `PQueue` | the heap on values and in place |
| `Ssd` | the state of the translation layer and its operations on values |
| `Space` | counters, roles of lines, victim heap, write pointer: the space invariant |
| `Mapping` | forward and reverse table, the host's view, user writes |
| `Gc`, `GcPass`, `Wear` | the middle and the effect of a collection pass |
| `Totals`, `Runs`, `Start` | conservation, commands, runs, space safety, the initial state |
| `Capacity` | exactly when a write succeeds and leaves a free line |
| `RoundRobin`, `Timing` | load per LUN and latency in closed form |
| `GcTiming`, `GcWork` | the LUN operations of collection, and how long they keep each LUN busy |
| `Ftl` | the translation layer in place |
| `Sched`, `SchedRuns`, `ProcInfo` | the worker's table on values, over runs, and with its link fields |
| `Dispatch`, `Device`, `CompletionRing` | several workers, one whole command, the completion queue |
| `EndToEnd` | runs of commands, worker steps and host polls |

The main invariant of the translation layer has two halves. `Space.SpaceInv` says that every line is
in exactly one of free list, full list, victim heap and current (or is the one line taken out by
collection), that line and block counters are the true page counts, that the pages written in the
current line are those before the write pointer, and that the heap is sound. `Mapping.Inverse` says
that `maptbl` on mapped pages and `rmap` on valid pages are inverse and that invalid pages have no
owner. Nothing is said of `rmap` on free pages, since an erase leaves stale entries there. Inside a
pass `Gc.MidGc` replaces it: visited victim pages are excepted from the second half, and what has
moved so far is tied to the state in which the victim was taken.

`None` as the result of an operation means that the module would have stopped: `get_next_free_line`
returned NULL and the write pointer was about to use it. The steps of `Space`, `Mapping` and `Gc` come
with the exact condition for that in the state they start from; for a whole write command it is
`Capacity.WriteExactly`, in fields of the state before the call. `data` in the state is a history variable, the content a flash page would hold;
with it the host's view of the device can be compared with a plain array of pages.

## What the code does that one might not expect

- `ssd_init` offers all of the flash as logical space (`op_area_pcent` is 0, `ftl.c:305-306`, `405`;
  `Start.ReportedSpaceCoversFlash`), so a host that writes all of it stops the module
  (`Runs.FillingTheDeviceStops`). `Start.DeviceIsSafePageStore` says how much data is safe, and
  `Capacity.NextWriteExactly` exactly what the next write does.
- A request queued between two visits of the worker can leave a completed request behind an
  uncompleted one, where reclaim does not free it (`Scheds.InterleavingBreaksDoneFirst`).
  `Scheds.InterleavingBreaksExactly` says when, `SchedRuns.PassRestoresPrefix` that the next
  undisturbed pass repairs it. Sorted order, absence of early completions, and the accounting of
  requests survive every interleaving.
- A request refused by `__enqueue_io_req` is lost without a completion, although its write has taken
  effect; and while the worker in turn is full all requests are refused, because the turn is passed
  on only after an accepted one (`Dispatch.FullWorkerBlocksAll`).
- The device never looks at the host's completion queue head
  (`CompletionRing.OverrunHidesEverything`).
- Where code and comments differ the model follows the code. `ftl.c:569` announces a transition from
  PG_VALID to PG_VALID, the code sets PG_INVALID. `ftl.c:873` says that collection runs until
  `should_gc` is false, the loop tests `should_gc_high`. `io.c:197` speaks of ascending targets; the
  order kept is that of max(target, `proc_io_nsecs`), since a flush has target 0.

## Assumptions

- One plane per LUN, as `ftl.c:221-222` asserts, and at least one channel, LUN, block, page and
  sector. `ppa2pgidx` is treated for any number of planes.
- Page addresses fit their bit fields and times do not overflow. The sector sum of a command wraps
  at 64 bits, as in the code.
- The two thresholds are natural numbers; how they are rounded from percentages is not modelled.
- The clock does not run backwards. Zero as a start time means "read the clock" to
  `ssd_advance_status`; latencies are stated for nonzero start times.
- `__enqueue_io_req`, `__reclaim_completed_reqs`, `__fill_cq_result` and a single visit of the worker
  are atomic. The clock may advance inside an insertion (`Scheds.RacyEnqueueSorted`).

## Model

| member | source | states |
|---|---|---|
| `Start.DeviceIsSafePageStore` | ftl.c:853-911 | From ssd_init on, for every run of commands: if no write is longer than c lines, c is at most the high threshold, and the distinct pages ever written are fewer than tt_lines - 1 - c lines hold, then no write, forced collection or background collection ever finds the free list empty, a line is free between any two commands, and the device holds exactly what a plain array of pages would, where a write changes each page that has a sector of it |
| `Start.DeviceShowsLastWrite` | ftl.c:853-911 | After any completed run from ssd_init on, a page holds the content of the last in-range write with a sector in it, and nothing if there is none |
| `Capacity.NextWriteExactly` | ftl.c:853-911 | After any run from ssd_init that completes, for a write of n pages: with n up to a line more than the high threshold it succeeds if and only if collection can go through and n, the pages written so far and the stranded ones, fewer than a line's, are together fewer than tt_pgs; with n up to the high threshold it leaves a free line if and only if they are fewer than tt_lines - 1 lines hold |
| `Capacity.WriteExactly` | ftl.c:853-911 | The same for every reachable state and every length up to those bounds, from fields of the state before the call: stranded pages are the invalid ones of the current line, when everything mapped fits into the full lines and this one |
| `Capacity.LongWriteExactly` | ftl.c:853-911 | Writes of any length: exact when nothing has to be collected, and when too much is mapped for collection to reach its threshold; else success is exact for all lengths but those strictly between one and two lines more than the threshold, and for longer ones no free line is left |
| `Capacity.EveryCommandIsShort` | ftl.c:257-297 | With the geometry of ssd_init every command is within the bounds of WriteExactly |
| `Capacity.WriteOfLinesExactly` | ftl.c:853-911 | For a write of exactly c lines stranded pages do not matter: it succeeds if and only if collection can go through and the mapped pages are fewer than tt_lines - c lines hold, and leaves a free line if and only if they are fewer than tt_lines - 1 - c lines hold |
| `Capacity.ForcedFreePages` | ftl.c:871-877 | After forced collection more pages are free than its threshold asks for if the mapped pages allow it, and otherwise exactly those that are neither mapped nor stranded |
| `Capacity.ForcedStrandedStays` | ftl.c:871-877 | No sequence of passes changes the number of stranded pages |
| `Capacity.CrossingCopies` | ftl.c:192-222 | A pass that moves on to another line copies at least as many pages as were left in the current one |
| `Capacity.StrandedFits` | ftl.c:192-205 | Stranded pages never carry the mapped pages across a multiple of a line |
| `Wear.DoGcLines` | ftl.c:768-812 | A pass changes no invalid count but the victim's, and leaves the current line and the number of full lines as they are or makes a line current that was free |
| `Runs.ForcedGcExactly` | ftl.c:871-877 | Forced collection goes through if and only if a line is free, there is no victim, or the best victim's valid pages are fewer than the free pages; it then ends with k free lines if and only if the mapped pages are fewer than tt_lines - k lines hold, for every k up to one more than the high threshold |
| `Runs.MappedBound` | ftl.c:192-222 | In every reachable state the mapped pages are fewer than the lines that are not free hold |
| `Runs.RunRefinesPageStore` | ftl.c:853-911 | Any run that does not stop, whatever collection did in between, leaves the contents a plain array of pages would have, where a write changes each page that has a sector of it, and maps exactly the pages written |
| `Runs.LastWriteWins` | ftl.c:853-911 | The same without recursion, from any reachable state: a page holds the content of the last in-range write of the run with a sector in it, or what it held before |
| `Runs.RunIsSafe` | ftl.c:152-166 | Space safety from any reachable state with a free line, not only from the initial one |
| `Runs.StepIsSafe` | io.c:297-361 | One command, with the background collection after it, from a state with a free line to a state with a free line |
| `Runs.StepRefines` | io.c:297-361 | One command keeps the invariant and changes the host's view in exactly the pages that have a sector of an in-range write; any other command changes nothing at all |
| `Start.RunPrefix` | io.c:384-407 | Every intermediate state of a run is itself the end of a run, so the run theorems hold of it |
| `Start.FreshIsSafePageStore` | ftl.c:392-433 | The same whole-run theorem for any unwritten device with a free line |
| `Capacity.DeviceKeepsRoom` | ftl.c:853-911 | From ssd_init on, for every run: if no write covers more than c lines and one page, c is at most the high threshold, and the pages ever written are fewer than tt_lines - 1 - c lines hold, no command stops the module, and between commands a line's worth of pages is free; with c = 0, one-page writes to all but a line of the flash |
| `Capacity.RunKeepsRoom` | ftl.c:152-166 | The same from any reachable state with a line's worth of free pages |
| `Capacity.StepKeepsRoom` | io.c:297-361 | One command of such a run, with its background collection |
| `Runs.FillingTheDeviceStops` | ftl.c:209-215 | A run that writes every page of the flash always ends with no line left, whatever is collected: some condition is needed |
| `Start.ReportedSpaceCoversFlash` | ftl.c:392-405 | The space ssd_init returns is at least the flash it builds, and less than one channel more; the two are equal if and only if the memory is a multiple of two GiB: all of the flash is offered to the host |
| `Runs.NotEverythingMapped` | ftl.c:209-215 | In every reachable state fewer logical pages are mapped than there are flash pages, because the page under the write pointer is unwritten |
| `Runs.CrowdedHasNoFreeLine` | ftl.c:152-166 | Once all but one line's worth of pages is mapped there is no free line, whatever collection does |
| `Start.InitParams` | ftl.c:257-309 | Each configured value is where it belongs, and the calculated geometry values satisfy the equations the rest relies on, for all positive dimensions |
| `Start.InitInv` | ftl.c:94-145 | The initial state satisfies the full invariant; line 0 is current, all others are free, nothing is mapped and every page reads as unwritten |
| `Runs.SsdWriteOutcome` | ftl.c:853-911 | A write is forced collection, then one free page for each page written: it succeeds if and only if collection does and leaves more pages free than are written (both told from the state before the call by WriteExactly); the host sees the new content in exactly the pages that have a sector of the command |
| `Runs.SsdWriteCovers` | ftl.c:853-911 | For slba + length below 2^64 (length zero-based): the write never does anything if and only if slba + length >= tt_pgs * secs_per_pg; otherwise, when it succeeds, page i gets the content exactly when slba < (i + 1) * secs_per_pg and i * secs_per_pg <= slba + length, and every other page is as before |
| `Runs.PagesOfSectors` | ftl.c:818-820 | start_lpn to end_lpn are exactly the pages with a sector of the command, the sector sum wrapping at 64 bits |
| `Runs.RangeOfSectors` | ftl.c:824-827 | A command is turned away if and only if its last sector does not exist |
| `Runs.TouchedSize` | ftl.c:856-859 | A write in range changes end_lpn + 1 - start_lpn pages |
| `Mapping.WritePagesKeepInv` | ftl.c:879-908 | Writing n pages without collection succeeds if and only if n is less than the number of free pages; the invariant is kept and the view changes in those n pages only |
| `Mapping.WritePageKeepsInv` | ftl.c:879-899 | One user page: possible if and only if two free pages are left; takes one; remaps lpn to the page that was under the write pointer |
| `Mapping.WritePageMaps` | ftl.c:880-896 | Forward and reverse table stay mutually inverse across an overwrite: the old page loses its owner, the new one gains it |
| `Mapping.SupersedeKeepsSpace` | ftl.c:881-887 | Invalidating the old page keeps the space invariant and the number of free pages |
| `Mapping.ViewAfterBind` | ftl.c:889-896 | No other logical page sees the flash page just programmed |
| `Runs.ForcedGcOutcome` | ftl.c:871-877 | The loop terminates; it goes through if and only if a line is free, there is no victim, or the best victim's valid pages are fewer than the free pages; the view, the mapped pages and the free lines are kept; it ends above the high threshold, by one line if it ran at all, or with an empty victim heap |
| `Runs.OneFreeLineSuffices` | ftl.c:768-812 | With one free line a pass always has room for the victim's valid pages |
| `Runs.OthersFullyValid` | ftl.c:192-205 | When no victim is left, every page outside the free and the current lines is valid |
| `Runs.GcLeavesEnough` | ftl.c:871-877 | Under the provisioning condition forced collection ends with c + 1 free lines |
| `Runs.WriteLeavesALine` | ftl.c:853-911 | A write of at most c lines then leaves one |
| `Runs.BackgroundGcOutcome` | io.c:39-51 | Background collection keeps invariant, view and mapped pages and loses no free line; with a free line it always goes through |
| `GcTiming.BackgroundExactly` | io.c:39-51 | One pass takes place if and only if the free lines are at or below the low threshold and some waiting line has at least pgs_per_line / 8 invalid pages; it gains exactly the invalid pages of the line that has the most, stops the module if and only if the valid pages of that line are at least as many as are free, and otherwise nothing happens and no LUN time passes |
| `GcTiming.StepCollects` | io.c:353-355 | Every completed write command is followed by exactly that |
| `GcPass.DoGcKeepsInv` | ftl.c:768-812 | A successful pass restores the full invariant: the host's view is unchanged, pages outside the victim keep their address, each page of the victim moves to a page of another line that was free before, and the victim ends wholly free |
| `GcPass.DoGcConserves` | ftl.c:768-812 | Free pages rise by exactly the victim's invalid pages, which are at least one; invalid pages fall by as many; valid pages and the set of mapped pages stay; free lines stay or rise by one |
| `GcPass.HomesDistinct` | ftl.c:673-689 | No two logical pages share a flash page, so moved pages get homes of their own |
| `GcPass.RootIsBestVictim` | ftl.c:711-731 | The heap root has the fewest valid and the most invalid pages of all queued lines, although priorities change inside the elements |
| `GcPass.NoVictimExactly` | ftl.c:711-731 | -1 exactly when no queued line qualifies: none at all when forced, none with an eighth of its pages invalid otherwise; a selected line has the fewest valid pages |
| `Gc.DoGcOutcome` | ftl.c:768-812 | A pass stops the machine if and only if a victim is selected and its valid pages are at least as many as the pages free |
| `Gc.DoGcMid` | ftl.c:768-806 | From detaching the root to the end of the double loop the mid-pass invariant holds; the loop completes if and only if the victim's valid pages are fewer than the free pages |
| `Gc.CleanLineKeeps` | ftl.c:786-806 | The double loop over channels and LUNs keeps the mid-pass invariant from any point on, with the exact condition for completing |
| `Gc.CleanBlockKeeps` | ftl.c:734-755 | Copying a block out keeps the mid-pass invariant; possible if and only if the free pages outnumber the pages copied so far and in this block |
| `Gc.CopyStep` | ftl.c:673-709 | Mid-pass a copied page stays valid but superseded, so two valid pages name the same owner; the invariant moves on by that page; possible if and only if two free pages are left |
| `Gc.SkipStep` | ftl.c:744-752 | Invalid victim pages are skipped and need no new home |
| `Gc.EraseStep` | ftl.c:796-797 | Erasing the finished block keeps the mid-pass invariant although its reverse entries stay stale |
| `Gc.BlockCopies` | ftl.c:754-754 | The assertion that the block's valid count equals the pages copied, for every block of every pass |
| `Gc.MidGcStatus` | ftl.c:744-745 | No page of the victim has been erased before its turn, so none is free when it is visited |
| `Gc.OwnerKnown` | ftl.c:677-679 | The assertion that the reverse table names an in-range owner of every page copied |
| `Wear.DoGcWears` | ftl.c:639-658 | A pass erases each block of the victim exactly once and no other block; the victim joins the free list at its tail and at most one line was taken from the head |
| `Space.MarkPageInvalidKeepsSpace` | ftl.c:570-615 | Page, block and line counters stay exact, a fully valid line moves from the full list to the heap, a queued line is repriced through the heap, every line keeps exactly one role |
| `Space.MarkPageValidKeepsSpace` | ftl.c:617-637 | Counters stay exact and the written part of the current line grows by the page under the write pointer |
| `Space.NewPageIsFree` | ftl.c:625-626 | The page under the write pointer is free and never lies in the victim line |
| `Space.StepKeepsSpace` | ftl.c:168-191 | Within a line: the written pages are exactly those before the write pointer |
| `Space.LineEndIsWritten` | ftl.c:192-205 | At the end of a line no page is free, valid and invalid add up to the line, and full means that every page is valid |
| `Space.CrossKeepsSpace` | ftl.c:192-222 | Closing a line and opening the next keeps every line in exactly one of free, full, victim and current |
| `Space.AdvanceKeepsSpace` | ftl.c:168-223 | The write pointer can move on if and only if a free page is left outside the line being collected |
| `Space.AppendKeepsSpace` | ftl.c:890-899 | Programming the page under the write pointer and advancing: possible if and only if two free pages are left, uses exactly one |
| `Space.FullIffAllValid` | ftl.c:194-198 | A line has all its pages valid if and only if it is in the full list |
| `Space.DetachKeepsSpace` | ftl.c:726-731 | Popping the victim leaves it dangling, with every other line's role and counters unchanged; it has an invalid page and no free one |
| `Space.MarkBlockFreeKeepsSpace` | ftl.c:639-658 | Erasing a victim block resets its counters to the true counts and disturbs no other line |
| `Space.MarkLineFreeKeepsSpace` | ftl.c:757-766 | Returning the erased victim to the free list restores the invariant without a dangling line |
| `Totals.AllLinesSize` | ftl.c:279-297 | tt_pgs is tt_lines times pgs_per_line |
| `Totals.PagesAddUp` | ftl.c:276-297 | Free, valid and invalid pages add up to tt_pgs, which is lines times pages per line |
| `Totals.MappedAreValid` | ftl.c:879-896 | There are as many mapped logical pages as valid flash pages |
| `Totals.FreePagesAreLines` | ftl.c:168-223 | Free pages are the free lines and the unwritten rest of the current line, which is never empty |
| `Totals.LinesFromPages` | ftl.c:768-812 | Gaining at most a line's worth of free pages changes the number of free lines by zero or one |
| `Geometries.PgIdxRoundTrip` | ftl.c:35-52 | The index of an in-range address is below tt_pgs and determines the address, for any number of planes |
| `Geometries.AtPgIdxRoundTrip` | ftl.c:35-52 | Every index below tt_pgs is the index of an in-range address |
| `Geometries.PgIdxInjective` | ftl.c:35-52 | Different in-range addresses have different indices |
| `Geometries.PgIdxOrdered` | ftl.c:35-52 | Indices grow with channel, then LUN, plane, block and page |
| `Geometries.OffsetRoundTrip` | ftl.c:168-223 | The position of a page in the order the write pointer follows determines the page |
| `Geometries.AtOffsetRoundTrip` | ftl.c:168-223 | The write order of a line visits every page of it exactly once |
| `Geometries.LineSize` | ftl.c:294-297 | A line has pgs_per_line pages |
| `Geometries.BlockSize` | ftl.c:322-334 | A block has pgs_per_blk pages |
| `Geometries.TotalSize` | ftl.c:276-279 | There are tt_pgs in-range addresses |
| `Timing.ServeClosedForm` | ftl.c:497-567 | A LUN that serves k operations issued at t is busy until max(avail, t) + k * lat; an untouched LUN keeps its time |
| `Timing.LatencyClosedForm` | ftl.c:832-850 | The maxlat of the read and write loops is the maximum over the LUNs touched of max(avail, t) + k * lat - t, and zero for no page |
| `Timing.WritesAreRoundRobin` | ftl.c:879-908 | User pages land on the LUNs round robin from the write pointer on, across page and line boundaries |
| `Timing.UserWriteLatency` | ftl.c:879-910 | A write of n pages puts n / tt_luns or one more on each LUN, and takes ceil(n / tt_luns) program times when all LUNs are idle |
| `Timing.IdleWriteLatency` | ftl.c:901-910 | Round-robin service of n operations on idle LUNs takes ceil(n / m) times the latency |
| `Timing.NextLun` | ftl.c:168-223 | Every advance of the write pointer moves to the next LUN number modulo tt_luns, also when it crosses into a new line |
| `Timing.NextOffset` | ftl.c:168-223 | Within a line the write pointer goes through the positions one at a time, and from the last it moves to the first page of the line at the head of the free list |
| `Timing.LunNoInjective` | ftl.c:463-472 | The LUN number identifies channel and LUN |
| `GcTiming.IdleLatency` | ftl.c:871-910 | A write after forced collection takes ceil(n / tt_luns) program times when the LUNs are all free by its start time |
| `GcTiming.NoCollection` | ftl.c:871-877 | No LUN time passes before the write when nothing has to be collected or GC delays are off |
| `GcTiming.QuotedOnce` | io.c:318-347 | State, start time, LUN times and clock determine the latency quoted and the LUN times afterwards |
| `GcTiming.HandledExists` | io.c:297-361 | Every command that completes is handled in some latency, from any LUN times |
| `GcWork.PassWork` | ftl.c:734-806 | A pass programs the victim's valid pages round robin from the write pointer, reads on each LUN as many pages as the victim's block there has valid, and erases each LUN's block once |
| `GcWork.PassBusy` | ftl.c:734-806 | With GC delays a pass keeps each LUN busy for those reads, its share of the programs and the erase: at least that long after its free time, at most that long after the later of its free time and the last clock reading |
| `GcWork.ChargeBounds` | ftl.c:497-567 | Any operations issued at a clock that does not run back: the clock is read once each, and each LUN is busy for its work within those bounds |
| `GcWork.WorkByKind` | ftl.c:509-560 | A LUN's work is its reads, programs and erases times their latencies |
| `RoundRobins.RoundRobinLoad` | ftl.c:168-223 | n round-robin steps put n / m or one more on each server, one more on exactly the n mod m servers from the start on |
| `RoundRobins.LoadsBalanced` | ftl.c:168-223 | The loads of any two LUNs differ by at most one |
| `Ftls.InvalidAsserts` | ftl.c:581-614 | The assertions of mark_page_invalid cannot fail, and the heap has a slot for a line leaving the full list |
| `Ftls.ValidAsserts` | ftl.c:625-636 | The assertions of mark_page_valid cannot fail |
| `Ftls.CloseAsserts` | ftl.c:192-205 | The assertions on the closed line cannot fail, and the heap has a slot for it |
| `Ftls.Ftl.constructor` | ftl.c:392-433 | The tables as ssd_init leaves them |
| `Ftls.Ftl.InitLines` | ftl.c:94-126 | Every line in the free list in order, counted, with both assertions of the source |
| `Ftls.Ftl.InitWritePointer` | ftl.c:128-145 | The first free line becomes the current one, at its first page |
| `Ftls.Ftl.InitLists` | ftl.c:94-145 | The two together: line 0 current, the others waiting in order |
| `Ftls.Ftl.Ppa2PgIdx` | ftl.c:35-52 | The index is below tt_pgs and leads back to the address |
| `Ftls.Ftl.GetRmapEnt` | ftl.c:54-60 | Reads the flat reverse table as a table keyed by address |
| `Ftls.Ftl.SetRmapEnt` | ftl.c:62-67 | Changes the entry of one address and no other |
| `Ftls.Ftl.GetNewPage` | ftl.c:231-244 | The address under the write pointer; its plane is zero |
| `Ftls.Ftl.MarkPageInvalid` | ftl.c:570-615 | In place, with the source's assertions, equal to the value-level operation of the space lemmas |
| `Ftls.Ftl.MarkPageValid` | ftl.c:617-637 | In place, with the source's assertions, equal to the value-level operation |
| `Ftls.Ftl.MarkBlockFree` | ftl.c:639-658 | The page loop frees exactly the block's pages, resets its counters and counts the erase |
| `Ftls.Ftl.MarkLineFree` | ftl.c:757-766 | Counters reset, line appended to the free list |
| `Ftls.Ftl.GetNextFreeLine` | ftl.c:152-166 | Takes the head of the free list; nothing exactly when the list is empty |
| `Ftls.Ftl.CloseLine` | ftl.c:192-205 | Full list or victim heap by the line's valid count, with the source's assertions |
| `Ftls.Ftl.AdvanceWritePointer` | ftl.c:168-223 | All branches and range checks; fails exactly at a line end without a free line |
| `Ftls.Ftl.AdvanceStatus` | ftl.c:497-567 | The LUN's next free time and the latency, from the later of its free time and the start time; a start time of zero reads the clock |
| `Ftls.Ftl.Append` | ftl.c:889-899 | Both table entries, the valid mark and the advance, in the source's order |
| `Ftls.Ftl.Supersede` | ftl.c:880-887 | The old page of an overwritten lpn is invalidated and disowned; nothing happens for a first write |
| `Ftls.Ftl.WriteUserPage` | ftl.c:880-899 | One turn of the write loop without its timing |
| `Ftls.Ftl.WriteTimedPage` | ftl.c:880-907 | One turn of the write loop with the time taken on the page's LUN |
| `Ftls.Ftl.WriteUserPages` | ftl.c:879-908 | The write loop equals the recursive specification, and maxlat the closed form over the LUNs programmed |
| `Ftls.Ftl.SsdRead` | ftl.c:814-851 | The state is unchanged; zero when the last sector does not exist; else a LUN that holds n > 0 of the mapped pages with a sector of the read is busy for n read times from when it is free, the others are as before, and the latency is the longest of these, 0 for no mapped page; on idle LUNs the largest such n times the read latency |
| `Ftls.Ftl.ReadPages` | ftl.c:832-850 | The read loop: each mapped page of start_lpn..end_lpn once (LunsReadLoad), unmapped pages skipped, in closed form |
| `Timing.LunsReadLoad` | ftl.c:832-850 | A read goes to a LUN as often as mapped pages of its range lie there |
| `GcTiming.ReadServes` | ftl.c:814-851 | Busy times and latency of a read, from the number of its mapped pages on each LUN |
| `GcTiming.IdleRead` | ftl.c:832-850 | With all LUNs free a read takes the largest number of its mapped pages on one LUN, times the read latency |
| `Ftls.Ftl.GcReadPage` | ftl.c:660-670 | The state is unchanged; with GC delays the page's LUN is charged a read at the current clock reading, else nothing |
| `Ftls.Ftl.GcWritePage` | ftl.c:673-709 | The copy to the page under the write pointer, with the assertion on its owner, and a program charged to that page's LUN |
| `Ftls.Ftl.SelectVictimLine` | ftl.c:711-731 | Peek, threshold test, pop, position cleared, count lowered |
| `Ftls.Ftl.CleanOneBlock` | ftl.c:734-755 | The copy loop with both assertions of the source; the LUN times are those of the specified reads and programs in order |
| `Ftls.Ftl.CleanOnePage` | ftl.c:744-752 | One turn of the copy loop: a valid page is copied, an invalid one skipped, a free one impossible |
| `Ftls.Ftl.ReclaimBlock` | ftl.c:794-805 | Clean and erase; the LUN times are those of the block's copies followed by one erase |
| `Ftls.Ftl.CleanLine` | ftl.c:786-806 | The double loop equals its recursive specification, in state and LUN times |
| `Ftls.Ftl.DoGc` | ftl.c:768-812 | -1 exactly when nothing was selected, and then nothing changed; else the new state and the LUN times are the specified ones |
| `Ftls.Ftl.CollectForWrite` | ftl.c:871-877 | The loop terminates in the state and with the LUN times of the recursive specification; no LUN time passes when it does not run or GC delays are off |
| `Ftls.Ftl.SsdWrite` | ftl.c:853-911 | New state, failure condition, and the exact latency and LUN times after the operations of forced collection; ceil(n / tt_luns) program times, n the number of pages with a sector of the command, when all LUNs are free and nothing has to be collected or GC delays are off |
| `Ftls.Ftl.Execute` | io.c:318-347 | Dispatch by opcode: new state, latency and LUN times of a write, a read and any other command |
| `Ftls.Ftl.CheckGcAndRun` | io.c:39-51 | The free pages rise by the invalid pages of the best waiting line when the free lines are at or below the low threshold and some waiting line has at least pgs_per_line / 8 invalid pages; otherwise neither state nor LUN times change |
| `Ftls.Ftl.CheckGcAfter` | io.c:44-49 | Only after a write command; state and LUN times are those of the specified step |
| `Devices.Device.constructor` | ftl.c:392-433 | A fresh device with an empty worker table satisfies the combined invariant |
| `Devices.Device.ProcIo` | io.c:297-361 | The request is accepted if and only if more than one slot is free, and is then in the first free slot, in flight, with the numbers of its submission entry, its start, and target start + quoted latency for reads and writes, 0 for other opcodes; background collection, reclaim: the new state of translation layer, LUN times and worker table, also when the request is refused |
| `Devices.QueuedSlot` | io.c:165-195 | Queueing and reclaiming leave the new request in its slot and in flight, and the requests of all other slots as they are |
| `PriorityHeap.InsertCorrect` | pqueue.c:119-143 | Heap order, back-pointers and priorities kept; exactly the new node is added; no other node's position field is touched |
| `PriorityHeap.ChangePriorityCorrect` | pqueue.c:145-156 | Heap order and back-pointers kept, one priority changed, the same nodes queued |
| `PriorityHeap.RemoveCorrect` | pqueue.c:158-168 | Exactly the given node leaves, wherever it is and whatever its priority; order and back-pointers kept |
| `PriorityHeap.PopCorrect` | pqueue.c:170-182 | Exactly the root leaves; order and back-pointers kept |
| `PriorityHeap.PopClearedCorrect` | ftl.c:726-728 | Popping and clearing the position field makes nonzero positions mean queued again |
| `PriorityHeap.BubbleUpRestores` | pqueue.c:71-86 | Repairs a heap that is wrong only between one slot and its ancestors, keeping the queued nodes |
| `PriorityHeap.PercolateDownRestores` | pqueue.c:102-117 | Repairs a heap that is wrong only between one slot and its children, keeping the queued nodes |
| `PriorityHeap.SwapKeepsNodes` | pqueue.c:76-85 | Exchanging two slots with their back-pointers keeps the queued nodes and the back-pointer law |
| `PriorityHeap.HoleUp` | pqueue.c:76-85 | Moving a hole up with one write per level equals swapping |
| `PriorityHeap.HoleDown` | pqueue.c:107-116 | Moving a hole down with one write per level equals swapping |
| `PriorityHeap.Heap.MaxChild` | pqueue.c:88-100 | No child exactly for a leaf, else the child whose priority is least |
| `PriorityHeap.PeekIsMinimum` | pqueue.c:184-192 | Nothing exactly for an empty queue, else a queued node of globally least priority |
| `PriorityHeap.DrainSorts` | pqueue.c:170-182 | Popping until empty yields every queued node once, in ascending priority |
| `PriorityHeap.SubtreeIsValidIffOrdered` | pqueue.c:237-259 | The validity check is true if and only if every slot's priority is at least its parent's |
| `PriorityHeap.HeapFits` | ftl.c:106-108 | With a slot for every line the array never overflows: a line about to be queued finds room |
| `PriorityHeap.SoundInsert` | ftl.c:608-613 | Queueing a line makes exactly its position nonzero in addition |
| `PriorityHeap.SoundReprice` | ftl.c:600-605 | Repricing a queued line keeps the set of nonzero positions |
| `PriorityHeap.SoundUnqueued` | ftl.c:600-606 | The valid count of a line that is not queued may be written directly |
| `PriorityHeap.SoundPop` | ftl.c:726-728 | Popping and clearing makes exactly the root's position zero |
| `PQueues.PQueue.constructor` | pqueue.c:33-57 | An empty queue with room for n nodes besides slot 0 |
| `PQueues.PQueue.BubbleUp` | pqueue.c:71-86 | The hole loop in place equals the swap specification |
| `PQueues.PQueue.MaxChild` | pqueue.c:88-100 | The child with the least priority, zero for a leaf |
| `PQueues.PQueue.PercolateDown` | pqueue.c:102-117 | The hole loop in place equals the swap specification |
| `PQueues.PQueue.Insert` | pqueue.c:119-143 | In place, given a free slot, which this version only warns about |
| `PQueues.PQueue.InsertGrowing` | femu/pqueue.c:122-145 | Grows a full array and keeps its contents; fails exactly when it is full and memory is refused, changing nothing |
| `PQueues.PQueue.ChangePriority` | pqueue.c:145-156 | In place: up when the priority falls, else down |
| `PQueues.PQueue.Remove` | pqueue.c:158-168 | In place, including removal of the last node |
| `PQueues.PQueue.Pop` | pqueue.c:170-182 | In place, including the last node and the empty queue |
| `PQueues.PQueue.Peek` | pqueue.c:184-192 | Reads the root; in a sound queue no queued node has a smaller priority |
| `PQueues.PQueue.IsValid` | pqueue.c:256-259 | True if and only if heap order holds |
| `PQueues.PQueue.SubtreeIsValid` | pqueue.c:237-254 | The recursion terminates and computes the specification |
| `Scheds.InsertAtSplits` | io.c:198-214 | The backward walk stops where everything ahead is due no later and everything behind strictly later, in the order max(target, clock) |
| `Scheds.EnqueueKeeps` | io.c:159-230 | Sorted order, split of the slots and completed prefix kept; stable for ties; other requests' payload untouched; refused exactly when one free slot is left |
| `Scheds.ReclaimKeeps` | io.c:233-281 | Keeps the chains; moves a prefix of completed requests to the free chain, and with atomic passes every completed request |
| `Scheds.VisitKeepsSafe` | io.c:468-516 | A visit of any in-flight slot at any later clock reading keeps split, order and no early completion |
| `Scheds.VisitIsNotEarly` | io.c:474-516 | A request is completed and posted together, only at or after its target, and never twice; the post carries its queue numbers, entry and command id; other slots are untouched |
| `Scheds.PassKeeps` | io.c:460-521 | From any table interleaving can lead to, with the cursor behind completed requests only: a pass ends with no uncompleted request due, completed requests first, targets and payload unchanged |
| `Scheds.QuietPassDrains` | io.c:460-521 | Once every target is reached, one pass and one reclaim empty the chain, from any table interleaving can lead to |
| `Scheds.RacyEnqueueSorted` | io.c:198-214 | The chain is sorted even when the clock advances at every step of the insertion walk |
| `Scheds.InterleavingBreaksDoneFirst` | io.c:202-212 | A concrete run where a flush slipped in between two visits leaves a completed request behind an uncompleted one, which reclaim does not free |
| `Scheds.InterleavingBreaksExactly` | io.c:202-212 | A request queued while the worker waits at the first uncompleted one breaks the completed prefix if and only if the waiting request was still ahead of the clock, the new one is due before it, and the visit completes it |
| `Scheds.VisitKeepsPrefixExactly` | io.c:468-516 | A visit anywhere keeps completed requests first if and only if it completes nothing or has only completed requests ahead of it |
| `SchedRuns.RunKeeps` | io.c:159-281 | Over every run with visits interleaved at will: chains split and sorted, nothing completed early, and accepted requests are those posted, once each, plus those pending; completed requests form a prefix without interleaved visits, and from the last undisturbed pass on |
| `SchedRuns.PassRestoresPrefix` | io.c:460-521 | One undisturbed pass restores the completed prefix after any interleaving, until the next visit outside a pass |
| `SchedRuns.AtomicRunKeeps` | io.c:159-281 | Runs of whole passes keep the completed prefix throughout |
| `SchedRuns.DoKeeps` | io.c:159-281 | Each dispatcher or worker step keeps all of that |
| `SchedRuns.EnqueueAccounts` | io.c:159-230 | An accepted request becomes pending, and nothing else changes among the pending ones |
| `SchedRuns.ReclaimAccounts` | io.c:233-281 | Reclaiming drops no pending request |
| `SchedRuns.VisitAccounts` | io.c:502-516 | What a visit posts is exactly what leaves the pending requests |
| `SchedRuns.PassAccounts` | io.c:460-521 | What a pass posts is exactly what leaves the pending requests |
| `SchedRuns.InitKeeps` | io.c:567-577 | The initial table satisfies the invariant and the accounting |
| `ProcInfos.ProcInfo.constructor` | io.c:567-577 | One chain of free slots through the next fields, nothing in flight |
| `ProcInfos.ProcInfo.Enqueue` | io.c:159-230 | The link fields in place equal the specification, both chains stay well linked; refused exactly on the last free slot |
| `ProcInfos.ProcInfo.Link` | io.c:197-230 | The empty-chain case and the three insertions give the links of an insertion at the specified place |
| `ProcInfos.ProcInfo.FindPlace` | io.c:198-214 | The walk along the prev fields finds the specified place and the slot there |
| `ProcInfos.ProcInfo.Splice` | io.c:215-229 | Head, tail and middle insertion each change the new entry and its two neighbours only |
| `ProcInfos.ProcInfo.Reclaim` | io.c:233-281 | The splice of link fields equals the specification |
| `ProcInfos.ProcInfo.FindDone` | io.c:247-260 | The first and last of the completed run at the head, the slot after it in reach |
| `ProcInfos.ProcInfo.Move` | io.c:261-279 | The four writes change the links at the two seams only |
| `ProcInfos.ProcInfo.WorkerPass` | io.c:460-521 | The loop along the next fields equals the specified pass and posts in its order |
| `ProcInfos.ProcInfo.VisitEntry` | io.c:468-519 | One turn: clock, copy, completion or end of the pass, links untouched |
| `ProcInfos.LinkIn` | io.c:197-230 | Those changes make a well linked chain with the new entry at the place |
| `ProcInfos.UnlinkFree` | io.c:165-175 | Taking the head of the free chain leaves the rest well linked |
| `ProcInfos.SpliceFree` | io.c:261-279 | After the four writes both chains are well linked and no request has changed |
| `ProcInfos.Enqueued` | io.c:159-230 | Unlinking and linking together are the specified enqueue, with the right heads and tails |
| `Dispatch.DispatchKeeps` | io.c:163-174 | An accepted request takes one slot of the worker in turn and passes the turn on; a refused one does neither |
| `Dispatch.DispatchPlaces` | io.c:163-195 | The request is in the first free slot of the worker in turn; all other slots and workers keep theirs; a refused request changes nothing |
| `Dispatch.ReclaimSettles` | io.c:233-281 | Reclaiming over all workers keeps them sound and leaves nothing to reclaim until a worker moves |
| `Dispatch.FullWorkerBlocksAll` | io.c:167-171 | While no worker moves, a full worker in turn makes every request of a batch be dropped, however much room the others have |
| `Dispatch.BatchAcceptedExactly` | io.c:159-175 | While no worker moves, a batch is accepted in full if and only if every worker has more free slots than its round-robin share |
| `Dispatch.ProcIoSq` | io.c:384-407 | The entries fetched are those between the two doorbell values, in order, once each, across the wrap, ending at the new value |
| `EndToEnd.CommandsAreAnswered` | io.c:297-521 | Over every run of commands, worker steps and host polls that never leaves more than a ring full unread: the device holds what a page array would; accepted requests are commands of the run, each under its own queue numbers, entry and command id, reads and writes due at start plus quoted latency; each is posted exactly once or pending, at a clock reading of the worker at which it was due; and the host has read the first completions of its queue, once each, in order and field by field |
| `EndToEnd.ArrivedIsQueued` | io.c:351-357 | The worker table a submission of such a run leaves is the one ProcIo leaves |
| `EndToEnd.NextEffect` | io.c:297-521 | One event: a submitted command changes the contents as a page array would and is accepted if and only if more than one slot is free; nothing else changes either, and what the host has read stays read |
| `EndToEnd.OnQueueSelects` | io.c:425-428 | The posts of a completion queue are those with its number, each as often as it was made |
| `EndToEnd.OnQueueAppend` | io.c:425-428 | and in the order they were made |
| `EndToEnd.PrefixIsPossible` | io.c:297-521 | The first events of such a run are such a run, so all of that holds at every moment of it |
| `EndToEnd.MaySubmit` | io.c:297-361 | In such a run every command that does not run out of lines can be submitted next |
| `EndToEnd.StartsGood` | ftl.c:392-433 | A blank device, an empty worker table and a zeroed ring are a state such runs start from |
| `CompletionRing.FillShows` | io.c:425-444 | The k-th completion goes to slot k mod queue_size with phase 1 - (k / queue_size) mod 2, and every slot shows command id, queue id and head of its latest completion |
| `CompletionRing.PhaseTagWorks` | io.c:431-440 | With at most queue_size completions unread, the expected phase shows at the host's slot if and only if one is unread, and the slot then holds the oldest (Phase Tag, section 4.6 of NVM Express 1.2) |
| `CompletionRing.OverrunHidesEverything` | io.c:436-439 | One more post than that, and the host sees nothing although queue_size + 1 completions are unread; the device never checks |
| `CompletionRing.HostSeesExactly` | io.c:425-444 | For any number of unread completions, the expected phase shows at the host's slot if and only if that number divided by queue_size, rounded up, is odd |
| `CompletionRing.HostReadsExactly` | io.c:425-444 | The slot then holds the latest completion posted to it, which is the oldest unread one if and only if at most queue_size are unread |
| `CompletionRing.PlayKeepsStep` | io.c:425-444 | Every post and every poll keeps host and device in step; a poll succeeds exactly when something is unread |
| `CompletionRing.HostReadsInOrder` | io.c:425-444 | Over every paced interleaving of posts and polls the host reads command id, queue id and head of each completion once and in order |
| `CompletionRing.BeginsInStep` | admin.c:40-46 | A zeroed ring with phase 1 and head 0 starts in step with a host that expects phase 1 |
| `CompletionRing.CompletionQueue.constructor` | admin.c:38-46 | Phase 1, head 0, no interrupt pending |
| `CompletionRing.CompletionQueue.FillCqResult` | io.c:425-444 | In place: the entry at the head gets command id, queue id, submission head and phase of the completion, all other entries stay, the head moves on, the phase flips at the end of the ring, and the interrupt is flagged |

## Left out

- Start.DeviceIsSafePageStore: over whole runs the condition is sufficient; for the next write the exact one is `Capacity.WriteExactly`.
- Capacity.LongWriteExactly: where collection has to run and can reach its threshold of h lines, it leaves open whether a write strictly between h + 1 and h + 2 lines succeeds, and whether one strictly between h and h + 1 lines leaves a free line: that depends on the invalid counts of the victims taken one after the other. On the shipped geometry no command is that long (`Capacity.EveryCommandIsShort`).
- Ftls.Ftl.SsdWrite: the latency is stated for nonzero start times; with a start time of zero every page would read the clock for itself.
- Ftls.Ftl.GcWritePage: `gc_endtime` is written and never read, and is not modelled.
- Ftls.Ftl.MarkBlockFree: the loop of a block's pages is kept, the nesting of channel, LUN, plane, block and page structures is a map keyed by address; a block's own write pointer and sector states, which nothing reads, are missing, and with them the assertions on the constants `pg->nsecs` and `blk->npgs` (`ftl.c:645`, `650`).
- Dispatch.BatchAcceptedExactly: on values; the several `nvmev_proc_info` tables are not one object.
- Devices.Device.ProcIo: one worker; the start time is a parameter; a flush has target 0 because the I/O unit times it asks for are never advanced.
- Scheds.VisitKeepsSafe: memory ordering, and a worker that still holds a slot after it was reclaimed and reused, are not modelled.
- ProcInfos.ProcInfo.WorkerPass: returns the calls of `__fill_cq_result` in order instead of making them on a `CompletionQueue` (`EndToEnd` puts them on the ring, on values); time stamps kept for statistics are missing.
- CompletionRing.HostReadsInOrder: the host is a model of the standard, not of a particular driver.
- PQueues.PQueue.constructor: slot 0 starts as 0, where the source leaves it unset; nothing reads it. Allocation does not fail.
- `femu/femu_ftl.c` is the same translation layer and is modelled once, from `ftl.c`; it goes on after an out-of-range page number and calls `abort` without a free line.
- `adjust_ftl_latency` changes the latencies between commands; they are fixed here.
- Data transfer (`__do_perform_io`), `__schedule_io_units`, `nvmev_proc_io_cq`, interrupts, admin commands other than the creation of a completion queue, PCI configuration, module and procfs set-up.
- Allocation, logging, statistics and the floating-point computation of thresholds.
