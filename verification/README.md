# Aerogel kernel: a verified model of its core

This project models the parts of the Aerogel x86/x86_64 kernel whose correctness is hardest to see
from the code, and proves what those parts are for. Code that changes memory step by step is
modelled as classes and methods with loops over arrays, each proved against a specification on plain
values; the results about whole runs are lemmas about those specifications.

| part | modules | main results |
|---|---|---|
| kernel heap | `HeapSpec`, `HeapRun`, `HeapMem`, `Heap`, `HeapClients` | the headers inside the managed bytes always form a doubly linked list that tiles the region with no two free neighbours; live payloads are disjoint, and over every run of calls and stores each holds what its owner last stored, as long as nobody else writes the heap's memory; freeing everything in any order restores one free block; panic exactly when no block fits; the law of `heap_used` |
| page frames | `Pmm`, `PmmRun` | the bitmap is a set of pages; lowest run of free pages; extents of clients disjoint over every run; exact counter; when the memory map survives the truncation of its addresses |
| 4-level paging | `PageTable`, `Vmm`, `PagingRun`, `Boot` | the tables in physical frames are a tree with one parent slot per table and, as long as nobody else writes those frames, behave as a flat map from page numbers to frames, flags and rights over every run of map and unmap; the exact number of frames each map takes; the tables stay apart from every page other clients of the allocator hold; the identity map of `vmm_init`; exactly when its tables and the heap collide |
| scheduler | `SchedSpec`, `Sched` | the circular list refines a FIFO; invariants over every run; bounded waiting; round robin |
| context switch | `Switch`, `ThreadRun` | an interpreter for `switch_context` and the trampoline on both architectures; over every run that creates threads and switches between them, a thread switched out comes back with the same registers, stack pointer and stack, and a new one calls its function with its argument; together with the scheduler, each does so within a bounded number of turns |
| FAT32 reader | `FatSpec`, `Fat32`, `FatNames`, `FatDir` | a read is a slice of the concatenated cluster chain, even on cyclic chains; piecewise reads; the directory loops equal a functional parse of the entry stream; entries and long names in the layout of the FAT specification read back as what they say |
| lines | `LineSpec`, `Euclid`, `Framebuffer` | `fb_line` ends and plots exactly the nearest points to the ideal line, end to end; every address it writes; the frame afterwards; exactly when its error term overflows |
| ARP and ICMP responder | `Checksum`, `NetSpec`, `Net` | the Internet checksum as ones' complement addition (section 1 of RFC 1071); replies read back, as RFC 791 has it, as ours with checksums that verify; a reply never provokes a reply |
| console | `Console` | the screen is a 25-line window onto a paper that never scrolls, and where the characters of a text stand on it |
| keyboard ring | `Keyboard` | under any interleaving of the interrupt handler with the steps of the poller no event is lost, doubled or overwritten, and which are accepted is what a queue of 127 accepts |

`Bytes` holds little-endian numbers and the byte copies that several modules use, `Machine` what the two
architectures differ in, `Sequences` sequences without repetition and sums, `Arithmetic` products and
quotients.

## How the model reads the code

* Integers are unbounded in Dafny, so every width that matters is written out: `size_t` and pointers
  have the width of the `Arch`, 32 or 64 bits (`Arch.Wrap`), FAT cluster and sector arithmetic is
  modulo 2^32, pixel offsets and the error term of `fb_line` are 32-bit.
* A kernel panic is a result (`Panic`, or `ok == false`), not a precondition.
* The disk is a function from sector number to 512 bytes; ticks, scan codes and the character tables
  are parameters.
* In `Switch` memory is word-granular: offsets 20 and 24 of the 32-bit code are words 5 and 6. A
  thread may do anything to its registers and its own stack between two switches.
* The keyboard handler is atomic, as an interrupt is; `keyboard_poll` is cut into its load of `khead`,
  its comparison, the copy of each field of the event, and the update of `ktail`.

## Where the code departs from its apparent intent

Each is modelled as the code is; where a promise fails, the condition under which it holds is proved.

* `kmalloc` rounds the request modulo the word size, so a request within 7 of it is rounded to 0 and
  served with a block that does not hold it: `HeapRun.MallocHoldsIff`. `krealloc` to such a size can
  copy the old block over the end of the new one: `HeapRun.CopyOverruns` is an input, and
  `HeapRun.CopyStaysIff` says, from the request and the block list, exactly when the copy stays
  inside. `heap_used` adds the rounded
  request and subtracts the block size, so it drifts by what blocks were larger than requests:
  `HeapRun.AccountingLaw`, and `HeapRun.CounterDrifts` for an input.
* On x86 the masks of `pmm_init` cut 64-bit addresses to 32 bits: RAM at 4 GiB frees low pages, 50
  bytes below 4 GiB free everything, RAM from 1 MiB to 4 GiB frees nothing (`Pmm.HighRamFreesLow`,
  `Pmm.CrumbFreesAll`, `Pmm.FullRamFreesNone`). `Pmm.EntryIff` says exactly which entries are taken
  for what they report. `pmm_available` subtracts pages that are not RAM; it is right exactly when
  `pmm_init` counted 2 GiB: `Pmm.Pmm.AvailableIff`, and `Pmm.Pmm.AvailableWraps` for an input.
* On x86_64 `kmain` calls `pmm_init`, `vmm_init` and `heap_init` one after the other, and nothing marks
  the heap's pages used. `vmm_init` takes the lowest 2052 free pages, and only 1023 lie below the heap:
  its tables keep clear of the heap exactly when no page of the heap is usable RAM outside the kernel
  (`Boot.Start`), and with RAM from 1 MiB to 128 MiB the first header is written over a table
  (`Boot.HeapIsFreeRam`). The results about the heap and about paging are each about memory that
  nobody else writes.
* `vmm_map` does not mask its flags, so flag bits from bit 12 up (NX among them) end up in the frame
  number; the frame is the one asked for exactly when it already covers those bits:
  `Vmm.MappedPhys`, and `Vmm.NoExecuteInFrame` for an input. A null table from `get_or_create` is not checked; `Vmm.Vmm.Map` answers
  `ok == false` there, exactly when fewer frames are left than the path lacks. The log line of
  `vmm_init` says 8 GiB; the loops map 2^41 bytes.
* `get_or_create` links tables without the user flag, so no page is ever open to user mode, whatever
  flags it is mapped with: `PageTable.NeverUser`.
* `sched_sleep` with an empty queue returns with the current thread still SLEEPING:
  `SchedSpec.SleepAlone`. `sched_tick` looks for deadlines on the run queue, where no sleeper ever is,
  and so never changes a state: `Sched.Scheduler.Tick`.
* `fat32_read_file` never looks at the first cluster number while it skips, so a file whose start is
  an end mark can yield bytes from its second cluster on; `Fat32.Volume.ReadFile` says exactly when,
  `Fat32.EndMarkYields` is an input.
  The mark of a bad cluster is not looked at and read as a cluster number: `Fat32.BadMarkRead`. A
  blank inside a short name cuts it: `FatNames.ShortNameIff`. `cat` prints each piece it reads up to
  the first zero byte: `Fat32.ShownIff`.
* `put_pixel` compares coordinates cut to 16 bits but addresses with the full ones, so (65536, 0)
  writes another pixel: `Framebuffer.WildPixel`. `PixelIff` and `LineIff` say exactly when the
  addresses written are those of the visible pixels. Inside `fb_line` the error term can leave the
  range of `int` between the two tests: `Framebuffer.LongestDiagonal` is a line, and
  `Framebuffer.OverflowsIff` the exact condition; the model wraps there.
* `ipv4::parse` ignores version, total length and the minimum header length: `NetSpec.ParseIff` says
  exactly when it reads a packet as section 3.1 of RFC 791 does. So padding comes back as data
  (`NetSpec.PaddingReturned`, `NetSpec.PaddingIff`) and headers that claim fewer than 20 bytes are
  answered (`NetSpec.ShortHeaderAnswered`, `NetSpec.ShortHeaderIff`). The ARP announcement is
  addressed to our own MAC: `Net.Announce`.
* Caps lock turns a small letter into a capital and back, so it only ever makes letters small:
  `Keyboard.CapsLowers`. Releasing one shift key ends shift while the other is held: `Keyboard.Held`.

## Model

| member | source | states |
|---|---|---|
| HeapSpec.HeaderLayout | kernel/mm/heap.c:8-15 | the size of a header and the place of its pointers, with 4-byte and with 8-byte pointers |
| HeapSpec.AllocKeeps | kernel/mm/heap.c:37-48 | carving a request out of a free block keeps the tiling and leaves no two free neighbours |
| HeapSpec.FreeKeeps | kernel/mm/heap.c:50-61 | freeing a used block and merging it with its free neighbours keeps the tiling and leaves no two free neighbours |
| HeapSpec.LivePayloadsDisjoint | kernel/mm/heap.c:63-72 | payloads of two live blocks do not overlap and lie inside the region |
| HeapSpec.FreeLive | kernel/mm/heap.c:80-88 | a free removes exactly the freed block from the live blocks, whatever is merged |
| HeapRun.MallocPanicsIff | kernel/mm/heap.c:63-67 | kmalloc panics exactly when the request is not 0 and no free block holds the rounded request |
| HeapRun.MallocStep | kernel/mm/heap.c:63-72 | a served request keeps the invariant, adds exactly one live block that was not live, returns its payload address, and the block holds the rounded request |
| HeapRun.MallocTakesFirst | kernel/mm/heap.c:31-35 | kmalloc returns the payload of the first free block that holds the rounded request |
| HeapRun.MallocHoldsIff | kernel/mm/heap.c:65-71 | the block holds the request itself exactly when adding 7 does not wrap |
| HeapRun.MoveFitsUnlessWrapped | kernel/mm/heap.c:95-97 | krealloc never moves a block into a smaller one unless adding 7 to the new size wraps |
| HeapRun.MoveFitsIff | kernel/mm/heap.c:63-72 | read off the request and the block list: krealloc moves into a block at least as large exactly when adding 7 to the new size does not wrap, or the old block is empty, or the first free block is too small to be split and no smaller than the old one |
| HeapRun.CopyStaysIff | kernel/mm/heap.c:95-97 | the copy of krealloc stays inside the new block exactly under that condition; otherwise it runs over its end, onto the next header or out of the heap |
| HeapRun.CopyOverruns | kernel/mm/heap.c:95-97 | an input for which it does: 64 bytes, asked to grow to the largest size, go into a block of size 0 |
| HeapRun.FreeStep | kernel/mm/heap.c:80-88 | a free of a live pointer never panics, keeps the invariant and removes exactly that block from the live ones |
| HeapRun.StaysIff | kernel/mm/heap.c:95-99 | krealloc returns the same pointer, and then changes nothing, exactly when the block is large enough |
| HeapRun.MallocCounts | kernel/mm/heap.c:65-71 | a served kmalloc adds exactly the rounded request to the counter; the block at the returned pointer adds its size to the live total and is larger than the request by less than header size plus 32 |
| HeapRun.FreeCounts | kernel/mm/heap.c:80-88 | a free takes exactly the size of the block from the counter and from the live total |
| HeapRun.CallCounts | kernel/mm/heap.c:63-100 | the same for every call, a krealloc that moves being both |
| HeapRun.SlackReached | kernel/mm/heap.c:37-38 | the bound is reached: a block can be header size plus 31 larger than the request |
| HeapRun.StepKeeps | kernel/mm/heap.c:63-100 | every call of kmalloc, kfree or krealloc on live pointers, but a krealloc whose copy would leave the new block, keeps tiling and no two free neighbours |
| HeapRun.StepLive | kernel/mm/heap.c:63-100 | a call leaves every block live that it was not given |
| HeapRun.RunKeeps | kernel/mm/heap.c:20-100 | the invariant holds after every run of calls |
| HeapRun.AccountingLaw | kernel/mm/heap.c:65-85 | after any run from heap_init the counter is the sum of the rounded requests served less the sizes of the blocks freed, modulo the word size, while the live total is the sum of the sizes of the blocks handed out less those freed; so the counter is the live total less the slack of every allocation, and equals it exactly when these slacks sum to zero modulo the word size |
| HeapRun.CounterDrifts | kernel/mm/heap.c:70-85 | four calls after which two blocks of 48 bytes are live and the counter says 16 |
| HeapRun.FreeAllRestores | kernel/mm/heap.c:50-88 | freeing all live pointers, in any order, never panics and gives the block list of heap_init |
| HeapMem.LinkedSplit | kernel/mm/heap.c:39-47 | the header writes of split turn the doubly linked list of the old blocks into that of the new ones |
| HeapMem.LinkedMerge | kernel/mm/heap.c:51-60 | the header writes of one merge unlink exactly the swallowed block |
| HeapMem.PayloadUntouched | kernel/mm/heap.c:37-61 | a change confined to headers of a tiling leaves every payload byte alone |
| Heap.Heap.constructor | kernel/mm/heap.c:20-29 | the bytes hold one free block over the whole region |
| Heap.Heap.FindFree | kernel/mm/heap.c:31-35 | the walk along the next pointers ends and returns the first free block that fits, null exactly when there is none |
| Heap.Heap.Split | kernel/mm/heap.c:37-48 | the chain in memory becomes the block list with the block cut, or stays when the rest is too small; only header bytes change |
| Heap.Heap.CoalesceForward | kernel/mm/heap.c:50-55 | the loop ends and takes over exactly the free block that follows |
| Heap.Heap.Coalesce | kernel/mm/heap.c:50-61 | the chain in memory becomes the list merged on both sides; only header bytes change |
| Heap.Heap.Kmalloc | kernel/mm/heap.c:63-72 | the bytes follow the block list step, and no byte of any live payload changes |
| Heap.Heap.Kfree | kernel/mm/heap.c:80-88 | for a live pointer or null the bytes follow the block list step and no other live payload changes; for a pointer whose header fails a test, panic and no change; afterwards the freed header fails the test |
| Heap.Heap.Krealloc | kernel/mm/heap.c:90-100 | whenever the copy stays inside the new block, the bytes follow the block list step, no other live payload changes, and the result begins with the first min(old block size, new size) bytes |
| Heap.Heap.FreeTwice | kernel/mm/heap.c:83-84 | a second free of the same pointer with nothing in between always panics, also after its header was merged into a neighbour |
| Heap.Heap.FreeAll | kernel/mm/heap.c:50-88 | kfree of every live pointer, in any order, leaves the bytes of the one header heap_init writes |
| Heap.Heap.PerformAll | kernel/mm/heap.c:20-100 | a whole run on the bytes is the run on the block list, and payloads no call was given are byte for byte what they were |
| HeapClients.Moved | kernel/mm/heap.c:90-100 | after krealloc the live pointers are the old ones with the returned one in place of the given one, and its block is large enough for what is kept |
| HeapClients.PerformAll | kernel/mm/heap.c:20-100 | over a whole run of kmalloc, kfree, krealloc and stores, every live payload holds at every offset the byte its owner last stored there, moves by krealloc included |
| Pmm.Pmm.SetPage | kernel/mm/pmm.c:12 | the set of used pages gains exactly the page |
| Pmm.Pmm.ClearPage | kernel/mm/pmm.c:13 | the set of used pages loses exactly the page |
| Pmm.Pmm.constructor | kernel/mm/pmm.c:18-54 | used are exactly the reserved pages and those outside what the truncated bounds of the map's usable entries enclose; the counter is 4096 times their number |
| Pmm.EntryIff | kernel/mm/pmm.c:24-34 | the truncated bounds of an entry enclose exactly the whole pages below 2 GiB that it reports, exactly when its end does not wrap to a page below 2 GiB, or, if it reports no such page, the wrapped bounds enclose none |
| Pmm.BelowTopSurvives | kernel/mm/pmm.c:24-25 | which holds of every entry that ends below the top of the address space |
| Pmm.EntryCounts | kernel/mm/pmm.c:28 | and adds 4096 bytes to the total for each of its whole pages |
| Pmm.MapSurvives | kernel/mm/pmm.c:21-35 | a map whose entries all meet that condition frees exactly the pages it reports |
| Pmm.HighRamFreesLow | kernel/mm/pmm.c:24-25 | on x86 RAM at 4 GiB frees pages at 0 that are not RAM |
| Pmm.CrumbFreesAll | kernel/mm/pmm.c:24-25 | on x86 an entry of 50 bytes just below 4 GiB frees every page |
| Pmm.FullRamFreesNone | kernel/mm/pmm.c:24-26 | on x86 RAM from 1 MiB to 4 GiB frees nothing |
| Pmm.ReservedIff | kernel/mm/pmm.c:37-45 | the pages marked as reserved are those of the first MiB, the kernel and the bitmap exactly when rounding up the kernel's end does not wrap |
| Pmm.Pmm.MarkUsed | kernel/mm/pmm.c:56-62 | the pages of the range, as far as covered, become used and the counter follows |
| Pmm.Pmm.Alloc | kernel/mm/pmm.c:64-73 | the lowest free page from page 1 on; 0 only when none is free |
| Pmm.Pmm.AllocN | kernel/mm/pmm.c:75-93 | the lowest run of n free pages from page 1 on becomes used; 0 exactly when n is 0 or there is none |
| Pmm.Pmm.Free | kernel/mm/pmm.c:95-100 | exactly the page is given back, a free or uncovered one is ignored, and the counter follows |
| Pmm.Pmm.FreeN | kernel/mm/pmm.c:102-105 | exactly the pages at the computed addresses are given back, with the shift taken in 32 bits |
| Pmm.FreedPagesExact | kernel/mm/pmm.c:102-105 | for extents inside the bitmap those addresses are the n pages from the start on: no wrap-around |
| Pmm.AllocFreeRestores | kernel/mm/pmm.c:75-105 | pmm_free_n of what pmm_alloc_n gave restores the set of used pages |
| Pmm.Pmm.AvailableIff | kernel/mm/pmm.c:109 | in every state, in 64-bit arithmetic, pmm_available is the number of free bytes exactly when pmm_init counted 2 GiB |
| Pmm.Pmm.AvailableWraps | kernel/mm/pmm.c:109 | with 127 MiB of RAM of which 112 are free it reports more than 2^63 bytes |
| PmmRun.StepKeeps | kernel/mm/pmm.c:64-105 | held extents stay disjoint, apart from what was used before, above page 0, and account for all used pages |
| PmmRun.RunKeeps | kernel/mm/pmm.c:64-105 | the same in every state of every run of clients that give back what they hold |
| PmmRun.AllGivenBack | kernel/mm/pmm.c:64-105 | when everything has been given back the bitmap is what it was |
| PmmRun.Serve | kernel/mm/pmm.c:64-105 | the same for the real bitmap, for any sequence of requests and returns |
| PageTable.OneParent | arch/x86_64/mm/vmm.c:10-18 | two slots that lead to the same table are the same slot |
| PageTable.NeverUser | arch/x86_64/mm/vmm.c:15 | in every state no page is open to user mode, because no entry that links a table is |
| PageTable.GrowTree | arch/x86_64/mm/vmm.c:10-18 | linking a zeroed fresh frame into an empty slot keeps the tree |
| PageTable.GrowWalk | arch/x86_64/mm/vmm.c:10-18 | and changes no translation, no flags and no rights |
| PageTable.PutSmallWalk | arch/x86_64/mm/vmm.c:61 | a write to a last-level entry changes translation, flags and rights of the one page whose path ends there, to those of the entry |
| PageTable.PutHugeWalk | arch/x86_64/mm/vmm.c:36-40 | a 2 MiB entry in an empty directory slot maps exactly the 512 pages of that slot, with its flags and rights |
| PageTable.OrCovers | arch/x86_64/mm/vmm.c:61 | or-ing bits into a number leaves it unchanged exactly when it has them already |
| PageTable.MapEntryFrame | arch/x86_64/mm/vmm.c:61 | the stored entry is present and its frame is the frame asked for, or-ed with the flag bits from bit 12 up |
| PageTable.MapEntryLow | arch/x86_64/mm/vmm.c:61 | the low 12 bits of the stored entry are those of the flags, and bit 0 |
| PageTable.MapEntryLeads | arch/x86_64/mm/vmm.c:61 | so the page is writable exactly when bit 1 of the flags is set, and executable unless bit 63 of the entry is |
| Vmm.AddressIndices | arch/x86_64/mm/vmm.c:52-55 | the four shifts and masks of an address are the four indices of its page number |
| Vmm.Vmm.constructor | arch/x86_64/mm/vmm.c:20-41 | with 2052 free frames the tables map page n to itself below 2^29 pages, with flags 0x83, writable, executable and not for user mode, and nothing else; the tables are the root and exactly 2052 pages, the lowest free ones |
| Vmm.IdentityPhys | arch/x86_64/mm/vmm.c:81-97 | under that map vmm_phys gives v below 2^41 and 0 from there to 2^48 |
| Vmm.Vmm.GetOrCreate | arch/x86_64/mm/vmm.c:10-18 | the table a slot leads to, made if the slot is empty, with every translation unchanged; null exactly when the slot is empty and no frame is free |
| Vmm.Vmm.Map | arch/x86_64/mm/vmm.c:51-63 | outside 2 MiB entries the page, and no other, leads to the new frame with the new flags and rights; exactly the frames its path lacks are taken, all free before and all now tables; it fails exactly when fewer are free, changing nothing a walk shows |
| Vmm.Vmm.Unmap | arch/x86_64/mm/vmm.c:65-79 | outside 2 MiB entries the page, and no other, becomes unmapped; no other page's frame, flags or rights change |
| Vmm.Vmm.Phys | arch/x86_64/mm/vmm.c:81-97 | the frame the page number leads to plus the offset, 0 for an unmapped page, for every 64-bit address |
| Vmm.Vmm.Perform | arch/x86_64/mm/vmm.c:51-79 | over a whole run every page is what the same calls make of one cell of a flat table; every table has one parent slot and is marked used after every run; the run stops only when no frame is left |
| PagingRun.TablesApart | arch/x86_64/mm/vmm.c:10-18 | what the shared invariant gives: every table is a used page that no client of the page allocator holds |
| PagingRun.PerformAll | arch/x86_64/mm/vmm.c:51-79 | over every run of map and unmap mixed with clients of the page allocator the tables stay a tree of used pages, apart from all held extents, which stay disjoint, and each page translates as the paging calls alone make one cell of a flat table |
| Boot.RangeHit | kernel/mm/pmm.c:64-73 | of pages taken lowest first, more than there are below a range, none lies in the range exactly when none of it was free, and its first page is taken if it was free |
| Boot.Start | kernel/kmain.c:69-71 | after pmm_init and vmm_init the page tables keep clear of the heap exactly when no page of the heap is usable RAM outside the kernel; if its first page is, heap_init's header goes over a table |
| Boot.HeapIsFreeRam | kernel/kmain.c:69-71 | with RAM from 1 MiB to 128 MiB and a kernel that ends at 2.5 MiB that page is such RAM |
| Vmm.MappedPhys | arch/x86_64/mm/vmm.c:61 | a mapped page translates to the frame asked for plus the offset exactly when the frame covers the flag bits from bit 12 up, so always for flags below 4096 |
| Vmm.NoExecuteInFrame | arch/x86_64/mm/vmm.c:61 | with bit 63 set in the flags a page mapped to 0x5000 translates elsewhere |
| SchedSpec.StepKeeps | kernel/sched/sched.c:14-118 | every legal operation keeps: no thread queued twice, every queued thread READY, the current one not queued, any RUNNING thread current |
| SchedSpec.DemandsExact | kernel/sched/sched.c:46-118 | the demands on callers are needed: adding keeps the invariant exactly when the thread is neither queued nor current, waking exactly when it is not the current one or not asleep |
| SchedSpec.RunKeeps | kernel/sched/sched.c:14-118 | the invariant holds after every legal run |
| SchedSpec.SleepAlone | kernel/sched/sched.c:105-111 | after sched_sleep the caller is SLEEPING and not queued, the first queued thread is current, and the caller still is exactly when the queue was empty |
| SchedSpec.ExitLeaves | kernel/sched/thread.c:47-51 | after thread_exit the caller is ZOMBIE and not queued, the first queued thread is current, and the caller still is exactly when the queue was empty |
| SchedSpec.DeadStays | kernel/sched/sched.c:113-118 | nothing but adding it again brings a zombie that has left the processor back, and waking it changes nothing |
| SchedSpec.DeadRun | kernel/sched/sched.c:14-118 | so in every legal run that does not add it again it is never queued or current |
| SchedSpec.SleeperStays | kernel/sched/sched.c:105-118 | a sleeping or blocked thread stays off the queue until it is woken or added |
| SchedSpec.WakeJoins | kernel/sched/sched.c:113-118 | sched_wake puts a sleeping or blocked thread at the end of the queue, READY |
| SchedSpec.AddJoins | kernel/sched/sched.c:46 | sched_add puts a thread at the end of the queue, READY |
| SchedSpec.RemoveLeaves | kernel/sched/sched.c:48-57 | sched_remove takes exactly the thread out and leaves the order of the others and every state |
| SchedSpec.StepAdvances | kernel/sched/sched.c:77-103 | a switch moves a queued thread one place up or makes it current; nothing else moves it back |
| SchedSpec.BoundedWaiting | kernel/sched/sched.c:14-118 | a thread at position i becomes current within i + 1 yields, sleeps or exits, whatever is added, woken or removed meanwhile |
| SchedSpec.RoundRobin | kernel/sched/sched.c:77-103 | with n queued threads n + 1 yields restore the current thread, the queue order and every state exactly when the current thread is RUNNING or nothing is queued; otherwise it drops out and the others take one turn each |
| Sched.Scheduler.constructor | kernel/sched/thread.c:61-70 | the idle thread runs and the ring is empty |
| Sched.Scheduler.Enqueue | kernel/sched/sched.c:14-25 | the pointer writes append the thread to the ring, READY |
| Sched.Scheduler.DequeueNext | kernel/sched/sched.c:27-39 | the pointer writes take the first thread off the ring |
| Sched.Scheduler.Add | kernel/sched/sched.c:46 | the ring follows the FIFO step |
| Sched.Scheduler.RemoveThread | kernel/sched/sched.c:48-57 | the thread is taken out of the ring wherever it is, and one that is not linked is left alone |
| Sched.Scheduler.Remove | kernel/sched/sched.c:48-57 | the ring and states follow the FIFO step |
| Sched.Scheduler.Yield | kernel/sched/sched.c:77-103 | ring, states and current thread follow the FIFO step, both quanta are full and need_resched is clear |
| Sched.Scheduler.Sleep | kernel/sched/sched.c:105-111 | they follow the FIFO step of sleeping and the deadline is set |
| Sched.Scheduler.Wake | kernel/sched/sched.c:113-118 | a sleeping or blocked thread joins the ring, any other is left alone |
| Sched.Scheduler.Exit | kernel/sched/thread.c:47-53 | they follow the FIFO step of exiting, the caller is a zombie off the ring, and one thread fewer is counted |
| Sched.Scheduler.Tick | kernel/sched/sched.c:59-75 | the scan round the ring ends and no thread's state, nor the ring, changes; the quantum goes down and need_resched is set when it is 0 |
| Sched.Scheduler.PerformAll | kernel/sched/sched.c:14-118 | a whole legal run on the linked blocks, on any threads there are, new ones included, with a timer tick after every operation, keeps the ring well formed and is the run of the FIFO |
| Sched.StartOne | kernel/sched/thread.c:17-45 | from sched_init, a thread just created can be woken in vain, added, and runs after the first yield |
| Switch.SwitchContextShape | arch/x86_64/cpu/switch.asm:7-24 | the instruction list is pushes, the exchange, the same pops in reverse and ret, on both architectures |
| Switch.SwitchEffect | arch/x86/cpu/switch.asm:6-21 | running it saves the stack pointer in the given slot, leaves return address and callee-saved registers on the old stack, and loads them from the new one; no other word changes |
| Switch.Resumes | kernel/sched/sched.c:97-98 | a switch to thread j resumes it with exactly the registers, stack pointer, stack contents and return address it holds |
| Switch.StepKeeps | arch/x86_64/cpu/switch.asm:7-24 | any work of the current thread on its own stack, any switch and any thread_create keep what every suspended thread holds |
| Switch.ComesBackUnchanged | arch/x86/cpu/switch.asm:6-21 | a thread switched out and later switched back to, with any run of others between, new ones included, sees the same callee-saved registers, stack pointer and stack, and returns to where it called |
| Switch.CreatedHolds | kernel/sched/thread.c:28-41 | the stack thread_create writes is that of a thread suspended before the trampoline with fn and arg on its stack and zero registers |
| Switch.SpawnKeeps | kernel/sched/thread.c:28-41 | thread_create adds a suspended thread to those there are and disturbs no other |
| Switch.TrampolineCalls | arch/x86/cpu/switch.asm:26-30 | the trampoline calls fn with arg, on the stack or in the first argument register as the architecture wants |
| Switch.FirstSwitch | kernel/sched/thread.c:28-41 | a switch into a thread whose record is that of thread_create reaches the trampoline, which calls exactly fn with arg |
| Switch.BootOk | kernel/sched/thread.c:61-70 | at boot the one idle thread is such a state, so every run from there is covered |
| Switch.CreatedThenRun | kernel/sched/thread.c:28-41 | in every run a thread created at one step and first switched to at a later one reaches the trampoline, which calls exactly its fn with its arg |
| ThreadRun.StepKeeps | kernel/sched/sched.c:77-103 | scheduler and processor agree on the current thread through every call, switch and thread_create |
| ThreadRun.RunsInTime | kernel/sched/sched.c:77-103 | a thread at position p of the queue that nobody removes runs by the time the processor has been given up p + 1 times, with exactly the registers, stack pointer, stack and return address recorded for it |
| ThreadRun.YieldReturns | kernel/sched/sched.c:77-103 | a running thread that yields with n threads queued returns from its call after at most n further turns, with everything it called with |
| ThreadRun.StartsInTime | kernel/kmain.c:110-112 | a thread created and then added behind n others enters its function with its argument within n + 1 turns |
| ThreadRun.ExitIsFinal | kernel/sched/thread.c:47-53 | a thread that exits while another is queued never runs again, in any run that does not add it again |
| FatSpec.ContentSlice | kernel/fs/fat32.c:43-88 | bytes of the chain within the file's length are the corresponding slice of its content |
| FatSpec.Pieces | userspace/shell/shell.c:84-91 | reading a range in any consecutive pieces gives what one read gives |
| FatSpec.LinkAt | kernel/fs/fat32.c:28-37 | the link of a cluster is the number at four times its own in the table, least significant byte first, without its top four bits |
| FatSpec.ClustersAdjoin | kernel/fs/fat32.c:39-41 | cluster 2 begins at the data area and each cluster right behind the one before |
| Fat32.Volume.NextCluster | kernel/fs/fat32.c:28-37 | the link of the cluster in the table, without its top four bits |
| Fat32.Volume.CopyFromCluster | kernel/fs/fat32.c:69-81 | the sector loop copies exactly the chunk from the offset in the cluster, and touches nothing else |
| Fat32.Volume.SkipClusters | kernel/fs/fat32.c:54-58 | the cluster that many links on, or failure exactly when an end mark comes before |
| Fat32.Volume.ReadFile | kernel/fs/fat32.c:43-88 | the bytes read are the slice of the file's content, clipped to its size and its chain; the exception for a start that is an end mark is stated exactly; it ends on every chain |
| Fat32.EndMarkYields | kernel/fs/fat32.c:54-63 | on a disk of zeros a file that starts with an end mark is empty and yields a byte of its second cluster |
| Fat32.BadMarkRead | kernel/fs/fat32.c:63 | a file that starts with the mark of a bad cluster is read |
| Fat32.Volume.Cat | userspace/shell/shell.c:84-91 | reads of 63 bytes until nothing is left yield the whole content, and each piece is printed up to its first zero byte |
| Fat32.ShownIff | userspace/shell/shell.c:84-91 | so the file is shown whole exactly when it holds no zero byte |
| FatNames.PartReadsBack | kernel/fs/fat32.c:105-111 | the thirteen units of one encoded long-name entry read back |
| FatNames.LongNameReadsBack | kernel/fs/fat32.c:102-114 | any name of non-zero bytes cut into entries in the long-name layout, last part first, reads back unchanged |
| FatNames.ParseLongName | kernel/fs/fat32.c:162-212 | in the directory parse such entries followed by an ordinary one give one node of that name, for every name of 1 to 255 bytes |
| FatNames.ShortNameIff | kernel/fs/fat32.c:90-100 | an 8.3 name padded with blanks reads back exactly when it has no blank inside |
| FatNames.EntryReadsBack | kernel/fs/fat32.c:177-211 | an ordinary entry in the layout of the FAT specification is read as exactly what it says: short name, start cluster and size, as a file or, by bit 4 of its attributes, a directory |
| FatNames.LongEntryReadsBack | kernel/fs/fat32.c:177-211 | and behind the entries of a long name under that name, with the same cluster and size |
| FatNames.Skipped | kernel/fs/fat32.c:164-175 | deleted entries, labels and dot entries make no node and drop collected long-name entries; a zero ends the directory |
| FatNames.TwentyKept | kernel/fs/fat32.c:166-173 | of long-name entries in a row the first 20 are kept |
| FatDir.NodeList.Push | kernel/fs/fat32.c:206-211 | the growing array appends the node and keeps the others |
| FatDir.ParseLfn | kernel/fs/fat32.c:102-114 | the name buffer holds the long name, at most 255 bytes, and its terminator |
| FatDir.Parse83 | kernel/fs/fat32.c:90-100 | the name buffer holds name, dot and extension up to their first blanks |
| FatDir.ScanConcat | kernel/fs/fat32.c:157-215 | parsing entries in two parts is parsing them together, with the pending long-name entries and the early end carried over |
| FatDir.LoadDir | kernel/fs/fat32.c:143-219 | the cluster, sector and entry loops with their early exit give the functional parse of the flattened entries up to the first zero entry |
| FatDir.DirStream | kernel/fs/fat32.c:157-162 | those entries are the chain's bytes cut into pieces of 32 |
| LineSpec.NearestUnique | drivers/display/framebuffer.c:211-218 | the minor coordinate the error term implies is the only one in its half-open half pixel |
| LineSpec.LineEnds | drivers/display/framebuffer.c:207-219 | the line starts and ends at the given points |
| LineSpec.LineClose | drivers/display/framebuffer.c:207-219 | point k is k steps along the major axis and at most half a pixel off the ideal line along the minor one |
| LineSpec.LineInBox | drivers/display/framebuffer.c:207-219 | no point leaves the box of the end points |
| LineSpec.ReversedIff | drivers/display/framebuffer.c:207-219 | a point is the same on the line drawn backwards exactly when the ideal line does not pass half way between two pixels there |
| Framebuffer.Advance | drivers/display/framebuffer.c:215-217 | the two tests on the error term step from each point of the line to the next |
| Framebuffer.Framebuffer.PixelIff | drivers/display/framebuffer.c:159-171 | the addresses put_pixel writes are those of the pixel's bytes, and none when it is not on the screen, exactly when the test on 16-bit coordinates lets no invisible point through |
| Framebuffer.WildPixel | drivers/display/framebuffer.c:160-161 | (65536, 0) on a screen of 640 by 480 writes the pixel (256, 102); (70000, 0) is clipped as it should be |
| Framebuffer.Framebuffer.Pixel | drivers/display/framebuffer.c:159-176 | exactly the computed addresses are written, inside the frame or not, with the bytes of the colour; no other byte of the frame changes; a visible point that is let through rightly is painted |
| Framebuffer.Framebuffer.ColourReadsBack | drivers/display/framebuffer.c:159-171 | the bytes of a pixel, least significant first, are the colour, or its low 24 bits |
| Framebuffer.Framebuffer.DrawLine | drivers/display/framebuffer.c:207-219 | the loop ends after exactly max(dx, dy) + 1 points, which are those of the line in order; the addresses written for each are given; every byte of the frame is what the last write that hit it left, wild writes included; if every point is clipped rightly, exactly the visible ones take the colour |
| Framebuffer.Framebuffer.LineIff | drivers/display/framebuffer.c:159-219 | point by point, a line writes exactly its visible pixels exactly when every point is clipped rightly |
| Framebuffer.Framebuffer.ReachInside | drivers/display/framebuffer.c:159-219 | which holds when both end points lie where the cut to 16 bits cannot matter |
| Framebuffer.OverflowsIff | drivers/display/framebuffer.c:214-217 | the error term leaves the range of int between the two tests in some turn exactly when 0 < ax <= ay and ax - g + (ay / 2) mod g + ay passes 2^31, g being the greatest common divisor of ax and ay |
| Framebuffer.LongestDiagonal | drivers/display/framebuffer.c:216 | a line for which it does, on its first turn |
| Euclid.GcdGreatest | drivers/display/framebuffer.c:214-217 | the divisor in that condition divides both numbers and is divided by every number that does |
| Checksum.OnesSumFolds | rust/crates/aerogel-core/src/net/ipv4.rs:5-15 | ones' complement addition of the words is the folded plain sum |
| Checksum.Compute | rust/crates/aerogel-core/src/net/ipv4.rs:5-15 | the loop gives the complement of the ones' complement sum for all data of up to 65537 words, odd lengths included |
| Checksum.OverflowBeyond | rust/crates/aerogel-core/src/net/ipv4.rs:9 | one word more can overflow the 32-bit sum |
| Checksum.ChecksToZero | rust/crates/aerogel-core/src/net/ipv4.rs:43-44 | data with its checksum stored in an aligned zeroed word sums to zero |
| NetSpec.ArpReplyReads | rust/crates/aerogel-core/src/net/arp.rs:10-35 | an ARP reply reads back as a reply from us to the sender of the request, in header and body |
| NetSpec.EchoReplyReads | rust/crates/aerogel-core/src/net/icmp.rs:11-36 | an IPv4 reply is a datagram of section 3.1 of RFC 791, ICMP from us to the requester, whose total length is that of the frame behind the Ethernet header; header and body check to zero, and it is an echo reply with all bytes of the frame behind the claimed header, from the fifth on |
| NetSpec.ParseIff | rust/crates/aerogel-core/src/net/ipv4.rs:17-25 | parse reads a packet as section 3.1 of RFC 791 does exactly when it is too short anyway, or has version 4, a header of at least 20 bytes and nothing behind its total length |
| NetSpec.PaddingIff | rust/crates/aerogel-core/src/net/ipv4.rs:19-24 | an echo reply carries the data of the request's datagram exactly when the frame ends with the datagram |
| NetSpec.PaddingReturned | rust/crates/aerogel-core/src/net/ipv4.rs:19-24 | a ping of 28 bytes in the shortest frame is answered with its 18 bytes of padding |
| NetSpec.ShortHeaderIff | rust/crates/aerogel-core/src/net/ipv4.rs:19-24 | a header that claims fewer than 20 bytes is answered exactly when the byte at its claimed end, in the identification, the time to live or an address, is 8 |
| NetSpec.ShortHeaderAnswered | rust/crates/aerogel-core/src/net/ipv4.rs:19-24 | such a header that is no datagram and is answered |
| NetSpec.RepliesIff | rust/crates/aerogel-core/src/lib.rs:32-65 | a reply is made exactly for an ARP request for our address or an echo request to it that fits |
| NetSpec.NoStorm | rust/crates/aerogel-core/src/lib.rs:32-65 | for every frame, no host with any MAC and any IP replies to the reply |
| Net.WriteFrame | rust/crates/aerogel-core/src/net/ethernet.rs:19-26 | the header bytes in a buffer that has room, nothing otherwise; the rest of the buffer is kept |
| Net.Ipv4Write | rust/crates/aerogel-core/src/net/ipv4.rs:27-46 | the header with its checksum, the total length cut to 16 bits, in a buffer that has room, nothing otherwise |
| Net.ArpHandle | rust/crates/aerogel-core/src/net/arp.rs:3-36 | the buffer holds the ARP reply, or none is announced |
| Net.IcmpHandle | rust/crates/aerogel-core/src/net/icmp.rs:3-37 | in a buffer of any size: the length of the echo reply, or 0 when there is none or it does not fit; the buffer holds the reply for every body the 32-bit sum can hold |
| Net.ProcessPacket | rust/crates/aerogel-core/src/lib.rs:18-66 | true exactly when there is a reply, which then is in the buffer with its length |
| Net.Announce | rust/crates/aerogel-core/src/lib.rs:73-103 | the announcement is an ARP reply from us to ourselves, broadcast only if our MAC is |
| Console.LinesAreFinal | drivers/display/vga_text.c:66-87 | nothing printed later changes a line above the pen |
| Console.TextStands | drivers/display/vga_text.c:66-87 | a text of plain characters printed on a cleared screen stands from the top left corner on, 80 characters to a line, character and colour in the bytes of each cell, blanks behind it, and the pen right behind it |
| Console.ControlsMove | drivers/display/vga_text.c:67-78 | newline, return, tab and backspace move the pen as they should, and a backspace blanks the cell before it |
| Console.Screen.Scroll | drivers/display/vga_text.c:22-29 | every line moves up by one and the last is blank |
| Console.Screen.Clear | drivers/display/vga_text.c:39-45 | the screen shows a fresh paper |
| Console.Screen.Putc | drivers/display/vga_text.c:66-85 | a screen that shows a paper shows the paper with the character printed |
| Console.Screen.ClearAndPrint | drivers/display/vga_text.c:39-87 | after any characters and colour changes the cursor is on the screen and the screen is the last 25 lines of the paper |
| Keyboard.CapsLowers | drivers/input/ps2_keyboard.c:107-108 | with caps lock on no capital letter is ever produced |
| Keyboard.CharacterOf | drivers/input/ps2_keyboard.c:104-109 | a key gives the character of the shifted table with shift and of the plain one without, in small letters with caps lock |
| Keyboard.Keyboard.Push | drivers/input/ps2_keyboard.c:55-61 | the event is appended, and refused exactly when 127 are held |
| Keyboard.DecodeMakes | drivers/input/ps2_keyboard.c:72-118 | an event is made exactly by the press of a key that is no modifier; it carries the scan code and the modifiers, which it leaves alone |
| Keyboard.Held | drivers/input/ps2_keyboard.c:82-99 | after any scan codes shift, control or alt is on exactly when the last of its keys was pressed, caps lock after an odd number of presses |
| Keyboard.Keyboard.Handle | drivers/input/ps2_keyboard.c:72-118 | the modifiers and the event offered to the ring are the decoded ones, and the extended flag marks the prefix code |
| Keyboard.Keyboard.PollStep | drivers/input/ps2_keyboard.c:63-68 | each action of the poller keeps the ring; an event returned is the oldest one buffered; empty is reported only if nothing was buffered when khead was read |
| Keyboard.Keyboard.Run | drivers/input/ps2_keyboard.c:55-118 | under every interleaving the polled events followed by the buffered ones are the accepted ones in order, and modifiers, accepted events and polls are those of a queue of 127 fed with the decoded scan codes |
| Keyboard.NoneRefused | drivers/input/ps2_keyboard.c:55-118 | as long as the events offered fit beside those held, whatever the poller does meanwhile, the accepted events are all events the scan codes make |

## Left out

- Heap.Heap.Krealloc: what the heap is after a copy that runs over the end of the new block (HeapRun.CopyStaysIff says exactly when) is not modelled, because headers are then overwritten with payload bytes.
- HeapRun.RunKeeps: runs leave out that same use of krealloc, and no other call on live or null pointers; so do StepKeeps, StepLive, AccountingLaw, Heap.PerformAll and HeapClients.PerformAll.
- Heap.Heap.Kfree: pointers that are neither live, null nor caught by the two header tests are not covered, because what the code then does depends on arbitrary payload bytes.
- Pmm.MapSurvives: one direction only, because entries may overlap and make up for each other; per entry it is exact (Pmm.EntryIff).
- Vmm.Vmm.Map: after a missing frame the kernel goes on with a null table; the model stops there.
- Boot.Start: what the kernel does after the heap and the page tables have overwritten each other; the two are modelled on memory of their own.
- Net.IcmpHandle: the checksum of bodies of more than 131074 bytes, for which the 32-bit sum can overflow; the one caller passes a buffer of 1514 bytes.
- kcalloc, kheap_used and the statistics functions: easy members.
- The two-level tables of kernel/mm/vmm.c: a shallower form of the 64-bit result.
- printf, atol and the string routines of libs/libc: straight-line number formatting next to the parts above.
- fat32_mount, fat32_finddir and fat32_readdir, vfs and tmpfs: parsing of fixed fields and linear lookups.
- load_dir's use of the kernel heap: its growing array is an array of its own, and the long-name entries it leaks when it drops them are not counted.
- Read errors of the disk, TLB flushes, CR3 loads, cli and sti, cursor port writes: no effect on the modelled state.
- The timer interrupt and preemption: need_resched is never read by the code.
- The GUI, mouse, UDP, drivers and boot code.
