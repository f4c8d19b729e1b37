# sandor_os kernel: memory manager, text console and shell, verified

A Dafny model of the stateful core of a small 32-bit kernel, and proofs about it.

* **Physical pages.** `PhysMem.PhysMemory` holds all of the 32-bit physical space as
  `ram[frame, word]`, the one-page window `TEMP_PAGE`, the head pointer and the counter. The free
  list is threaded through the first three words of the free frames and is reached only through the
  window. `FreeList` says what the list means (a set of pages), `Threads` how it is threaded, and
  `AllocatorRuns` what whole runs of requests do.
* **Page tables.** `Paging` edits the directory and the tables in the same `ram`, through the same
  window, with frames from the same allocator.
* **Block tables.** `BlockTables.BlockTable` is a page of bytes holding two-word records, shifted with
  the byte-level `Stdlib.Memcpy`. `Gaps` is the theory of first fit on sorted spans; `VirtTable`
  (virtual blocks) and `KernelHeap` (`kmalloc`, `kfree`) use it, in 32-bit arithmetic that wraps.
* **Ownership.** `VirtMemory.AddressSpace` puts the three together: `alloc_virt_pages` and
  `free_virt_pages`, with the partition of the frames as its invariant. `SpaceRuns` follows the
  partition over whole runs of these calls.
* **Console and shell.** `Tty` (scrolling screen), `Keyboard` (ring and interrupts), `Numbers`
  (number printing and address parsing), `LineInput` and `Tokenizer`.

Objects that the C code updates in place are classes; each `Valid()` is established by a constructor
or assumed of the boot state and kept by every method, so it holds after every run of calls. A long
C function is split into one method per branch or loop turn, each with the exact memory it leaves.

## What the proofs found

Where the code does not do what its callers expect, the exact condition is proved.

* `free_phys_pages` keeps a list that agrees with `free_page_count` if and only if the range is
  `Covered`: the list is empty, or has a block starting below the range, or the range ends at the
  lowest of several blocks. Otherwise no block sequence at all describes what is left in memory, and
  what is left is stated exactly: the range is nowhere linked in, or two headers name each other.
* Straight after its allocation a block can be freed if and only if one page is still free or the
  block has one page only, because frames are handed out from the top.
* The forward merge inside the `cur_end == base` branch of `free_phys_pages` can never run.
* `add_virt_block` does right if and only if the request fits or the sum that shows the overflow does
  not wrap. In the kernel's own space, which ends at 0xFFFFFFFF (script.ld), it never does, so a
  request that does not fit there is entered past the end instead of being refused.
* `kmalloc` does right if and only if some gap holds the request or the sums do not wrap; the first
  block of an empty heap is not bounded at all. A run of calls keeps the heap in order if and only if
  this holds at each `kmalloc`.
* `kfree` can free only the lowest block.
* `alloc_virt_pages` needs two spare slots in the block table, because the middle insertion of
  `add_virt_block` moves one slot more than is live.
* The keyboard ring looks empty if and only if no code is unread, or 16 are and something was read
  before. A ring in that second state is never read again until the next interrupt, which overwrites
  the oldest code.
* With leading spaces `pars_input` stores the tail of the command as the first argument, and the
  arguments come out right if and only if each of them equals that tail. It then writes past its
  block if and only if that tail is longer than the last argument: `     help a`, after five spaces,
  gets 6 bytes and 9 are written.
* `int_to_str` writes its terminator one byte behind `num_buffer`; the model has 66 slots.

## Model

| member | source | states |
|---|---|---|
| FreeList.SumIsCardinality | kernel/memory_manager.c:6 | in a coalesced list the sum of block sizes, which `free_page_count` holds, is the number of free pages |
| FreeList.RunInOneBlock | kernel/memory_manager.c:184-220 | because freeing coalesces, consecutive free pages always lie inside a single block |
| FreeList.Canonical | kernel/memory_manager.c:153-240 | two well-formed lists over the same set of pages are the same block sequence |
| FreeList.FirstFitIsHighest | kernel/memory_manager.c:113-145 | the first block from the top that is large enough ends with the highest free run of that length |
| FreeList.NoFit | kernel/memory_manager.c:145-151 | when no block is large enough no free run of that length exists anywhere |
| FreeList.OnePage | kernel/memory_manager.c:111 | a single page can be had exactly when the list is not exhausted |
| FreeList.NothingToMergeForward | kernel/memory_manager.c:184-200 | when the range starts where a block ends, no free block starts where the range ends, so the forward merge is unreachable |
| FreeList.CoveredAt | kernel/memory_manager.c:165-236 | which case the walk stops in decides whether the range is covered |
| FreeList.AddBetween | kernel/memory_manager.c:201-220 | filling the gap between two blocks exactly leaves one block with the pages of all three |
| Threads.LinksAreInverse | kernel/memory_manager.c:109-240 | all round the cycle `next` and `prev` are inverse, the head is the highest block, and `prev` goes strictly down until it returns to the head |
| Threads.ResizedThreaded | kernel/memory_manager.c:140-186 | changing only a size leaves the cycle as it is |
| Threads.UnlinkedThreaded | kernel/memory_manager.c:119-143 | joining the neighbours of a block leaves a circular list, links inverse to each other, without that block |
| Threads.LinkedAboveThreaded | kernel/memory_manager.c:168-183 | the writes for a range above a block leave the circular list with the new block between that block and its upper neighbour |
| Threads.LoweredThreaded | kernel/memory_manager.c:221-233 | the writes for a range below a block, in a list of several, leave the circular list with the block starting lower |
| Threads.BridgedThreaded | kernel/memory_manager.c:205-220 | the writes of the three-way merge leave the circular list without the upper block |
| Threads.LoneLoweredNotThreaded | kernel/memory_manager.c:221-233 | with a single block those writes leave no well-formed list in memory |
| Threads.ThreadUnique | kernel/memory_manager.c:165-236 | the headers and the head pointer determine the list |
| PhysMem.PhysMemory.constructor | kernel/memory_manager.c:21-24 | the empty start state is a valid list with no block |
| PhysMem.PhysMemory.WriteHeader | kernel/memory_manager.c:174-177 | through the window, the first three words of exactly the addressed frame become the next link, the previous link and the size, and no other frame changes |
| PhysMem.PhysMemory.FirstFit | kernel/memory_manager.c:113-145 | the walk down `prev` stops at the first block from the top with enough pages, or ends at the head with none |
| PhysMem.PhysMemory.TakeBlock | kernel/memory_manager.c:119-137 | the exact header writes and head update of the exact-fit branch, for every aliasing of the neighbours |
| PhysMem.PhysMemory.LinkAboveBlock | kernel/memory_manager.c:168-183 | the exact header writes and head update of linking a range in above a block |
| PhysMem.PhysMemory.LowerBlock | kernel/memory_manager.c:221-233 | the exact header writes and head update of starting a block lower |
| PhysMem.PhysMemory.BridgeBlocks | kernel/memory_manager.c:205-220 | the exact header writes and head update of the three-way merge |
| PhysMem.PhysMemory.TakeWholeBlock | kernel/memory_manager.c:119-137 | an exact fit leaves a valid list without exactly that block's pages |
| PhysMem.PhysMemory.CarveBlock | kernel/memory_manager.c:138-143 | a larger block gives up exactly its last pages |
| PhysMem.PhysMemory.TakeFrom | kernel/memory_manager.c:119-143 | the block that the walk stopped at yields the highest run of the length asked for |
| PhysMem.PhysMemory.AllocPhysPages | kernel/memory_manager.c:109-152 | hands out the highest run of free pages of that length and removes exactly it, or answers -1 exactly when there is none; list and counter stay right; only free frames are written |
| PhysMem.PhysMemory.FreeAbove | kernel/memory_manager.c:168-183 | a range above a block with a gap is linked in and adds exactly its pages |
| PhysMem.PhysMemory.FreeOnTop | kernel/memory_manager.c:184-200 | a range that starts where a block ends grows that block, and nothing is merged forward |
| PhysMem.PhysMemory.FreeBetween | kernel/memory_manager.c:205-220 | a range that fills a gap exactly joins both neighbours and adds exactly its pages |
| PhysMem.PhysMemory.FreeLower | kernel/memory_manager.c:221-233 | a range below a block adds exactly its pages in a list of several; in a list of one it leaves two headers naming each other, the higher one stale, which no list describes |
| PhysMem.PhysMemory.FreeUnder | kernel/memory_manager.c:201-234 | a range that ends where a block starts is merged right in a list of several blocks, and in a list of one leaves no list |
| PhysMem.PhysMemory.FreeIntoList | kernel/memory_manager.c:163-237 | the walk ends in the right case for every covered range, and a range below everything is nowhere linked in |
| PhysMem.PhysMemory.FreePhysPages | kernel/memory_manager.c:153-240 | memory holds a list agreeing with the counter if and only if the range is covered, and then exactly the given pages are added; only free frames and the range are written |
| AllocatorRuns.Serve | kernel/memory_manager.c:109-240 | each call on memory is one step of the abstract list |
| AllocatorRuns.RunConserves | kernel/memory_manager.c:109-240 | over every run, free pages plus pages handed out stay the same and the list stays well formed |
| AllocatorRuns.RunsAgree | kernel/memory_manager.c:109-240 | the requests determine all the answers and, block for block, every list of the run |
| AllocatorRuns.FreeingRestores | kernel/memory_manager.c:109-240 | freeing what was just allocated is covered unless it was the whole lowest of several blocks, and then restores the same list |
| Paging.HangTable | kernel/memory_manager.c:255-264 | a frame hung into an empty slot moves from the free pages to the tables and the tables stay apart |
| Paging.GetPhysAddr | kernel/memory_manager.c:95-107 | answers the frame in the entry that the hardware walks to, by bits 31-22 and 21-12 of the address, plus the offset |
| Paging.EnsureTable | kernel/memory_manager.c:251-264 | a missing table is replaced by a fresh frame, which fails only when no page is free; the new directory entry is present, writable and open to user code, and entries in place are kept whole |
| Paging.SetEntry | kernel/memory_manager.c:266-268 | the entry that the hardware walks to for the address becomes the given one, and every other entry, the directory and the free list are kept |
| Paging.MapPage | kernel/memory_manager.c:248-271 | the entry that the hardware walks to for the address becomes the frame with the flags, and every other page that had a table keeps its entry |
| Paging.MapPages | kernel/memory_manager.c:242-275 | succeeds exactly when free pages suffice for the missing tables, and otherwise stops at the first page whose table is out of reach; every address of the pages done translates to the address as far behind the given one, with the rights of the flags behind every new table; all other translations, the directory entries in place, the free list and free-plus-table frames are kept |
| Paging.AllGranted | kernel/memory_manager.c:261-269 | a page behind a new table may be used as its flags say, and one behind an old table as far as its directory entry allows |
| Paging.MapsTranslate | kernel/memory_manager.c:95-107 | after a successful mapping every address of the range translates to the mapped address, offset included |
| Paging.KeptTranslation | kernel/memory_manager.c:95-107 | every address of a page whose entry is kept translates as before |
| Paging.UnmapPages | kernel/memory_manager.c:276-297 | succeeds exactly when every page has a table, and otherwise stops at the first page without one; the pages done are cleared, and all other translations, the directory and the free list are kept |
| Paging.UnmapPage | kernel/memory_manager.c:282-294 | one page is cleared if it has a table, and every other page keeps its entry |
| Stdlib.MovedByte | kernel/stdlib.c:19-45 | each destination byte of a move is the original source byte and no other byte changes |
| Stdlib.MoveUpwards | kernel/stdlib.c:23-33 | moving to a lower address, the lower part may be copied first, whatever the overlap |
| Stdlib.MoveDownwards | kernel/stdlib.c:34-44 | moving to a higher address, the higher part may be copied first, whatever the overlap |
| Stdlib.CopyWord | kernel/stdlib.c:25-28 | one four-byte copy moves the four original bytes even when the words overlap |
| Stdlib.Memcpy | kernel/stdlib.c:19-45 | meets the contract of `memmove` for every destination, source, count and overlap |
| BlockTables.MovedRecords | kernel/memory_manager.c:323 | moving the bytes of whole records moves the records |
| BlockTables.BlockTable.Shift | kernel/memory_manager.c:307 | a real overlapping `memcpy` over records moves the records |
| BlockTables.BlockTable.Put | kernel/memory_manager.c:325-326 | storing the two words of a record changes that record only |
| BlockTables.BlockTable.InsertFirst | kernel/memory_manager.c:307-312 | the front insertion puts the record before all the live ones |
| BlockTables.BlockTable.InsertAfter | kernel/memory_manager.c:323-328 | the middle insertion, which copies one slot more than is live, inserts the record among the live ones |
| BlockTables.BlockTable.Append | kernel/memory_manager.c:337-339 | the tail insertion puts the record behind all the live ones |
| BlockTables.BlockTable.RemoveAt | kernel/memory_manager.c:352-354 | the removal, which copies one slot more than is live, removes exactly that record |
| Gaps.FitsOnlyAbove | kernel/memory_manager.c:315-332 | while no gap has been found, whatever fits lies above the block looked at |
| Gaps.FirstGapIsLowest | kernel/memory_manager.c:315-341 | the first gap from the left that is large enough is the lowest address where the request fits |
| Gaps.NoRoomAbove | kernel/memory_manager.c:317-320 | when a block ends too close to the end and nothing before it fits, nothing fits at all: the early return hides no gap |
| VirtTable.AddVirtBlock | kernel/memory_manager.c:299-342 | enters the block at the lowest address where it fits; answers NULL when nothing fits and the overflow is seen; otherwise enters it where a wrapped sum passes for a gap; the table stays in order if and only if the request fits or the overflow is seen, in a space that ends at 0xFFFFFFFF if and only if the request fits |
| VirtTable.AddIsRight | kernel/memory_manager.c:299-342 | the table stays sorted, disjoint and in its space if and only if the request fits or the overflow is seen, and NULL is answered exactly when nothing fits |
| VirtTable.KernelSpaceNeverRefuses | kernel/memory_manager.c:317-320 | in a space that ends at 0xFFFFFFFF no overflow is ever seen, so only requests that fit are served |
| VirtTable.DelVirtBlock | kernel/memory_manager.c:343-360 | removes the first record with this base and answers its size, or changes nothing and answers 0 |
| VirtTable.DelUndoesAdd | kernel/memory_manager.c:299-360 | deleting the block just added answers its size and restores the live table exactly |
| VirtTable.DelKeepsTable | kernel/memory_manager.c:343-360 | deletion keeps the table sorted, disjoint and in its space |
| Ownership.ExactlyOnePlace | kernel/memory_manager.c:362-426 | under the invariant a managed frame is free, or a page table, or behind one owned page, and only one of these |
| Ownership.LowPageCovers | kernel/memory_manager.c:235-239 | one free page below all the frames of a block is enough for all its frees to be covered |
| Ownership.DescendingNotCovered | kernel/memory_manager.c:221-239 | with no page free, giving back frames in descending order leaves the covered cases at the second one |
| VirtMemory.GrantPage | kernel/memory_manager.c:391-394 | one turn of the anonymous loop gives one page a frame of its own, with exactly the flags given, and keeps every frame accounted for and every other entry |
| VirtMemory.GrantPages | kernel/memory_manager.c:391-394 | the anonymous loop gives every page of the block its own frame with exactly the flags given, each below the one before, and all of them above every page still free; all other entries are kept |
| VirtMemory.PointPages | kernel/memory_manager.c:398-401 | the fixed-address loop maps the block to consecutive frames with the flags given and changes no owner and no other entry |
| VirtMemory.ReclaimPage | kernel/memory_manager.c:409-412 | one turn of the freeing loop returns exactly the frame behind the page to the free list |
| VirtMemory.ReclaimPages | kernel/memory_manager.c:409-412 | the freeing loop returns exactly the frames of the block, in page order |
| VirtMemory.AddressSpace.constructor | kernel/memory_manager.c:42-67 | the boot state, with fixed blocks only, satisfies the invariant |
| VirtMemory.AddressSpace.AllocVirtPages | kernel/memory_manager.c:362-404 | places the block at the lowest fit, gives each page its own frame with exactly the flags given (or maps the given ones), keeps the invariant and all other entries, and leaves a block that can be freed if and only if a page is left or it has only one |
| VirtMemory.AddressSpace.FreeVirtPages | kernel/memory_manager.c:405-426 | removes the block, returns exactly its frames to the free list, clears its entries, and keeps the invariant and all other entries |
| VirtMemory.OnTopReturnable | kernel/memory_manager.c:409-412 | a block whose frames lie above a free page can be freed within the covered cases |
| VirtMemory.ReturnableExactly | kernel/memory_manager.c:405-412 | a block just allocated can be freed within the covered cases if and only if a page is free or the block has one page |
| VirtMemory.AllocThenFree | kernel/memory_manager.c:362-426 | freeing a block straight after allocating it, with a page left or a block of one page, restores the blocks and the owners and loses no frame |
| VirtMemory.EveryFrameInOnePlace | kernel/memory_manager.c:362-426 | at every moment each managed frame is in exactly one of the free list, the page tables, or one mapped virtual page of exactly one live block |
| SpaceRuns.Serve | kernel/memory_manager.c:362-426 | each call on memory is one step of the books: blocks, owners, free pages, page tables and page-table entries |
| SpaceRuns.StepKeepsOrder | kernel/memory_manager.c:362-426 | each step keeps the blocks in order, every owned page mapped to its frame, and every managed frame accounted for, none shared |
| SpaceRuns.OnePlaceAtEveryPoint | kernel/memory_manager.c:362-426 | at every point of every run each managed frame is in exactly one place, and an owned one behind one page of exactly one live block |
| SpaceRuns.RunConserves | kernel/memory_manager.c:362-426 | over every run, free pages, page tables and owned pages add up to the same number, and once the owners are the same again only added page tables are missing from the free pages |
| SpaceRuns.PageKeepsFrame | kernel/memory_manager.c:362-426 | over every run, a page keeps its frame and its whole entry, flags included, until its own block is released, whatever else is allocated, mapped or released |
| KernelHeap.Heap.Kmalloc | kernel/memory_manager.c:428-491 | puts the block in the first gap that holds it; answers NULL when none does and no sum wraps; otherwise enters the block where a wrapped sum passes for a gap, or as the first of all, which breaks the heap; so the heap stays in order if and only if a gap holds the request or no sum wraps |
| KernelHeap.MallocIsRight | kernel/memory_manager.c:428-491 | live blocks stay sorted, disjoint and in the heap if and only if a gap holds the request or the sums do not wrap, and NULL is answered exactly when no gap does |
| KernelHeap.Heap.Kfree | kernel/memory_manager.c:492-510 | succeeds exactly on the base of the lowest block and removes only that block |
| KernelHeap.Heap.constructor | kernel/memory_manager.c:70-74 | an empty heap is in order |
| KernelHeap.OnlyLowestMatches | kernel/memory_manager.c:497-501 | every other live block has another base, so it can never be freed before the ones below it |
| KernelHeap.RunInOrder | kernel/memory_manager.c:428-510 | over every run of calls with positive sizes, the live blocks are sorted, disjoint and in the heap at every point if and only if each `kmalloc` finds a gap or has no sum that wraps |
| KernelHeap.Run | kernel/memory_manager.c:428-510 | a run of any length, with sizes from 1 to the heap size that added to the heap's end do not wrap, goes on until a `kmalloc` needs a second table page; each call is a step of the lists of live blocks, all of them are in order, NULL is answered exactly when no gap holds the request, and a free is refused exactly when the block is not the lowest |
| Tty.MemsetWord | kernel/stdlib.c:11-17 | fills exactly the given cells |
| Tty.Screen.Scroll | kernel/tty.c:81-86 | every byte moves up by one row and the last row is blank, so the screen shows the sheet from one row further, though the copy reads one row behind the screen |
| Tty.Screen.MoveCursor | kernel/tty.c:81-92 | moving to the end of the sheet scrolls when that is behind the last row, and keeps showing the sheet |
| Tty.ScrolledCells | kernel/tty.c:81-86 | moving every row up and blanking the last one shows the sheet one row further down |
| Tty.Screen.OutChar | kernel/tty.c:52-63 | writes the character and then the attribute at the cursor and steps on, or for a newline goes to the start of the next row and writes nothing, and scrolls by one row when that leaves the screen; the screen goes on showing the bottom of the sheet |
| Tty.PlainText | kernel/tty.c:57-61 | text without newlines is laid out one cell for each character, with the attribute |
| Tty.NewlineFills | kernel/tty.c:54-56 | a newline lays out between one and a row of blanks, up to the start of a row |
| Tty.InParts | kernel/tty.c:65-70 | a text in two parts is laid out one after the other |
| Tty.Screen.OutString | kernel/tty.c:65-70 | lays out everything before the terminating 0 |
| Tty.Screen.ClearScreen | kernel/tty.c:72-75 | every cell of the screen is a space with the attribute, and an empty sheet starts |
| Tty.Screen.ShowText | kernel/tty.c:52-92 | from a cleared screen, after any text, the screen is the bottom window of the sheet on which the text is laid out; text without newlines that fits stands there byte for byte |
| Tty.ShowsBottom | kernel/tty.c:81-92 | the rows scrolled away are the fewest that leave the cursor's row on the screen |
| Numbers.IntToStr | kernel/tty.c:97-107 | writes, in the characters 0-9 and A-F, the numeral of the value in any base from 2 to 16, without leading zeros, and stays inside the buffer |
| Numbers.DigitsAreNumeral | kernel/tty.c:94-106 | the printed characters stand for digits below the base that add up by place to the value, with no leading zero |
| Numbers.OneNumeral | kernel/tty.c:101-105 | in each base a value has only one such numeral |
| Numbers.DigitsOf | kernel/tty.c:97-107 | a value below 16^n has at most n base-16 digits, and they stand for the value |
| Numbers.ParseHex | kernel/shell.c:26-63 | the characters from the first digit to the end or the first `h`, when they are hexadecimal digits in either case, are read as the number they spell; in general they are added up as base-16 digits modulo 2^32 |
| Numbers.ReadsDigits | kernel/shell.c:34-62 | each of the 22 hexadecimal digit characters has its value, so a string of them adds up to the number it spells |
| Numbers.ParserReadsPrinter | kernel/shell.c:26-63 | every 32-bit value printed in base 16, plain, after `0x` or before `h`, is read back |
| Keyboard.KeyBuffer.KeyboardIntHandler | kernel/tty.c:146-159 | with fewer than 16 codes unread, the new code joins them behind all the others and the ring goes on holding exactly the unread codes |
| Keyboard.KeyBuffer.InScancode | kernel/tty.c:161-174 | takes and answers the oldest unread code, in the four steps of the protocol, unless the ring looks empty; then it answers 0 and changes nothing |
| Keyboard.InterruptKeepsInv | kernel/tty.c:146-159 | an interrupt between any two steps of the reader, with fewer than 16 codes unread, keeps the ring holding exactly the unread codes |
| Keyboard.ReadKeepsInv | kernel/tty.c:161-174 | every step of the reader keeps the codes taken equal to the first codes stored |
| Keyboard.EmptyTest | kernel/tty.c:164 | in every state with up to 16 unread codes, the indices are equal if and only if none is unread, or 16 are and something was read before |
| Keyboard.EachCodeOnceInOrder | kernel/tty.c:146-174 | in every interleaving that never holds more than 16 unread codes, the codes taken are the first codes stored, each once and in order; with at most 15 the indices meet only when all are taken |
| Keyboard.ReadToTheEnd | kernel/tty.c:161-174 | calls without an interrupt take every unread code, but none of 16 once something was read before |
| Keyboard.OverrunLosesOldest | kernel/tty.c:150-154 | an interrupt into a full ring overwrites the oldest code, and the next call answers the new one in its place |
| LineInput.InString | kernel/tty.c:202-243 | returns the line that the keys up to the newline leave, terminated, whatever its length, which is the keys themselves when none of them edits; no echo |
| LineInput.PlainKeys | kernel/tty.c:227-238 | keys that do not edit stand in the line as they are, behind what was typed before |
| LineInput.NoKey | kernel/tty.c:213-214 | a key of 0 does nothing |
| LineInput.BackspacesUndo | kernel/tty.c:215-221 | as many backspaces as characters undo them all, whatever was typed before |
| LineInput.SameLineGoesOn | kernel/tty.c:208-241 | what is typed next acts on the line alone, not on the keys that led to it |
| LineInput.LineIsPlain | kernel/tty.c:211-221 | no backspace and no 0 gets into the line, and a backspace at its start does nothing |
| Tokenizer.CountTokens | kernel/shell.c:206-215 | the counting pass finds the number of tokens and their total length |
| Tokenizer.TokensAreWords | kernel/shell.c:209-214 | the tokens of a line are the words it was written from, whatever spaces are between them |
| Tokenizer.WordsOf | kernel/shell.c:209-214 | every line is written from its tokens with spaces before, between and behind them |
| Tokenizer.LineIsRead | kernel/shell.c:199-214 | the command and the arguments of a line are the words it was written from |
| Tokenizer.PackToken | kernel/shell.c:225-228 | storing a token, its terminator and its pointer leaves the earlier ones in place |
| Tokenizer.CopyTokens | kernel/shell.c:219-229 | from any position with enough tokens, the copying pass stores that many in order, each with its pointer, and writes nothing behind the last one |
| Tokenizer.StringsApart | kernel/shell.c:225-228 | the stored strings do not overlap |
| Tokenizer.ParsInput | kernel/shell.c:195-231 | on every line: the command, the block size counted from the arguments, and what the copying pass stores, with the offset it ends at; nothing behind that offset changes, and without arguments nothing at all |
| Tokenizer.CopyStart | kernel/shell.c:220-223 | from where the copying pass starts, the tokens are the arguments, and with leading spaces the tail of the command before them |
| Tokenizer.ArgumentsRight | kernel/shell.c:217-229 | the pointers that `pars_input` leaves name the right strings if and only if the line does not start with a space or every argument equals the tail of the command |
| Tokenizer.BlockOverrun | kernel/shell.c:217-229 | the copying pass ends at the block size plus, with leading spaces, the length of the tail of the command minus that of the last argument; it writes past the block if and only if that tail is longer |
| Tokenizer.OverrunExample | kernel/shell.c:217-229 | for `     help a` the block has 6 bytes and the pass ends at 9 |

## Left out

- PhysMem.PhysMemory.FreePhysPages: requires what the code never checks, a page-aligned nonempty range, clear of every free block and of the last 32-bit frame.
- Paging.MapPages: requires flags below 0x1000 and a range that does not wrap; the window is a variable of its own, so the entry that maps `TEMP_PAGE` is not in `ram` and that one page is outside the claims. The boot table holds a fixed block there.
- VirtMemory.AddressSpace.AllocVirtPages: models the call with no address given; a caller-chosen address enters no block. The caller must have room and enough free pages, since failures inside are ignored by the code.
- VirtMemory.AddressSpace.FreeVirtPages: only for anonymous blocks whose frames are returned within the covered cases.
- VirtTable.DelVirtBlock: requires one spare slot; in a completely full table the shift reads the record behind the page.
- VirtTable.AddVirtBlock: requires a nonempty table, two spare slots, and a request below 4 GiB, beyond which the shift drops bits of the size.
- KernelHeap.Heap.Kmalloc: requires a positive size and two spare slots.
- SpaceRuns.Serve: requires what `AllocVirtPages` and `FreeVirtPages` do of the single call.
- Keyboard.KeyBuffer.InScancode: is not interrupted; interrupts between its steps are in the protocol.
- Numbers.ParseHex: requires one to eight characters to add up; with none the loop runs off the token, and with more the shift is undefined in C.
- Tty.Screen.MoveCursor: models the two uses that reach the end of the sheet; the backspace of `in_string`, which moves back over the sheet, is left out.
- LineInput.InString: leaves out the echo to the screen; the doubling is a fresh array, without the `kmalloc` that could fail, the `memcpy` and the `kfree`.
- Tokenizer.ParsInput: leaves out `kfree(input)`; the address of the block is a parameter, and the memory that the pass writes is taken not to hold the line itself.
- The contents of a new page table: the code does not zero it, so nothing is claimed about its other entries.
- Growing and shrinking the virtual block table and growing the heap table: unfinished in the code; the model keeps one table page each.
- The block tables' own frames: their bytes are separate arrays and not part of `ram`.
- `clone_directory`, `create_address_space`, `init_memory_manager` and multiboot parsing: unfinished or boot plumbing.
- `set_text_attr`: the attribute is fixed for a screen.
- Port output, `invlpg`, `cr3`, descriptor tables, ATA, PIC, PIT and the assembly files: hardware effects.
- `in_char` and its shift handling, the hex dump printing, the remaining string functions and `List.hpp`.
