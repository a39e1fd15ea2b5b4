# xv6 buffer cache, page allocator, find and xargs in Dafny

This project models four pieces of an xv6 (RISC-V) lab solution and proves properties of the models.

- **The hashed buffer cache of `kernel/bio.c`** (module `BufferCache`, proofs in `BufferCacheProofs`).
  - NBUF buffer slots are spread over 13 hash buckets. Each bucket's doubly-linked list becomes a sequence of slot indices, most recently released or migrated in first.
  - `bget` looks in the block's own bucket for a cached copy. Failing that, it reuses the free slot nearest the tail of that bucket. Failing that, it migrates the tail-most free slot of the first other bucket that has one.
  - `brelse` moves a slot whose last reference goes to the head of its bucket.
  - Every region that runs under a bucket spinlock is one atomic transition.
  - The per-slot sleep lock is modelled by its holder's process id.
  - The disk is a map from (dev, blockno) to block contents, plus read and write counters.
- **The per-CPU page allocator of `kernel/kalloc.c`** (module `PageAllocator`).
  - There is one LIFO free list of page frames per CPU.
  - `kfree` validates a frame and pushes it on the calling CPU's list.
  - `kalloc` pops the calling CPU's list, or steals from the lowest-numbered non-empty list.
  - `freerange` and `kinit` free every page between the end of the kernel and PHYSTOP.
- **The string handling of `user/find.c`** (module `Find`, with C strings and `strcmp` in `CString`).
  - `fmtname`, including its static buffer.
  - The "report this file" test and the "skip this entry" test.
  - The path-length guard and the child path built for a directory entry.
- **The input loop of `user/xargs.c`** (module `Xargs`).
  - A byte-at-a-time reference tokeniser (`Commands`) is proved equal to a line-and-word splitting specification (`PerLine`).
  - A model of the source's in-place loop stores words back into `stdin_buf` behind the byte being read. It is proved to produce exactly the commands of the reference tokeniser, provided every read but the last ends with a newline.
  - When a line spans two reads, the source's loop (`RunAsWritten`) runs a corrupted command; see Findings. A corrected loop (`RunXargsFixed`) keeps the read buffer and the word store apart. It is proved to match the reference tokeniser for any division of the input into reads.

Shared sequence machinery lives in `Collections`: the multiset union of a list of lists, removal at a position, and split and join at a separator.

Constants:

| constant | value | origin |
|---|---|---|
| BUCKETS | 13 | kernel/bio.c |
| NBUF | 30 | xv6 default; param.h is not part of this model |
| BSIZE | 1024 | xv6 default; fs.h is not part of this model |
| DIRSIZ | 14 | xv6 default; fs.h is not part of this model |
| NCPU | 8 | xv6 default; param.h is not part of this model |
| MAXARG | 32 | xv6 default; param.h is not part of this model |
| PGSIZE | 4096 | xv6 default |
| KERNBASE | 0x80000000 | xv6 default; memlayout.h is not part of this model |
| PHYSTOP | KERNBASE + 128 MiB | xv6 default; memlayout.h is not part of this model |

The steal loop's bound is written as the literal 8 in kalloc, and is kept as a separate constant (`STEAL_LIMIT`).

## Model

| member | source | states |
|---|---|---|
| BufferCache.FindKey | kernel/bio.c:68-76 | The head-to-tail scan returns the first position whose slot holds (dev, blockno), or None exactly when no slot of the bucket holds it. |
| BufferCache.FindFree | kernel/bio.c:78-89 | The tail-to-head scan returns the free (refcnt 0) slot nearest the tail, or None exactly when every slot of the bucket is referenced. |
| BufferCache.FindDonor | kernel/bio.c:97-128 | The scan over the other buckets in index order returns the first bucket with a free slot and that bucket's tail-most free slot, or None exactly when every other bucket is fully referenced. |
| BufferCache.Bget | kernel/bio.c:59-131 | Panics "no buffers" iff the block is not cached in its bucket and no bucket has a free slot. Otherwise it returns a slot holding the block with one more reference. On a hit it is the first match and no list changes. On a local miss it is the tail-most free slot, claimed in place. On a remote miss it is the tail-most free slot of the first donor bucket, unlinked there and inserted at the head of the home bucket. No other slot and not the disk change. |
| BufferCache.LockAndFill | kernel/bio.c:139-143 | Returns None (the caller sleeps) iff the sleep lock is held. Otherwise the caller holds it and the slot is valid. An invalid slot costs exactly one device read of its own block; a valid one costs none and keeps its contents. |
| BufferCache.Bread | kernel/bio.c:133-145 | Panics exactly when bget does. A completed read returns a slot that holds the block, is valid and is locked by the caller, with one device read unless bget hit a valid slot. |
| BufferCache.Bwrite | kernel/bio.c:147-154 | Panics iff the caller does not hold the sleep lock. Otherwise the slot's contents become its block on disk, no other block changes, and one write is counted. |
| BufferCache.Brelse | kernel/bio.c:156-181 | Panics iff the caller does not hold the sleep lock. Otherwise it releases the lock and drops one reference. The lists are unchanged while references remain; when the last goes, the slot is unlinked and put at the head of its home bucket. |
| BufferCache.Bpin | kernel/bio.c:183-189 | One more reference on the slot; nothing else changes. |
| BufferCache.Bunpin | kernel/bio.c:191-197 | One reference fewer on the slot; nothing else changes. |
| BufferCache.Binit | kernel/bio.c:37-57 | All NBUF slots are zeroed and listed in bucket 0 in reverse array order, every other bucket is empty, and the cache invariant holds. |
| BufferCacheProofs.HitCaseKeepsInv | kernel/bio.c:68-76 | A hit always returns a slot, leaves the lists alone and keeps the invariant. |
| BufferCacheProofs.LocalMissKeepsInv | kernel/bio.c:78-89 | A local miss always returns a slot, leaves the lists alone and keeps the invariant. |
| BufferCacheProofs.RemoteMissKeepsInv | kernel/bio.c:97-128 | A remote miss keeps the invariant and the multiset of listed slots. |
| BufferCacheProofs.MigrateKeepsInv | kernel/bio.c:110-121 | Moving a free slot from the tail side of a donor bucket to the head of the home bucket keeps the invariant and the multiset of listed slots. |
| BufferCacheProofs.BgetKeepsInv | kernel/bio.c:59-131 | bget keeps the invariant: every slot listed exactly once, in the bucket its block number hashes to; holders referenced and valid; at most one live slot per block. It also keeps the multiset of listed slots. |
| BufferCacheProofs.LockAndFillKeepsInv | kernel/bio.c:139-143 | Locking and filling a referenced slot keeps the invariant. |
| BufferCacheProofs.BrelseKeepsInv | kernel/bio.c:156-181 | brelse by the holder never panics, keeps the invariant and keeps the multiset of listed slots. |
| BufferCacheProofs.BpinKeepsInv | kernel/bio.c:183-189 | bpin of a referenced slot keeps the invariant. |
| BufferCacheProofs.BunpinKeepsInv | kernel/bio.c:191-197 | bunpin that leaves a holder its own reference keeps the invariant. |
| BufferCacheProofs.BunpinUndoesBpin | kernel/bio.c:183-197 | bunpin after bpin restores the cache exactly. |
| BufferCacheProofs.LiveKeysUnique | kernel/bio.c:59-131 | Under the invariant, two slots that are referenced or valid and cache the same block are the same slot. |
| BufferCacheProofs.BgetPanicsIffAllReferenced | kernel/bio.c:129-130 | Under the invariant, bget panics exactly when no slot anywhere caches the block and every slot is referenced. |
| BufferCacheProofs.ReadStepKeepsInv | kernel/bio.c:133-145 | A bread step keeps the invariant and the multiset of listed slots. |
| BufferCacheProofs.NextKeepsInv | kernel/bio.c:133-197 | Every caller step (bread, a woken bread, bwrite, brelse, bpin, bunpin, an update by the holder) keeps the invariant and the multiset of listed slots. |
| BufferCacheProofs.RunKeepsInv | kernel/bio.c:133-197 | Any sequence of caller steps keeps the invariant and the multiset of listed slots. |
| BufferCacheProofs.NextKeepsCoherent | kernel/bio.c:133-197 | A step that does not overwrite a slot of block k keeps every valid cached copy of k equal to k on disk, and keeps k on disk. |
| BufferCacheProofs.RunKeepsCoherent | kernel/bio.c:133-197 | The same for any sequence of such steps, evictions and migrations included. |
| BufferCacheProofs.BreadReturnsDisk | kernel/bio.c:133-145 | When the cache is coherent for a block, a completed bread returns the block's contents on disk. |
| BufferCacheProofs.UpdateWriteMakesCoherent | kernel/bio.c:147-154 | After the holder overwrites its slot and calls bwrite, the block is coherent and its disk contents are the new data. |
| BufferCacheProofs.WrittenBlockReadBack | kernel/bio.c:8-12 | Write, then any steps that leave that block's cached copies alone, then bread: a completed bread returns the written data. |
| PageAllocator.PgRoundUp | kernel/kalloc.c:53 | The result is the least page boundary at or above the address. |
| PageAllocator.Kfree | kernel/kalloc.c:62-81 | Panics iff the frame is unaligned, below the kernel's end or at or above PHYSTOP. Otherwise it pushes the frame on the calling CPU's list, fills it with junk byte 1, and leaves every other list and frame alone. |
| PageAllocator.Steal | kernel/kalloc.c:99-111 | Returns the first non-empty list at or after the start index, or None exactly when all of those are empty. |
| PageAllocator.Kalloc | kernel/kalloc.c:86-119 | Returns null iff every list is empty, and then changes nothing. Otherwise it pops the head of the calling CPU's own list, or of the first non-empty list the steal loop reaches, fills that frame with junk byte 5 and leaves every other list alone. |
| PageAllocator.KfreeConserves | kernel/kalloc.c:75-79 | A successful kfree adds exactly the freed frame to the multiset of free frames. |
| PageAllocator.KallocConserves | kernel/kalloc.c:93-111 | A successful kalloc removes exactly the returned frame from the multiset of free frames. |
| PageAllocator.KfreeKeepsInv | kernel/kalloc.c:62-81 | Freeing a valid frame that is not free keeps every free frame valid and on exactly one list, and makes it free. |
| PageAllocator.KfreeAcceptsDoubleFree | kernel/kalloc.c:69-70 | kfree does not detect a double free: freeing a free frame succeeds and breaks the invariant. |
| PageAllocator.KallocKeepsInv | kernel/kalloc.c:86-119 | kalloc keeps the invariant. A returned frame is non-null, valid, was free and no longer is. |
| PageAllocator.KallocPrefersOwnList | kernel/kalloc.c:93-97 | With a non-empty own list, kalloc takes its head and touches no other list. |
| PageAllocator.KallocStealsLowest | kernel/kalloc.c:98-111 | With an empty own list, kalloc takes the head of the lowest-numbered non-empty list and changes only that list. |
| PageAllocator.FreeFromSucceedsIff | kernel/kalloc.c:49-56 | The freerange loop from an aligned start completes iff every page it visits lies between the kernel's end and PHYSTOP. |
| PageAllocator.FreeFromFreesPageRun | kernel/kalloc.c:49-56 | A completed freerange loop pushes the pages in address order, so the list gains them highest first. Other lists are unchanged. |
| PageAllocator.KinitFreesAllMemory | kernel/kalloc.c:37-47 | kinit puts every page from the rounded-up kernel end to PHYSTOP on the calling CPU's list, highest first, and leaves the other lists empty. |
| PageAllocator.KinitEstablishesInv | kernel/kalloc.c:37-47 | After kinit every free frame is valid and listed exactly once. |
| PageAllocator.KfreeUndoesKalloc | kernel/kalloc.c:62-119 | Freeing, on the same CPU, the frame kalloc just took from that CPU's list restores every list. |
| CString.StrcmpZeroIff | user/find.c:46 | strcmp of two C strings is zero iff they are equal. |
| Find.NameStart | user/find.c:17-18 | The backward scan stops just after the last '/' (or at the start), and no '/' follows. |
| Find.SuffixIsBasename | user/find.c:17-18 | The suffix after the last '/' is exactly the path's last component. |
| Find.Fmtname | user/find.c:13-25 | The returned pointer reads as the last component. It points into the path iff that name has at least DIRSIZ characters; otherwise the name and its NUL are copied into the static buffer and the rest of the buffer is unchanged. |
| Find.BasenameIsLastComponent | user/find.c:13-25 | The last component has no '/'. It is the whole path when there is no '/', and otherwise the path is a directory, '/', then it. |
| Find.BasenameOfChild | user/find.c:57-65 | The last component of dir + "/" + name is name. |
| Find.ReportsIff | user/find.c:44-48 | A plain file is reported iff its last component equals the name sought. |
| Find.SkipsIff | user/find.c:61-63 | An entry is skipped iff it is free or its name is "." or "..". |
| Find.ChildPath | user/find.c:53-65 | Refuses exactly when the path is too long for the 512-byte buffer. Otherwise the buffer fits and reads as path + "/" + the entry's name. |
| Find.ChildReportedIff | user/find.c:57-70 | A child path built from an entry is reported iff the entry's name is the name sought. |
| Xargs.XargsIsPerLine | user/xargs.c:19-56 | The byte-at-a-time tokeniser runs one command per complete line, whose words are the line split at every space. |
| Xargs.CommandShape | user/xargs.c:11-32 | There are as many commands as newlines. Each runs argv[1] with xargs' own arguments first. |
| Xargs.NoNewlineNoCommand | user/xargs.c:23-35 | Input without a newline runs no command. |
| Xargs.UnterminatedTailIgnored | user/xargs.c:19-58 | Text after the last newline runs no command. |
| Xargs.CommandsAppend | user/xargs.c:36-39 | After a newline the tokeniser starts afresh, so the commands of a + b are those of a followed by those of b. |
| Xargs.ExecArgsUpToNull | user/xargs.c:29-32 | exec reads exactly the argument pointers before the first null. |
| Xargs.ArgsRead | user/xargs.c:27-32 | The argument vector built at a newline reads as xargs' own arguments followed by the line's words. |
| Xargs.FeedOther | user/xargs.c:51-54 | An ordinary byte extends the current word and runs nothing. |
| Xargs.FeedSpace | user/xargs.c:42-49 | A space ends the current word and runs nothing. |
| Xargs.FeedNewline | user/xargs.c:23-39 | A newline runs the line's command with all its words and resets the loop variables. |
| Xargs.ReadChunk | user/xargs.c:20-55 | For a read that begins at the start of a line, the inner loop, which stores words back into the same buffer, runs exactly the reference tokeniser's commands for those bytes. |
| Xargs.RunXargs | user/xargs.c:6-58 | The whole program runs exactly the commands of the reference tokeniser on the concatenated input. |
| Xargs.CopyArgs | user/xargs.c:11-13 | xargs' own arguments, without its name, are copied to the front of args. |
| Xargs.TwoBytesInPlace | user/xargs.c:51-54 | At the start of a line, a read of two ordinary bytes stores each byte where it was read, and runs nothing. |
| Xargs.ByteThenNewline | user/xargs.c:23-54 | With two bytes of the line already stored, a read of a byte and a newline stores that byte at position 2. This position lies behind the newline just read, and the command then runs. |
| Xargs.SecondReadCorrupts | user/xargs.c:19-39 | After "ab" from the first read, the second read "c\n" overwrites "ab". The command run is `echo` with the single argument "c\nc". |
| Xargs.SpanningLineCorrupted | user/xargs.c:19-55 | For the reads "ab" then "c\n", the source's loop runs `echo c\nc`. The reference tokeniser runs `echo abc` on the same bytes. |
| Xargs.FixedStep | user/xargs.c:23-54 | One byte of the corrected loop stays within the word store and args. It keeps the stored words consistent with the reference tokeniser's words. |
| Xargs.FixedReadingStep | user/xargs.c:20-55 | One iteration of the corrected inner loop keeps the commands run plus those still to run equal to the reference tokeniser's commands. |
| Xargs.ReadChunkFixed | user/xargs.c:20-55 | The corrected inner loop over one read runs the reference tokeniser's commands for its bytes. An unfinished line carries over to the next read. |
| Xargs.RunXargsFixed | user/xargs.c:6-58 | For any division of the input into reads, the corrected program runs exactly the reference tokeniser's commands on the concatenated input. |

## Left out

- Spinlocks, interrupts and concurrency. Each lock-protected region is one atomic step. The races between bget's release of its own bucket lock and the donor scan are not modelled; neither are those between kalloc's release of its own list lock and the steal loop.
- The sleep lock's sleeping and waking. A process that would sleep in `bread` gets a "sleeps" result, and its wake-up is the separate `Resume` step.
- virtio_disk_rw is a map from block address to contents with a read and a write counter. Device timing, interrupts and errors are not modelled.
- The linked-list pointers of bio.c and kalloc.c are sequences, so list corruption through stray pointers is not expressible.
- BufferCache.Bunpin: requires refcnt >= 1, because the source's unsigned counter would wrap below zero, which no caller intends.
- BufferCache.Brelse: requires that a holder has a reference. Every path that takes the sleep lock has taken one first.
- BufferCacheProofs.Next: refuses steps no disciplined caller makes. These are bpin of an unreferenced slot, bunpin that would take the holder's own reference, and an update by a process not holding the slot.
- PageAllocator.Kfree: the calling CPU (`get_cpu_id`, which reads the `tp` register with interrupts off) is a parameter.
- PageAllocator.Kalloc: the calling CPU is a parameter, as in kfree.
- The page contents written by `memset` are one junk byte per frame (1 after kfree, 5 after kalloc). The rest of memory is not modelled.
- kinit's lock-naming loop. Its condition `i <= 0` with `i` starting at NCPU means its body never runs, and the lock names have no effect on allocation.
- The recursive directory walk of `find` (`open`, `fstat`, `read` of directory entries, `stat`, printing) is not modelled. The decisions it takes on each path and entry are.
- find's `main`: the argument dispatch is not modelled. With exactly one argument it passes `argv[2]`, the null pointer, as the name sought.
- fork, exec and wait in xargs are the output list of commands. A failing exec is not modelled; in the source it would let the child continue the input loop.
- Xargs.ReadChunk: requires the read to begin at the start of a line (no words stored, `ch` at the start of `stdin_buf`). A read that continues a line is the case of the Findings table, and is covered by `RunAsWritten` instead.
- Xargs.RunXargs: requires every read but the last to end with a newline. When a line spans two reads, the next read overwrites the start of the buffer that still holds the earlier words (see Findings). That case is modelled by `RunAsWritten` and exhibited by `SpanningLineCorrupted`, not covered by this contract.
- Xargs.RunXargsFixed: requires every line to fit in `args` (`Fits`), and every line with its final NUL to fit in a word store of MAXARG bytes (`Room`). The source's own store is bounded in the same way.
- Xargs.RunXargs: requires every line to fit in `args` (the `Fits` predicate). A longer line writes past the end of the array.
- Xargs.RunXargs: `stdin_buf` is uninitialised in the source and is modelled as all NUL. Only bytes the loop has written are ever read through the argument pointers.
- Xargs.LoopAsWritten: a write outside `stdin_buf` or `args` is `None` rather than undefined behaviour.
- The user library's `strcmp` and `strlen` (ulib.c) are not part of this model. `CString.Strcmp` follows xv6's loop.
- CString.Strcmp: C bytes are Dafny characters, so only characters below 256 have a C counterpart. For those, the difference of character codes is the difference of unsigned bytes. Only whether the result is zero is ever used.
- `user/pingpong.c` and `user/primes.c` are not part of this model: they are pipe and process demonstrations with no state to verify.

## Findings

| source | as written | input that shows it | evidently intended | confidence | as-written member | corrected member |
|---|---|---|---|---|---|---|
| user/xargs.c:19-55 | Each `read` refills `stdin_buf` from its start. An unfinished line's words, and the `ch` write pointer, still live in that same buffer. | `xargs echo` with the input "abc\n" arriving as the reads "ab" and "c\n" | `echo abc`, the command for the line regardless of how the input was divided into reads | high; not executed | Xargs.SpanningLineCorrupted | Xargs.RunXargsFixed |
