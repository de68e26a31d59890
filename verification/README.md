# Embryo: a verified model of the loader's data structures and protocols

Embryo is a boot loader with a BSD-style network stack, an ext2 reader, a block device stack and several
allocators.  This project models the parts of it in which a lot of pointer, counter or carry work has to agree
with something much simpler, and proves that agreement.  `dafny verify dfyconfig.toml` checks the project.

| module(s) | source | the simple thing it agrees with |
|---|---|---|
| `RadixBits`, `RadixTrie`, `RadixRoutes`, `RadixUpdates`, `RadixClimb`, `RadixLists`, `Radix`, `RadixMiss` | `net/radix.c` | a set of keys, and prefixes that cover a destination |
| `RadixMasks` | `net/radix.c` | a set of canonical netmasks, classified |
| `Checksum` | `net/inet/in_cksum.c` | the sum of RFC 1071 over the flattened bytes |
| `Ext2` | `fs/fsio/ext2.c` | one byte array per file, read through the device file of `BlockFile` |
| `BlockFile` | `drivers/block/block_file.c`, `drivers/ata` | one byte array per device |
| `UserMalloc` | `lib/malloc.c` | a tiling of the heap by blocks |
| `KernMalloc` | `kernel/kern_malloc.c` | disjoint areas, in use or free |
| `TftpWire`, `Tftp` | `fs/netio/tftp.c` | the file on the server |
| `MbufMemory`, `MbufPool` | `kernel/uipc_mbuf.c`, `include/sys/mbuf.h` | byte strings and counted clusters |
| `SockBuf` | `kernel/uipc_socket.c` | a queue of datagrams |
| `Strpat` | `lib/string.c` | the declared meaning of `*` and `?` |
| `TxRing` | `drivers/net/stmmac/stmmac_main.c` | a queue of buffers on their way through the device |
| `NumText` | `lib/div64.c`, `lib/cvt.c` | numbers |

`Common` holds byte sequences and arithmetic that several modules share.

## How the source's state is represented

* Structures that C links by pointers are kept in a map from addresses to records, a field of the class whose
  methods are the C functions; the null pointer is address 0.  Fields marked `ghost` say what a link structure
  stands for (the keys below a test node, the leaves of a chain, the cells of a mask list, the blocks of the
  heap), and a `Valid`, `Ok` or `TableOk` predicate ties them to the records.  Buffers that the caller passes
  are arrays and are written in place.
* C's widths are written out where they matter: 16-bit sums and 32-bit accumulators in the checksum, the
  conversions of `rn_b` to unsigned types, 32-bit sizes in both allocators and 32-bit buffer and file positions
  (the image is elf32, `arch/mips/mach/ls2h/ld.script.S:2`), 16-bit block numbers on the wire, 32-bit ring
  counters, 64-bit division.
* The outside world is a parameter: which allocations succeed, which device blocks are bad, what the network
  does next (`Link.schedule`), what the transmit engine does meanwhile (`Ring.schedule`), where the device file
  stands, what memory holds behind the array of cluster counts, and the word that the ext2 code reads behind a
  table.  Each theorem holds for every value of these.

## What was found

* `rn_match` never returns a leaf from the chain walk at `net/radix.c:291-298`: `rn_b` of a leaf is negative and
  is compared with an unsigned short (`Radix.Head.SkipChain`).  The compares at 552 and 574 convert to `ulong`
  and stop no walk, so new cells go to the end of a list and a sibling test node keeps its whole list
  (`Radix.Head.ListEnd`, `Radix.Head.Promote`).  What holds nevertheless is stated exactly: every answer covers
  the destination, and no covering route is missed that is listed on the topmost test node its mask reaches.
  The first compare takes whole bytes, so that a covering route of the leaf found is sure to be the answer only
  when its mask ends with a byte (`RadixRoutes.DirectIff`).  A test node inserted later above the topmost one ends
  what holds for lists (`RadixClimb.Overtaken`): after the insertion `rn_match` does
  not answer with a route that covers the destination and is still in the table (`RadixMiss.AddThenMatch`), which
  is why longest-prefix match is not claimed.
* `ext2_read_by_index` ignores the result of `bfo_lseek`, which fails past the end of the device and leaves the
  position as it was: for a block number out there the next read can succeed with bytes of another place
  (`Ext2.StrayBlock`).  The bytes are right if and only if every block and index block that a read comes to starts
  at or before the end of the device (`Ext2.Reader.ReadDataBlk`), unless it comes to block 0, which is what a hole
  reads as, right after block 0xffffffff: there the compare of the run wraps.
* `mbufinit` allocates and clears one byte per cluster for an array of longs (`kernel/uipc_mbuf.c:510-512`).  The
  counts are right, whatever memory held, if and only if each cluster lies in the first quarter of kernel memory
  (`MbufPool.CountsRight`); beyond it a cluster can be on the free list while it is in use
  (`MbufPool.FreeInUse`).
* `__kmem_alloc` adds the size to the memory given out in 32 bits, and moves back when the sum wraps: pages are
  given out once if and only if size and memory given out stay a page below 2^32 together
  (`KernMalloc.Kmem.KmemAlloc`), and otherwise can be given out twice (`KernMalloc.Kmem.PageTwice`).  `kmem_malloc`
  checks large sizes first, and is left with sizes within a page of 2^32, which get an address with no bytes behind
  it (`KernMalloc.Kmem.Malloc`).
* `malloc` computes sizes in 32 bits: for requests above 0xfffffbf8 the header or the core request wraps
  (`UserMalloc.RequestExact`, `UserMalloc.RequestTooLarge`).
* Text after a `$` in a pattern of `strpat` is ignored: the result is right for every text if and only if there is
  no `$` in the pattern (`Strpat.DollarExact`).
* `llbtoa` returns the end of the text for every value but 0, although its documentation promises the caller's
  buffer (`NumText.Llbtoa`).
* A packet that `stmmac_xmit` cannot send keeps its mbuf chain for ever (`TxRing.Ring.Xmit`).
* `mbuf_pullup_big` appends to the first buffer's cluster even when others share it.  Buffers of other chains keep
  their bytes if and only if what they hold at the places written agrees with what is written
  (`MbufPool.Pool.PullupBig`), and whatever the bytes are if and only if they hold none of those places
  (`MbufMemory.UndisturbedExact`), as after `mbuf_copy`.  When one of two sharers was trimmed before, the other one's
  bytes can change (`MbufPool.CutAndPull`).
* `tftp_write` and `tftp_close` report success when packets were refused, because the result of `tftpwrq` is kept
  in an unsigned variable (`Tftp.LostBlock`).  In both directions all requests succeed if and only if, of what
  reached the client, nothing was a refusal or a complaint and the blocks came in order (`Tftp.Download`,
  `Tftp.Upload`).  Whatever failed, the server holds the first blocks of what was written, and all of it when the
  last `tftpwrq` was a success.
* `MCLALLOC` leaves its argument alone when no cluster is to be had, so `mbuf_getext` on reused memory can take up
  a stale cluster pointer; `MbufPool.Pool.GetExt` says exactly when the counts stay right.
* `sbspace` subtracts in unsigned longs: once `sb_mbcnt` is over `sb_mbmax`, the limit on storage counts no more
  (`SockBuf.Sockbuf.SpaceFits`).
* `sbreserve` may set `sb_hiwat` below `sb_cc`, and then the bound on the queue is lost
  (`SockBuf.Sockbuf.Reserve`, an if-and-only-if).
* A number printed in base -10 does not read back in base -10 unless it is zero or has its top bit set
  (`NumText.SignedBase`).
* The comment at `include/fs/blkfile.h:13-18` asks that the largest transfer be no smaller than a block; the code
  needs it to be one of whole blocks, and counts wrong for some request otherwise (`BlockFile.WholeAlways`).  The
  power-of-two block sizes asked for at `drivers/block/block_file.c:68` give that.

## Model

| member | source | states |
|---|---|---|
| RadixTrie.InsertOk | net/radix.c:150-233 | Linking a new leaf and test node in at the first differing bit keeps the Patricia invariant (test bits increase downward, keys under a node agree before its bit and split at it, parent and child pointers agree) and adds exactly the new key |
| RadixTrie.NextBelow | net/radix.c:113-127 | The child a search takes holds just those keys below the node that have the searched key's bit |
| RadixTrie.Climb | net/radix.c:301-322 | A parent has all keys of its child and tests an earlier bit |
| RadixTrie.OnPath | net/radix.c:113-127 | Every node that has a key below it lies on the search for that key |
| RadixTrie.HeadUnique | net/radix.c:113-127 | No key has two leaves in the tree |
| RadixRoutes.PrefixCovers | net/radix.c:301-322 | Agreement on the bits before a contiguous mask's index is agreement under the mask |
| RadixRoutes.ListCovers | net/radix.c:301-322 | A cell on a test node above the leaf found, with index at most the first differing bit, names a route that covers the destination |
| RadixRoutes.EqualCovers | net/radix.c:257-273 | Equal bytes up to the mask's length are agreement under the mask |
| RadixRoutes.MaskUnique | net/radix.c:360-442 | A contiguous mask is determined by its index |
| RadixRoutes.RefinesLonger | net/radix.c:38-65 | Of two contiguous masks, the one that refines the other has the larger index |
| RadixRoutes.LexoLonger | net/radix.c:71-86 | Of two contiguous masks, the lexically better one has the larger index |
| RadixUpdates.WithLeafOk | net/radix.c:206-233 | The whole table (tree, chains, mask lists) stays well-formed when a new key's leaf is linked in |
| RadixUpdates.HeadReplacedOk | net/radix.c:495-503 | Putting a leaf in the place of a chain's head keeps the tree well-formed |
| RadixUpdates.DupTableOk | net/radix.c:495-518 | Inserting a leaf into a chain at the place of its mask keeps the table well-formed, longest mask first |
| RadixUpdates.AppendOk | net/radix.c:330-352 | A new cell at the end of a test node's list keeps the table well-formed when the mask's index is at most the node's bit |
| RadixUpdates.ChainHasKey | net/radix.c:150-233 | Every key with a chain of leaves is in the trie |
| RadixUpdates.InitOk | net/radix.c:613-648 | The table with the two roots only is well-formed |
| RadixClimb.CoversPrefix | net/radix.c:301-322 | Agreement under a contiguous mask is agreement on all bits before its index |
| RadixClimb.CellDecides | net/radix.c:308-310 | The one comparison made for a cell on the way up is true just when the cell's route covers the destination |
| RadixClimb.WalkAll | net/radix.c:303-322 | The climb from a leaf meets every test node above it, in order of their bits |
| RadixClimb.SameWay | net/radix.c:239-325 | The search for a destination and the climb from the leaf it found meet the same test nodes |
| RadixClimb.Reached | net/radix.c:239-325 | A destination covered by a prefix passes the topmost test node above the prefix's key that tests no earlier bit than its index |
| RadixClimb.ListedFound | net/radix.c:239-325 | A covering route listed on its topmost test node is on the way of the destination |
| RadixClimb.Overtaken | net/radix.c:150-233 | A test node linked in later above that one, not before the mask's index, takes its place, and destinations that go to the new leaf are covered by the route and do not come by its cell |
| RadixMiss.WayHolds | net/radix.c:113-127 | Every node on the way of a search holds a key with which the searched one agrees where no other key does |
| RadixMiss.FoundKey | net/radix.c:113-127 | Such a search ends at the leaf of that key |
| RadixMiss.StaysBehind | net/radix.c:451-607 | After another key was added, no test node that holds it has a cell of a route listed behind the bit in which the key differs |
| RadixMiss.AddThenMatch | net/radix.c:239-607 | A route to a new key is added and a destination looked up that goes to the new leaf: the answer is not the route that covers the destination and is listed behind the new test node, but another one that covers it, a root, or null |
| RadixLists.PromoteMore | net/radix.c:538-545 | One more cell of the sibling's chain on the new test node: just the leaves whose masks have a place there and that had no cell |
| RadixLists.StillListed | net/radix.c:558-607 | Raising the new mask takes no cell away that a sibling's route was given |
| RadixLists.PromotedStay | net/radix.c:529-556 | A leaf that has a cell gets no other one when a sibling is added |
| RadixLists.NewCellBut | net/radix.c:558-607 | Raising a mask gives a cell to its leaf only |
| RadixLists.NewCellOnly | net/radix.c:558-607 | A leaf without a cell gets its one on that test node |
| RadixLists.PromotedNoCell | net/radix.c:538-545 | Only leaves of the sibling's chain get cells from it |
| Radix.Head.constructor | net/radix.c:613-648 | An initialised table is the top node with the two roots, whose keys are its only ones |
| Radix.Head.Search | net/radix.c:113-127 | The leaf reached has the searched key if and only if the key is in the trie |
| Radix.Head.Insert | net/radix.c:150-233 | The trie refines set insertion: a duplicate is reported if and only if the key was present, and afterwards the keys are the old ones and the new one |
| Radix.Head.Link | net/radix.c:189-232 | The descent and the assignments link the leaf in at the first differing bit |
| Radix.Head.Descend | net/radix.c:190-204 | The second descent stops at the first node that does not test before the differing bit, below its parent on the search path |
| Radix.Head.Mismatch | net/radix.c:171-174 | The first byte in which two keys differ |
| Radix.Head.DiffBit | net/radix.c:181-183 | The shift loop counts down to the first differing bit |
| Radix.Head.Match | net/radix.c:239-325 | The answer is the search's leaf if the bytes compared are those of its key, otherwise the first covering route on the nearest test node above it that lists one, and null if and only if neither is there; so every leaf returned other than a root covers the destination, a key in the table is answered by its chain's head, a covering route of the search's leaf is the answer when its mask ends with a byte, and null means that no covering route is listed on the topmost test node for its mask |
| RadixRoutes.DirectIff | net/radix.c:257-273 | The bytes compared agree if and only if the route covers the destination and the last byte under its mask is the same; for a mask that ends with a byte, if and only if it covers it |
| Radix.Head.Climb | net/radix.c:276-325 | After a failed compare: the first covering route of the nearest list above the leaf, or null when no list above it has one |
| Radix.Head.WalkUp | net/radix.c:301-322 | The first covering route of the nearest list above the leaf, or null when no list above it has one |
| Radix.Head.FirstBit | net/radix.c:276-283 | The bit that the climb compares masks with is the first one in which the destination and the leaf's key differ |
| Radix.Head.MatchBit | net/radix.c:277-283 | The shift loop counts the first bit in which two bytes differ, within an unsigned char |
| Radix.Head.SkipChain | net/radix.c:289-298 | The chain walk returns nothing |
| Radix.Head.ScanList | net/radix.c:305-321 | The first cell of a list that covers the destination, or null when none does |
| Radix.Head.AddRoute | net/radix.c:451-607 | The table stays well-formed; null if and only if the route is there already, and then nothing changed; otherwise the route is a leaf of its key's chain, all routes and list cells stay, its mask is listed on just the topmost test node it has a place on, or nowhere, a new sibling's routes are listed on the node between, and no leaf that had a cell gets another one |
| Radix.InitUnmasked | net/radix.c:613-660 | The keys of the two roots, all zeros and all ones, have an unmasked leaf |
| Radix.StillUnmasked | net/radix.c:451-607 | No route takes an unmasked leaf out of the chain of its key |
| Radix.Head.AddDup | net/radix.c:472-512 | The route of a key that is there is refused if and only if its mask is in the chain |
| Radix.Head.AddNew | net/radix.c:514-556 | A new key's leaf gets its mask, and its sibling's routes with a place on the new test node get cells there |
| Radix.Head.ChainPlace | net/radix.c:474-493 | The walk finds the mask or the place between longer and shorter masks |
| Radix.Head.DupLink | net/radix.c:495-518 | The leaf is linked into the chain at that place |
| Radix.Head.SetMask | net/radix.c:514-518 | The first leaf of a key gets key, mask and index |
| Radix.Head.Promote | net/radix.c:525-556 | A sibling leaf's chain gets cells for just the masks with a place on the new test node that had none; a sibling test node's list is unchanged |
| Radix.Head.PromoteChain | net/radix.c:538-545 | The loop over the sibling's chain |
| Radix.OrderMasks | net/radix.c:487-491 | The three compares that find a place in a chain amount to one: which mask is longer |
| Radix.Head.NewMask | net/radix.c:330-352 | One new cell at the end of the list, and nothing else changed |
| Radix.Head.ListEnd | net/radix.c:551-602 | Both walks over a mask list run to its end |
| Radix.Head.Highest | net/radix.c:565-570 | The topmost test node on the way up that tests no earlier bit than the mask's index |
| Radix.Head.Raise | net/radix.c:565-607 | The new mask is listed on that node |
| RadixMasks.Classify | net/radix.c:423-439 | A mask is found normal if and only if it is contiguous, and its index is then right |
| RadixMasks.LeadingOnes | net/radix.c:428-429 | The number of leading ones of a byte |
| RadixMasks.FullBytes | net/radix.c:425-426 | The whole bytes of ones behind the skipped ones |
| RadixMasks.Trim | net/radix.c:384-387 | The trailing zero bytes are cut, no further than the skipped bytes |
| RadixMasks.ScanSound | net/radix.c:423-439 | What the scan accepts is a contiguous mask with that index |
| RadixMasks.ScanComplete | net/radix.c:423-439 | Every contiguous mask is accepted, with its index |
| RadixMasks.MaskTable.Prepare | net/radix.c:369-396 | The buffer ends as the canonical form of the mask: skipped bytes set, trailing zeros cut, the rest cleared |
| RadixMasks.MaskTable.constructor | net/radix.c:654-676 | The trie of masks starts with the keys of the two roots, and is a valid one |
| RadixMasks.InitClassified | net/radix.c:613-676 | An initialised trie needs no mask classified |
| RadixMasks.MaskTable.AddMask | net/radix.c:360-442 | The trie of masks refines a set of canonical masks, each leaf classified right; a short or empty mask gives the zero root |
| RadixMasks.TrimIndex | net/radix.c:382-387 | The trimmed length of a contiguous netmask is the number of bytes that its ones take up |
| RadixMasks.CanonMask | net/radix.c:360-442 | A contiguous netmask is kept as a contiguous mask with the same index |
| RadixMasks.MaskTable.KeepMask | net/radix.c:463-468 | The leaf of a contiguous netmask has that mask and that index |
| RadixMasks.AddRoute | net/radix.c:451-607 | From a netmask as the caller gives it to the route: the mask is interned, and the route to the destinations under the mask of the same index is added, refused if and only if the table has it |
| RadixMasks.MaskTable.FindOrInsert | net/radix.c:398-441 | The leaf with the prepared key, new only if the key was not there |
| RadixMasks.Interned | net/radix.c:398-405 | Two masks have the same leaf if and only if their canonical forms are equal |
| Checksum.Reduce | net/inet/in_cksum.c:16-21 | Folding keeps the sum modulo 65535, zero only for zero, within 16 bits |
| Checksum.WeighSwap | net/inet/in_cksum.c:29-118 | Shifting a sum by eight bits exchanges the weights of all bytes, modulo 65535 |
| Checksum.StandsShift | net/inet/in_cksum.c:29-118 | The scaled sum stands for the byte-swapped fragment |
| Checksum.SumBlocks | net/inet/in_cksum.c:72-79 | The 32-byte loop adds exactly the words it passes, without wrapping |
| Checksum.SumQuads | net/inet/in_cksum.c:80-84 | So does the 8-byte loop |
| Checksum.SumPairs | net/inet/in_cksum.c:88-95 | And the word loop, leaving -1 or -2 as the remaining length |
| Checksum.AddAligned | net/inet/in_cksum.c:61-108 | An aligned fragment after an even number of bytes is added, all but an odd last byte |
| Checksum.AddSwapped | net/inet/in_cksum.c:61-108 | A fragment at an odd address is added with its bytes exchanged |
| Checksum.AddFragment | net/inet/in_cksum.c:44-108 | One fragment of any length and address parity, after any number of bytes, extends what the accumulator stands for |
| Checksum.OnesSumStands | net/inet/in_cksum.c:29-118 | The plain one's-complement sum stands for the weighed bytes |
| Checksum.InCksum | net/inet/in_cksum.c:29-118 | Over any chain, in either byte order, the result is the complement of the plain one's-complement sum of RFC 1071 of the first len bytes; nothing wraps up to 65535 bytes |
| Checksum.SumRun | net/inet/in_cksum.c:72-91 | The three loops in turn add exactly the words they pass, with the carry folded where the source folds it |
| Checksum.AddBytes | net/inet/in_cksum.c:61-108 | The rest of a fragment is added from either parity of its address |
| Checksum.Recheck | net/inet/in_cksum.c:29-118 | With the checksum stored in an aligned zero field the check gives 0 |
| Checksum.ByteOrderIndependence | net/inet/in_cksum.c:7 | Summing in the other byte order gives the same sum with its bytes exchanged (section 2 of RFC 1071) |
| UserMalloc.RequestExact | lib/malloc.c:39-80 | The units hold the bytes asked for and the core request does not wrap, if and only if the request is at most 0xfffffbf8 |
| UserMalloc.RequestTooLarge | lib/malloc.c:39-80 | What becomes of every larger request: the last seven get no room, and for the others sbrk is asked for nothing while 2^29 units are claimed |
| UserMalloc.UnitsLeast | lib/malloc.c:41-78 | The units are the fewest that hold header and bytes, and the core asked for the fewest chunks of 128 that hold them |
| UserMalloc.RingConnected | lib/malloc.c:93-116 | From every free node the links lead to every other one |
| UserMalloc.RingInsert | lib/malloc.c:98-115 | Linking a node in on its arc keeps one address-ordered ring with a single wrap |
| UserMalloc.RingRemove | lib/malloc.c:52-54 | Unlinking a node keeps the ring |
| UserMalloc.TilesSplit | lib/malloc.c:55-59 | Cutting a block in two keeps the blocks a tiling of the heap |
| UserMalloc.TilesMerge | lib/malloc.c:105-113 | Merging two touching blocks keeps the tiling |
| UserMalloc.TilesGrow | lib/malloc.c:74-86 | New core extends the tiling |
| UserMalloc.Conservation | lib/malloc.c:39-116 | Free and live units are disjoint and add up to what sbrk gave |
| UserMalloc.LinkOk | lib/malloc.c:104-115 | A freed block linked in touches at most its two neighbours on the ring |
| UserMalloc.AfterFreeOk | lib/malloc.c:93-116 | After linking and merging, the heap is valid again, and a free block of at least the freed size is at the list pointer or behind it |
| UserMalloc.TakeOk | lib/malloc.c:52-54 | Taking a whole free block keeps the heap valid |
| UserMalloc.CutOk | lib/malloc.c:55-59 | Cutting the tail off a free block keeps the heap valid |
| UserMalloc.GrowOk | lib/malloc.c:74-86 | New core, before it is freed, is a live block of a valid heap |
| UserMalloc.UnitsConserved | lib/malloc.c:39-116 | In every valid heap free and live units partition what sbrk gave |
| UserMalloc.BlockUnits | lib/malloc.c:39-116 | A block has as many units as its header says |
| UserMalloc.NoOverlap | lib/malloc.c:39-116 | Any two blocks, free or live, are disjoint |
| UserMalloc.AllFreedOneBlock | lib/malloc.c:93-116 | When everything is freed one free block holds all of the core |
| UserMalloc.OneRing | lib/malloc.c:93-116 | The free list of a valid heap is one ring |
| UserMalloc.Heap.constructor | lib/malloc.c:45-48 | Before the first request there is no list and no block |
| UserMalloc.Heap.FindPlace | lib/malloc.c:98-101 | The search ends, on the arc of the ring where the block belongs |
| UserMalloc.Heap.Sbrk | lib/malloc.c:30 | The next bytes of the region, or null if and only if they do not fit |
| UserMalloc.Heap.Init | lib/malloc.c:45-48 | The first request makes the list of the size-0 head alone |
| UserMalloc.Heap.Splice | lib/malloc.c:105-115 | The assignments link the block in and merge what touches |
| UserMalloc.Heap.Free | lib/malloc.c:93-116 | Exactly this block leaves the live ones, and the heap stays valid |
| UserMalloc.Heap.Coremore | lib/malloc.c:74-86 | Null and nothing changed if and only if core is exhausted; otherwise a free block of the size needed is at the returned pointer or behind it |
| UserMalloc.Heap.Malloc | lib/malloc.c:39-67 | A new live block of exactly the units computed, which hold the bytes if and only if the request is at most 0xfffffbf8, all others untouched; it is the end of the first free block behind the list pointer that fits, and core is asked for, once, only when none fits; null only when core is exhausted then |
| UserMalloc.Heap.Carve | lib/malloc.c:52-61 | The fitting node is unlinked or its tail cut off |
| UserMalloc.Heap.Unlink | lib/malloc.c:53-54 | A node of just the size leaves the list |
| UserMalloc.Heap.CutTail | lib/malloc.c:55-59 | The end of a larger node becomes the block, and the list keeps its nodes |
| Strpat.Greedy | lib/string.c:356-399 | Between stars the leftmost occurrence of a segment decides the rest of the match |
| Strpat.StarMonotone | lib/string.c:356-399 | What a pattern that begins with a star matches in a shorter tail it matches in a longer one |
| Strpat.NoOccurrence | lib/string.c:356-399 | Without an occurrence of the segment there is no match |
| Strpat.LastSegment | lib/string.c:356-399 | After a star the last segment must end where the text ends |
| Strpat.FirstStep | lib/string.c:356-399 | One round for a segment with a star behind it keeps the question to be answered |
| Strpat.LastStep | lib/string.c:356-399 | The last round answers it |
| Strpat.FindFirst | lib/string.c:303-321 | The first occurrence at or after a position, or none |
| Strpat.Compare | lib/string.c:303-321 | The inner loop tells whether the segment occurs at a position |
| Strpat.Frame | lib/string.c:356-399 | The pattern buffer holds the pattern between its two marks |
| Strpat.SegmentEnd | lib/string.c:356-399 | The next star or dollar sign behind a separator |
| Strpat.FindLast | lib/string.c:327-345 | The last occurrence at or after a position, or none |
| Strpat.StrPat | lib/string.c:356-399 | 1 if and only if the text matches the pattern before its first `$`, for patterns of at most 125 characters |
| Strpat.NoDollar | lib/string.c:356-399 | Without a `$` that is the whole pattern |
| Strpat.SampleMatches | lib/string.c:356-399 | The pattern without its stars, with a letter for each `?`, is a text that it matches |
| Strpat.MatchLong | lib/string.c:356-399 | No shorter text is matched |
| Strpat.CutShorter | lib/string.c:356-399 | The part before a `$` matches a shorter text than the whole pattern does |
| Strpat.DollarExact | lib/string.c:356-399 | The part before the first `$` means the same as the whole pattern, for every text, if and only if there is no `$` in the pattern |
| Ext2.PlacedAt | fs/fsio/ext2.c:262-349 | Byte r of block k of a list of blocks has its place at byte r of that device block |
| Ext2.PendingRun | fs/fsio/ext2.c:262-349 | A run of consecutive block numbers lies side by side on the device |
| Ext2.RunGrows | fs/fsio/ext2.c:262-349 | A run grows by the next block if its number follows |
| Ext2.Joins | fs/fsio/ext2.c:303-312 | Merging the next block keeps what the loop has pending one stretch of the device, cut at the length asked for |
| Ext2.Ends | fs/fsio/ext2.c:313-327 | What is pending when a run ends can be read in one access |
| Ext2.Delivered | fs/fsio/ext2.c:262-349 | An access put behind the bytes delivered extends them |
| Ext2.FirstByte | fs/fsio/ext2.c:262-349 | Where the listed bytes lie decides whether each access starts, and ends, on the device |
| Ext2.DoubleLists | fs/fsio/ext2.c:398-413 | The tables found through the double indirect block list the file's blocks from 12 + N + iN on |
| Ext2.ListedPlace | fs/fsio/ext2.c:357-437 | Byte q of a table's blocks is byte q of the file from where the table starts |
| Ext2.DirectLevel | fs/fsio/ext2.c:366-372 | The twelve direct entries are a table of the file |
| Ext2.IndirectLevel | fs/fsio/ext2.c:374-390 | So is what was read of the indirect block, if that block starts on the device |
| Ext2.DoubleLevel | fs/fsio/ext2.c:391-413 | So is what was read through the double indirect block, if both index blocks start on the device |
| Ext2.LevelStarts | fs/fsio/ext2.c:357-437 | A part of the file that can be read right is read from the right table, in accesses that start on the device |
| Ext2.LevelShown | fs/fsio/ext2.c:357-437 | The bytes that one table delivers continue those of the file read before |
| Ext2.ExactReachable | fs/fsio/ext2.c:357-437 | Bytes of the file can be in the buffer only if every block and index block that the read comes to starts at or before the end of the device |
| Ext2.ShownExact | fs/fsio/ext2.c:357-437 | ... and then they are, so that the two are equivalent |
| Ext2.Reader.DevRead | fs/fsio/ext2.c:288-290 | One access moves the file position only if the target is in the device file, and then reads where it stands: exactly those bytes, or a failure |
| Ext2.Reader.Fetch | fs/fsio/ext2.c:288-299 | The pending access: in the right place if and only if it starts on the device |
| Ext2.Reader.ReadRuns | fs/fsio/ext2.c:302-346 | The merging loop ends and delivers the listed bytes in order, if each access starts on the device |
| Ext2.Reader.ReadByIndex | fs/fsio/ext2.c:262-349 | Buffer, position and remaining length end as when the logical blocks are read one by one, for any table, start and length; success is guaranteed on a sound device |
| Ext2.Reader.ReadTable | fs/fsio/ext2.c:398-401 | An index block is read and decoded, unless it starts past the end of the device |
| Ext2.DecodeEncode | fs/fsio/ext2.c:384-401 | Decoding the block that holds a table, each entry as its digits in base 256 with the lowest first, gives the table |
| Ext2.EncodeDecode | fs/fsio/ext2.c:384-401 | Every block of whole entries holds the table decoded from it |
| Ext2.Reader.ReadLevel | fs/fsio/ext2.c:357-437 | One table delivers the file's bytes from the position up to its end |
| Ext2.Reader.ReadDouble | fs/fsio/ext2.c:398-413 | The double indirect tables one by one deliver theirs |
| Ext2.Reader.ReadDataBlk | fs/fsio/ext2.c:357-437 | The result is -1 or the smaller of the length and what the tables reach; on success the buffer holds exactly those bytes of the file if and only if every block and index block that the read comes to starts at or before the end of the device, provided that among the blocks read block 0 does not follow block 0xffffffff; a mapped file on a sound device with memory never gives -1 |
| Ext2.StrayBlock | fs/fsio/ext2.c:288-290 | A block number past the end of the device: the read succeeds with the bytes at which the device file stood |
| Ext2.NotReachable | fs/fsio/ext2.c:357-437 | The condition is false of that file |
| BlockFile.MovedOn | drivers/block/block_file.c:70-125 | Transfers of consecutive stretches make one transfer |
| BlockFile.WriteRead | drivers/block/block_file.c:128-175 | What is written is read back, and bytes outside the range stay |
| BlockFile.CoversSnoc | drivers/ata/libata_core.c:154-173 | One more command keeps the cover of the blocks |
| BlockFile.WholeCount | drivers/block/block_file.c:97-100 | A round counts the bytes of the blocks it moves if and only if the request is no longer than the largest transfer or that is one of whole blocks; otherwise it counts the rest of a block too many |
| BlockFile.WholeAlways | drivers/block/block_file.c:97-100 | The count is right for all requests if and only if the largest transfer is one of whole blocks |
| BlockFile.BlockWritten | drivers/block/block_file.c:85-93 | Reading a block, changing part of it and writing it back changes just that part of the device |
| BlockFile.Disk.Command | drivers/ata/libata_core.c:161-166 | One command transfers its blocks, or fails and changes nothing |
| BlockFile.Disk.Rw | drivers/ata/libata_core.c:154-173 | The commands cover the request once, in order, none longer than allowed; the transfer is that of the flat device |
| BlockFile.File.constructor | drivers/block/block_file.c:24-39 | A fresh file is the whole device, at position 0 |
| BlockFile.File.Part | drivers/block/block_file.c:79-95 | A part of one block is read, or written with its neighbours kept |
| BlockFile.File.Whole | drivers/block/block_file.c:96-112 | As many whole blocks as fit |
| BlockFile.File.Xfer | drivers/block/block_file.c:70-125 | A transfer on the flat byte array: all bytes and the position moved on, or -1 after a prefix of them |
| BlockFile.File.Read | drivers/block/block_file.c:128-150 | Exactly the bytes from the position, cut at the end of the file; nothing on a write-only file |
| BlockFile.File.Write | drivers/block/block_file.c:153-175 | Exactly these bytes of the device change; none on a read-only file |
| BlockFile.File.Lseek | drivers/block/block_file.c:178-205 | The position moves if and only if the target lies in the file |
| BlockFile.ScattersSnoc | drivers/ata/libahci.c:454-484 | One more entry extends the memory that a table stands for |
| BlockFile.EntryIs | drivers/ata/libahci.c:454-484 | An entry stands for its buffer, whether or not the controller has 64-bit addresses, and for as many bytes as it may |
| BlockFile.PrdCount | drivers/ata/libahci.c:454-484 | The number of entries is the length divided by 4 MB, rounded up, and too large for length 0 |
| BlockFile.FillPrd | drivers/ata/libahci.c:454-484 | No entries if and only if the buffer is empty or needs more than 56; otherwise as few as hold it, which stand for the buffer once, in order, none over 4 MB |
| BlockFile.FillEntries | drivers/ata/libahci.c:454-484 | The loop that fills them |
| KernMalloc.BucketFits | include/sys/malloc.h:38-69 | The bucket is the least one, from 4 on, whose chunks hold the size |
| KernMalloc.RoundPageIs | kernel/kern_malloc.c:33-49 | Rounding gives the least number of pages that hold the size, or 0 when it wraps |
| KernMalloc.PageSplit | kernel/kern_malloc.c:65-121 | Chunks divide the pages they are carved from |
| KernMalloc.PiecesApart | kernel/kern_malloc.c:65-121 | Carved pieces are disjoint and lie in the new pages |
| KernMalloc.CarvedAreas | kernel/kern_malloc.c:65-121 | Carving keeps all areas disjoint and the usage table right for each |
| KernMalloc.CarvedBuckets | kernel/kern_malloc.c:65-121 | Carving fills the empty bucket and leaves the other lists as they are |
| KernMalloc.PopBuckets | kernel/kern_malloc.c:65-121 | Taking the first chunk keeps all lists right |
| KernMalloc.PushBuckets | kernel/kern_malloc.c:139-168 | Putting a chunk at the end of its bucket keeps all lists right |
| KernMalloc.Partition | kernel/kern_malloc.c:65-168 | A byte belongs to one area only, and an area is either in use or on just one free list |
| KernMalloc.Kmem.constructor | kernel/kern_malloc.c:173-182 | The usage table takes the first 16 pages, and nothing else is given out |
| KernMalloc.PageSum | kernel/kern_malloc.c:33-49 | When the sum of the pages asked for and those given out leaves the word, as a condition on the size |
| KernMalloc.Kmem.KmemAlloc | kernel/kern_malloc.c:33-49 | Null, or new pages that hold the size, if and only if the size and the memory given out stay a page below 2^32 together; null exactly when there are too few pages, for those sizes; the memory given out moves by the rounded size, modulo 2^32 |
| KernMalloc.Kmem.PageTwice | kernel/kern_malloc.c:33-49 | A request of a page less than 2^32 succeeds, and makes the page in use before it be given out again |
| KernMalloc.Kmem.Carve | kernel/kern_malloc.c:65-121 | New pages become a list of pieces that covers them exactly |
| KernMalloc.Kmem.Thread | kernel/kern_malloc.c:65-121 | The loop links each piece to the next |
| KernMalloc.Kmem.Malloc | kernel/kern_malloc.c:65-121 | A new area that holds the size, behind the usage table, from the least bucket that fits, all others untouched: the bucket's first chunk, without new pages, if it has one, and otherwise the first piece of just the pages needed; null if and only if the bucket is empty and no pages are left; sizes within a page of 2^32 get no bytes |
| KernMalloc.Kmem.Pop | kernel/kern_malloc.c:65-121 | The bucket's first chunk comes into use |
| KernMalloc.Kmem.MallocLarge | kernel/kern_malloc.c:65-121 | Sizes above all buckets get whole pages |
| KernMalloc.Kmem.Free | kernel/kern_malloc.c:139-168 | The usage table leads a chunk back to the end of its own bucket; whole pages stop the kernel |
| TftpWire.Link.Send | fs/netio/tftp.c:120-122 | A packet joins those ever sent, unless the local layer refuses it |
| TftpWire.Link.constructor | fs/netio/tftp.c:288-357 | At first nothing was sent, the server is idle, and nothing has happened |
| TftpWire.Link.Recv | fs/netio/tftp.c:135-136 | What arrives is a packet the server sent at any time, an error or a fragment, while the server handles packets that were sent, in any order and number; the run up to there is the one that the schedule gives, and just this event has reached the client |
| TftpWire.Prompt | fs/netio/tftp.c:119-136 | A packet that was sent, is served, and is answered by what the server then sends wakes the client |
| TftpWire.QuickStep | fs/netio/tftp.c:119-136 | A schedule in which each packet needed is served and answered at once, block by block |
| TftpWire.LastBlock | fs/netio/tftp.c:169-186 | The last block of a file is the first short one |
| TftpWire.Rough | fs/netio/tftp.c:120-192 | A refused packet, an error of the server or a number that does not fit is trouble among what reached the client |
| TftpWire.OutOfOrder | fs/netio/tftp.c:187-192 | So is a block or acknowledgment that arrives behind a later one |
| TftpWire.SmoothMore | fs/netio/tftp.c:135-194 | A fragment, or a block that is not before those that came, is none |
| Tftp.ReadStep | fs/netio/tftp.c:111-198 | A server step keeps the server at most one block ahead of the acknowledged ones |
| Tftp.ReadRun | fs/netio/tftp.c:111-198 | So does every run of the server |
| Tftp.ReadNumber | fs/netio/tftp.c:165-186 | A data packet with the number waited for carries the block waited for |
| Tftp.ReadKind | fs/netio/tftp.c:151-165 | To a client that reads only data come, besides errors and fragments |
| Tftp.ReadStale | fs/netio/tftp.c:187-192 | A data packet at which the client gives up is older than one that came before, or its number does not fit |
| Tftp.WriteStep | fs/netio/tftp.c:203-268 | A server step keeps what the server holds the first of the chunks sent |
| Tftp.WriteRun | fs/netio/tftp.c:203-268 | So does every run of the server |
| Tftp.WriteMore | fs/netio/tftp.c:203-268 | The next chunk may be sent |
| Tftp.WriteNumber | fs/netio/tftp.c:254-264 | The acknowledgment of the last chunk comes only from a server that has it |
| Tftp.WriteKind | fs/netio/tftp.c:252-264 | To a client that writes only acknowledgments come, besides errors and fragments |
| Tftp.WriteStale | fs/netio/tftp.c:259-264 | An acknowledgment at which the client gives up is older than one that came before |
| Tftp.HeldIs | fs/netio/tftp.c:364-401 | A server to which full blocks and a short one were sent holds the first of them, and all bytes exactly when it acknowledged the short one |
| Tftp.ConcatFull | fs/netio/tftp.c:441-476 | Full chunks have 512 bytes each |
| Tftp.ConcatFront | fs/netio/tftp.c:441-476 | The first of them are the front of all bytes |
| Tftp.ChunkAfter | fs/netio/tftp.c:441-476 | What is in the buffer behind full blocks is the next block |
| Tftp.TftpFile.Request | fs/netio/tftp.c:111-198 | The packet is sent unless it is refused; on success the buffer holds exactly the block asked for and eof tells whether it is the last; a failure needs a refused packet, a complaint or a block with an unexpected number; served and answered at once, it succeeds |
| Tftp.TftpFile.Take | fs/netio/tftp.c:166-186 | The block waited for is in the buffer, and an empty one is acknowledged unless that is refused |
| Tftp.TftpFile.constructor | fs/netio/tftp.c:288-357 | A fresh transfer waits for block 1 of a file to read, or 0 of one to write |
| Tftp.TftpFile.Answer | fs/netio/tftp.c:135-194 | One packet: taken if and only if it is data with the number waited for, ignored if and only if it is a fragment, not data, or the block before; the answer to a packet that is served at once is taken |
| Tftp.TftpFile.Handle | fs/netio/tftp.c:139-194 | What is done with the packet that came |
| Tftp.TftpFile.OpenRead | fs/netio/tftp.c:288-357 | The first block is in the buffer, or something went wrong; if what is needed is served and answered at once, it is in the buffer |
| Tftp.TftpFile.Next | fs/netio/tftp.c:403-439 | Acknowledging the block in the buffer, which is sent, brings the next one, or something went wrong; if what is needed is served and answered at once, it brings it |
| Tftp.TftpFile.Acknowledge | fs/netio/tftp.c:425-432 | The same for the size of the next block; the last block of all is acknowledged too |
| Tftp.TftpFile.LivelyNow | fs/netio/tftp.c:425-432 | When everything is served and answered at once, the next acknowledgment is |
| Tftp.TftpFile.Advance | fs/netio/tftp.c:403-439 | The buffer is at the next block, and a failure, taken for a size, leaves its end before its start |
| Tftp.TftpFile.Read | fs/netio/tftp.c:403-439 | Exactly the file's bytes from the position; fewer than asked for only at the end of the file or after a failure, and there is a failure just when something went wrong |
| Tftp.TftpFile.CopyOut | fs/netio/tftp.c:403-439 | Bytes of the packet buffer go to the caller, and the position moves on |
| Tftp.TftpFile.ReadAll | fs/netio/tftp.c:403-439 | Sequential reads give a prefix of the file, all of it once eof is consumed, and exactly as much as asked for or there is as long as none failed |
| Tftp.TftpFile.Seek | fs/netio/tftp.c:478-511 | Only forward of the buffer's start, and not from the end |
| Tftp.TargetIs | fs/netio/tftp.c:483-495 | The place asked for, for offsets of either sign |
| Tftp.TftpFile.CloseRead | fs/netio/tftp.c:364-401 | An error packet goes out if and only if there was more to read and it is not refused |
| Tftp.TftpFile.Put | fs/netio/tftp.c:203-268 | Just this packet is sent unless it is refused; on success the server holds every block up to this one; a failure means that something went wrong, and a success that nothing did; what the server holds stays the first of the blocks sent in every case; served and answered at once, it succeeds |
| Tftp.TftpFile.TakeAck | fs/netio/tftp.c:222-264 | One packet: a success if and only if it is the acknowledgment waited for, ignored if and only if it is a fragment, another kind of packet or the acknowledgment before, otherwise a failure |
| Tftp.TftpFile.HandleAck | fs/netio/tftp.c:228-264 | What is done with the packet that came |
| Tftp.TftpFile.OpenWrite | fs/netio/tftp.c:288-357 | The server is ready to take blocks, or something went wrong |
| Tftp.TftpFile.SendBlock | fs/netio/tftp.c:441-476 | The buffer goes out as the next block, unless that is refused; on success the server holds all blocks, also when an earlier tftpwrq failed |
| Tftp.TftpFile.Write | fs/netio/tftp.c:441-476 | Everything is buffered or sent in blocks of 512 bytes, and the length is always reported; for up to 65535 blocks every tftpwrq succeeds just when nothing goes wrong |
| Tftp.TftpFile.Flush | fs/netio/tftp.c:461-471 | The full buffer goes out, and is empty |
| Tftp.TftpFile.GoingNow | fs/netio/tftp.c:441-476 | When everything is served and answered at once, the next block is |
| Tftp.TftpFile.Fill | fs/netio/tftp.c:441-476 | Bytes of the caller go to the packet buffer |
| Tftp.TftpFile.CloseWrite | fs/netio/tftp.c:364-401 | The server holds the first blocks of what was written; if the last tftpwrq succeeded, everything, ended by a block of fewer than 512 bytes |
| Tftp.Download | fs/netio/tftp.c:288-439 | In every run: a prefix of the file, and the whole once the last block is consumed, which is acknowledged unless that is refused; in a run that does not end early, no request fails if and only if nothing went wrong among what reached the client, and then exactly the bytes asked for or there are read; that is so in the run in which every packet is served and answered at once |
| Tftp.Upload | fs/netio/tftp.c:288-476 | In every run that does not end early, for fewer than 65535 blocks of bytes: the server holds the first blocks of what was written, all of it when the last tftpwrq succeeded, and every tftpwrq succeeds if and only if nothing went wrong among what reached the client; they do in the run in which every packet is served and answered at once |
| Tftp.LostBlock | fs/netio/tftp.c:441-476 | A schedule in which write and close report success and nothing arrived |
| MbufMemory.BytesAppend | kernel/uipc_mbuf.c:62-109 | The bytes of two chains are those of the chains joined |
| MbufMemory.BytesKept | kernel/uipc_mbuf.c:62-109 | Chains whose buffers keep their bytes keep theirs |
| MbufMemory.ValidShare | kernel/uipc_mbuf.c:246-324 | Sharing a cluster and counting it keeps every count equal to the number of users, and a cluster free if and only if its count is 0 |
| MbufMemory.ValidRelease | include/sys/mbuf.h:149-160 | So does releasing a buffer |
| MbufMemory.ValidTaken | include/sys/mbuf.h:163-188 | So does taking the first free cluster, which then has one user |
| MbufMemory.ValidGrow | kernel/uipc_mbuf.c:483-500 | So do new clusters from the kernel |
| MbufMemory.ValidAppend | kernel/uipc_mbuf.c:119-237 | Bytes copied behind those of a buffer are appended, and memory stays valid |
| MbufMemory.AppendOthers | kernel/uipc_mbuf.c:119-237 | No buffer that holds none of the places written sees them |
| MbufMemory.KeptIff | kernel/uipc_mbuf.c:180-237 | Another buffer keeps its bytes if and only if those it holds at the places written agree with what is written |
| MbufMemory.UndisturbedExact | kernel/uipc_mbuf.c:180-237 | All other buffers keep their bytes, whatever is written, if and only if none of them holds bytes of the cluster at the places written |
| MbufPool.Pool.Get | include/sys/mbuf.h:117-130 | A blank buffer of any free memory, or null if and only if there is none or the type is too large |
| MbufPool.Pool.constructor | kernel/uipc_mbuf.c:506-527 | Memory without buffers is valid if and only if the count of every cluster to be had lies in the array that is cleared, or memory happened to hold 0 there |
| MbufPool.Pool.Free | kernel/uipc_mbuf.c:452-462 | Exactly this buffer is released, its cluster when it was the last user |
| MbufPool.Pool.Freem | kernel/uipc_mbuf.c:468-476 | Exactly the buffers of the chain are released |
| MbufPool.Pool.Clalloc | kernel/uipc_mbuf.c:483-500 | All clusters of the pages asked for become free ones, or nothing changes |
| MbufPool.GrownCounts | kernel/uipc_mbuf.c:483-500 | Taking clusters from the kernel writes no count |
| MbufPool.CountsRight | kernel/uipc_mbuf.c:506-527 | After mbufinit and the first clusters the counts are right, whatever memory held, if and only if each of these clusters lies in the first quarter of kernel memory |
| MbufPool.FreeInUse | include/sys/mbuf.h:180-205 | A word -1 behind the array: a cluster is on the free list while a buffer refers to it |
| MbufPool.Pool.Mclalloc | include/sys/mbuf.h:177-188 | The buffer gets a cluster of its own if one can be had |
| MbufPool.Pool.PopFree | include/sys/mbuf.h:181-186 | The first free cluster gets its first user |
| MbufPool.Pool.GetExt | kernel/uipc_mbuf.c:385-390 | Counts stay right if and only if a cluster can be had or the old pointer was null |
| MbufPool.StaleCluster | include/sys/mbuf.h:163-174 | A buffer that takes up a pointer nobody counted makes memory invalid |
| MbufPool.Pool.Move | kernel/uipc_mbuf.c:146-155 | Bytes go from the front of one buffer to the end of another |
| MbufPool.Pool.Bcopy | kernel/uipc_mbuf.c:148-151 | Bytes are appended to a buffer |
| MbufPool.Pool.Advance | kernel/uipc_mbuf.c:150-155 | The first bytes of a buffer are dropped |
| MbufPool.Pool.Step | kernel/uipc_mbuf.c:146-158 | One round of the loop: bytes move, and an empty buffer is released |
| MbufPool.Pool.Gather | kernel/uipc_mbuf.c:143-165 | The loop of a pull-up keeps all bytes in order, and fails if and only if there are too few; the clusters end with just those bytes written |
| MbufPool.Pool.Pullup | kernel/uipc_mbuf.c:119-170 | The bytes stay the same, the first buffer holds at least len of them, is of the same type and has packet header and record end, or the whole chain is released; which of the two, and whether the first buffer is a new one, is stated exactly |
| MbufPool.Pool.PullupBig | kernel/uipc_mbuf.c:181-237 | The same with a cluster; other chains keep their bytes if and only if no bytes are put into a cluster of theirs or those agree with what they hold there, buffer by buffer |
| MbufPool.UnharmedIff | kernel/uipc_mbuf.c:181-237 | That condition, for the bytes that the loop moves into the first buffer's cluster |
| MbufPool.CutAndPull | kernel/uipc_mbuf.c:62-237 | A run from valid memory: one of two sharers is trimmed and pulled up, and the bytes of the other one change |
| MbufPool.Pool.FreemAfter | kernel/uipc_mbuf.c:181-237 | The chain is released after a failed allocation |
| MbufPool.Pool.GetHead | kernel/uipc_mbuf.c:133-142 | A new empty first buffer takes over the packet header |
| MbufPool.Pool.GetBigHead | kernel/uipc_mbuf.c:181-237 | The same with a cluster of its own |
| MbufPool.Pool.TakeOver | kernel/uipc_mbuf.c:206-211 | The new buffer with a cluster is empty and has the packet header |
| MbufPool.Pool.Trim | kernel/uipc_mbuf.c:62-109 | Exactly len bytes, or all, are cut off the head or the tail, and the packet header stays right |
| MbufPool.Pool.TrimHead | kernel/uipc_mbuf.c:70-88 | The loop that empties buffers from the head on |
| MbufPool.Pool.Shorten | kernel/uipc_mbuf.c:73-79 | One buffer's bytes are cut, and nothing else changes |
| MbufPool.Pool.TrimTail | kernel/uipc_mbuf.c:89-108 | The loops that keep the first bytes |
| MbufPool.Pool.LastKept | kernel/uipc_mbuf.c:96-103 | The buffer in which the kept bytes end |
| MbufPool.Pool.Length | kernel/uipc_mbuf.c:90-92 | The length of a chain is the number of its bytes |
| MbufPool.Pool.Copydata | kernel/uipc_mbuf.c:32-55 | The first bytes of the chain, as many as asked for or there are, and no other byte of the target |
| MbufPool.Pool.SkipEmpty | kernel/uipc_mbuf.c:32-55 | The search for offset 0 skips only empty buffers |
| MbufPool.Pool.CopyOut | kernel/uipc_mbuf.c:32-55 | Bytes go behind those copied already |
| MbufPool.Pool.Copy | kernel/uipc_mbuf.c:246-324 | A new chain with exactly the bytes asked for, in buffers of the same types and clusters, with the packet header and record end of the original and the length copied; all old buffers unchanged, counts right; on failure everything is released again; failure with enough bytes needs missing memory |
| MbufPool.AlikeMore | kernel/uipc_mbuf.c:246-324 | One more buffer that is like its original |
| MbufPool.Pool.CopyOne | kernel/uipc_mbuf.c:246-324 | One round appends one copied buffer |
| MbufPool.Pool.CopyNode | kernel/uipc_mbuf.c:246-324 | A buffer with a cluster is copied by sharing, another by value, the first one with its packet header |
| MbufPool.CopyEnd | kernel/uipc_mbuf.c:246-324 | What the end of the copying loop means in every case |
| MbufPool.Pool.Reserve | kernel/uipc_mbuf.c:357-379 | len bytes of room before the old bytes, under the same type, packet header and record end, or the whole chain is released; which of the two, whether the first buffer is a new one, and where the room lies in it, is stated exactly |
| MbufPool.Pool.ReserveNew | kernel/uipc_mbuf.c:327-350 | The new first buffer when there is too little room |
| MbufPool.OtherChain | kernel/uipc_mbuf.c:62-379 | A chain that shares no buffer with the one worked on keeps its links and bytes |
| MbufPool.Shifted | kernel/uipc_mbuf.c:146-158 | Moving bytes to the front keeps the bytes of both together |
| MbufPool.GatherEnd | kernel/uipc_mbuf.c:143-165 | What the end of the loop says about lengths |
| SockBuf.ReadsAll | kernel/uipc_socket.c:228-330 | A receive reads the whole datagram if and only if no buffer before the last ends a record |
| SockBuf.SumBytes | include/sys/socketvar.h:56-70 | The lengths of a chain's buffers add up to its bytes |
| SockBuf.RecordsKept | kernel/uipc_socket.c:628-773 | Records whose buffers are untouched keep their meaning, counts and links |
| SockBuf.QueueSnoc | kernel/uipc_socket.c:750-773 | A record hung behind the last one makes a queue |
| SockBuf.TakenFront | kernel/uipc_socket.c:155-356 | Taking the first buffer out of the first record leaves the rest of the queue |
| SockBuf.Enqueued | kernel/uipc_socket.c:722-773 | An appended record is the newest datagram, and is counted |
| SockBuf.Sockbuf.constructor | include/sys/socketvar.h:33-50 | A fresh buffer is empty |
| SockBuf.Sockbuf.Reserve | kernel/uipc_socket.c:608-619 | The limits are set, or nothing changes; the bound on the queue holds if and only if the size is not below what is queued |
| SockBuf.Sockbuf.Sballoc | include/sys/socketvar.h:56-61 | A buffer is counted |
| SockBuf.Sockbuf.Sbfree | include/sys/socketvar.h:64-69 | A buffer is discounted |
| SockBuf.Sockbuf.TakeHead | kernel/uipc_socket.c:159-177 | The first buffer leaves the queue, released or kept, and is discounted |
| SockBuf.Sockbuf.CutHead | kernel/uipc_socket.c:278-288 | Bytes are taken off the first buffer, and discounted |
| SockBuf.Sockbuf.Droprecord | kernel/uipc_socket.c:628-641 | Exactly the rest of the first record is released and discounted |
| SockBuf.Sockbuf.ReceiveData | kernel/uipc_socket.c:228-323 | The data loop delivers the readable bytes in order, as many as there is room for |
| SockBuf.Sockbuf.Round | kernel/uipc_socket.c:228-323 | One round delivers bytes of the first buffer, and drops it when all of them were delivered |
| SockBuf.Sockbuf.Deliver | kernel/uipc_socket.c:247-253 | Bytes go to the caller behind those delivered already |
| SockBuf.Sockbuf.Receive | kernel/uipc_socket.c:139-356 | Exactly the oldest datagram is removed; its first bytes and its address are delivered; without truncation that is the whole payload, and truncation is reported if and only if it is not, when no data buffer is empty; the counters stay right, and buffers outside of the datagram keep their links and bytes |
| SockBuf.Sockbuf.Append | kernel/uipc_socket.c:722-773 | The new datagram becomes the newest, behind a buffer of the address type, unless memory is out |
| SockBuf.Sockbuf.Count | kernel/uipc_socket.c:760-762 | Every buffer of the record is counted |
| SockBuf.Sockbuf.LastRecord | kernel/uipc_socket.c:765-767 | The walk over the records ends at the last one |
| SockBuf.Sockbuf.Enqueue | kernel/uipc_socket.c:764-770 | The record hangs behind it |
| SockBuf.Sockbuf.Appendaddr | kernel/uipc_socket.c:722-773 | It is appended if and only if it has a header and an address that fits, memory is to be had, and the bytes stay below both limits; a buffer whose storage is over its limit already is judged by its bytes alone; otherwise nothing changes |
| SockBuf.Sockbuf.SpaceFits | include/sys/socketvar.h:53 | What the comparison with sbspace decides, on the counters and limits |
| TxRing.Counters | drivers/net/stmmac/stmmac_main.c:596-599 | Wrapping counters keep the slot and the distance |
| TxRing.NumberUnique | drivers/net/stmmac/stmmac_main.c:359-395 | A slot stands for one buffer only among eight in a row |
| TxRing.NumberNext | drivers/net/stmmac/stmmac_main.c:359-395 | Taking back the first slot makes it the one for the buffer eight further on |
| TxRing.Finished | drivers/net/stmmac/stmmac_main.c:359-395 | The device gives its slots back in order |
| TxRing.ReapedSlots | drivers/net/stmmac/stmmac_main.c:359-395 | Emptying the first finished slot keeps the window right: one live buffer in each slot of it, none outside, owned slots at its end |
| TxRing.ReapedHeap | drivers/net/stmmac/stmmac_main.c:359-395 | Its buffer is released, and just the buffers of the window stay live |
| TxRing.FilledSlots | drivers/net/stmmac/stmmac_main.c:605-662 | Filling the next slot keeps the window right |
| TxRing.FilledHeap | drivers/net/stmmac/stmmac_main.c:605-662 | The new buffer joins the live ones |
| TxRing.Ring.constructor | drivers/net/stmmac/stmmac_main.c:196-197 | An empty ring |
| TxRing.Ring.Avail | drivers/net/stmmac/stmmac_main.c:596-599 | The number of free slots is 7 less those in the window, also when the counters wrapped |
| TxRing.Ring.Finish | drivers/net/stmmac/stmmac_main.c:359-395 | The device sends the oldest buffer it owns, if there is one |
| TxRing.Ring.Tx | drivers/net/stmmac/stmmac_main.c:359-395 | All buffers that the device has finished with, also meanwhile, are released once, in the order they were sent |
| TxRing.Ring.FinishSome | drivers/net/stmmac/stmmac_main.c:359-395 | Whatever the device does meanwhile keeps the ring right |
| TxRing.Ring.Reap | drivers/net/stmmac/stmmac_main.c:365-393 | One round releases the oldest buffer and counts it as sent or failed |
| TxRing.Ring.Xmit | drivers/net/stmmac/stmmac_main.c:605-662 | Packets are handed over in queue order, none longer than 2048 bytes; busy only with seven in the window; the packet that cannot be sent is lost and its chain never released, and those behind it stay |
| TxRing.Ring.Events | drivers/net/stmmac/stmmac_main.c:605-662 | Whatever the device and interrupts do between packets keeps the ring right |
| TxRing.Ring.Happen | drivers/net/stmmac/stmmac_main.c:359-395 | So does one step of the device, or one interrupt |
| TxRing.Ring.CopyIn | drivers/net/stmmac/stmmac_main.c:636-644 | The slot gets its memory, the packet is copied and its chain released, while the device is at work, which sees none of it |
| TxRing.Ring.HandOver | drivers/net/stmmac/stmmac_main.c:652-653 | Only then the slot is the device's, and holds the packet |
| TxRing.Ring.Fill | drivers/net/stmmac/stmmac_main.c:636-659 | Memory, copy, ownership and counter in the order of the source, with the device at work between any two of them: the packet's bytes go to the next slot |
| NumText.ScaleUp | lib/div64.c:10-39 | The scaled divisor is the largest multiple needed, without overflow |
| Common.QuotientIs | lib/div64.c:10-39 | Quotient and remainder are determined by their equation |
| NumText.HighPart | lib/div64.c:10-39 | Taking the high half out first stays within 64 bits |
| NumText.Div64 | lib/div64.c:10-39 | The true quotient and remainder of every 64-bit number and nonzero 32-bit divisor |
| NumText.DigitsValue | lib/cvt.c:75-127 | Digits stand for the number they were made from |
| NumText.DigitIs | lib/cvt.c:106-113 | The digits from 10 on are the letters, small ones or capitals |
| NumText.DigitCount | lib/cvt.c:75-127 | A number below 2^k has at most k digits |
| NumText.FirstDigit | lib/cvt.c:75-127 | The first digit is no prefix character and not 0 |
| NumText.PrintDigits | lib/cvt.c:75-127 | The digit buffer is never exceeded and holds the digits in reverse |
| NumText.CopyReversed | lib/cvt.c:75-127 | The characters are copied last first |
| NumText.Llbtoa | lib/cvt.c:75-127 | The text of the number, then NUL, and no other byte of the buffer; the pointer returned is the buffer for 0 only, and the end of the text otherwise |
| NumText.Atob | lib/cvt.c:133-164 | An error if and only if there is no digit or a wrong one; otherwise the value modulo 2^64 |
| NumText.Llatob | lib/cvt.c:221-257 | Prefixes choose the base, a minus sign the decimal negative |
| NumText.RoundTrip | lib/cvt.c:75-257 | Reading back what was printed gives the same 64-bit value, in all bases from 2 to 16, signed decimal and capital hexadecimal |
| NumText.PrefixTrip | lib/cvt.c:221-257 | With the prefix 0x, 0X or o, hexadecimal or octal text reads back whatever the base given |
| NumText.SignedBase | lib/cvt.c:75-257 | When the base of signed printing reads back too |

## Left out

- Radix.Head.Match: does not claim the longest matching prefix, because the compares at `net/radix.c:294`, 552 and 574 and the mask walks do not deliver it; non-contiguous masks, for which `rn_satisfies_leaf` and `rn_search_mask` exist, and allocation failure are not modelled.
- Radix.Head.AddRoute: takes masks as `rn_addmask` classified them, at most 32-byte keys, and no key shared by a masked and an unmasked route, because line 481 reads both masks.  The keys of the two roots are unmasked for ever (`Radix.InitUnmasked`, `Radix.StillUnmasked`), so that no masked route to the all-zero key, and with it no default route, meets the condition (`Radix.Head.MixedKey`): there the source reads through a null mask.  The branch for a mask already on the list cannot be reached with contiguous masks.
- RadixMasks.MaskTable.AddMask: at least two skipped bytes, as every address family has; with one, the loop at `net/radix.c:384` can run in front of the buffer on an empty mask.
- Route deletion: `net/radix.c` has none.
- Tftp.Download: no progress, because there is no timeout; a run that ends while the client waits says nothing.  One server address, and no error texts.
- RadixMasks.AddRoute: netmasks of at least one bit, since the zero root that stands for the others is not a mask of `Radix.Head.AddRoute`.
- Tftp.Upload: says nothing about the server for files of 65535 blocks and more, whose numbers wrap on the wire.
- Ext2.Reader.ReadDataBlk: says nothing about the bytes when the read comes to block 0 right after block 0xffffffff, because the run compare wraps there; holes are read as block 0 like any other, and triple indirect blocks, path lookup, partitions and the superblock are not modelled.
- MbufPool.Pool.PullupBig: needs that no other buffer of the same chain holds bytes of the head's cluster at the places that an in-place pull-up writes, because the source copies from there afterwards, and, without clusters to be had, no stale pointer in free memory (see `MbufPool.Pool.GetExt`).
- MbufPool.Pool.Clalloc: what a new cluster holds is fixed, and other users of the memory behind the array of counts do not write it meanwhile.
- MbufPool.Pool.Copy: offset 0, as every caller passes, and lengths up to `M_COPYALL`.
- MbufPool.Pool.Copydata: offset 0, as every caller passes.
- MbufPool.Pool.Pullup: `max_protohdr` is 0, since nothing sets it.
- Cluster hooks (`me_free`, `me_ref`) and buffer statistics.
- SockBuf.Sockbuf.Receive: the datagram path only: no peek, out-of-band data, control messages, streams, blocking or locks.
- SockBuf.Sockbuf.Appendaddr: no control chain; `sb_mbcnt` may exceed `sb_mbmax`, since one address buffer is not counted beforehand.
- UserMalloc.Heap.Malloc: requests above 0xfffffbf8 but for the last seven, for which coremore writes a header outside the heap, see `UserMalloc.RequestTooLarge`; the static list head lies outside the heap and never next to it.
- KernMalloc.Kmem.Free: whole pages cannot be released, since the source stops the kernel; the unused counts of the usage table are not modelled.
- BlockFile.Disk.Command: command issue, registers and cache flushing are one step that works or fails.
- TxRing.Ring.Xmit: bus mappings, checksum flags and the restart after errors; the receive ring.
- NumText.Llatob: the 32-bit twins `btoa` and `atob`.
- NumText.RoundTrip: bases above 16 print but do not parse.
- Interrupt masking and locking, logging, `in_pcb.c`, `shell/`, `vsprintf`, environment, ioctl and device configuration code, ELF loading, `lib/queue.c` and `uiomove`: easier than the parts above, or without a clean property.
