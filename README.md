# Memory-Management-Systems, modelled in Dafny

This project models the core of a small operating-systems assignment repository:

- **The explicit-list allocator of `2021MT10230mmu.h`** (module `Allocator`, file
  `allocator.dfy`). The allocator keeps a singly linked directory of `MemBlock` headers
  (`size`, `next`, `is_free`) in acquisition order, starting at the global `head`. `my_malloc`
  places a request first-fit without splitting, and on a miss it maps a new region of
  `sizeof(MemBlock) + size` bytes and appends it at the tail. `my_calloc` checks for zero
  arguments and for overflow, then zero-fills. `my_free` marks the block free, runs one
  coalescing pass and unmaps a free tail block. The directory is the field `Heap.blocks`, a
  sequence in `next` order. A header is named by its address, and the payload pointer a
  caller receives is represented by that address. `mmap` is an oracle argument `grant`, and
  `munmap` is an oracle argument `unmapOk`. The lengths passed to both are logged in
  `Heap.requests` and `Heap.releases`. The specification functions `Allocate`, `Coalesce`,
  `ReclaimTail` and `AfterFree` are what the `Heap` methods are proved against.
- **The hand-written separate-chaining `HashMap` of `2021MT10230tlb.cpp`** (module
  `HashTable`, file `hashmap.dfy`). It is an array of buckets of `(key, value)` pairs with a
  doubling `rehash`. Its abstract value is the multiset of stored pairs and, when no key is
  repeated, the dictionary those pairs spell out.
- **The four TLB replacement policies of `2021MT10230tlb.cpp`** (FIFO, LIFO, LRU, Optimal)
  built over that `HashMap` (module `HashedTlb`, file `hashed_tlb.dfy`).
- **The same four policies in `2021MT10230.cpp`**, over `unordered_map` (module `Tlb`, file
  `tlb.dfy`). The map is a Dafny `map<nat, int>`.

Definitions both simulators share are in module `Policy` (`policy.dfy`): the FIFO ring
buffer's queue order, the next-use position, and `INT_MAX`. `Wrappers` (`wrappers.dfy`)
holds `Option`. The `isFull` of every policy class is its predicate `IsFull`.

The allocator's coalescing pass is modelled as the code writes it
(`2021MT10230mmu.h:137-145`). After a merge, `current = current->next` moves past the
absorbed block, so the merged block is not compared with its new successor. A run of three
or more free blocks is therefore merged only pairwise (`Allocator.CoalesceRunOfThree`), so
"no two adjacent free blocks after coalescing" does not hold and the model does not claim
it. What is proved instead is that the pass preserves the footprint and the order of the
surviving blocks, and that it never touches a used block.

## Model

| member | source | states |
|---|---|---|
| `Allocator.FirstFit` | 2021MT10230mmu.h:52-62 | the position found holds a free block with capacity at least the request, and no earlier block qualifies; None means no block in the directory qualifies |
| `Allocator.Allocate` | 2021MT10230mmu.h:40-89 | a NULL result comes with an errno and the directory unchanged; a pointer names a used block of at least the requested capacity; every live block survives; the OS is asked only on a first-fit miss, and then for header + size bytes (the corrected length, see Findings); the footprint grows by exactly the mapped region |
| `Allocator.AllocateZero` | 2021MT10230mmu.h:43-47 | a request of 0 bytes returns NULL with EINVAL, asks the OS for nothing and leaves the directory unchanged |
| `Allocator.AllocateHit` | 2021MT10230mmu.h:53-59 | on a first-fit hit only the first fitting block turns used; its payload is returned, all sizes and the length are kept, and no region is requested |
| `Allocator.AllocateMiss` | 2021MT10230mmu.h:64-88 | on a miss exactly header + size bytes are requested; a refusal gives NULL with ENOMEM and the same directory; a grant gives the old directory plus one used block of the requested size at the tail |
| `Allocator.Fits` | 2021MT10230mmu.h:55 | defines the first-fit test as the code does: the block is free and its size is at least the request |
| `Allocator.RegionRequestAsWritten` | 2021MT10230mmu.h:65 | the length as written: it is a size_t, and it equals header + size exactly when that sum fits in a size_t |
| `Allocator.RegionRequest` | 2021MT10230mmu.h:65 | the region length is at least header + size and fits in a size_t; the request fails exactly when header + size does not fit |
| `Allocator.RequestWrapsAsWritten` | 2021MT10230mmu.h:65 | as written, a request for SIZE_MAX bytes wraps to a 23-byte region, smaller than the header plus the payload the block then records |
| `Allocator.RequestAgreesWhenRepresentable` | 2021MT10230mmu.h:65 | when header + size fits in a size_t, the corrected request equals the source's |
| `Allocator.Wrap` | 2021MT10230mmu.h:101 | the size_t product as written: it fits in a size_t and equals the true product whenever that fits |
| `Allocator.Zeros` | 2021MT10230mmu.h:113 | the bytes memset writes: exactly n of them, all zero |
| `Allocator.CallocOverflowCheckExact` | 2021MT10230mmu.h:101-108 | the test `total / nelem != size` on the wrapped product holds exactly when nelem * size exceeds SIZE_MAX |
| `Allocator.MarkFree` | 2021MT10230mmu.h:131 | defines `block->is_free = 1` as the code does: only the released block changes, and only its free flag |
| `Allocator.Merge` | 2021MT10230mmu.h:141-142 | defines one merge as the code does: the predecessor keeps its address and flag, and its recorded size covers both blocks, header included (not one contiguous mapping; see Left out) |
| `Allocator.Coalesce` | 2021MT10230mmu.h:137-145 | defines the coalescing pass as the code runs it, pairwise; it never lengthens the directory and empties it only when it was empty |
| `Allocator.ReclaimTail` | 2021MT10230mmu.h:148-170 | defines tail reclamation as the code does: a free last block is unlinked and everything before it is kept; otherwise nothing changes |
| `Allocator.TailFree` | 2021MT10230mmu.h:158 | defines the tail test as the code does: the directory is non-empty and its last block is free |
| `Allocator.Reclaimed` | 2021MT10230mmu.h:181 | the length passed to munmap: non-zero exactly when the last block is free, and then its header plus its size |
| `Allocator.AfterFree` | 2021MT10230mmu.h:129-170 | defines the directory after my_free (mark, pass, reclaim): it is no longer, and its used blocks are those of the directory with the released block marked free |
| `Allocator.IndexOf` | 2021MT10230mmu.h:130 | a payload pointer recovers the directory position of its own header |
| `Allocator.CoalesceFootprint` | 2021MT10230mmu.h:137-145 | the pass preserves the sum over the directory of header + payload |
| `Allocator.CoalesceKeepsOrder` | 2021MT10230mmu.h:137-145 | the pass keeps the head block, never adds blocks, and the surviving headers keep their relative order |
| `Allocator.CoalesceWellFormed` | 2021MT10230mmu.h:137-145 | after the pass, header addresses are still distinct and payloads still non-empty |
| `Allocator.CoalesceKeepsUsed` | 2021MT10230mmu.h:137-145 | the used blocks, with their sizes and in their order, are the same before and after the pass |
| `Allocator.CoalesceRunOfThree` | 2021MT10230mmu.h:137-145 | three adjacent free blocks become one merged block followed by a free block, so two adjacent free blocks remain |
| `Allocator.CoalesceCoversFree` | 2021MT10230mmu.h:137-145 | every block free before the pass is covered afterwards by a free block at least as large |
| `Allocator.CoalesceKeepsUsedTail` | 2021MT10230mmu.h:137-156 | a used last block is still the last block after the pass |
| `Allocator.ReclaimTailKeepsUsed` | 2021MT10230mmu.h:148-170 | unlinking a free tail leaves the used blocks untouched |
| `Allocator.ReclaimTailFootprint` | 2021MT10230mmu.h:158-184 | what leaves the directory at tail reclamation is exactly the header + payload handed to munmap |
| `Allocator.FreeKeepsLiveBlocks` | 2021MT10230mmu.h:120-170 | after my_free every other block that was in use is still in the directory, unchanged |
| `Allocator.FreeFootprint` | 2021MT10230mmu.h:129-184 | the footprint after my_free plus the unmapped length equals the footprint before |
| `Allocator.FreeWellFormed` | 2021MT10230mmu.h:129-170 | my_free keeps header addresses distinct and payloads non-empty |
| `Allocator.FreedBlockIsReused` | 2021MT10230mmu.h:120-170 | after freeing a non-tail block while the tail is in use, a request no larger than it is served from the recorded capacity of a free block, without asking the OS |
| `Allocator.FreedNeighboursServeTheirSum` | 2021MT10230mmu.h:135-145 | freeing A then B, or B then A, of three used blocks merges them, and a request for A's plus B's size is then served first-fit by the merged block's recorded capacity |
| `Allocator.FreeingSoleBlockEmptiesDirectory` | 2021MT10230mmu.h:158-165 | freeing the only block empties the directory, and the next allocation requests fresh memory |
| `Allocator.Heap.constructor` | 2021MT10230mmu.h:20 | the directory starts empty (`head` is NULL) |
| `Allocator.Heap.Malloc` | 2021MT10230mmu.h:40-89 | the method's returned pointer, new directory, logged OS request and errno are those `Allocate` specifies |
| `Allocator.Heap.Calloc` | 2021MT10230mmu.h:92-117 | a zero argument gives NULL with EINVAL; an overflowing product gives NULL with ENOMEM and no allocation; otherwise it behaves as my_malloc of the product, and a returned payload holds that many zero bytes |
| `Allocator.Heap.Free` | 2021MT10230mmu.h:120-186 | free(NULL) sets EINVAL and changes nothing; otherwise the directory becomes the coalesced directory with a free tail unlinked; that tail's address and header + size are passed to munmap, and a munmap failure sets ENOMEM |
| `Allocator.Heap.CoalescePass` | 2021MT10230mmu.h:135-145 | the loop leaves exactly the directory `Coalesce` specifies, and no other field changes |
| `Allocator.Heap.ReleaseTail` | 2021MT10230mmu.h:147-185 | the loop leaves the directory with a free tail unlinked, and logs the region passed to munmap |
| `Policy.Next` | 2021MT10230.cpp:45 | the advanced slot is `(rear + 1) % capacity` and stays within the buffer |
| `Policy.RingPush` | 2021MT10230.cpp:43-54 | one add keeps the ring shape; when full, the slot `rear` lands on holds the oldest item; the queue drops that item when full and gains the new one at the back |
| `Policy.RingPushDistinct` | 2021MT10230.cpp:43-54 | one add of a non-resident item keeps the queue free of repeats; its items lose the oldest one when full and gain the new one |
| `Policy.NextUse` | 2021MT10230.cpp:245-255 | the result is a position at or after the start that accesses the page, or INT_MAX; no earlier position accesses it |
| `HashTable.FirstMatch` | 2021MT10230tlb.cpp:63-74 | the position found holds the key and no earlier pair of the bucket does; None means the bucket holds no pair with the key |
| `HashTable.KeyInItsBucket` | 2021MT10230tlb.cpp:22-25 | a key is stored in the table exactly when the bucket it hashes to holds it |
| `HashTable.BucketLookup` | 2021MT10230tlb.cpp:63-74 | the first match in a key's bucket is absent exactly when the key is not stored; with no repeated keys, it holds the value the dictionary maps the key to |
| `HashTable.BucketErase` | 2021MT10230tlb.cpp:76-88 | erasing one pair of a bucket removes exactly that pair from the table and keeps every pair in its bucket |
| `HashTable.PlacedPush` | 2021MT10230tlb.cpp:35-38 | appending a pair to the bucket its key hashes to keeps every pair in its bucket |
| `HashTable.DictionaryBag` | 2021MT10230tlb.cpp:17-19 | reading the pairs in order finds no repeated key exactly when the table has no repeated key, and then yields the table's dictionary |
| `HashTable.AddFresh` | 2021MT10230tlb.cpp:35-39 | adding a pair whose key is not stored adds exactly that entry to the dictionary |
| `HashTable.RemovePair` | 2021MT10230tlb.cpp:76-88 | removing a stored pair from a table without repeated keys removes exactly its key from the dictionary |
| `HashTable.LeastInMap` | 2021MT10230tlb.cpp:90-106 | the first pair with the least value holds a stored key whose value is minimal in the dictionary |
| `HashTable.HashMap.constructor` | 2021MT10230tlb.cpp:27-33 | a new table has the requested number of buckets, all empty, and is within the load bound |
| `HashTable.HashMap.Hash` | 2021MT10230tlb.cpp:22-25 | the bucket index of a non-negative key lies within the table |
| `HashTable.HashMap.Place` | 2021MT10230tlb.cpp:37-39 | the pair is appended to bucket `hash(key)`, the table gains exactly that pair, and `total_elements` grows by one |
| `HashTable.HashMap.Insert` | 2021MT10230tlb.cpp:35-44 | the table gains exactly the pair and `total_elements` grows by one; the bucket count doubles exactly when the load exceeds 3/4, and otherwise the pair is appended to its bucket |
| `HashTable.HashMap.Rehash` | 2021MT10230tlb.cpp:46-61 | the bucket count doubles; the multiset of pairs and `total_elements` are preserved; every pair is in its new bucket and the load is within bound |
| `HashTable.HashMap.Reset` | 2021MT10230tlb.cpp:48-52 | the new array has the requested number of empty buckets and `total_elements` is 0 |
| `HashTable.HashMap.Reinsert` | 2021MT10230tlb.cpp:53-59 | re-inserting one old bucket adds exactly its pairs, and the load stays within bound, so no nested rehash fires |
| `HashTable.HashMap.Search` | 2021MT10230tlb.cpp:63-74 | the value of the first pair with the key in its bucket, or 0 when there is none; 0 for an absent key; with no repeated keys, the value the dictionary holds |
| `HashTable.HashMap.Remove` | 2021MT10230tlb.cpp:76-88 | the first matching pair of the key's bucket is erased and `total_elements` drops by one; an absent key changes nothing; with no repeated keys, the dictionary loses exactly that key |
| `HashTable.HashMap.Locate` | 2021MT10230tlb.cpp:79-82 | the scan stops at the first pair with the key, or at the bucket's end when there is none |
| `HashTable.HashMap.EraseAt` | 2021MT10230tlb.cpp:83-84 | dropping one position removes exactly that pair and one from `total_elements` |
| `HashTable.HashMap.Least` | 2021MT10230tlb.cpp:90-106 | the key of the first pair in bucket order whose value is minimal, ties going to the earliest because the comparison is strict; with no repeated keys, a stored key of minimal value |
| `HashedTlb.NewTable` | 2021MT10230tlb.cpp:131 | a new policy starts with an empty table of 100 buckets |
| `HashedTlb.SearchKey` | 2021MT10230tlb.cpp:159 | search on a table without repeated keys returns the stored value, or 0 for an absent key |
| `HashedTlb.InsertNew` | 2021MT10230tlb.cpp:153 | inserting a key the table does not hold adds exactly that entry and counts it |
| `HashedTlb.RemoveKey` | 2021MT10230tlb.cpp:149 | remove drops the key's entry, if any, and counts it |
| `HashedTlb.Replace` | 2021MT10230tlb.cpp:146-153 | the table side of FIFO add: the victim's entry goes first when full, then the new page's entry is added |
| `HashedTlb.LeastKey` | 2021MT10230tlb.cpp:257 | on a non-empty table, least returns a resident page whose value is minimal |
| `HashedTlb.FifoOldest` | 2021MT10230tlb.cpp:146-149 | when the buffer is full, the slot after `rear` holds the oldest resident page |
| `HashedTlb.FifoPush` | 2021MT10230tlb.cpp:144-155 | one FIFO add keeps table and queue in step: when full the queue loses its oldest page, and the new page joins at the back |
| `HashedTlb.FarthestStep` | 2021MT10230tlb.cpp:339-348 | during simulate, every stored value stays minus the page's next use, and the page evicted for the least value is one whose next use is farthest away |
| `HashedTlb.Fifo.IsFull` | 2021MT10230tlb.cpp:134-137 | defines `isFull` as the code does: `size == capacity` |
| `HashedTlb.Lifo.IsFull` | 2021MT10230tlb.cpp:189-192 | defines `isFull` as the code does: `size == capacity` |
| `HashedTlb.Lru.IsFull` | 2021MT10230tlb.cpp:243-246 | defines `isFull` as the code does: `size == capacity`, which may hold while the table holds fewer pages |
| `HashedTlb.Optimal.IsFull` | 2021MT10230tlb.cpp:305-308 | defines `isFull` as the code does: `size == capacity`, which may hold while the table holds fewer pages |
| `HashedTlb.Fifo.constructor` | 2021MT10230tlb.cpp:124-132 | the buffer starts empty, with `rear` at capacity - 1 and no hits |
| `HashedTlb.Fifo.Add` | 2021MT10230tlb.cpp:144-155 | `rear` advances modulo capacity and the new page is written to that slot, no other slot changing; when full the page it overwrites, the oldest, is evicted; the new page joins the queue; size never exceeds capacity |
| `HashedTlb.Fifo.Access` | 2021MT10230tlb.cpp:157-167 | a resident page is a hit and changes nothing else, buffer and `rear` included; any other page is added with value 1 |
| `HashedTlb.Lifo.constructor` | 2021MT10230tlb.cpp:180-187 | the table starts empty, `last` is -1 and there are no hits |
| `HashedTlb.Lifo.Add` | 2021MT10230tlb.cpp:199-209 | when full the page added last is evicted; then the new page becomes `last` and is stored; size never exceeds capacity |
| `HashedTlb.Lifo.EvictLast` | 2021MT10230tlb.cpp:201-205 | the full branch removes exactly the page added last |
| `HashedTlb.Lifo.Store` | 2021MT10230tlb.cpp:206-208 | the page is stored and counted |
| `HashedTlb.Lifo.Access` | 2021MT10230tlb.cpp:211-221 | a resident page is a hit and changes nothing else; any other page is added with value 1 and becomes `last` |
| `HashedTlb.Lru.constructor` | 2021MT10230tlb.cpp:234-241 | the table starts empty, `counter` is 1 and there are no hits |
| `HashedTlb.Lru.Evict` | 2021MT10230tlb.cpp:255-260 | the full branch removes a resident page with the least stamp |
| `HashedTlb.Lru.Store` | 2021MT10230tlb.cpp:261-262 | the page is stored with its stamp and counted |
| `HashedTlb.Lru.Add` | 2021MT10230tlb.cpp:253-263 | when full a page with the least stamp is evicted, then the page is stored |
| `HashedTlb.Lru.Hit` | 2021MT10230tlb.cpp:267-271 | a resident page is counted as a hit and erased, and `size` is not decremented |
| `HashedTlb.Lru.Access` | 2021MT10230tlb.cpp:265-273 | hits grow exactly on a resident page; the page is stored with the old `counter`, which is then the largest stamp; on eviction, another page with the least stamp goes |
| `HashedTlb.Optimal.constructor` | 2021MT10230tlb.cpp:287-295 | the table starts empty, with `counter` 0 and the given access sequence |
| `HashedTlb.Optimal.NextAccess` | 2021MT10230tlb.cpp:327-337 | the first position after `counter` that accesses the page, or INT_MAX |
| `HashedTlb.Optimal.Evict` | 2021MT10230tlb.cpp:317-322 | the full branch removes a resident page with the least stored value |
| `HashedTlb.Optimal.Store` | 2021MT10230tlb.cpp:323-324 | the page is stored with its negative value and counted |
| `HashedTlb.Optimal.Add` | 2021MT10230tlb.cpp:315-325 | when full a page with the least stored value is evicted, then the page is stored |
| `HashedTlb.Optimal.Hit` | 2021MT10230tlb.cpp:341-345 | `search(key) < 0` holds exactly for a resident page: it counts as a hit and is erased, and `size` is kept |
| `HashedTlb.Optimal.Access` | 2021MT10230tlb.cpp:339-348 | hits grow exactly on a resident page; the page is stored with minus its next use; on eviction, another page with the least value goes |
| `HashedTlb.Optimal.Advance` | 2021MT10230tlb.cpp:299-302 | one round of simulate accesses `accesses[counter]`, advances `counter`, and keeps every stored value equal to minus the next use |
| `HashedTlb.Optimal.Simulate` | 2021MT10230tlb.cpp:297-303 | the accesses are made in order, up to the first one whose eviction would read `least` of an empty table |
| `Tlb.MapInsert` | 2021MT10230.cpp:52 | the map gains the key; a key already present keeps its value; every other entry is unchanged |
| `Tlb.LeastValue` | 2021MT10230.cpp:156-166 | the scan returns a resident key of minimal value when some value is below INT_MAX, and key 0 otherwise |
| `Tlb.GreatestValue` | 2021MT10230.cpp:228-237 | the scan returns a resident key of maximal value when some value is above INT_MIN, and key 0 otherwise |
| `Tlb.BeladyStep` | 2021MT10230.cpp:257-266 | during simulate, every stored value stays the page's next use, and the evicted page is one whose next use is farthest away |
| `Tlb.Fifo.IsFull` | 2021MT10230.cpp:33-36 | defines `isFull` as the code does: `size == capacity` |
| `Tlb.Lifo.IsFull` | 2021MT10230.cpp:88-91 | defines `isFull` as the code does: `size == capacity` |
| `Tlb.Lru.IsFull` | 2021MT10230.cpp:142-145 | defines `isFull` as the code does: `size == capacity`, which may hold while the map holds fewer pages |
| `Tlb.Optimal.IsFull` | 2021MT10230.cpp:214-217 | defines `isFull` as the code does: `size == capacity`, which may hold while the map holds fewer pages |
| `Tlb.Fifo.constructor` | 2021MT10230.cpp:23-31 | the buffer starts empty, with `rear` at capacity - 1 and no hits |
| `Tlb.Fifo.Add` | 2021MT10230.cpp:43-54 | `rear` advances modulo capacity and the new page is written to that slot, no other slot changing; when full the page at the new `rear`, the oldest, is erased; the new page joins the queue; size never exceeds capacity |
| `Tlb.Fifo.Access` | 2021MT10230.cpp:56-66 | a resident page is a hit and leaves the map, the buffer and `rear` unchanged; any other page is added with value 1 |
| `Tlb.Lifo.constructor` | 2021MT10230.cpp:79-86 | the map starts empty, `last` is (unsigned) -1 and there are no hits |
| `Tlb.Lifo.Add` | 2021MT10230.cpp:98-108 | when full the page added last is erased; the new page becomes `last`; size counts the resident pages and never exceeds capacity |
| `Tlb.Lifo.Access` | 2021MT10230.cpp:110-120 | a resident page is a hit and changes nothing else; any other page is added with value 1 |
| `Tlb.Lru.constructor` | 2021MT10230.cpp:133-140 | the map starts empty, `counter` is 1 and there are no hits |
| `Tlb.Lru.Evict` | 2021MT10230.cpp:154-169 | the full branch erases a resident page with the minimal stamp |
| `Tlb.Lru.Add` | 2021MT10230.cpp:152-172 | when full a page with the minimal stamp is evicted, then the page is inserted; size never exceeds capacity |
| `Tlb.Lru.Access` | 2021MT10230.cpp:174-182 | hits grow exactly on a resident page; the page is stamped with the old `counter`, which is then strictly the largest stamp; on eviction, another page with the minimal stamp goes |
| `Tlb.Optimal.constructor` | 2021MT10230.cpp:196-204 | the map starts empty, with `counter` 0 and the given access sequence |
| `Tlb.Optimal.NextAccess` | 2021MT10230.cpp:245-255 | the smallest position after `counter` that accesses the page, or INT_MAX |
| `Tlb.Optimal.Evict` | 2021MT10230.cpp:226-240 | the full branch erases a resident page with the maximal next use |
| `Tlb.Optimal.Add` | 2021MT10230.cpp:224-243 | when full a page with the maximal next use is evicted, then the page is inserted |
| `Tlb.Optimal.Access` | 2021MT10230.cpp:257-266 | hits grow exactly on a resident page; the page is stored with its next use; on eviction, another page with the maximal next use goes |
| `Tlb.Optimal.Simulate` | 2021MT10230.cpp:206-212 | every entry of the access sequence is accessed in order; starting empty, every stored value is afterwards the page's next use |

## Left out

- `mmap` and `munmap` are not modelled as an address space. `grant` is what `mmap`
  returns (None for `MAP_FAILED`), and `unmapOk` is whether `munmap` succeeds. The model
  logs the lengths passed to each and does not check them against real mappings. After a
  merge, one block spans several mappings, so the unmapped length is only logged.
- `Allocator.Merge` records the merged size as the code does, but the capacity it records
  is not backed by contiguous memory. The code was written for a contiguous `sbrk` heap;
  under `mmap`, neighbours in the directory are separate mappings. So a payload of the
  merged size written through the returned pointer can run past the predecessor's mapping,
  and the `munmap` of a merged tail can unmap pages that are not its own. Because the
  address space is not modelled, `Allocator.FreedNeighboursServeTheirSum`,
  `Allocator.FreedBlockIsReused` and `Allocator.CoalesceCoversFree` speak of recorded
  capacity, not of usable memory.
- Pointer arithmetic (`current + 1`, `(MemBlock *)ptr - 1`) is not modelled. A payload
  pointer is its header's address, and `sizeof(MemBlock)` is the LP64 value 24.
- `Allocator.Heap.Free` requires the pointer to name a block in the directory. The source
  does no ownership check, and a foreign pointer is undefined behaviour. A pointer to a
  block that is already free (a double free) is allowed and behaves as in the source.
- Payload bytes are not modelled, except the bytes `my_calloc`'s `memset` writes
  (`Heap.payloads`).
- `Allocator.Heap.Malloc` and `Allocator.Allocate` fail with ENOMEM, before asking the OS, when header + size does not
  fit in a size_t. This is the corrected request; see Findings.
- `HashTable.HashMap.Insert`: the float `max_load_factor` is the ratio 3/4, so the rehash
  test is `4 * total_elements > 3 * bucket_size`.
- `HashTable.HashMap.Rehash`: the source re-inserts through `insert`, which could rehash
  again. The model proves that the load stays within bound during re-insertion, so that
  nested rehash never fires, and it re-inserts through `Place`.
- `HashTable.HashMap.Hash` requires a non-negative key. In C++, `%` of a negative key gives
  a negative bucket index, which is undefined behaviour; the simulators only store page
  numbers.
- `HashTable.HashMap.Least` requires some stored value below INT_MAX. Otherwise the
  source returns a variable it never assigned.
- `HashedTlb.Lru.Access` requires `Evictable(key)`, and so does `HashedTlb.Optimal.Access`.
  A hit erases the page without `size--`, so `size` can report full while the table is
  empty. `add` then calls `least` on an empty table, which returns an unassigned variable.
  `HashedTlb.Optimal.Simulate` stops and reports false at that access.
- `Tlb.Lru.Access` requires `counter < INT_MAX`, and so does `HashedTlb.Lru.Access`. The
  stamp is stored as an `int`, and its overflow after 2^31 accesses is not modelled.
- The `add` methods of every policy require the page not to be resident. The source only
  calls `add` on a miss or right after erasing the page.
- `Tlb.Optimal.constructor` and `Tlb.Optimal.NextAccess` require `|accesses| <= INT_MAX`
  (and so does `Tlb.Optimal`'s `Valid`). `main` reads an unsigned N and may push up to
  UINT_MAX pages; `nextAccess` then returns an unsigned index above INT_MAX as a negative
  `int`. Those longer runs are not modelled, because the stored next use is an `int` here.
- The `hits`, `size` and `counter` fields are unbounded naturals, so the 32-bit wrap of
  the `unsigned int` and `int` counters is not modelled.
- The iteration order of `unordered_map` is unspecified. The eviction scans pick their next
  key nondeterministically, so ties among equal values (for example several INT_MAX next
  uses) go to any of the tied keys.
- `isEmpty` (never called), the destructors, and both `main` functions are not modelled.
  `main` handles `cin` hex parsing, page-number computation and `cout`. The FIFO field
  `front` is kept and set to 0 as in the source, but nothing reads it. The drivers
  `tester.c` and `test.c` are not part of this model.
- The policy constructors (`Tlb.Fifo.constructor`, `Tlb.Lifo.constructor`,
  `Tlb.Lru.constructor`, `Tlb.Optimal.constructor` and the four `HashedTlb` ones) require
  `capacity > 0`, so a TLB size K = 0 read by `main` is excluded. With K = 0 both FIFOs
  compute `% 0`, the hashed LIFO removes `last == -1` and so indexes bucket -1, and the
  hashed LRU and Optimal call `least` on an empty table; all of these are undefined. The
  LIFO, LRU and Optimal classes over `unordered_map` are defined there: `isFull` holds at
  once, `size--` wraps the unsigned counter and `size++` restores 0, so each acts as a
  one-page cache. That behaviour is not modelled, because the counters here are unbounded
  naturals.

## Findings

| source | as written | input that shows it | evidently intended | confidence | as-written member | corrected member |
|---|---|---|---|---|---|---|
| 2021MT10230mmu.h:65 | `total_size = sizeof(MemBlock) + size` wraps modulo 2^64 | `my_malloc(SIZE_MAX)` on a miss maps 23 bytes and records a block of payload SIZE_MAX | a miss whose region size is not representable fails with ENOMEM | not executed | `Allocator.RegionRequestAsWritten`, `Allocator.RequestWrapsAsWritten` | `Allocator.RegionRequest` |
