# Verified model of the hash-indexed associative array and its companions

This project models, and proves properties of, the C code of a Linux-kernel-style hash table library:
the associative array of `assoc_array.c` with the two intrusive list kinds of `list.h` and the hash
functions of `hash.h` under it, the guarded bump allocator that Unity offers for targets without a
heap, and Unity's decimal printer with the reader of its `-r` option.

| file | models |
|---|---|
| `Words.dfy` | machine words, wrap-around, bitwise AND, little-endian reads |
| `Hash.dfy` | `hash.h`: `hash_32`, `hash_64`, `hash_str`, `hash_time33` |
| `Seqs.dfy` | the sequence operations that the lists refine |
| `KList.dfy` | `list.h`: the circular `k_list`, on heap nodes with `next` and `prev` |
| `HList.dfy` | `list.h`: the bucket list `hlist`, with `pprev` as the address of a pointer field |
| `HashTables.dfy` | `hashtable.h`, `hashtable.c`: bucket selection and the table of buckets |
| `ArraySpec.dfy` | what the array computes, as functions of the order list |
| `AssocArray.dfy` | `assoc_array.c`: the array itself, on heap objects |
| `OrderedMap.dfy` | the array as an insertion-ordered map and as a stack per key |
| `ArrayRuns.dfy`, `ArrayLifetime.dfy` | whole runs of the array code, from creation to `array_free` |
| `UnityMemorySpec.dfy` | the layout of the internal heap as a state machine |
| `UnityMemory.dfy` | `unity_memory.c` over the bytes of that heap |
| `UnityOverruns.dfy` | sessions of a client that writes anywhere but into live size fields: which calls report an overrun |
| `UnityMemoryRuns.dfy` | whole sessions of a client with that code: what it writes is what it reads back |
| `Decimal.dfy` | the number printer and the repeat-count reader |

How the parts meet: `HList` and `KList` prove each pointer operation against a sequence operation;
`HashTable` lifts that to all buckets; `AssocArray.Valid` says that every bucket is the chain that
the order list determines, and each operation of the array is proved to keep it and to turn the order
list into `Step(order, op)`. What the repository promises of the array is then proved about `Step`
and `Run`, and `ArrayRuns` carries it back to runs of the pointer code. The allocator is built the same
way: the methods of `UnityHeap` take one `Arena` to the next as `MallocStep`, `ReleaseStep` and
`ReallocStep` say, and say what the bytes of the heap then are. `UnityMemoryRuns` runs them under a client's view of its blocks,
`UnityOverruns` under a client that may write over guards and end markers.

Modelling choices. An entry embeds its two nodes as objects, and `k_container_of` is a field that leads
back. `pprev` is a `Slot` (`HeadSlot` or `NextOf`), so a write through it changes the field it names. The
poison values that deleted nodes get are null links and a `Poison` slot. Allocation outcomes are
parameters. `free_entry` leaves an entry's nodes in an unspecified state, so no proof can rely on a link
of a freed entry. The target is 64-bit and little-endian. Pointers into the internal heap are offsets.

Where the code and its own comments differ, the model follows the code:

- `calc_bkt` is documented to assert that its divisor is a power of two (hashtable.h:67-69); it does not.
  `CalcBktExactly` shows that the mask is a remainder for exactly those divisors, `MaskOfThree` one for which it is not.
- `unity_realloc` says it does not release the old block when it returns NULL (unity_memory.c:198). It does
  when the block would grow in place and the failure countdown stands at zero: `ReallocNullKeepsBlocks` gives the
  exact condition and `ReallocNullLosesBlock` an input.
- `HT_FREE` is documented to fall back to `free` for a NULL callback (hashtable.h:190); it calls the callback.
- `array_get_by_key` compares as many bytes as the query has, not whole keys. `LookupsExactIff` gives the sets
  of keys for which that is a lookup by equality, and `PrefixKeysClash` two keys for which it is not. A run
  needs less: `RunDecided` asks only that no comparison runs past the end of a stored key.
- `unity_malloc` computes its sizes in wrap-around arithmetic. `AcceptsExactly` gives the requests for which the
  bound test means what it says, and `Malloc`, `Calloc` and `Realloc` say of every request whether it wraps around.

## Model

| member | source | states |
|---|---|---|
| Hash.Hash64ShiftAdd | hash.h:38-63 | the shift-and-add branch returns what the multiplying branch returns, for every word and width |
| Hash.MultipliersInjective | hash.h:22-25 | both golden-ratio multipliers are injective modulo their word size |
| Hash.HashRange | hash.h:61-71 | a hash asked for b bits is below 2^b; at full width nothing is shifted away |
| Hash.HashTopBits | hash.h:61-71 | a hash of b bits is the number that the top b bits of the wrapped product with the literal multiplier form |
| Hash.HashStr | hash.h:304-331 | the chunked loop ends after reading every byte once and hashes the sum of its reads; a negative length reads nothing |
| Hash.ChunkSumPositional | hash.h:307-324 | that sum, byte by byte: each byte counts once with a weight fixed by length and position |
| Hash.Hash32StrClosedForm | hash.h:304-335 | hash32_str is 0x9e370001 times the low-half sum modulo 2^32 |
| Hash.Hash64StrClosedForm | hash.h:304-334 | hash64_str is 0x9e37fffffffc0001 times the whole sum of the reads modulo 2^64 |
| Hash.HashStrTopBits | hash.h:326-330 | hash_str of any width is the top bits of the product: of the low-half sum up to 32 bits, of the whole sum above |
| Hash.Hash32StrCollision | hash.h:335 | two strings share a hash32_str value exactly when their low-half sums agree modulo 2^32 |
| Hash.Hash64StrCollision | hash.h:334 | two strings share a hash64_str value exactly when their read sums agree modulo 2^64 |
| Hash.HighHalfIgnored | hash.h:308-312 | changing any of bytes 4..7 of a full 8-byte word leaves hash32_str as it was |
| Hash.HashTime33 | hash.h:259-287 | the eight-fold unrolled loop with its fall-through tail is the simple fold, for every length; 5381 for a negative one |
| Hash.Time33ClosedForm | hash.h:261-273 | the fold is 5381 * 33^n plus the characters times their powers of 33, modulo 2^32 |
| Words.BitAndMask | hashtable.h:75-77 | masking with 2^k - 1 is reduction modulo 2^k |
| HashTables.CalcBktIsRemainder | hashtable.h:75-77 | for 2^bits buckets the bucket is the remainder and in range |
| HashTables.CalcBktExactly | hashtable.h:59-77 | the mask is the remainder for every key if and only if the divisor is a power of two |
| HashTables.MaskOfThree | hashtable.h:75-77 | a key and a divisor for which it is not |
| HashTables.SameBucketOnBothPaths | assoc_array.c:75-76 | lookup through u32 and insertion through a signed int select the same bucket |
| HashTables.SmallTableBucket | hash.h:22-23 | with at most 16 bits the bucket is the plain read sum modulo 2^bits |
| HashTables.HashTable.constructor | hashtable.c:16-29 | a new table has 2^bits distinct, empty buckets |
| HashTables.HashTable.Add | hashtable.h:320-321 | the node becomes the first of its key's bucket; no other chain changes |
| HashTables.HashTable.Del | list.h:635-640 | a node that knows only itself leaves exactly the chain that holds it and is poisoned; order and other chains stay |
| HashTables.HashTable.DelInit | hashtable.h:354-356 | hash_del: the same, but the node is reset and counts as unhashed; an unhashed node is left alone and nothing changes |
| HashTables.HashTable.AddBefore | list.h:660-668 | over the whole table: one chain gains the node right before the given one, the others stay |
| HashTables.HashTable.AddBehind | list.h:670-679 | the same right behind the given one |
| HashTables.HashTable.MoveList | list.h:692-703 | one bucket takes over the chain of another, which is empty then; what it held leaves the table, the others stay |
| HList.SlotPointsBack | list.h:650-658 | in a chain, the pointer that a node's pprev names points at the node |
| HList.HlistUnlink | list.h:625-633 | __hlist_del removes the node and keeps the order of the rest |
| HList.HlistDel | list.h:635-640 | hlist_del removes the node and poisons its fields |
| HList.HlistDelInit | list.h:642-648 | a hashed node is removed and reset, an unhashed one changes nothing |
| HList.HlistAddHead | list.h:650-658 | the chain becomes the node followed by the old chain |
| HList.HlistAddBefore | list.h:660-668 | the node goes in right before the given one, also at the head |
| HList.HlistAddBehind | list.h:670-679 | the node goes in right behind the given one |
| HList.HlistMoveList | list.h:692-703 | the whole chain moves to the new head and the old head is empty; onto itself it is emptied; what the new head held is orphaned and its first node names a head that no longer points at it |
| KList.RingFromMember | list.h:11-18 | the head is one node of the circle: any member may serve as the head of the rest |
| KList.InitListHead | list.h:25-29 | an empty list |
| KList.ListAdd | list.h:38-46 | insertion between two neighbours, at any position |
| KList.KListAdd | list.h:61-64 | the new entry is first |
| KList.KListAddTail | list.h:75-78 | the new entry is last |
| KList.ListDel | list.h:87-91 | bridging over an entry removes exactly it |
| KList.KListDel | list.h:105-110 | the entry leaves and its links are poisoned |
| KList.KListDelInit | list.h:143-147 | the entry leaves and is an empty list of its own |
| KList.KListReplace | list.h:123-130 | the new node takes the old one's place, also for an empty old head |
| KList.KListReplaceInit | list.h:132-137 | and the old node is an empty list |
| KList.KListMove | list.h:154-158 | within one list the entry goes to the front |
| KList.KListMoveTail | list.h:165-170 | within one list the entry goes to the back |
| KList.KListMoveAcross | list.h:154-158 | across two lists the entry leaves one and heads the other; no node is lost |
| KList.KListMoveTailAcross | list.h:165-170 | across two lists the entry leaves one and ends the other |
| KList.RingTests | list.h:187-232 | the two link tests decide whether a list has no entry or exactly one |
| KList.KListRotateLeft | list.h:215-223 | the first entry becomes the last |
| KList.RotateAllTheWay | list.h:215-223 | rotating a list of n entries n times restores it |
| Seqs.RotateFullTurn | list.h:215-223 | n left rotations of a sequence of length n are the identity |
| KList.ListCutPosition | list.h:234-244 | the cut leaves two well-formed lists, the front part and the rest |
| KList.KListCutPosition | list.h:260-272 | the same for every entry or the head itself; an empty head leaves the target untouched |
| KList.CutThenSplice | list.h:246-298 | cutting anywhere into an empty list and splicing back restores the list |
| KList.ListSplice | list.h:274-286 | the entries of one list go in at any gap of another |
| KList.KListSplice | list.h:293-298 | all entries go to the front of the head; the source head keeps its stale links |
| KList.KListSpliceTail | list.h:305-310 | all entries go to the back |
| KList.KListSpliceInit | list.h:319-326 | to the front, and the source is empty |
| KList.KListSpliceTailInit | list.h:336-343 | to the back, and the source is empty |
| KList.ListDelRange | list.h:768-773 | a range leaves the list and stays linked within itself |
| AssocArrays.ArrayCreate | assoc_array.c:42-70 | NULL exactly when one of the three allocations fails; otherwise an empty array |
| ArraySpec.ChainIsReversedFilter | assoc_array.c:107-109 | the chain of a bucket is the reverse of the order list filtered to the bucket |
| ArraySpec.ChainAfterRemoval | assoc_array.c:121-122 | removing an item from the order list removes it from its chain and changes no other chain |
| AssocArrays.AssocArray.IndexFollowsOrder | assoc_array.c:92-133 | in every valid state each bucket's nodes are the reverse of the filtered order list |
| AssocArrays.AssocArray.EntryInOneBucket | assoc_array.c:107-108 | in every valid state an entry is in its key's bucket and in no other |
| AssocArrays.Memcmp | assoc_array.c:85 | the comparison holds exactly for stored keys that start with the query; taken byte by byte up to the first difference, it stays inside the stored key |
| AssocArrays.AssocArray.GetByKey | assoc_array.c:72-90 | the newest entry of the query's bucket whose key starts with the query, NULL if there is none |
| ArraySpec.FirstMatchIsNewest | assoc_array.c:81-89 | the first match of the bucket scan is the newest match of the whole order list, at this place of the chain |
| ArraySpec.ScanDecidedExactly | assoc_array.c:81-89 | the comparisons of a scan stay inside stored bytes if and only if each stored proper prefix of the query stands behind a match |
| ArraySpec.PrefixFreeLookup | assoc_array.c:72-90 | for a prefix-free query it is the newest entry with an equal key and each comparison ends inside the stored bytes |
| ArraySpec.SameSizeKeysPrefixFree | test/test_assoc_array_net_data.c:60-80 | keys of one size are prefix-free |
| ArraySpec.NulTerminatedKeysPrefixFree | test/test_assoc_array.c:130 | NUL-terminated keys with the NUL counted are prefix-free |
| ArraySpec.LookupsExactIff | assoc_array.c:72-90 | lookups over a set of keys are decided and exact if and only if no key extends another one of its bucket |
| ArraySpec.PrefixKeysClash | assoc_array.c:85 | two keys that violate this in a table of any size: one lookup finds the other key, the other reads beyond the stored bytes |
| AssocArrays.AssocArray.Add | assoc_array.c:92-113 | a new entry at the tail of the order and the head of its bucket; a failed allocation changes nothing |
| AssocArrays.AssocArray.Remove | assoc_array.c:121-124 | one entry leaves bucket and list and is freed; everything else stays |
| AssocArrays.AssocArray.Del | assoc_array.c:115-126 | removes and frees the entry that the lookup finds; 1 and no change if there is none |
| AssocArrays.AssocArray.AddReplace | assoc_array.c:128-133 | delete, then add; if the addition fails the key stays removed |
| AssocArrays.AssocArray.GetEnd | assoc_array.c:147-162 | the oldest or newest entry, NULL exactly for an empty array |
| AssocArrays.AssocArray.DelEnd | assoc_array.c:164-191 | removes and frees the oldest or newest entry; -1 exactly for an empty array |
| AssocArrays.AssocArray.CollisionPercentage | assoc_array.c:193-216 | the nested count gives 0 for an empty array and otherwise the collision share of the order list |
| ArraySpec.CollisionsTotal | assoc_array.c:199-213 | the collisions are the entries minus the occupied buckets, of which there is at least one |
| ArraySpec.NonEmptyBuckets | assoc_array.c:199-213 | the occupied buckets are as many as the different buckets of the stored keys |
| ArraySpec.CollisionPercentBounds | assoc_array.c:215 | the share lies in 0..99 and is at least what the pigeonhole principle forces |
| AssocArrays.AssocArray.Free | assoc_array.c:135-145 | every bucket ends empty; exactly the listed entries are freed, in ascending order of their buckets and within a bucket from the newest to the oldest |
| ArraySpec.WalkTornDown | hashtable.h:389-392 | the walk over the buckets never goes back to a lower bucket, and within one it goes from newer to older places of the order list |
| AssocArrays.AssocArray.FreeBucket | list.h:756-759 | the safe iteration frees one bucket front to back and leaves the other buckets alone |
| AssocArrays.AssocArray.FreeFirst | hashtable.h:120-129 | the next link is read before the entry is unhashed and freed |
| ArraySpec.WalkIsPermutation | hashtable.h:389-392 | walking all buckets meets every listed entry exactly as often as the list holds it |
| AssocArrays.AddThenDelRestores | assoc_array.c:92-126 | from any valid state adding a key and deleting it restores list, chains and size |
| OrderedMaps.AddThenDel | assoc_array.c:92-126 | the same of the order list, for every key and state |
| OrderedMaps.AddsThenDels | assoc_array.c:92-126 | any additions, duplicates included, are undone by the matching deletes in reverse |
| OrderedMaps.DeletedNewest | assoc_array.c:115-126 | over keys that do not clash a delete removes exactly the newest duplicate, wherever it stands |
| OrderedMaps.TopOfPile | assoc_array.c:72-126 | over such keys a lookup finds the top of the key's stack, and a delete pops it and leaves the other stacks alone |
| OrderedMaps.RunIsStackPerKey | assoc_array.c:92-191 | over any interleaving of calls the entries of a key are the stack that the calls on this key build |
| OrderedMaps.DeletedIsRemoved | assoc_array.c:115-126 | with unique keys a delete is removal from the map |
| OrderedMaps.StepRefines | assoc_array.c:115-191 | each replacement and delete, failing ones included, is that operation on the insertion-ordered map |
| OrderedMaps.RunRefines | assoc_array.c:115-191 | over every run the array is the map that the run builds and its keys stay unique |
| OrderedMaps.ListIsWriteOrder | assoc_array.c:128-162 | over every run the list is sorted by last write and holds the last values written |
| ArrayRuns.Perform | assoc_array.c:92-191 | one call on the pointer structures whose lookup is decided inside stored bytes changes the list and frees entries as specified |
| ArrayRuns.PerformAll | assoc_array.c:92-191 | any run on the pointer structures whose lookups are decided, clashing keys or not, ends in the list that the specification computes |
| ArrayRuns.ClashFreeRun | assoc_array.c:92-191 | every run over keys that do not clash is such a run |
| ArrayRuns.LookupAfterRun | assoc_array.c:72-133 | create, any map run, look up: found exactly when the map has the key, with the map's value |
| ArrayRuns.LookupAfterAnyRun | assoc_array.c:72-191 | create, any run with additions, look up: the top of the stack that the calls on the key built, NULL exactly when it is empty |
| ArrayRuns.EndsAfterRun | assoc_array.c:128-162 | create, any map run: the first entry is the least and the last entry the most recently written key present |
| ArrayLifetime.PerformOnce | assoc_array.c:92-191 | one call adds to the listed and freed entries exactly the new entry of a successful addition, with its key and data |
| ArrayLifetime.RunAccounted | assoc_array.c:92-191 | over every run the listed and freed entries gain exactly the added keys and data, and no entry stands there twice |
| ArrayLifetime.Lifetime | assoc_array.c:42-191 | from creation through any run to array_free: the keys and data freed are those added, as multisets; no entry is freed twice; all 2^bits heads of the table are NULL |
| UnityMemorySpec.TotalSizeResidue | unity/extras/memory/src/unity_memory.c:58-73 | the computed block size is the needed one modulo 2^64 |
| UnityMemorySpec.ExtentLeast | unity/extras/memory/src/unity_memory.c:58-73 | the needed size is the least multiple of 8 that holds guard, data and end marker |
| UnityMemorySpec.AcceptsExactly | unity/extras/memory/src/unity_memory.c:84 | the bound test is right if and only if the request does not wrap around into the heap |
| UnityMemorySpec.LargestRequestWraps | unity/extras/memory/src/unity_memory.c:73-84 | a request for which it is wrong |
| UnityMemorySpec.TiledLayout | unity/extras/memory/src/unity_memory.c:84-102 | blocks with their guards are aligned, disjoint and below heap_index; only the topmost one ends there |
| UnityMemorySpec.MallocKeepsInv | unity/extras/memory/src/unity_memory.c:67-105 | an allocation keeps the invariant if and only if its request does not wrap around; it hands out no byte of an existing block |
| UnityMemorySpec.WrapCases | unity/extras/memory/src/unity_memory.c:73-91 | a request wraps around exactly when the bound test is reached, lets it pass and the block does not fit |
| UnityMemorySpec.MallocObserved | unity/extras/memory/src/unity_memory.c:67-105 | an address is returned exactly when no failure is forced, the size is not 0 and the block fits; it is the old top; NULL changes neither blocks nor count |
| UnityMemorySpec.ReleaseObserved | unity/extras/memory/src/unity_memory.c:116-136 | one live block fewer, every other block as it was; the top sinks to the base of the topmost block and otherwise stays |
| UnityMemorySpec.ReallocObserved | unity/extras/memory/src/unity_memory.c:163-202 | size 0 releases; within the recorded size nothing changes; the topmost block grows in place and any other moves to the top as long as there is room; otherwise NULL, with the blocks that remain |
| UnityMemorySpec.ReleaseKeepsInv | unity/extras/memory/src/unity_memory.c:116-136 | a release keeps the invariant and lowers the top exactly for the topmost block |
| UnityMemorySpec.ReallocKeepsInv | unity/extras/memory/src/unity_memory.c:163-202 | a reallocation keeps the invariant if and only if its allocation does not wrap around |
| UnityMemorySpec.RunKeepsInv | unity/extras/memory/src/unity_memory.c:67-202 | with the bound test of the code: in every state of a run the blocks tile [0, heap_index), it stays within the heap, and malloc_count counts live blocks, if and only if no request of the run wraps around |
| UnityMemorySpec.DeadStaysPut | unity/extras/memory/src/unity_memory.h:19-22 | a block freed out of LIFO order is stranded: it keeps its place in every later state and the top never sinks below it |
| UnityMemorySpec.TopmostReclaimed | unity/extras/memory/src/unity_memory.c:126-129 | over every run, freeing the topmost block takes the top back to its base |
| UnityMemorySpec.FailsAfterCount | unity/extras/memory/src/unity_memory.c:30-80 | after a request to fail after n calls, n calls are served as usual and every later one fails |
| UnityMemorySpec.RunFailsAfterCount | unity/extras/memory/src/unity_memory.c:30-202 | the same over every run with releases and reallocations in between: n calls of unity_malloc are served, every later one fails until the next request |
| UnityMemorySpec.RequestFailsAfterCount | unity/extras/memory/src/unity_memory.c:30-202 | from the request itself: after FailAfter(n) anywhere in a run the countdown is n, n calls of unity_malloc are served and every later one fails until the next request |
| UnityMemorySpec.NestedUseRestores | unity/extras/memory/src/unity_memory.c:116-136 | every properly nested use of the heap returns it to its earlier layout |
| UnityMemorySpec.ReallocSameAddress | unity/extras/memory/src/unity_memory.c:183-194 | shrinking, and growing the topmost block while it fits, return the same address |
| UnityMemorySpec.ReallocNullKeepsBlocks | unity/extras/memory/src/unity_memory.c:185-198 | a NULL result for a non-zero size leaves all blocks as they were if and only if it is not an in-place growth with the countdown at zero |
| UnityMemorySpec.ReallocNullLosesBlock | unity/extras/memory/src/unity_memory.c:185-198 | an input for which NULL is returned and the old block is gone |
| UnityMemory.StampedIntact | unity/extras/memory/src/unity_memory.c:99-102 | a new block's guard records its size and its markers are intact |
| UnityMemory.UnityHeap.Malloc | unity/extras/memory/src/unity_memory.c:67-105 | every request: whether it wraps around into the heap; if not, it is served exactly when no failure is forced, the size is not 0 and the block fits; only guard and end marker of the new block are written |
| UnityMemory.UnityHeap.IsOverrun | unity/extras/memory/src/unity_memory.c:107-114 | true exactly when the guard space or one of the four end marker bytes has been changed |
| UnityMemory.UnityHeap.ReleaseMemory | unity/extras/memory/src/unity_memory.c:116-136 | the topmost block is reclaimed, any other one stranded; no byte is written |
| UnityMemory.UnityHeap.Free | unity/extras/memory/src/unity_memory.c:138-153 | NULL does nothing; otherwise one live block fewer is counted, the topmost one is reclaimed, and the test fails exactly on an overrun |
| UnityMemory.UnityHeap.Calloc | unity/extras/memory/src/unity_memory.c:155-161 | the same for the wrapped product of its arguments; the new block is all zero and no other byte changes |
| UnityMemory.UnityHeap.Realloc | unity/extras/memory/src/unity_memory.c:163-202 | every size: whether its allocation wraps around; if not, layout and bytes as specified: the result is intact and keeps the first min(old, new) bytes, every other block its bytes; overrun and NULL cases included |
| UnityMemory.RewrittenPreserves | unity/extras/memory/src/unity_memory.c:183-201 | the bytes that any of the ways through a reallocation writes leave the result intact and carry over what fits |
| UnityMemory.UnityHeap.ClientWrite | unity/extras/memory/src/unity_memory.c:49-53 | a client write that spares the size fields of live blocks keeps the heap valid |
| UnityMemory.UnityHeap.MakeMallocFailAfterCount | unity/extras/memory/src/unity_memory.c:30-33 | only the countdown changes, to the given count |
| UnityMemory.UnityHeap.StartTest | unity/extras/memory/src/unity_memory.c:15-19 | the counter restarts from the blocks then in use |
| UnityMemory.UnityHeap.EndTest | unity/extras/memory/src/unity_memory.c:21-28 | a leak is reported exactly when the number of live blocks differs from the number at the start |
| UnityMemoryRuns.WrittenStays | unity/extras/memory/src/unity_memory.c:67-202 | over every session a byte that the client wrote stays known until the client writes it again or hands the block back |
| UnityMemoryRuns.ReallocFollows | unity/extras/memory/src/unity_memory.c:183-201 | a reallocation that returns an address takes what is known of the block to the block at that address |
| UnityMemoryRuns.WrittenFollows | unity/extras/memory/src/unity_memory.c:67-202 | over every session a written byte stays known through every resizing and move of its block, at the address returned last |
| UnityMemoryRuns.ResizedHolds | unity/extras/memory/src/unity_memory.c:163-202 | after a reallocation the heap holds what the client then knows, wherever the block went and also for NULL |
| UnityMemoryRuns.ServeAll | unity/extras/memory/src/unity_memory.c:67-202 | over every session on the byte-level code no call reports an overrun, and each held block is intact and holds its known bytes |
| UnityMemoryRuns.PerformRun | unity/extras/memory/src/unity_memory.c:30-202 | the code performs every run of the layout machine without wrapping requests, from any layout with intact blocks: same states, same results |
| UnityMemoryRuns.TestRun | unity/extras/memory/src/unity_memory.c:15-202 | from program start: the last value written to a byte is read back at the address returned last, however often the block was resized or moved; a leak is reported exactly when a block is still held |
| UnityOverruns.OperateAll | unity/extras/memory/src/unity_memory.c:107-202 | over every history of calls and writes anywhere outside live size fields, the code takes the heap through its states byte by byte and reports exactly the blocks handed back with a changed guard space or end marker |
| UnityOverruns.BytesFollowPokes | unity/extras/memory/src/unity_memory.c:67-202 | over every history a byte of a block in use, guard and end marker included, changes by the client's writes only |
| UnityOverruns.ReportedExactly | unity/extras/memory/src/unity_memory.c:107-171 | handing back a block reports an overrun if and only if the writes since it was intact left a byte of its markers other than it was |
| UnityOverruns.DamagedByChange | unity/extras/memory/src/unity_memory.c:107-114 | each of the twelve marker bytes counts |
| UnityOverruns.FreshIntact | unity/extras/memory/src/unity_memory.c:97-104 | a block just handed out is intact |
| Words.Le64Bytes64 | unity/extras/memory/src/unity_memory.c:99-100 | a stored 64-bit word reads back unchanged |
| Decimal.PrintNumberUnsigned | unity/src/unity.c:256-272 | prints the canonical numeral of every 64-bit value and the divisor never overflows |
| Decimal.PrintNumber | unity/src/unity.c:241-252 | a sign and the numeral of the magnitude, the least value included |
| Decimal.ReadRepeatCount | unity/extras/fixture/src/unity_fixture.c:256-273 | the value of the leading digits modulo 2^32, or 2 without a leading digit |
| Decimal.ValueOfNumeral | unity/src/unity.c:256-272 | a printed numeral denotes its number |
| Decimal.NumeralOfValue | unity/extras/fixture/src/unity_fixture.c:264-271 | a digit string without superfluous leading zero is the numeral of its value |
| Decimal.PrintedThenRead | unity/extras/fixture/src/unity_fixture.c:264-271 | reading a printed number recovers it if and only if it is below 2^32 |

## Left out

- AssocArrays.AssocArray.GetByKey: requires that no stored key met before the match is a proper prefix of the query, since `memcmp` would read beyond that key; `LookupsExactIff` says for which keys this always holds.
- AssocArrays.Memcmp: stopping at the first difference is a choice of this model. A C library may compare the bytes in any order; then a stored key shorter than the query is over-read even where the difference comes early, NUL-terminated keys included, and only stored keys at least as long as the query rule that out.
- AssocArrays.ArrayCreate: bits are at most 30, because `1 << bits` is computed as an `int` and is undefined beyond.
- ArrayRuns.PerformAll: each delete by key meets no proper prefix of its key before the match, for the reason given for lookups; runs that add and delete at the ends are unrestricted.
- ArrayRuns.Perform: the same of its one call.
- ArrayLifetime.RunAccounted: the same of its calls.
- ArrayLifetime.Lifetime: the same of its calls.
- UnityMemory.UnityHeap.Malloc: says exactly which requests wrap around into the heap and nothing of the heap after one; there the C code writes outside its block.
- UnityMemory.UnityHeap.Calloc: the same.
- UnityMemory.UnityHeap.Realloc: the same; it also requires an intact size field in the guard of the block.
- UnityMemory.UnityHeap.Free: an overrun of a lower block into the size field of a guard is not modelled; the size fields of live blocks are assumed kept.
- UnityMemoryRuns.ServeAll: the client writes only into the data of blocks that it holds, and no request wraps around into the heap; `UnityOverruns.OperateAll` is for clients that write elsewhere.
- UnityOverruns.OperateAll: no write into the size field of a block in use, and no request that wraps around.
- NULL array arguments: each function returns a constant for them.
- Custom `fill_entry` and `free_entry` callbacks, and a caller's key that aliases a stored one.
- `size_t` wrap-around of `arr->size` and of the collision product, which no memory can reach.
- Releasing the bucket array, the table and the array object after `array_free` has emptied them.
- `leak_detector_c.c`: mostly file output, with loops that skip entries.
- `deque.c`, `deque.h`: thin wrappers over the list operations.
- `log2.h`, `hash_jenkins`, `hash_fnv`, `hash_ptr`: no specification sharper than their code.
- The saved-pointer store of `unity_fixture.c`, and the hash-table counting and emptiness macros: they would add only easy members.
- Unity's assertions, floating-point printing, test running and console output; the scripts; `main.c`.
- `READ_ONCE`/`WRITE_ONCE` ordering: plain reads and writes.
