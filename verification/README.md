# Verified models of AK containers, algorithms and parsers

This Dafny project models the hardest parts of AK, a C++ base library, and proves what they are for. Each module follows one
header: its classes are classes here, its in-place loops are loops with invariants over arrays, nodes or fields, and each is
proved against a specification that is stated apart from it.

* `HashFunctions`, `Probing`, `HashTables`: the unordered open-addressing hash table. A ghost finite map is the abstraction. The
  central invariant is that every bucket earlier on the probe chain of an element is non-free. Rehashing in place breaks it and
  restores it bucket by bucket, and a re-allocating rehash may nest further rehashes. A key and an equality on keys stand for
  `TraitsForT::equals`; the allocator's good size is any function that returns at least its argument.
* `RedBlackShape`, `RedBlackHeap`, `RedBlackRelink`, `RedBlackRemoval`, `RedBlackTrees`, `RedBlackRuns`: the red-black tree on
  real nodes with parent pointers, related to an abstract tree by a zipper. Removal relinks nodes instead of copying keys. Equal
  keys are allowed, so that contents are a multiset. Keys are mathematical integers.
* `UFixedBigInts`, `UFixedBigIntAlgorithms`: two-limb numbers whose limb may itself be two-limb, nested to any depth `d`, with
  64-bit words at depth 0. Every result is compared with the number it stands for.
* `ByteStrings`, `MemMem`: substring search over chunks by Knuth-Morris-Pratt, the 32-bit shift-or search, and the dispatcher, all
  against naive first occurrence. The 32-bit words are lists of bits.
* `WeakLinks`: the weak-pointer revocation protocol as a state machine in which every atomic operation is a step of one of any
  number of threads, under sequential consistency; `try_ref`, `ref` and `unref` are atomic.
* `QuickSorts`: the two quicksorts, in place, for any strict weak order.
* `MemoryStreams`, `BitStreams`: the chunked byte queue as a FIFO, and the bit packer and unpacker.
* `Urls`, `UrlTexts`, `UrlParsers`: texts, characters and numbers in URLs, and the URL parser's loop over 21 states, with
  re-dispatch, its two rewinds, and its assertions. The percent coding helpers are arbitrary functions.
* `UrlMeaning`, `UrlAuthorities`, `UrlPorts`, `UrlFileMeaning`, `UrlOpaquePaths`, `UrlReferences`: what comes out for URLs and
  references that are written out from their parts. `UrlDotSegments` and `UrlBackslashes` say what dot segments and backslashes
  mean, `UrlPrefixes` what becomes of a URL with the scheme of its base, and `UrlFiles` has the exact inputs at which the parser
  halts or skips a part of a file URL.
* `Globs`: the glob matcher and the spans it reports.
* `CommonTypes`, `Powers`: bytes, optional values and powers of two, shared by the others.

Where the source does not compile as it stands, the evident intent is modelled, and a comment at the member says so:
`AK/RedBlackTree.h` line 171 (`unclde`), line 228 (`rotate_right` for `right_child`) and line 295 (`node -> parent;` for
`node = parent;`), `AK/MemoryStream.h` lines 142 and 182 (`n_write_offset`), `AK/MemMem.h` lines 17 to 19 (repeated).

Where the code does something other than its comments or the standard it cites, the code is followed:

* `AK/URLParser.cpp` lines 424 to 442 run over a builder created in the line before, so that user names and passwords are never
  stored (`UrlAuthorities.WrittenIsParsed`, `UrlParsers.ResolvedIsGood`).
* `AK/URLParser.cpp` lines 641 to 650 leave the path in the buffer, so that it reappears in the query, or else in the fragment
  (`UrlOpaquePaths.OpaqueIsParsed`, `UrlOpaquePaths.TakenAsWrittenExactly`).
* `AK/URLParser.cpp` lines 513 to 544 stay in the File state where section 4.4 of the URL Standard goes on to the path, and lines
  545 to 558 stay in FileSlash, so that without a file base everything up to the second slash is lost
  (`UrlFiles.FileIsReadAfterTwoSlashes`, `UrlFiles.FileTextIsLost`, `UrlFiles.FileFolderIsLost`).
* `AK/URLParser.cpp` line 553 takes the first path segment of a file base URL that may have none, and line 54 stops at every
  bracketed host of a file URL (`UrlFiles.HaltsExactly`).
* `AK/URLParser.cpp` lines 482 to 487 drop the brackets about any other host before it is parsed, so that `http://[ab]/` is accepted
  and no address with colons is (`UrlAuthorities.BracketsMatterExactly`, `UrlAuthorities.BracketExamples`).
* `AK/URLParser.cpp` lines 78 to 87 accept a drive letter if either of its two characters is right, so that a relative reference
  such as `ab` loses the folder of a file base, and one such as `/ab` its drive letter (`UrlFileMeaning.FolderIsKeptExactly`,
  `UrlFileMeaning.DriveIsKeptExactly`, `UrlFileMeaning.TwoLettersLoseTheFolder`).
* `AK/MemMem.h` lines 12 to 39 answer an empty needle with offset 1; the dispatcher never asks.

## Model

| member | source | states |
|---|---|---|
| `HashFunctions.DoubleHashFollowsXorShift` | AK/HashFunctions.h:15-26 | every step of the underlying xorshift is one or two steps of `double_hash` |
| `HashFunctions.DoubleHashSingleOrbit` | AK/HashFunctions.h:15-26 | if the xorshift permutes the non-zero hashes in one cycle, `double_hash` reaches every hash from every hash, 0 included |
| `HashFunctions.OrbitVisitsEveryBucket` | AK/HasTable.h:644-654 | single-orbit probing from any hash visits every bucket of a table of at most 2^32 buckets |
| `HashFunctions.LargeTablesAreNotCovered` | AK/HasTable.h:644-654 | in a larger table no probe ever comes to the buckets from 2^32 on |
| `Probing.FreeBucketExists` | AK/HasTable.h:688-689 | below the load factor some bucket is free |
| `HashTables.HashTable.ProbingEnds` | AK/HasTable.h:657-689 | in every reachable table with buckets each probe path comes to a free bucket, so both probe loops end |
| `Probing.HoldsDetermines` | AK/HasTable.h:492-502 | two maps held by the same buckets are equal: moving all elements loses and duplicates none |
| `Probing.Insertion` | AK/HasTable.h:313-316 | writing to the first reusable bucket of a probe path keeps every chain non-free and adds exactly one element |
| `Probing.Replacement` | AK/HasTable.h:306-311 | overwriting an equal element keeps all chains and changes only that element |
| `Probing.Deletion` | AK/HasTable.h:691-694 | a tombstone keeps every other chain intact and takes out exactly one element |
| `Probing.ProbeAbsent` | AK/HasTable.h:650-651 | coming to a free bucket on the probe path of a key proves that it is not in the table |
| `Probing.SweepTombstone` | AK/HasTable.h:524-527 | freeing a tombstone during the in-place rehash keeps all settled elements reachable |
| `Probing.SettleHere` | AK/HasTable.h:545-548 | an element whose probing arrives at its own bucket is settled there |
| `Probing.MoveToFree` | AK/HasTable.h:550-554 | moving an element to a free target settles it and empties its bucket; contents stay |
| `Probing.SwapWithUsed` | AK/HasTable.h:573-580 | swapping with an element not rehashed settles the moved one; contents stay and fewer buckets are unsettled |
| `Probing.FinishRehash` | AK/HasTable.h:623-628 | when only free and rehashed buckets are left, marking them used gives a table with the same contents, all chains intact and no tombstone |
| `HashTables.HashTable.RehashBucket` | AK/HasTable.h:529-620 | the moving bucket, exchanged any number of times, ends free or settled; contents stay, and finished buckets stay finished |
| `HashTables.HashTable.RehashEveryBucket` | AK/HasTable.h:517-621 | after the first loop every bucket is free or rehashed |
| `HashTables.HashTable.RestoreUsedStates` | AK/HasTable.h:623-626 | rehashed buckets become used, all others stay |
| `HashTables.HashTable.RehashInPlace` | AK/HasTable.h:508-629 | terminates, keeps exactly the same elements, leaves no tombstone or rehashed bucket, and every element is found by probing again |
| `HashTables.HashTable.RehashInPlaceIfNeeded` | AK/HasTable.h:631-636 | rehashes exactly a thrashed table, which comes out with the same contents and no tombstone, and leaves any other as it is |
| `HashTables.HashTable.LookupWithHash` | AK/HasTable.h:639-655 | returns a used bucket with the key exactly if the key is in the table |
| `HashTables.HashTable.Find` | AK/HasTable.h:343-346 | answers membership exactly, with the stored element |
| `HashTables.HashTable.ProbeForWriting` | AK/HasTable.h:664-681 | returns the bucket of the key, or else the first reusable bucket on its probe path |
| `HashTables.HashTable.LookupForWriting` | AK/HasTable.h:657-682 | the same after growing if the load demands it; contents stay |
| `HashTables.HashTable.Allocate` | AK/HasTable.h:471-490 | an empty table of the granted capacity, closed by an End bucket |
| `HashTables.HashTable.InsertDuringRehash` | AK/HasTable.h:438-453 | adds exactly the element, also when it sets off another rehash |
| `HashTables.HashTable.MoveElements` | AK/HasTable.h:495-498 | all elements of the old buckets arrive, into the newest array if moving nests a rehash |
| `HashTables.HashTable.TryRehash` | AK/HasTable.h:464-502 | same elements, no tombstones, at least the capacity asked for |
| `HashTables.HashTable.TrySet` | AK/HasTable.h:303-330 | a new key, or any under Replace, gets exactly this element, an existing key under Keep stays, and the result says which; nothing else changes |
| `HashTables.HashTable.DeleteBucket` | AK/HasTable.h:691-694 | the bucket becomes a tombstone and exactly its element leaves |
| `HashTables.HashTable.RemoveAt` | AK/HasTable.h:405-416 | removes exactly the element of the bucket, with `m_size` and `m_deleted_count` still counting their buckets |
| `HashTables.HashTable.Remove` | AK/HasTable.h:384-392 | removes the key if it is there, and says whether it was |
| `HashTables.HashTable.RemoveAllMatching` | AK/HasTable.h:419-435 | key by key, keeps exactly the elements that do not match, and counts the others |
| `HashTables.HashTable.EnsureCapacity` | AK/HasTable.h:223-227 | same contents, twice the capacity asked for |
| `HashTables.Run` | AK/HasTable.h:303-502 | any run of set, remove, remove-all-matching and capacity changes refines the same run on a finite map |
| `HashTables.LastSetIsFound` | AK/HasTable.h:303-435 | after any run, looking back from its end: under a key is what the last `set` put there that is not undone, one that keeps only counting if nothing was there |
| `RedBlackTrees.BaseRedBlackTree.RotateLeft` | AK/RedBlackTree.h:40-64 | the links afterwards are those of the left-rotated tree in the same context |
| `RedBlackTrees.BaseRedBlackTree.RotateRight` | AK/RedBlackTree.h:66-90 | the mirror image |
| `RedBlackShape.RotatedInOrder` | AK/RedBlackTree.h:40-90 | rotations keep the order of the nodes |
| `RedBlackHeap.RotateLeftAt` | AK/RedBlackTree.h:46-63 | six link writes turn the heap of a tree into that of its rotation |
| `RedBlackTrees.BaseRedBlackTree.Find` | AK/RedBlackTree.h:92-101 | a node with the key, or none exactly if no node has it |
| `RedBlackTrees.BaseRedBlackTree.FindLargestNotAbove` | AK/RedBlackTree.h:103-116 | a node whose key is the largest up to the given one |
| `RedBlackTrees.BaseRedBlackTree.FindSmallestNotBelow` | AK/RedBlackTree.h:118-131 | a node whose key is the smallest from the given one on |
| `RedBlackShape.InsertedBetween` | AK/RedBlackTree.h:137-156 | a node put where the descent ends stands behind all nodes with the same or a smaller key |
| `RedBlackTrees.BaseRedBlackTree.FindHole` | AK/RedBlackTree.h:135-143 | the descent ends at a leaf with all not larger keys before it and all larger ones after it |
| `RedBlackTrees.BaseRedBlackTree.FixupLeft` | AK/RedBlackTree.h:187-202 | one turn keeps order and black heights and leaves at most one red-red pair, nearer to the root |
| `RedBlackTrees.BaseRedBlackTree.FixupRight` | AK/RedBlackTree.h:170-185 | the mirror image |
| `RedBlackTrees.BaseRedBlackTree.InsertFixups` | AK/RedBlackTree.h:166-205 | restores colouring and equal black heights, with the order unchanged |
| `RedBlackHeap.MinimumTest` | AK/RedBlackTree.h:162-163 | `m_minimum -> left_child == node` after the fixups holds exactly if the new node is the first |
| `RedBlackTrees.BaseRedBlackTree.Insert` | AK/RedBlackTree.h:133-164 | adds exactly the node, in order; colouring, black heights, links, size and leftmost minimum hold again |
| `RedBlackRelink.TradedIsRenamed` | AK/RedBlackTree.h:223-263 | the relinking statements, for adjacent and distant successors, amount to exchanging the two nodes' names |
| `RedBlackRelink.RenamedOrder` | AK/RedBlackTree.h:223-263 | exchanging a node with its successor moves it by one place and changes the order of no others |
| `RedBlackTrees.BaseRedBlackTree.RelinkWithSuccessor` | AK/RedBlackTree.h:223-263 | the heap after the relinking is that of the tree with the two nodes exchanged |
| `RedBlackTrees.BaseRedBlackTree.MoveToSuccessor` | AK/RedBlackTree.h:223-263 | after it the node to remove has at most one child, in the same tree otherwise |
| `RedBlackTrees.BaseRedBlackTree.Detach` | AK/RedBlackTree.h:264-275 | the child takes the node's place |
| `RedBlackRemoval.RedSiblingKeeps` | AK/RedBlackTree.h:287-292 | the red-sibling case keeps the deficiency and makes the sibling black |
| `RedBlackRemoval.PaintedUpKeeps` | AK/RedBlackTree.h:293-295 | the two-black-nephews case moves the deficiency to the parent |
| `RedBlackRemoval.TurnedKeeps` | AK/RedBlackTree.h:297-302 | the near-red-nephew case turns it into the far one |
| `RedBlackRemoval.SettledFits` | AK/RedBlackTree.h:303-307 | the far-red-nephew case repairs the deficiency |
| `RedBlackTrees.BaseRedBlackTree.RemoveFixups` | AK/RedBlackTree.h:283-337 | from a tree one black short below the node, a red-black tree with the same order |
| `RedBlackTrees.BaseRedBlackTree.TakeOut` | AK/RedBlackTree.h:264-279 | takes out a node with at most one child and repairs the colours |
| `RedBlackTrees.BaseRedBlackTree.Remove` | AK/RedBlackTree.h:207-280 | removes exactly the node; order, colouring, black heights, links, size and leftmost minimum hold again |
| `RedBlackTrees.BaseRedBlackTree.Successor` | AK/RedBlackTree.h:339-353 | the next node in key order, or null |
| `RedBlackTrees.BaseRedBlackTree.Predecessor` | AK/RedBlackTree.h:355-369 | the previous node in key order, or null |
| `RedBlackShape.PlugInOrder` | AK/RedBlackTree.h:21-35 | the order of a whole tree is that of its parts before, in and after any subtree |
| `RedBlackShape.PlugFits` | AK/RedBlackTree.h:21-35 | a subtree of the right black height and colour makes the whole a red-black tree |
| `RedBlackShape.HeightBound` | AK/RedBlackTree.h:133-205 | a red-black tree of n nodes has height at most 2*log2(n+1) |
| `RedBlackRuns.TreeHeight` | AK/RedBlackTree.h:371-373 | the same for every valid tree in the heap and its `m_size` |
| `RedBlackRuns.InsertKey` | AK/RedBlackTree.h:453-459 | one more key in the multiset |
| `RedBlackRuns.RemoveKey` | AK/RedBlackTree.h:503-513 | one key less if it is there, and says whether it was |
| `RedBlackRuns.RedBlackTreeIterator.Increment` | AK/RedBlackTree.h:381-390 | goes to the next node in order and remembers the last |
| `RedBlackRuns.RedBlackTreeIterator.Decrement` | AK/RedBlackTree.h:392-398 | goes back to the remembered node |
| `RedBlackRuns.RedBlackTreeIterator.StepForthAndBack` | AK/RedBlackTree.h:381-398 | returns to the node always, and to the whole position exactly if the iterator knew the predecessor |
| `RedBlackRuns.Traverse` | AK/RedBlackTree.h:467-468 | iterating from begin to end visits every node once, in key order |
| `RedBlackRuns.Run` | AK/RedBlackTree.h:133-337 | any run of insertions and removals keeps a valid tree with exactly the keys of the multiset |
| `UFixedBigInts.Comparisons` | AK/UFixedBigInt.h:167-192 | the limb-wise comparisons compare the numbers |
| `UFixedBigInts.AddCExact` | AK/UFixedBigInt.h:352-382 | sum plus carry out times the base is the sum of both numbers and the carry in, at every width |
| `UFixedBigInts.SubCSmallExact` | AK/UFixedBigInt.h:390-401 | difference and borrow of a smaller value are exact |
| `UFixedBigInts.SubCExact` | AK/UFixedBigInt.h:402-412 | difference and borrow of equal widths are exact, at every width |
| `UFixedBigInts.MinusExact` | AK/UFixedBigInt.h:432-437 | the difference modulo the base, with a borrow exactly if the subtrahend is larger |
| `UFixedBigInts.OrVal` | AK/UFixedBigInt.h:255-258 | or on limbs is or on the numbers |
| `UFixedBigInts.OrSmallVal` | AK/UFixedBigInt.h:204-208 | or with a smaller value is or on the numbers |
| `UFixedBigInts.LowBitVal` | AK/UFixedBigInt.h:199-203 | `& 1u` is the parity of the number |
| `UFixedBigInts.ShlVal` | AK/UFixedBigInt.h:214-226 | `<<` keeps exactly the bits that fit, at every width and for every shift below it |
| `UFixedBigInts.ShrVal` | AK/UFixedBigInt.h:227-239 | `>>` divides by the power of two, at every width and for every shift |
| `UFixedBigIntAlgorithms.ClzVal` | AK/UFixedBigInt.h:90-103 | `clz` locates the highest set bit of every number that has one |
| `UFixedBigIntAlgorithms.ShiftedIn` | AK/UFixedBigInt.h:512-513 | shifting the remainder and setting the next bit loses nothing if the result fits |
| `UFixedBigIntAlgorithms.BitSet` | AK/UFixedBigInt.h:516-516 | setting a bit below all set bits of the quotient adds its value |
| `UFixedBigIntAlgorithms.DividedStep` | AK/UFixedBigInt.h:511-518 | the doubled remainder never exceeds the dividend, however large the divisor, and the step divides one bit more |
| `UFixedBigIntAlgorithms.DivideStep` | AK/UFixedBigInt.h:511-518 | the limbs the loop computes are those of the step on numbers |
| `UFixedBigIntAlgorithms.DivideWithRemainder` | AK/UFixedBigInt.h:480-521 | dividend = quotient * divisor + remainder with remainder < divisor |
| `UFixedBigIntAlgorithms.MultiplyStep` | AK/UFixedBigInt.h:528-532 | a shift-and-add step keeps the product up to multiples of the base |
| `UFixedBigIntAlgorithms.Multiply` | AK/UFixedBigInt.h:523-534 | the product modulo the base |
| `UFixedBigIntAlgorithms.PortableIsNative` | AK/UFixedBigInt.h:539-564 | the portable 32-bit path gives the words of the 128-bit product, and none of its sums wraps |
| `UFixedBigIntAlgorithms.WideMultiplyExact` | AK/UFixedBigInt.h:536-600 | the double-width product is exact on both paths at every width, and none of its sums wraps |
| `UFixedBigIntAlgorithms.RootStep` | AK/UFixedBigInt.h:651-654 | from the root of the number without its last two bits to that of the number with them |
| `UFixedBigIntAlgorithms.SqrtStep` | AK/UFixedBigInt.h:650-656 | the limbs of a step are those of the step on numbers, and squaring the candidate never wraps |
| `UFixedBigIntAlgorithms.RootUnique` | AK/UFixedBigInt.h:635-658 | a number has one rounded-down root |
| `UFixedBigIntAlgorithms.Sqrt` | AK/UFixedBigInt.h:635-658 | the square root rounded down |
| `ByteStrings.FirstIsNaive` | AK/MemMem.h:98-128 | an offset is the first match, or there is none, exactly if trying every offset in turn finds it so |
| `MemMem.SameByteFailure` | AK/MemMem.h:53-54 | with equal bytes the strong failure of the border is that of the position |
| `MemMem.FallBack` | AK/MemMem.h:57-59 | following the table skips only borders that the next byte does not continue |
| `MemMem.NextBorder` | AK/MemMem.h:61-62 | the candidate plus one is the longest border of the next prefix |
| `MemMem.PrepareKmpPartialTable` | AK/MemMem.h:44-65 | each entry is the longest border of the prefix that is followed by another byte, or -1 |
| `MemMem.PartialFallsBack` | AK/MemMem.h:88-93 | falling back by the table skips no match |
| `MemMem.MemMemChunks` | AK/MemMem.h:42-96 | the least offset of the needle in the concatenation, for every split into chunks, or none; it terminates |
| `MemMem.LookupStep` | AK/MemMem.h:31-32 | bit k of `lookup` stays clear exactly when the last k bytes read match the first k of the needle |
| `MemMem.MaskStep` | AK/MemMem.h:27-28 | bit j of the mask of a byte is clear exactly where the needle has the byte |
| `MemMem.BitapBitwise` | AK/MemMem.h:12-39 | the least match offset, for every non-empty needle shorter than 32; for an empty one, 1 as soon as there is a byte |
| `MemMem.MemMemOptional` | AK/MemMem.h:98-120 | the least match offset on all branches, as the naive search finds it |
| `WeakLinks.StrongRefBegins` | AK/Weakable.h:31-31 | the `fetch_add` keeps the invariant |
| `WeakLinks.StrongRefGoesOn` | AK/Weakable.h:32-36 | load, `try_ref` and `fetch_sub` keep the invariant |
| `WeakLinks.HolderSteps` | AK/RefCounted.h:21-61 | `unsafe_ptr`, `ref` and `unref` by a holder keep the invariant |
| `WeakLinks.RevokeGoesOn` | AK/Weakable.h:51-60 | `fetch_or`, the wait, the store and the release keep the invariant |
| `WeakLinks.StepKeepsInvariant` | AK/Weakable.h:27-60 | every step of every thread keeps the invariant |
| `WeakLinks.TouchesAreSafe` | AK/Weakable.h:27-39 | whoever touches the object finds it alive, and `revoke` has not returned, except to release it |
| `WeakLinks.ReferencesAreCounted` | AK/Weakable.h:33-38 | a reference held or about to be returned is counted and keeps the object alive and out of destruction |
| `WeakLinks.VerifiesHold` | AK/RefCounted.h:21-43 | no VERIFY fails but the one against 2^32 references, and that exactly at the limit |
| `WeakLinks.RunKeepsInvariant` | AK/Weakable.h:27-60 | the invariant holds after every schedule |
| `WeakLinks.Safety` | AK/Weakable.h:27-60 | for up to 2^31 threads and any interleaving: consumers counted, no touch after `revoke`, references counted |
| `WeakLinks.GoneForever` | AK/Weakable.h:40-60 | once the object is gone, no schedule brings a pointer or a reference back |
| `WeakLinks.RevokeCanFinish` | AK/Weakable.h:54-57 | the wait cannot deadlock: a schedule of at most three steps per thread inside, and three more, releases the object |
| `WeakLinks.FairSchedulesRelease` | AK/Weakable.h:51-60 | every schedule without a new `strong_ref`, in which each thread inside gets the steps it needs and then the waiting thread three, ends with the object released, whatever else it does |
| `WeakLinks.StrongRefsKeepWaiting` | AK/Weakable.h:54-57 | new calls of `strong_ref` can keep `revoke` waiting for any number of its own turns |
| `WeakLinks.TooManyThreads` | AK/Weakable.h:31-31 | with any number of threads above 2^31 the count can wrap, and a run ends about to touch a released object |
| `WeakLinks.SafeExactlyUpToLimit` | AK/Weakable.h:27-60 | every schedule is safe exactly if there are at most 2^31 threads |
| `WeakLinks.StrongRefSucceedsExactly` | AK/Weakable.h:27-39 | whatever other threads do between its steps, `strong_ref` returns a reference exactly if the object still has one when it comes to `try_ref`; the reference is counted, and the revoked bit was clear |
| `WeakLinks.UnsafePtrAnswers` | AK/Weakable.h:42-46 | the answer is null if the revoked bit was set, and else what the pointer is by then, which is not null as long as there is a reference |
| `WeakLinks.RefIsUndone` | AK/RefCounted.h:21-61 | `ref` counts one more reference for its thread, and `unref` takes it back |
| `WeakLinks.CanBeReleased` | AK/Weakable.h:27-60 | nothing leaks: from every state whose count cannot overflow there is a schedule that gives up all references and releases the object |
| `QuickSorts.Swap` | AK/QuickSort.h:20-20 | exchanges two elements and nothing else |
| `QuickSorts.ChoosePivots` | AK/QuickSort.h:16-30 | the end elements are in order, the range is rearranged |
| `QuickSorts.LargerMoved` | AK/QuickSort.h:43-53 | an element for the right trades places with one that is not, also when they are the same |
| `QuickSorts.Partition` | AK/QuickSort.h:32-60 | the three parts about the two pivots |
| `QuickSorts.CrossParts` | AK/QuickSort.h:32-60 | elements of different parts are in order |
| `QuickSorts.SettledNarrows` | AK/QuickSort.h:69-82 | sorting two of the parts leaves only the third to be sorted |
| `QuickSorts.SortSmallerParts` | AK/QuickSort.h:62-82 | recursion into the two smaller parts, each at most half the range |
| `QuickSorts.DualPivotQuickSort` | AK/QuickSort.h:12-84 | sorted, rearranged within the range only, nesting at most log2(n) deep |
| `QuickSorts.Divide` | AK/QuickSort.h:90-108 | the two parts about the pivot |
| `QuickSorts.AcrossPivot` | AK/QuickSort.h:100-108 | elements on different sides of the pivot are in order |
| `QuickSorts.SinglePivotQuickSort` | AK/QuickSort.h:86-119 | sorted, rearranged within the range only, nesting at most log2(n) deep |
| `QuickSorts.QuickSort` | AK/QuickSort.h:133-137 | a sorted permutation of the whole collection, for any strict weak order |
| `MemoryStreams.LastChunkFilled` | AK/MemoryStream.h:195-195 | copying into the last chunk appends to the stored bytes |
| `MemoryStreams.ChunkDropped` | AK/MemoryStream.h:221-226 | dropping a chunk that is read through keeps the unread bytes |
| `MemoryStreams.StretchOfChunk` | AK/MemoryStream.h:164-165 | where a stretch of unread bytes lies in its chunk |
| `MemoryStreams.FirstInFirstOut` | AK/MemoryStream.h:121-232 | what has been taken, followed by what is left, is what was there and what was written |
| `MemoryStreams.DuplexMemoryStream.Eof` | AK/MemoryStream.h:126-126 | at the end exactly if nothing is left unread |
| `MemoryStreams.DuplexMemoryStream.TryDiscardChunks` | AK/MemoryStream.h:221-226 | drops chunks until less than one is read through; the unread bytes stay |
| `MemoryStreams.DuplexMemoryStream.DiscardOrError` | AK/MemoryStream.h:128-136 | drops that many bytes from the front, or fails and drops none |
| `MemoryStreams.DuplexMemoryStream.ReadWithoutConsuming` | AK/MemoryStream.h:161-169 | copies the front of the queue, across chunks, and changes nothing |
| `MemoryStreams.DuplexMemoryStream.Read` | AK/MemoryStream.h:171-179 | takes the front of the queue, or nothing after an error |
| `MemoryStreams.DuplexMemoryStream.ReadOrError` | AK/MemoryStream.h:181-187 | takes all the bytes asked for, or none |
| `MemoryStreams.DuplexMemoryStream.Write` | AK/MemoryStream.h:189-199 | appends all bytes, across chunks |
| `MemoryStreams.DuplexMemoryStream.OffsetOf` | AK/MemoryStream.h:138-159 | naive first occurrence in the unread bytes |
| `MemoryStreams.DuplexMemoryStream.Run` | AK/MemoryStream.h:121-232 | any sequence of calls takes the bytes a FIFO would give |
| `BitStreams.BitsOfBytes` | AK/BitStream.h:174-199 | bits in groups of eight are the same bits |
| `BitStreams.BitsOfAt` | AK/BitStream.h:174-199 | every bit of every byte is where it belongs |
| `BitStreams.AlignedBits` | AK/BitStream.h:212-220 | whole bytes followed by the started one are the written bits padded with zeroes |
| `BitStreams.OutputBitStream.WriteBits` | AK/BitStream.h:170-205 | appends exactly the lowest `count` bits, on all fast paths and the bitwise one, if the stream has room |
| `BitStreams.OutputBitStream.AlignToByteBoundary` | AK/BitStream.h:212-220 | pads with zeroes to the next byte, and fails if there is no room |
| `BitStreams.InputBitStream.ReadBits` | AK/BitStream.h:58-83 | bit i of the result is the i-th of the next bits, and those above are clear, or it is zero with an error exactly if there are too few |
| `BitStreams.InputBitStream.ReadBitsBigEndian` | AK/BitStream.h:85-119 | bit i of the result is the i-th from the end of the next bits, by whole bytes or single bits alike, so that it keeps the last 64, and those above are clear; or it is zero with an error |
| `BitStreams.InputBitStream.RestAt` | AK/BitStream.h:58-119 | the next bits are those of the bytes to come, lowest first, or, for the big-endian reads, highest first |
| `BitStreams.InputBitStream.StartedRestAt` | AK/BitStream.h:58-119 | and before them those left of the byte that has been fetched |
| `BitStreams.InputBitStream.AlignToByteBoundary` | AK/BitStream.h:125-129 | skips the rest of a started byte, and all of one that is fetched but not started |
| `BitStreams.BigEndianGrows` | AK/BitStream.h:98-111 | shifting in a byte or a bit extends the big-endian number |
| `BitStreams.RoundTrip` | AK/BitStream.h:58-220 | any writes, aligned at the end, read back as the same bits under any split into reads of up to 31 |
| `Urls.AtBoundary` | AK/Utf8View.cpp:9-17 | the iterator at the byte offset of a code point is at that code point |
| `UrlTexts.CharacterClasses` | AK/CharacterTypes.h:13-36 | letters, digits and the characters of a scheme are those of the alphabets written out |
| `UrlTexts.LowerCase` | AK/CharacterTypes.h:113-118 | every upper-case letter goes to its lower-case form, and nothing else changes |
| `UrlTexts.SchemeTable` | AK/URL.cpp:114-176 | the special schemes and the default port of every scheme, by their names |
| `UrlTexts.NamedTexts` | AK/URLParser.cpp:196-701 | `localhost`, `data:` and the delimiters are these characters |
| `UrlTexts.ToUintOfDecimal` | AK/StringUtils.cpp:112-134 | the decimal digits of a number of 32 bits, with any zeroes in front, are read as that number, and those of a larger one are not |
| `UrlTexts.DigitsAreNumber` | AK/StringUtils.cpp:112-134 | every text of digits is of that kind |
| `UrlTexts.EncodeIsDecoded` | AK/UnicodeUtils.h:7-28 | what is encoded in UTF-8 is decoded again, so that no two inputs have the same text |
| `UrlTexts.SingleDotIs` | AK/URLParser.cpp:99-102 | a single dot is one of the three ways to write a dot |
| `UrlTexts.DoubleDotIs` | AK/URLParser.cpp:104-107 | a double dot is any two of them |
| `UrlTexts.DriveLetterIs` | AK/URLParser.cpp:89-97 | a drive letter is a letter with a colon, or with a bar unless it is normalized |
| `UrlTexts.HostIsTakenExactly` | AK/URLParser.cpp:25-76 | a host without brackets is taken exactly if it has none of the characters listed, after decoding if it is special |
| `UrlParsers.HostParses` | AK/URLParser.cpp:46-76 | without brackets, and not empty if it must not be, a host is parsed or refused without running into an assertion |
| `UrlParsers.AuthorityRewinds` | AK/URLParser.cpp:449-450 | going back by the bytes in the buffer and one more lands on the code point before the buffered ones |
| `UrlParsers.DispatchKeeps` | AK/URLParser.cpp:258-701 | every iteration of every state keeps the invariant - the host is not bracketed, the base URL is there where it is used, query and opaque path are empty until they end - and a measure goes down, also through the two rewinds |
| `UrlParsers.Loop` | AK/URLParser.cpp:258-701 | ends within 3n + 23 iterations; never a null base, never the assertions at lines 59, 640 and 666 |
| `UrlParsers.DispatchHalts` | AK/URLParser.cpp:545-581 | an iteration halts exactly at a bracketed file host, or at a file base URL without path where its first segment is needed |
| `UrlParsers.DispatchShape` | AK/URLParser.cpp:258-701 | every iteration of every state keeps what is known of the URL: the form of its scheme and host, the range of its port, the host of a file URL, no credentials but the base's |
| `UrlParsers.RunIsGood` | AK/URLParser.cpp:190-706 | every URL that comes out of the loop is valid and good, with no credentials but its base's |
| `UrlParsers.Parse` | AK/URLParser.cpp:190-706 | strips controls and spaces, takes out tabs and newlines, and runs the loop, in linearly many iterations |
| `UrlParsers.ParsedIsGood` | AK/URLParser.cpp:190-706 | the same of the whole function, on every input and good base |
| `UrlParsers.ResolvedIsGood` | AK/URL.cpp:30-34 | a URL put together from any chain of references is good and carries no credentials |
| `UrlMeaning.PaddingIsStripped` | AK/URLParser.cpp:203-234 | controls and spaces about a text are stripped, and nothing else |
| `UrlMeaning.BreakIsTakenOut` | AK/URLParser.cpp:236-240 | each tab and each newline is taken out, wherever it is |
| `UrlMeaning.NoSchemeIsFound` | AK/URLParser.cpp:273-312 | what has no scheme is read again from its beginning, with nothing kept |
| `UrlMeaning.PathIsParsed` | AK/URLParser.cpp:601-636 | path segments walk the path, dot segments and the drive letters of file URLs included, and an optional query and fragment follow |
| `UrlMeaning.PathStartIsParsed` | AK/URLParser.cpp:582-636 | the same where there may be no path: a special URL then gets one empty segment, any other none |
| `UrlAuthorities.HostScanned` | AK/URLParser.cpp:457-489 | brackets are not taken into the host, and colons inside them do not end it |
| `UrlAuthorities.NoPortIsRead` | AK/URLParser.cpp:490-512 | anything but digits in a port is refused |
| `UrlAuthorities.UserIsPassed` | AK/URLParser.cpp:415-443 | everything up to the last `@` of an authority is passed over, and nothing of it kept |
| `UrlAuthorities.AuthorityIsParsed` | AK/URLParser.cpp:414-512 | any authority is read to its end and again from what follows its last `@`, and gives exactly the host and port that its text names, or is refused for them |
| `UrlAuthorities.SlashesAreParsed` | AK/URLParser.cpp:285-413 | `//` after a scheme other than `file` leads to the authority, whatever the scheme and the base |
| `UrlAuthorities.WrittenIsParsed` | AK/URLParser.cpp:258-705 | a URL written out from scheme, optional user, any authority, any segments or none, optional query and fragment is parsed into these parts, with any base, or refused for its host or port; only the user is forgotten |
| `UrlAuthorities.WrittenParses` | AK/URLParser.cpp:190-706 | the same of the whole function, from any input that is the written URL once it is stripped and joined |
| `UrlPorts.NumberIsPort` | AK/URLParser.cpp:490-512 | a URL written out with a number behind its host comes out with all its parts: without a port if the number is the default of the scheme, with the number if it is any other up to 65535; above that, or with a host that is refused, it is refused |
| `UrlAuthorities.LooselyWrittenIsParsed` | AK/URLParser.cpp:396-413 | the same of a special URL with any slashes and backslashes, or none, before its authority, unless the base has its scheme |
| `UrlAuthorities.RootedIsParsed` | AK/URLParser.cpp:342-349 | a URL that is not special and has a path without an authority is parsed into its parts |
| `UrlAuthorities.BracketsAreDropped` | AK/URLParser.cpp:457-489 | a text in brackets is taken for the host, with its colons and without the brackets |
| `UrlAuthorities.BracketsMatterExactly` | AK/URLParser.cpp:457-489 | a host in brackets gives the same as without them exactly if it has no colon, or what stands there without them is refused too; percent-decoding has to keep colons |
| `UrlAuthorities.BracketExamples` | AK/URLParser.cpp:457-489 | `http://[ab]/` is parsed as `http://ab/`, and `http://[::1]/` is refused |
| `UrlReferences.ReferenceIsRead` | AK/URLParser.cpp:350-395 | the Relative state resolves every reference, even one that looks like a URL with a scheme |
| `UrlReferences.ReferenceIsResolved` | AK/URLParser.cpp:313-395 | nothing, a fragment, query, absolute path or relative path, dot segments included, is resolved against a hierarchical base other than a file URL: what is taken over, what is replaced, and the last segment dropped |
| `UrlReferences.NetworkPathIsResolved` | AK/URLParser.cpp:380-395 | after two slashes everything but the scheme is the reference's own |
| `UrlReferences.NoBaseIsResolved` | AK/URLParser.cpp:313-331 | without a base, or against one that cannot be a base, an input without a scheme is refused, but for a fragment against such a base |
| `UrlBackslashes.RunTogether` | AK/URLParser.cpp:258-701 | two inputs that differ only in the direction of slashes before the first `?` or `#` stay together, step by step, once the URL is special |
| `UrlBackslashes.BackslashesAreSlashes` | AK/URLParser.cpp:258-701 | in every input whose own scheme, or else whose base's, is special, backslashes before the first `?` or `#` are read as slashes |
| `UrlPrefixes.PrefixIsForgotten` | AK/URLParser.cpp:332-701 | once the scheme is passed, the outcome depends on what is ahead alone, through all states and the rewind to the host: any text in front can be dropped |
| `UrlPrefixes.SameSchemeIsRelative` | AK/URLParser.cpp:332-341 | any special URL with the scheme of its base is parsed as what follows its colon is read in the Relative state, two slashes included |
| `UrlPrefixes.SameSchemeIsResolved` | AK/URLParser.cpp:285-379 | so `http:rest` against a base of the same scheme comes out as the reference `rest` |
| `UrlPrefixes.FileSchemeIsRelative` | AK/URLParser.cpp:285-290 | any file URL with a file base is parsed as what follows its colon is read in the File state |
| `UrlPrefixes.FileSchemeIsResolved` | AK/URLParser.cpp:513-558 | so `file:rest` and `file:/rest` against a file base come out as the references `rest` and `/rest`, or halt where the base has no first segment |
| `UrlDotSegments.PlainWalk` | AK/URLParser.cpp:601-636 | without dot segments the path gets the decoded segments in order |
| `UrlDotSegments.DotIsSkipped` | AK/URLParser.cpp:610-612 | `.` before another segment changes nothing |
| `UrlDotSegments.DotDotTakesBack` | AK/URLParser.cpp:605-609 | a segment and `..` before another one cancel out, anywhere in a path |
| `UrlDotSegments.RootIsItsParent` | AK/URLParser.cpp:605-609 | no `..` leads above the root |
| `UrlDotSegments.NoDotsLeft` | AK/URLParser.cpp:605-623 | the normal form has no dot segment, and no segment that was not there |
| `UrlDotSegments.WalkedIsNormal` | AK/URLParser.cpp:601-636 | going forward over the segments comes to what reading them from the last one back says: what stays, and how far up the base path it goes |
| `UrlDotSegments.FileWalkIsNormal` | AK/URLParser.cpp:601-636 | the same in file URLs, where a drive letter that comes to the root stays in front of everything behind it; percent-decoding has to leave drive letters alone |
| `UrlFiles.OtherInputsNeverHalt` | AK/URLParser.cpp:258-701 | an input that does not come to the File state never halts |
| `UrlFiles.HaltsExactly` | AK/URLParser.cpp:545-581 | parsing runs into the unfinished IPv6 code exactly at a file URL's host in brackets, into the assertion of the vector exactly at a single slash against a file base URL without a path, and into nothing else: an equivalence on input and base |
| `UrlFiles.ParseHaltsExactly` | AK/URLParser.cpp:190-706 | the same of the whole function |
| `UrlFiles.BracketsHalt` | AK/URLParser.cpp:48-54 | `file://[x]` halts for every text in the brackets and every base |
| `UrlFiles.SlashAgainstBareFileHalts` | AK/URLParser.cpp:553-553 | `file:` is parsed to a URL without a path, and `/` against it halts |
| `UrlFiles.SameRest` | AK/URLParser.cpp:559-701 | from a file URL's host on, the outcome depends on the rest of the input alone |
| `UrlFiles.FileIsReadAfterTwoSlashes` | AK/URLParser.cpp:513-558 | without a file base, every `file:` input is parsed as `file://` and what follows its second slash, or to an empty file URL if there is none; nothing is skipped exactly if two slashes follow the colon |
| `UrlFiles.FileTextIsLost` | AK/URLParser.cpp:513-544 | `file:abc` is parsed to an empty path, as is any text without a slash |
| `UrlFiles.FileFolderIsLost` | AK/URLParser.cpp:545-558 | `file:/a/b` is parsed as `file://b`, with any folder and rest in place of `a` and `b` |
| `UrlFiles.FileHostIsTaken` | AK/URLParser.cpp:559-581 | a file URL's own host comes out as what its text stands for, or parsing fails or halts for that text |
| `UrlFileMeaning.WrittenFileIsParsed` | AK/URLParser.cpp:513-636 | a file URL written out from any host text, any segments or none, optional query and fragment is parsed into these parts, or refused, or halts, for its host, with any base |
| `UrlFileMeaning.DriveIsParsed` | AK/URLParser.cpp:561-563 | a drive letter in place of the host begins the path |
| `UrlFileMeaning.NetworkFileIsResolved` | AK/URLParser.cpp:545-581 | after two slashes against a file URL, host and path are the reference's own |
| `UrlFileMeaning.FileReferenceIsRead` | AK/URLParser.cpp:513-558 | the File state resolves every reference, even one that looks like a URL with a scheme, or halts where the base has no first segment |
| `UrlFileMeaning.FileReferenceIsResolved` | AK/URLParser.cpp:313-331 | nothing, a fragment, query, absolute path or relative path is resolved against a file base URL, with its drive letter, or halts where the base has no first segment |
| `UrlFileMeaning.FolderIsKeptExactly` | AK/URLParser.cpp:532-540 | a relative reference goes on from the folder that the standard says exactly if there is none to lose, or it does not begin with just one half of a drive letter |
| `UrlFileMeaning.DriveIsKeptExactly` | AK/URLParser.cpp:552-554 | a reference with one slash keeps the drive letter that the standard says exactly if there is none to keep, or it does not begin with just one half of a drive letter |
| `UrlFileMeaning.TwoLettersLoseTheFolder` | AK/URLParser.cpp:532-540 | every two letters, against every file base URL, are resolved from the root |
| `UrlOpaquePaths.OpaqueIsParsed` | AK/URLParser.cpp:637-693 | of every `scheme:path?query#fragment` with an opaque path, the path comes out once more at the beginning of the query, or, without one, of the fragment |
| `UrlOpaquePaths.TakenAsWrittenExactly` | AK/URLParser.cpp:641-650 | query and fragment are taken as they were written exactly if there are none, or the encoded path is empty |
| `UrlOpaquePaths.QueryIsIntendedExactly` | AK/URLParser.cpp:641-645 | with an encoding that goes byte by byte, the URL is the intended one exactly if the encoded path is empty |
| `UrlOpaquePaths.QueryIsTaken` | AK/URLParser.cpp:663-680 | what follows a `?` up to a `#` becomes the query, behind what was in the buffer |
| `Globs.StarGoesOn` | AK/StringUtils.cpp:45-46 | a star that no shorter stretch satisfies has to take more |
| `Globs.DenotesNothing` | AK/StringUtils.cpp:63-68 | only stars denote the empty string |
| `Globs.OneDenotes` | AK/StringUtils.cpp:36-59 | a mask of one character: `*` denotes anything, `?` any one character, any other itself, or, if case does not count, the two forms of a letter |
| `Globs.DenotesConcat` | AK/StringUtils.cpp:36-69 | two masks after each other denote what the first denotes followed by what the second does, so that these two laws say what every mask denotes |
| `Globs.LiteralDenotes` | AK/StringUtils.cpp:53-58 | a mask without wildcards denotes itself alone, or, if case does not count, its variants in the case of ASCII letters alone |
| `Globs.SkipToMatch` | AK/StringUtils.cpp:45-46 | the shortest non-empty rest that the remaining mask denotes, or none |
| `Globs.Matches` | AK/StringUtils.cpp:17-70 | accepts exactly the strings the mask denotes, and null exactly with null; its spans account for the string |
| `Globs.SpansInOrder` | AK/StringUtils.cpp:18-21 | spans come one per wildcard, in order |
| `Globs.ParsesFills` | AK/StringUtils.cpp:18-21 | filling the spans into the mask gives the string, up to the case mode |
| `Globs.ParsesExactly` | AK/StringUtils.cpp:18-21 | if case counts, filling the spans into the mask gives the string itself |
| `Globs.ParsesDenotes` | AK/StringUtils.cpp:37-69 | what spans account for, the mask denotes |

## Left out

- `HashTables.HashTable.TrySet`: requires that growth stays within 2^32 buckets, because hashes have 32 bits and larger tables are not probed completely.
- `HashTables.HashTable.EnsureCapacity`: the same bound, and the source's own check that the capacity covers the size.
- `HashTables.HashTable.TryRehash`: the same bound; running out of memory is not part of this model.
- `HashFunctions.DoubleHashSingleOrbit`: that the xorshift of `double_hash` has full period is a hypothesis.
- `MemMem.MemMemChunks`: table entries and the needle index are unbounded, where the source's `int` holds needles below 2^31 bytes; empty needles, on which the table has no first entry, are excluded.
- `UFixedBigIntAlgorithms.DivideWithRemainder`: divisor and dividend have the same width, and the divisor is not zero, where the source divides by zero on purpose.
- `UFixedBigIntAlgorithms.Multiply`: both factors have the same width.
- `UFixedBigIntAlgorithms.ClzVal`: the builtin for a word is modelled; the fallback for other compilers, which returns a bit position instead, is not.
- `WeakLinks.Safety`: memory ordering weaker than sequential consistency is not modelled, and neither is the lifetime of the link itself.
- `QuickSorts.DualPivotQuickSort`: indices are unbounded, where the source's `int` holds collections below 2^31 elements.
- `MemoryStreams.DuplexMemoryStream.Write`: offsets are unbounded, where the source's wrap after 2^64 bytes.
- `MemoryStreams.DuplexMemoryStream.OffsetOf`: an empty value is excluded, as for the search it calls.
- `BitStreams.InputBitStream.ReadBits`: more than 31 bits at once are excluded, where the source shifts a bit as an `int`.
- `BitStreams.OutputBitStream.WriteBits`: the byte order of the machine is little-endian; the stream underneath is one that takes whole writes until it is full.
- `UrlParsers.Parse`: data URLs are only recognised; a URL to modify, a state override and debug output are not part of the model, and the input is a sequence of code points.
- `UrlAuthorities.BracketsMatterExactly`: that percent-decoding keeps colons is a hypothesis, as percent coding is not modelled.
- `UrlDotSegments.FileWalkIsNormal`: that percent-decoding leaves drive letters alone is a hypothesis, for the same reason.
- `UrlAuthorities.LooselyWrittenIsParsed`: excludes a base of the same scheme, against which the same text means something else; `UrlPrefixes.SameSchemeIsResolved` states what.
- `UrlOpaquePaths.QueryIsIntendedExactly`: states nothing of the decoded fragment, because percent-decoding can give the intended text by chance.
- Percent coding, IPv4 and IPv6 hosts, and URL serialization.
- Ordered hash tables, whose link repair does not cover adjacent buckets, and `clear_with_capacity`.
- `IntrusiveRedBlackTree`, whose nodes keep colour and parent when inserted again.
- `pow`, `pow_mod`, `log2`, `logn`, `rol`, `ror`, the reversed operators, and division by narrower numbers.
- The other functions of `StringUtils`, `InputMemoryStream`, `OutputMemoryStream`, and allocation failure throughout.
- Smart pointers, type traits, SIMD, floating point, formatting and kernel headers.
