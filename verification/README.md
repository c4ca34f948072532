# Verified core of the engine's public headers

The public headers of the JavaScript engine mostly declare things that live elsewhere, but a few of
them carry complete algorithms. This project models those algorithms and proves what they are for.

- **Numbers.** `Words`, `Ieee754`, `Conversions`, `ArmConversion`, `Date`. A double is decoded from
  its 64-bit pattern as IEEE 754 section 3.4 has it, and sign(d) * floor(abs(d)) mod 2^w
  (sections 7.1.5 to 7.1.10 of ECMA-262, 6th edition) is the one arithmetic definition. The bit
  surgery of `ToUnsignedInteger` and the hand-written ARM register program are two unrelated
  algorithms, and both are proved equal to it on every bit pattern. `TimeClip` is section
  20.3.1.15 of the same standard.
- **The heap.** `HeapLayout` has the chunk and arena constants and the arithmetic from a cell's
  address to its bit in the chunk's mark bitmap. `GrayMarking.dfy` has the colours: the expose
  barrier as a function on colourings, with its invariant over whole runs, and the same barrier on
  the bitmaps themselves, where marking is an OR of one bit into one word.
- **Weak tables.** `GCPolicy` and `GCVector` trace weak values and vectors. `WeakSweeping` has the
  two sweep loops of hash maps, in place and with rekeying. `WeakCaches` is the map that is swept
  late but looks swept already. They sit on `HashTables`, a table of entries in slots in which an
  entry may be put in any free slot, so that nothing depends on the order of enumeration.
- **The table in memory.** `Probing`, `HashCells` and `DoubleHashing` are the open-addressed table
  under all this: double hashing, collision bits, removed sentinels, growing, shrinking, rehashing
  in place. Its methods promise the same slot by slot as those of `HashTables`, and
  `TableSweeping` and `TableCaches` have the rekeying sweep and the lookup for adding once more, on
  this table.
- **Callables.** `Erasures` is the owning function wrapper, whose state (empty, a box in its
  buffer, a box on the heap) is held only by a command pointer and an invocation table.
  `ErasureRuns` has whole runs, in which erasures are constructed, used and destroyed in any order.

Choices that a reader should know:

- Machine words are natural numbers, with bitwise operations defined bit by bit; every place where
  a word wraps around or is cut off says so. A double is a sign and a real magnitude;
  `Date.TruncationIsADouble` shows that truncation never needs rounding.
- Where the code works by changing things, the model does too: fields, arrays and cells are updated
  in place by methods, each specified by a function on values, and the laws are lemmas about those
  functions or invariants that the methods keep.
- A tracer, a barrier tracer, a hash function and a predicate passed to a loop are function-valued
  parameters. `HashCells` takes prepared hashes, the results of `Probing.PrepareHash`.
- Tables compare keys by a parameter, as the hash policy's `match` does: any equivalence that the
  hash respects, which may be coarser than equality. What that costs is stated exactly. The rekeying
  sweep leaves the stored key of an entry whose relocated key matches it, so it yields the image of
  the live entries if and only if no live entry has a relocated key that differs from the stored one
  but matches it (`WeakSweeping.LeftIsImageIff`); lookups find every live entry either way. A `put`
  over an entry with a matching key leaves that key, dead or not, so the new value is seen if and
  only if it needs no sweeping under the key that is left (`WeakCaches.WeakCache.Put`).
- Unmarking gray turns a cell black, by setting its black bit: the colour table at
  js/HeapAPI.h:213-222 leaves no other way out of gray towards more marked.
  `PerformIncrementalReadBarrier` is not in this repository; it is taken to mark its cell black, as
  js/HeapAPI.h:868-873 says. Nursery cells have no mark bits and no colour.
- In a heap free of black-to-gray edges, exposing a cell does not always leave only non-gray cells
  reachable from it. A white cell on the way can hide a gray one (`GrayColoring.WhiteCellHidesGray`),
  and so can a cell in the nursery, which has no colour (`GrayColoring.NurseryCellHidesGray`). Nothing
  gray is left reachable if and only if, at the start, every gray cell that a reachable white or nursery
  cell points at is also reached through gray cells (`GrayColoring.ExposeReachNoGrayIff`, and
  `GrayColoring.ExposeRunReachNoGrayIff` for whole runs); nothing else is asked of the heap. For an
  exposed cell that is not gray that says: no white or nursery cell it reaches points at a gray one.
  When marking is complete only the nursery can hide something
  (`GrayColoring.CompleteMarkingHidesNothing`).
- The rekeying sweep needs less than one would think: a live entry may be relocated to a key that
  another entry is still stored under, because that one has moved or gone by the end
  (`WeakSweeping.Relocates`).
- While entries are rekeyed the table in memory may run out of free slots, on which every probe for
  an absent key would have to stop (`DoubleHashing.RekeyingCanUseUpFreeSlots`), and two entries may
  for a while have matching keys. `DoubleHashing` therefore has three invariants, `Counted`, `InOrder`
  and `Valid`, each stronger than the one before; the end of the enumeration restores `Valid`.
- A table whose store is not allocated yet is modelled by a flag, with cells that stand for an empty
  store of the capacity it will have.
- The comment at js/GCHashTable.h:51-57 has the sense of `traceWeak` reversed; the code at line 93
  is followed. `traceWeakEntries` declares an enumeration of the same name as its parameter; there
  is one loop. `ToUint8` of a double (js/Conversions.h:555) returns a signed type; the unsigned
  claim is on `ToUnsignedInteger` at width 8.

## Model

| member | source | states |
|---|---|---|
| `Words.BitwiseSplit` | js/Conversions.h:343-372 | AND, OR and XOR of words may be computed on the low k bits and on the rest separately |
| `Words.AndMask` | js/Conversions.h:367-372 | AND with 2^n - 1 keeps exactly the low n bits |
| `Words.OrDisjoint` | js/Conversions.h:394-520 | OR of parts that share no bit is their sum |
| `Ieee754.IntegerPart` | mozilla/FloatingPoint.h:98-146 | the integer part of a finite double is its 53-bit significand shifted by its exponent, and zero below exponent 0 |
| `Conversions.OneTestSuffices` | js/Conversions.h:343-372 | the argument of the comment as a theorem, for every width: below the width, masking and adding 2^exponent turns any bogus bits into the right residue; from the width on, bogus and implicit bits do not reach the result |
| `Conversions.LargeExponentIsZero` | js/Conversions.h:322-331 | from exponent 52 + w on, the residue is 0 |
| `Conversions.NegativeExponentIsZero` | js/Conversions.h:314-318 | below exponent 0, subnormals and zeros included, the residue is 0 |
| `Conversions.RawShift` | js/Conversions.h:333-341 | what either shift of the whole pattern leaves: the wanted significand bits, below the sign and exponent carried along above them |
| `Conversions.ToUnsignedInteger` | js/Conversions.h:299-377 | for every 64-bit pattern and width 8, 16, 32, 64: sign * floor(abs(d)) mod 2^w for finite d, and 0 for NaN and infinities |
| `Conversions.ToSignedInteger` | js/Conversions.h:379-388 | the one signed w-bit integer congruent to the truncated double |
| `Conversions.WrapIsSignedResidue` | mozilla/WrappingOperations.h:56-83 | wrapping to signed yields an integer in signed range congruent to the unsigned one |
| `Conversions.SignedResidueUnique` | mozilla/WrappingOperations.h:56-83 | and there is no other |
| `Conversions.NarrowIsLowBitsOfWide` | js/Conversions.h:300-388 | for every double, the result at a width is the low bits of the result at any wider one |
| `Conversions.EncodeInt32Holds` | js/Conversions.h:162-253 | every int32 is the value of some double |
| `Conversions.FastPathAgrees` | js/Conversions.h:162-253 | for every int32 and every width, signed and unsigned, the cast of the fast path equals the conversion of the double that holds the same number |
| `ArmConversion.HighWordWithImplicitOne` | js/Conversions.h:394-520 | one OR into the high word plants the implicit bit and keeps the sign readable, and the shift by 11 drops sign and exponent |
| `ArmConversion.SaturatedShift` | js/Conversions.h:394-520 | the bic and orr before a register shift make one that looks only at a byte act as a shift by the full amount |
| `ArmConversion.CombineHalves` | js/Conversions.h:394-520 | OR of the separately shifted halves is the whole significand shifted, cut to 32 bits |
| `ArmConversion.NegateBySign` | js/Conversions.h:394-520 | XOR with the spread sign and addition of the sign bit negates exactly the negative ones |
| `ArmConversion.ToSignedInteger32` | js/Conversions.h:394-520 | the register program returns, for every bit pattern, the same int32 as the generic algorithm: the same function of the same residue |
| `Date.TruncationIsADouble` | js/Conversions.h:146-159 | for every finite double, `ToInteger` is itself the value of a bit pattern: the fraction bits cleared, with -0 made +0 |
| `Date.ToIntegerMeaning` | js/Conversions.h:146-159 | zero for a NaN, an infinity as it is, the truncated value of a finite double, and never -0 |
| `Date.TimeClipMeaning` | js/Date.h:98-111 | valid exactly for finite times of magnitude at most 8.64e15, then equal to the truncated time, in range and never -0 |
| `Date.TimeClipIdempotent` | js/Date.h:79-111 | clipping twice is clipping once |
| `Date.TimeClipMonotone` | js/Date.h:79-111 | monotone on times that clip to valid ones |
| `HeapLayout.RoundUpIsLeast` | jstypes.h:84-86 | the least multiple not below x |
| `HeapLayout.RoundDownIsGreatest` | jstypes.h:88 | the greatest multiple not above x |
| `HeapLayout.ChunkIsFilled` | js/HeapAPI.h:285-292 | on every supported build, header and 252 arenas fill the chunk exactly and the words skipped for the header are whole bitmap words |
| `HeapLayout.ArenaCountIsBest` | js/HeapAPI.h:157-206 | the compile-time claims: 252 arenas fit, one more would not, and the bitmap covers them exactly |
| `HeapLayout.MarkWordInArena` | js/HeapAPI.h:536-551 | the word index does not underflow, is below the word count and lies in the words of the cell's own arena |
| `HeapLayout.NoAlias` | js/HeapAPI.h:66-83 | any two colour bits of cells in a chunk that do not overlap, or of one cell, have different words or different masks |
| `HeapLayout.MarkIsAtPosition` | js/HeapAPI.h:66-83 | word times word width plus bit is that place, for every build |
| `HeapLayout.MarkPositions` | js/HeapAPI.h:213-222 | eight times the place of the black bit is the offset from the first arena, and the gray-or-black bit is the one after it |
| `HeapLayout.GetMarkWordAndMask` | js/HeapAPI.h:536-551 | word and mask of a cell's colour bit: the word is in the bitmap and in the cell's arena, and the mask has exactly the one bit whose place in the whole bitmap is the cell's distance from the first arena over 8, plus one for gray-or-black |
| `GrayColoring.ExposeKeepsInvariant` | js/HeapAPI.h:794-823 | exposing in a quiet zone keeps the heap free of black-to-gray edges, turns cells only from gray to black and leaves the exposed cell not gray |
| `GrayColoring.ExposeByZone` | js/HeapAPI.h:806-822 | what an exposure does by kind of zone: the cell turns black under incremental marking whatever its colour, nothing happens while a collection is prepared, and in a quiet zone the gray cells reached through gray ones turn black |
| `GrayColoring.NotGrayAlongPath` | jsfriendapi.h:301-307 | in a heap without black-to-gray edges, a path from a cell that is not gray gets to a gray one only right behind a white or nursery cell |
| `GrayColoring.WhiteFreeHidesNothing` | jsfriendapi.h:301-307 | when nothing in the nursery points at a gray cell, paths without white cells are such |
| `GrayColoring.CompleteMarkingIsWhiteFree` | js/HeapAPI.h:213-222 | when nothing marked points at a white cell, no path from a marked cell passes one |
| `GrayColoring.ExposeRun` | js/HeapAPI.h:794-823 | over any run of exposures in quiet zones: no black-to-gray edge, no cell less marked, no exposed cell gray, no new edge from the nursery to a gray cell, and nothing gray left that an exposed cell reaches on a path where no white or nursery cell is followed by a gray one |
| `GrayColoring.ExposeRunUnmarks` | js/HeapAPI.h:780-823 | a run of exposures turns black exactly what the exposed cells reach through cells gray at the start, in whatever order they are exposed |
| `GrayColoring.UnmarkReachNoGrayIff` | js/HeapAPI.h:780-785 | in any heap without black-to-gray edges, the recursive unmarking leaves nothing gray reachable, as it promises, if and only if no white or nursery cell on the way hides a gray one that is not reached through gray cells |
| `GrayColoring.ExposeReachNoGrayIff` | js/HeapAPI.h:794-823 | the same exact condition, on the colours before the call, for an exposure in a quiet zone |
| `GrayColoring.ExposeRunReachNoGrayIff` | js/HeapAPI.h:794-823 | and for a whole run: nothing gray can be reached from any exposed cell at the end if and only if white and nursery cells hide nothing at the start |
| `GrayColoring.HidesNothingWhenNotGray` | js/HeapAPI.h:794-823 | the condition for a cell that is not gray: no white or nursery cell that it reaches points at a gray one |
| `GrayColoring.CompleteMarkingHidesNothing` | js/HeapAPI.h:213-222 | when nothing marked and nothing in the nursery points at a white cell, the condition is about nursery cells alone; it holds when none of them points at a gray cell |
| `GrayColoring.WhiteCellHidesGray` | js/HeapAPI.h:794-823 | the condition can fail: a heap without black-to-gray edges where exposing a white cell leaves a gray cell behind it gray |
| `GrayColoring.NurseryCellHidesGray` | js/HeapAPI.h:800-805 | it can fail without any white cell: a black cell points at a nursery cell that points at a gray one, and exposing the black cell does nothing |
| `GrayMarking.TestAfterOr` | js/HeapAPI.h:581-610 | ORing a one-bit mask into a word changes the test of that bit and of no other |
| `GrayMarking.Heap.ColorTable` | js/HeapAPI.h:213-222 | the table of colours by absolute bits: the bit at the cell's distance from the first arena over 8 says black, else the next bit says gray, else the cell is white |
| `GrayMarking.Heap.TenuredCellIsMarkedBlack` | js/HeapAPI.h:581-594 | reads black off the bitmap |
| `GrayMarking.Heap.CellIsMarkedGray` | js/HeapAPI.h:616-622 | true exactly for tenured cells that are gray by both bits |
| `GrayMarking.Heap.MarkBlack` | js/HeapAPI.h:229-250 | setting one bit in one word makes this cell black, changes no other colour bit of any cell, and so no other colour |
| `GrayMarking.Heap.UnmarkGrayGCThingRecursively` | js/HeapAPI.h:780-785 | a terminating worklist on the bitmaps that turns black exactly the gray cells reached through gray cells, and says whether there was any; without black-to-gray edges, nothing gray is then reachable if and only if white and nursery cells hide nothing |
| `GrayMarking.Heap.ExposeGCThingToActiveJS` | js/HeapAPI.h:794-823 | the barrier on the bitmaps, by kind of zone: under incremental marking the cell turns black whatever its colour, while a collection is prepared nothing changes, and in a quiet zone exactly the gray cells reached through gray ones turn black; with its closing assertion, and in a quiet zone with the same exact condition |
| `GrayMarking.Heap.IncrementalReadBarrier` | js/HeapAPI.h:825-841 | marks only under incremental marking and never unmarks gray |
| `GCVector.GCVector.MutableEraseIf` | js/GCVector.h:178-198 | calls a stateful, mutating predicate once on each element from the start index, in order, leaves the prefix alone and ends with the mutated survivors in their order |
| `GCVector.GCVector.TraceWeak` | js/GCVector.h:172-176 | keeps the updated live elements, and is true exactly when some are left |
| `GCVector.TraceWeakKeepsLive` | js/GCVector.h:172-198 | the survivors are the updated forms of exactly the live elements; there are none exactly when all die |
| `GCPolicy.AliveIffLeavesAre` | js/GCPolicyAPI.h:111-230 | for any leaf policy and every nesting, a value survives if and only if each of its leaves does, and needs sweeping if and only if some leaf does |
| `GCPolicy.SweepIsTraceReversed` | js/GCPolicyAPI.h:84-230 | for any leaf policy whose two functions agree on the leaves of a value, needsSweep is the negation of traceWeak, at every nesting |
| `GCPolicy.SurvivorIsFullyUpdated` | js/GCPolicyAPI.h:84-222 | a surviving value has every leaf updated although pairs stop early |
| `GCPolicy.LeavesTracedInOrder` | js/GCPolicyAPI.h:175-222 | for survivors and dying values alike: leaves are traced left to right up to the first that dies; those are updated, and the ones after it are left as they were |
| `GCPolicy.SurvivorUnchangedInPlace` | js/GCPolicyAPI.h:84-222 | a survivor is left unchanged if and only if each of its leaves is |
| `GCPolicy.HeapEdgeAgrees` | js/GCPolicyAPI.h:160-168 | a pointer to a heap thing is such a leaf: it points at the new address when its target stays and at nothing when the target dies; a survivor is unchanged exactly when its target has not moved |
| `GCPolicy.DefaultMapEntryAgrees` | js/GCHashTable.h:22-36 | an entry is kept if and only if every leaf of its key and of its value survives, and would be swept if and only if one of them needs it; a dying key leaves the value untraced, and a kept entry has both parts updated, unchanged if and only if no leaf has changed |
| `GCPolicy.SetEntryNeedsSweep` | js/GCHashTable.h:650-655 | the set cache's test on a copy decides as needsSweep does, and its assertion that a survivor is unchanged holds if and only if no leaf has changed |
| `GCPolicy.Object.TraceWeakInPlace` | js/GCPolicyAPI.h:160-222 | tracing through pointers, in place, leaves what the function on values says |
| `HashTables.HashTable.Lookup` | mozilla/HashTable.h:1763-1810 | finds an entry exactly when there is one with a matching key, looking only under the key's hash |
| `HashTables.HashTable.Put` | mozilla/HashTable.h:251-266 | overwrites the value of an entry with a matching key, whose key stays, or adds the entry |
| `WeakSweeping.TraceWeakEntries` | js/GCHashTable.h:91-98 | sweeping while enumerating leaves in each slot the traced entry, or nothing when key or value died |
| `WeakSweeping.TraceWeak` | js/GCHashTable.h:85-89 | and says whether any entry is left |
| `WeakSweeping.SweptIsValidIff` | js/GCHashTable.h:91-98 | kept entries stay findable if and only if relocation changed no kept key's hash, and keys stay apart if and only if no two kept keys came to match |
| `WeakSweeping.SweptContents` | js/GCHashTable.h:91-98 | in that case the table holds exactly the relocated live entries with their updated values |
| `WeakSweeping.SweptInPlace` | js/GCHashTable.h:85-98 | when nothing moves, the swept table is the table filtered to entries that need no sweeping |
| `WeakSweeping.TraceWeakRekeying` | js/GCHashTable.h:147-157 | for any way of matching keys and any placement of rekeyed entries, even ahead of the enumeration so that they are visited again: the table ends as exactly what the live entries are to end as, each under its key's hash, keys apart |
| `WeakSweeping.LeftIsImageIff` | js/GCHashTable.h:147-157 | that is the image of the live entries under relocation if and only if no relocated key matches the stored one without being equal to it |
| `WeakSweeping.LeftIsFound` | js/GCHashTable.h:147-157 | whatever key it is left under, every live entry is found by its relocated key, with its updated value |
| `WeakSweeping.FoundIsLeft` | js/GCHashTable.h:147-157 | every key in the table matches the relocated key of some live entry |
| `WeakSweeping.ImageOfLive` | js/GCHashTable.h:147-157 | when the sweep yields the image, every live entry is under its relocated key itself |
| `WeakSweeping.LiveOfImage` | js/GCHashTable.h:147-157 | and every key is the relocated key of a live entry |
| `WeakCaches.WeakCache.Lookup` | js/GCHashTable.h:500-507 | answers as the live part would, which it leaves as it was; after a miss the table has no entry at all for the key |
| `WeakCaches.WeakCache.LookupForAdd` | js/GCHashTable.h:509-516 | the same for a lookup before adding, so that adding is legal |
| `WeakCaches.WeakCache.Add` | js/GCHashTable.h:575-578 | adds an entry to the table, and to what clients see unless it needs sweeping |
| `WeakCaches.WeakCache.Put` | js/GCHashTable.h:586-594 | puts a value over an entry with a matching key, dead or live, whose key stays, or adds it; it is seen if and only if it needs no sweeping under the key that is left |
| `WeakCaches.WeakCache.Remove` | js/GCHashTable.h:561-573 | removes the matching entry from what clients see and leaves none in the table |
| `WeakCaches.WeakCache.Do` | js/GCHashTable.h:500-594 | a lookup answers the live value under a matching key, a put is then found, a removal leaves nothing to find, and no other key is touched: each operation by itself, put over dead entries included, acts as on a dictionary of the live entries |
| `WeakCaches.WeakCache.Run` | js/GCHashTable.h:443-594 | over any sequence of operations, barrier set or not, the i-th lookup answers what is seen under its key after the first i operations on a dictionary of the live entries; only entries that were there or that an operation adds come into the table |
| `WeakCaches.WeakCache.TraceWeak` | js/GCHashTable.h:424-441 | sweeps every entry where it is and returns their number; the table is in order afterwards if and only if relocation changed no hash and kept keys apart, and when nothing moved it ends as exactly what clients saw |
| `WeakCaches.WeakCache.Life` | js/GCHashTable.h:424-594 | barrier set, any operations, final sweep: every lookup answers, and the table ends, as the entries live at the start would after the same operations; when only equal keys match, as that very map and with the values it has at each moment |
| `WeakCaches.SeenOnPlainMaps` | js/GCHashTable.h:443-594 | when only equal keys match, what clients see is a plain map under the same operations |
| `WeakCaches.PlainAnswers` | js/GCHashTable.h:500-594 | then each lookup answers the value that this plain map has under the key when it is made |
| `WeakCaches.LiveFromIsLive` | js/GCHashTable.h:464-490 | what is enumerated is exactly the live entries |
| `WeakCaches.LiveFromInOrder` | js/GCHashTable.h:464-490 | in table order |
| `WeakCaches.LiveFromDistinct` | js/GCHashTable.h:464-490 | no key is enumerated twice |
| `WeakCaches.Range.PopFront` | js/GCHashTable.h:474-477 | with settle, by mutual recursion that terminates: steps to the next live entry, so that the front is never dead |
| `WeakCaches.Range.Settle` | js/GCHashTable.h:483-489 | skips dead entries and no live one |
| `WeakCaches.EnumeratedIsLive` | js/GCHashTable.h:464-490 | what is enumerated is every entry of what clients see, once, and nothing else |
| `WeakCaches.Enumerate` | js/GCHashTable.h:464-490 | a whole enumeration yields what clients see, in table order |
| `Probing.PreparedHash` | mozilla/HashTable.h:1650-1658 | a prepared hash is the product with the golden ratio modulo 2^32, made even, where the reserved codes 0 and 1 become 2^32 - 2 |
| `Probing.HashesAreFields` | mozilla/HashTable.h:1730-1742 | the first slot tried is the upper bits of the hash; the step is the bits below those, made odd |
| `Probing.StepIsModular` | mozilla/HashTable.h:1744-1747 | the wrapping 32-bit step, cut by the mask, is subtraction modulo the capacity |
| `Probing.ProbeClosed` | mozilla/HashTable.h:1730-1747 | the n-th slot tried is h1 - n * h2 modulo the capacity |
| `Probing.OddInverse` | mozilla/HashTable.h:1737-1742 | the step, made odd, is invertible modulo every power of two |
| `Probing.ProbeReaches` | mozilla/HashTable.h:1730-1747 | the probes of every hash reach every slot, so a probe loop ends as soon as a slot that stops it exists |
| `HashCells.MissIsMiss` | mozilla/HashTable.h:1763-1810 | stopping at a free slot without a match means no key in the table matches |
| `HashCells.RemoveGood` | mozilla/HashTable.h:1920-1926 | leaving a sentinel only where a probe has passed keeps every other entry reachable and removes just this one |
| `HashCells.FillGood` | mozilla/HashTable.h:1990-2005 | an entry written where its probe gets to, keeping the bit of a sentinel it overwrites, is found and hides nothing |
| `HashCells.FreeByCount` | mozilla/HashTable.h:1891-1912 | counts of live and removed entries below the capacity mean that a slot is free |
| `DoubleHashing.DoubleHashTable.Lookup` | mozilla/HashTable.h:1763-1810 | the probe loop terminates and finds the entry exactly when there is one with a matching key |
| `DoubleHashing.DoubleHashTable.ProbeForAdd` | mozilla/HashTable.h:1763-1810 | the same while setting collision bits, which change nothing a client sees; a miss returns the first slot on the key's way that is not live, where it will be found, and marks exactly the live slots before that one |
| `DoubleHashing.DoubleHashTable.LookupForAdd` | mozilla/HashTable.h:2107-2125 | the same, and without a store a miss that returns no slot |
| `DoubleHashing.DoubleHashTable.FindNonLiveSlot` | mozilla/HashTable.h:1815-1843 | ends at the first slot tried for the hash that is not live, the one a missing lookup for adding would return, and marks exactly the live slots tried before it |
| `DoubleHashing.DoubleHashTable.RemoveAt` | mozilla/HashTable.h:1920-1933 | empties exactly one slot, to a counted sentinel if a probe had passed it and else to a free slot |
| `DoubleHashing.DoubleHashTable.WriteAt` | mozilla/HashTable.h:1990-2005 | fills exactly one slot, which has a collision bit if and only if it was a sentinel, and counts it |
| `DoubleHashing.DoubleHashTable.RemoveFound` | mozilla/HashTable.h:2248-2255 | removes the entry that a lookup found; the store is halved exactly when it is above the least capacity and at most a quarter live, given storage, and is otherwise kept with that one slot emptied |
| `DoubleHashing.DoubleHashTable.Remove` | mozilla/HashTable.h:2248-2255 | removes the entry with a matching key, if there is one, and halves the store by the same rule |
| `DoubleHashing.DoubleHashTable.ChangeTableSize` | mozilla/HashTable.h:1847-1889 | a new store of any capacity that the entries fill to at most three quarters holds the same map, without sentinels; it is the table that inserting them in slot order gives |
| `HashCells.LiveItemsInOrder` | mozilla/HashTable.h:1876-1884 | the order in which entries are copied: each after those of the live slots before its own |
| `DoubleHashing.DoubleHashTable.RehashIfOverloaded` | mozilla/HashTable.h:1891-1912 | rebuilds exactly when three quarters are live or removed entries: at the same capacity when a quarter is removed ones, else at twice that, so that it grows only when more than half is live; fails exactly for want of storage or capacity; keeps the map, and leaves a free slot even after the next add |
| `DoubleHashing.DoubleHashTable.AddAt` | mozilla/HashTable.h:2128-2186 | adds at the slot a lookup returned, taking over a removed slot as it is, allocating the first store, or rebuilding an overloaded one, with the slots as inserting in order then gives them; the store grows only when more than half is live; says exactly when it fails for want of storage or capacity, and then changes nothing a client sees |
| `DoubleHashing.DoubleHashTable.Put` | mozilla/HashTable.h:251-266 | overwrites the value under a matching key or adds the entry, on the table in memory, with the same law of growth |
| `DoubleHashing.DoubleHashTable.AddIfAbsent` | mozilla/HashTable.h:545-549 | the put of a set: adds an entry when no key matches, and else does nothing; with the same law of growth |
| `DoubleHashing.DoubleHashTable.Compact` | mozilla/HashTable.h:2020-2037 | keeps the map, lets an empty store go, and otherwise shrinks to the least capacity of which the entries are at most three quarters; that the best capacity is never above the present one, as the source asserts, follows from the load limit that every operation keeps |
| `DoubleHashing.BestIsLeast` | mozilla/HashTable.h:1613-1636 | the capacity computed by rounding up is the least one in use that the entries fill to at most three quarters |
| `DoubleHashing.DoubleHashTable.RekeyWithoutRehash` | mozilla/HashTable.h:2257-2267 | slot by slot: the entry's slot is emptied, and a slot that is not live then holds it under the new key; all others stay, even when the last free slot is taken |
| `DoubleHashing.RekeyingCanUseUpFreeSlots` | mozilla/HashTable.h:2257-2267 | a table in order with a free slot in which rekeying one entry leaves no free slot |
| `DoubleHashing.DoubleHashTable.RehashTableInPlace` | mozilla/HashTable.h:1947-1985 | rebuilding by swaps alone terminates, keeps the map, leaves no sentinel and a collision bit on every entry, and gives back a free slot; the table is the one that inserting the entries in some order gives, as the source claims |
| `HashCells.PlacingInserts` | mozilla/HashTable.h:1947-1977 | placing one more entry is inserting it among those already placed |
| `HashCells.FirstNoneUnique` | mozilla/HashTable.h:1815-1843 | the place an insertion chooses is determined by the table and the hash |
| `DoubleHashing.DoubleHashTable.PlaceEntry` | mozilla/HashTable.h:1966-1977 | one swap places one more entry for good and loses none |
| `DoubleHashing.DoubleHashTable.InfallibleRehashIfOverloaded` | mozilla/HashTable.h:1914-1918 | after any run of rekeyings, with storage or without, the table is valid again and holds the same map; one that is not overloaded is left alone, and an overloaded one is rebuilt in a new store, by the same rule of growth, exactly when that can be had, and else in place |
| `TableSweeping.TraceWeakRekeying` | mozilla/HashTable.h:1428-1499 | the rekeying sweep with the enumeration of the table in memory, with storage or without: it ends valid and holds exactly what the live entries end as, the image of them under the same exact condition; when something died the store is compacted to the least capacity, or let go when nothing is left, and when nothing died it does not shrink |
| `TableCaches.LookupForAdd` | js/GCHashTable.h:509-516 | on the table in memory, where removing a dead hit may replace the store: what clients see is unchanged, a live entry is found, and otherwise the slot returned is good for adding at in the store as it then is |
| `TableCaches.LookupOrAdd` | js/GCHashTable.h:509-578 | what is found is the live value under a matching key; adding at that slot is legal, adds the entry to what clients see, and fails only for want of storage or capacity |
| `Erasures.SlotIsFirstFit` | function2/function2.hpp:484-494 | in place is possible exactly when some aligned slot in the buffer fits the box, and the slot taken is the first such |
| `Erasures.AddBoxSound` | function2/function2.hpp:943-957 | ownership stays sound when a box is placed: one erasure gains one box, all others keep theirs |
| `Erasures.RemoveBoxFacts` | function2/function2.hpp:914-931 | ownership stays sound when a box and its block go |
| `Erasures.HandOverSound` | function2/function2.hpp:879-892 | ownership stays sound when a heap box changes hands by its pointer |
| `Erasures.Erasure.ConstructBox` | function2/function2.hpp:941-957 | a box goes in place exactly when it fits, else to one new block; the erasure then holds the callable |
| `Erasures.Erasure.WeakDestroy` | function2/function2.hpp:914-931 | destroys exactly the box held, frees exactly its block, touches no other erasure |
| `Erasures.Erasure.DestroyBox` | function2/function2.hpp:1021-1025 | destroys the box and frees its block likewise, and leaves the erasure empty |
| `Erasures.Erasure.MoveTo` | function2/function2.hpp:1005-1011 | between any two capacities the target holds what the source held and the source is empty; a heap box is handed over by its pointer with nothing made, destroyed, allocated or freed, and a box in place is made anew, in place where it fits and else in one block |
| `Erasures.Erasure.CopyTo` | function2/function2.hpp:901-913 | afterwards both hold the callable; the copy of any box, heap or not, goes in place exactly when it fits the target and else in one new block, and nothing is destroyed or freed |
| `Erasures.Erasure.Invoke` | function2/function2.hpp:595-608 | a call, which goes by the table and not by the command, reaches exactly the callable held |
| `Erasures.Erasure.Empty` | function2/function2.hpp:1035-1040 | true exactly when nothing is held |
| `Erasures.Erasure.AssignMove` | function2/function2.hpp:1208-1214 | move assignment: the old box goes, the new one arrives, the source is empty; the old box and block are all that is lost, and a heap box arrives by its pointer |
| `Erasures.Erasure.AssignCopy` | function2/function2.hpp:1216-1221 | copy assignment: both hold the callable; the copy goes in place where it fits |
| `Erasures.Erasure.AssignCallable` | function2/function2.hpp:1233-1254 | assignment of a callable, which clears when its boolean value is false; the new box goes in place where it fits, and the old one goes |
| `Erasures.Erasure.AssignConverted` | function2/function2.hpp:1223-1231 | assignment by value from another configuration, moved through a temporary that is gone afterwards; it says which boxes and blocks are made and lost on the way |
| `Erasures.Erasure.AssignConvertedCopy` | function2/function2.hpp:1611-1619 | the same copied, so that the source keeps what it holds |
| `Erasures.Erasure.InitCallable` | function2/function2.hpp:1171-1196 | construction from a callable, empty when its boolean value is false; the box goes in place where it fits |
| `Erasures.Erasure.InitConverted` | function2/function2.hpp:1163-1169 | construction by value from another configuration, through a temporary; it says which boxes and blocks are made and lost on the way |
| `Erasures.Erasure.InitConvertedCopy` | function2/function2.hpp:1566-1574 | the same copied |
| `Erasures.Erasure.Swap` | function2/function2.hpp:1668-1677 | three moves exchange the contents, whatever the capacities; nothing happens with itself; a heap box changes hands by its pointer, and every box made on the way is matched by one destroyed |
| `ErasureRuns.EffectMeans` | function2/function2.hpp:1144-1254 | what each operation is to do, element by element: constructions leave one more at the end, moves empty what they move from, copies leave it, a swap exchanges two, what follows an erasure that ends moves up, and nothing else changes |
| `ErasureRuns.Create` | function2/function2.hpp:1144-1196 | every constructor (empty, from a callable, by move, by copy, from another configuration moved or copied) adds one erasure that holds what it should, and changes no other than a source that is moved from |
| `ErasureRuns.Destroy` | function2/function2.hpp:1198-1200 | the destructor takes away one erasure with what it held and leaves all others as they are |
| `ErasureRuns.Do` | function2/function2.hpp:1144-1254 | each construction, assignment, swap and destruction keeps memory in order and acts on the callables held as on a plain sequence, also as told element by element |
| `ErasureRuns.Run` | function2/function2.hpp:1127-1254 | over any run of constructions, assignments, swaps and destructions every erasure agrees with its storage, every box has one owner, counts of boxes and blocks balance, and each erasure holds what the operations say |
| `ErasureRuns.BoxesAreHeld` | function2/function2.hpp:1127-1254 | at any time, boxes made less boxes destroyed is the number of erasures that hold something: nothing is leaked on the way either |
| `ErasureRuns.NothingLeft` | function2/function2.hpp:1198-1200 | without erasures there is no box and no block |
| `ErasureRuns.Lifetime` | function2/function2.hpp:1127-1254 | from nothing through any run, and the destruction of what is left, to nothing: no box and no block is left, destroyed equals made, freed equals allocated |

## Left out

- Converters from and to text, character encodings, JSON, big integers and the calendar functions: only their declarations are in this repository.
- The slow paths of the conversions, which call into parts that are not here.
- The growth policy of vectors, arenas, zones and tracers beyond what the members above use.
- Store-buffer locks around the end of a sweep, and failure to allocate in the weak tables; `DoubleHashing` does have the failure.
- Reserving capacity, clearing, generations and re-entrancy guards of the table in memory.
- `relookupOrAdd`, `replaceKey`, `clear`, `clearAndCompact` and `capacity` of the weak containers.
- The set variant of the weak cache beyond its test for dead elements: it is the map with values of one element.
- WeakSweeping.TraceWeakRekeying: relocation must be idempotent on entries that get a new key and take no two live entries to matching keys, as the header's users must ensure.
- WeakCaches.WeakCache.Run: with the barrier set, an entry that is added must be live, and one that is put must be live under each matching key that may be in the table; `WeakCaches.WeakCache.Put` says what happens otherwise.
- WeakCaches.WeakCache.Life: the entry policy must agree with itself on the entries that were there or may have been added, and move none of them, as the set cache asserts; `WeakCaches.WeakCache.TraceWeak` has the sweep of moved entries.
- Tracing of strong edges, `isValid`, and the policies of results and variants.
- ErasureRuns.Run: moves and copies take two distinct erasures, and constructors, destructors and allocators of user types do not throw; the temporaries from which a box is built are not counted.
- Function views, which do not own, and the selection of overloads by qualifiers.
- GrayMarking.Heap.UnmarkGrayGCThingRecursively: its code is not in this repository; the method realises its documentation.
- Atomicity of bitmap words between threads.
- Rounding to the nearest multiple and single-bit masks of jstypes.h, packing of class flags, identifiers and column numbers: they would only add easy round trips.
