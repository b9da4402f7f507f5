# Verified model of the emulator core and the value serializer

A Dafny model of six parts of the repository, with proofs.

**SoftFloat arithmetic** (`Words`, `MultiWord`, `Ieee`, `IeeeRounding`, `FloatRounding`, `SoftFloat`,
`Float64`, `NaNs`, `Division`, `Multiplication`, `ExactResults`, `Remainder`, `Addition`, `Float32`,
`SignedRounding`, `SignedResults`). `Ieee` defines independently of the code what IEEE 754-2008 asks for: the magnitude an encoding stands for (section 3.4),
the encoding nearest to an exact rational in each rounding direction (section 4.3), and the exceptions of
sections 7.4 to 7.6. Division, multiplication, addition, subtraction and remainder of float64 and division
of float32 are methods over 64-bit and 32-bit words, proved to deliver exactly that result and exactly
those flags, in all four rounding modes and for both ways of detecting tininess, on every operand. `SignedRounding`
says what the four modes and the exceptions mean for signed values, `SignedResults` what sum and remainder are.

**Memory topology** (`FlatViews`, `MemoryRegions`, `Rendering`, `Topology`, `TopologyUpdate`,
`RegionChanges`, `SilentChanges`, `RootMoves`, `MemoryTransactions`, `MemoryRuns`). `Walk` says who owns an
address in a tree of regions. Rendering, simplification, the two difference passes and the transaction
functions work on the array of ranges in place and are proved against it, and every run of operations keeps
the map and its listeners consistent.

**Dispatch** (`PhysPages`, `PhysUpdates`, `PhysMaps`, `MemoryDispatch`, `MemoryListener`,
`AddressResolution`). The radix table with its node allocator, the section list and the sub-pages, built by
the listener from the callbacks of an update. The end-to-end result is that in every run of operations, whenever no
update is pending, the two-step lookup of a physical address finds what the walk over the region tree finds.
Page size, entries per node and number of levels are parameters.

**Software TLB** (`TlbEntries`, `LargePages`, `Bitwise`, `SoftTlb`, `WatchpointTest`). The table, the dirty flags
and the watchpoints of one CPU, with an invariant that every operation keeps: direct stores go to pages whose
dirty flags are all set, watched pages are trapped, and a remembered large page empties the table when flushed.
`WatchpointTest` says of every load and store which watchpoints catch it.

**Value serializer** (`Values`, `ValueLayout`, `ValueReader`, `ValueRoundTrip`, `ValueLimits`, `ValueAlignment`, `ValueSurvival`,
`SurvivingNulls`, `ValueStreams`). The writer and the reader over a cursor, and which values survive a round trip.

**RAM addresses** (`RamBlocks`). The block list of the guest RAM allocator.

Where code and documentation disagree, the model follows the code:

- `memory_region_set_address` and attaching a region store a new address into the root of an address space
  without asking for an update (vx64/qemu/memory.c:1212-1215). The map is then stale although no update is
  pending. `MemoryRuns.UnnoticedMove` says exactly when this matters, `MemoryRuns.MovedRootGoesStale` gives a tree.
- An unaligned load of a watched page reads two aligned words, so it is also caught by a watchpoint on bytes of
  those words that it does not touch; an unaligned store first reads and writes back each byte, so it is caught by
  watchpoints for reading too (vx64/qemu/include/exec/softmmu_template.h:174-188 and 327-343).
  `WatchpointTest.Load` and `WatchpointTest.Store` say exactly which watchpoints catch an access; none is missed.
- Making the entries of all MMU modes direct after a slow store (vx64/qemu/exec.c:1256-1257) is safe exactly when
  the modes map the page to RAM whose flags are all set; the last conditions of `SoftTlb.Cpu.NotDirtyWrite` say so.
- The setter for 16-bit integers assigns in the wrong direction (utils/txvalue.hpp:316-322), so 16-bit integers
  are read back as zero; a null writes nothing; a UTF-8 string comes back as a local one; array indices
  of more than 35 bits and buffers of 2^32 bytes or more are cut off. `ValueSurvival.RoundTripExactly` is the exact
  condition for values without nulls and for values without strings.
- A string with a count of zero passes the check for its final zero, which then looks at the count itself
  (utils/xvreader.h:274-280): the value is the C string at the cursor, and the cursor does not move. Because of this
  a value with nulls can come back by accident. `SurvivingNulls.NullsCanSurvive` gives one, of 260 bytes and with
  thirty-three nulls, so the condition above does not extend to all values.
- The page alignment of an allocation wraps to zero in the last page of the address space
  (vx64/qemu/exec.c:910), and an empty block closes the gap it stands in. `RamBlocks.AlignedPositive` and
  `RamBlocks.EmptyBlockClosesGap` say so.

## Model

| member | source | states |
|---|---|---|
| MultiWord.Add128 | vx64/qemu/fpu/softfloat-macros.h:353-363 | The two result words hold the sum modulo 2^128. |
| MultiWord.Sub128 | vx64/qemu/fpu/softfloat-macros.h:411-419 | The two result words hold the difference modulo 2^128, borrows included. |
| MultiWord.Wrap128IsModulo | vx64/qemu/fpu/softfloat-macros.h:346-351 | Dropping the carry or borrow of a 128-bit sum or difference is reduction modulo 2^128. |
| MultiWord.Mul64To128 | vx64/qemu/fpu/softfloat-macros.h:465-486 | The four partial products and their carries give the exact 128-bit product. |
| MultiWord.DigitIsClose | vx64/qemu/fpu/softfloat-macros.h:569-579 | Dividing by the upper half of a normalised divisor gives a 32-bit digit never below the true one and at most two above. |
| MultiWord.CorrectHighDigit | vx64/qemu/fpu/softfloat-macros.h:571-577 | The correction loop lowers the upper digit at most twice and ends with the true remainder, now between zero and the divisor. |
| MultiWord.EstimateDiv128To64 | vx64/qemu/fpu/softfloat-macros.h:562-582 | For a normalised divisor above the leading word the estimate lies between the truncated quotient and that plus two; otherwise it is all ones. |
| MultiWord.WithinTwoOfQuotient | vx64/qemu/fpu/softfloat-macros.h:553-560 | The bound used everywhere, stated without division, means exactly q <= z <= q + 2 for the truncated quotient q. |
| IeeeRounding.JamKeepsCell | vx64/qemu/fpu/softfloat-macros.h:75-99 | A jammed word tells the same half unit, and the same exact or inexact, as the value before the shift, so shifting never changes how it rounds. |
| IeeeRounding.StickyBitKeepsCell | vx64/qemu/fpu/softfloat.c:3597-3597 | Or-ing a sticky bit into a quotient keeps the half unit, and clears exactness exactly when a remainder was left. |
| SoftFloat.Shift64RightJamming | vx64/qemu/fpu/softfloat-macros.h:84-99 | For every shift count the result is the shifted word with the lost bits collected in its lowest bit. |
| Float32.Shift32RightJamming | vx64/qemu/fpu/softfloat-macros.h:58-73 | The 32-bit form of the same, for every shift count. |
| Float64.CountLeadingZeros64 | vx64/qemu/fpu/softfloat-macros.h:676-698 | Shifting left by the count puts the leading one into bit 63; zero counts 64. |
| Float64.NormalizeFloat64Subnormal | vx64/qemu/fpu/softfloat.c:443-452 | The significand gains its leading bit and exponent and significand together keep the value. |
| Float32.NormalizeFloat32Subnormal | vx64/qemu/fpu/softfloat.c:261-270 | The same for single precision. |
| Ieee.RoundingIsUnique | vx64/qemu/fpu/softfloat.c:472-493 | At most one encoding is the correctly rounded one, so every result proved below is the only acceptable one. |
| SoftFloat.WordRounding64 | vx64/qemu/fpu/softfloat.c:501-523 | Adding the rounding increment and dropping ten bits is rounding to the nearest, down or up unit as the mode asks, ties to even, and the carry out is recognised. |
| FloatRounding.PackingIsIeee | vx64/qemu/fpu/softfloat.c:501-547 | For a normalised, zero or exactly subnormal word in either format, rounding, denormalising, carrying into the exponent and overflowing give the encoding IEEE 754-2008 prescribes and raise exactly the exceptions of sections 7.4 to 7.6. |
| SignedRounding.DownIsBelow | vx64/qemu/fpu/softfloat.c:505-518 | In either format a result rounded down is at most the exact signed value, and no larger number, infinity included, is. |
| SignedRounding.UpIsAbove | vx64/qemu/fpu/softfloat.c:505-518 | A result rounded up is at least the exact signed value, and no smaller number is. |
| SignedRounding.UpIsDownNegated | vx64/qemu/fpu/softfloat.c:510-517 | Rounding up a value gives the magnitude that rounding down its negation gives. |
| SignedRounding.ToZeroIsWithin | vx64/qemu/fpu/softfloat.c:505-508 | Towards zero: the largest finite magnitude not above the exact one. |
| SignedRounding.NearestIsClosest | vx64/qemu/fpu/softfloat.c:503-504 | To nearest: no finite number of either sign is nearer, the even one wins a tie, and infinity comes exactly from half a unit beyond the largest finite number on. |
| SignedRounding.RaisedExactly | vx64/qemu/fpu/softfloat.c:519-543 | Overflow exactly for infinite results or values beyond the finite numbers, inexact exactly when the result differs, underflow exactly when it differs and is tiny, in both ways of detecting that. |
| SignedRounding.TinyAfter | vx64/qemu/fpu/softfloat.c:533-540 | Tiny after rounding means that the result, rounded to full precision with unbounded exponents, is below the normal numbers. |
| SignedRounding.RoundedDown64 | vx64/qemu/fpu/softfloat.c:495-549 | On words: a double rounded down is the largest double at most the exact value. |
| SignedRounding.RoundedUp64 | vx64/qemu/fpu/softfloat.c:495-549 | A double rounded up is the smallest double at least the exact value. |
| SignedRounding.RoundedToZero64 | vx64/qemu/fpu/softfloat.c:495-549 | A double rounded towards zero keeps the sign and has the largest magnitude within the exact one. |
| SignedRounding.RoundedNearest64 | vx64/qemu/fpu/softfloat.c:495-549 | No double is nearer than one rounded to nearest, and of two equally near the even one is taken. |
| SignedRounding.UpMirrorsDown64 | vx64/qemu/fpu/softfloat.c:510-517 | Rounding a double up is rounding the negated value down and negating. |
| SignedRounding.OverflowResults64 | vx64/qemu/fpu/softfloat.c:520-527 | Beyond the finite numbers each mode and sign has its word: infinity or the largest finite double. |
| SignedRounding.ExceptionsExactly64 | vx64/qemu/fpu/softfloat.c:519-543 | The exceptions of a double result, said of the result and of the result for twice the value. |
| SignedRounding.RoundedDown32 | vx64/qemu/fpu/softfloat.c:313-367 | The largest single at most the exact value. |
| SignedRounding.RoundedUp32 | vx64/qemu/fpu/softfloat.c:313-367 | The smallest single at least the exact value. |
| SignedRounding.RoundedToZero32 | vx64/qemu/fpu/softfloat.c:313-367 | The sign kept, and the largest magnitude within the exact one. |
| SignedRounding.RoundedNearest32 | vx64/qemu/fpu/softfloat.c:313-367 | No single is nearer, and the even one wins a tie. |
| SignedRounding.UpMirrorsDown32 | vx64/qemu/fpu/softfloat.c:328-335 | Rounding a single up is rounding the negated value down and negating. |
| SignedRounding.OverflowResults32 | vx64/qemu/fpu/softfloat.c:338-345 | The words for overflow in single precision, by mode and sign. |
| SignedRounding.ExceptionsExactly32 | vx64/qemu/fpu/softfloat.c:337-361 | The exceptions of a single result. |
| SoftFloat.RoundAndPackFloat64 | vx64/qemu/fpu/softfloat.c:495-549 | The returned word is the exact value rounded once in the current mode; overflow, underflow and inexact are added exactly as IEEE 754-2008 requires. |
| Float32.RoundAndPackFloat32 | vx64/qemu/fpu/softfloat.c:313-367 | The same for single precision. |
| ExactResults.RepresentableIsExact | vx64/qemu/fpu/softfloat.c:560-568 | A value the format can represent is returned unchanged, with no exception. |
| ExactResults.NormalizeRoundAndPackFloat64 | vx64/qemu/fpu/softfloat.c:560-568 | For a word that need not be normalised, the value it stands for is rounded once, with exactly the prescribed exceptions. |
| Division.EstimateCell | vx64/qemu/fpu/softfloat.c:3589-3599 | Skipping the correction is safe: an estimate at most two too large whose low nine bits exceed two rounds as the exact quotient does. |
| Division.CorrectQuotient | vx64/qemu/fpu/softfloat.c:3591-3597 | The correction loop ends on the truncated quotient and knows whether a remainder is left. |
| Division.QuotientWord | vx64/qemu/fpu/softfloat.c:3589-3598 | The quotient word is normalised and lies in the half unit of the exact quotient, exact exactly when it is. |
| Division.Float64Div | vx64/qemu/fpu/softfloat.c:3537-3601 | For all operands: the exact quotient rounded once with exactly its exceptions, and the prescribed results for zeros, infinities and NaNs, dividing by zero included. |
| Float32.QuotientCell32 | vx64/qemu/fpu/softfloat.c:2025-2029 | The sticky bit is needed only where the low six bits are clear: otherwise the truncated quotient already rounds as the exact one. |
| Float32.Float32Div | vx64/qemu/fpu/softfloat.c:1976-2032 | The same for single precision, on all operands. |
| NaNs.NaNKinds | vx64/qemu/fpu/softfloat-specialize.h:664-691 | The two bit tests divide the NaNs by the leading bit of the fraction. |
| NaNs.Silenced64 | vx64/qemu/fpu/softfloat-specialize.h:699-715 | A silenced NaN is quiet and keeps its sign and the rest of its fraction. |
| NaNs.NaNResultCommutes | vx64/qemu/fpu/softfloat-specialize.h:422-452 | Which operand comes first makes no difference to the NaN that is returned. |
| NaNs.LargerNaNWins64 | vx64/qemu/fpu/softfloat-specialize.h:422-452 | A NaN among the operands comes back that no operand exceeds in magnitude, a negative one only over another negative one when alike, with its sign and payload; in the default mode the default NaN. |
| Float32.LargerNaNWins32 | vx64/qemu/fpu/softfloat-specialize.h:422-452 | The same for single precision. |
| NaNs.PropagateFloat64NaN | vx64/qemu/fpu/softfloat-specialize.h:762-793 | The rules of the x87 amount to returning the operand of larger magnitude, of two alike the positive one, made quiet; only a signaling operand is invalid. |
| Float32.PropagateFloat32NaN | vx64/qemu/fpu/softfloat-specialize.h:563-597 | The same for single precision. |
| Multiplication.ProductWord | vx64/qemu/fpu/softfloat.c:3519-3526 | The upper product word with its sticky bit lies in the half unit of the whole product, before and after the one-bit normalisation. |
| Multiplication.Float64Mul | vx64/qemu/fpu/softfloat.c:3476-3529 | For all operands: the exact product rounded once with exactly its exceptions; zero times infinity is invalid, and NaNs propagate. |
| Addition.AddFloat64Sigs | vx64/qemu/fpu/softfloat.c:3278-3347 | The exact sum of the magnitudes rounded once, although alignment drops bits; infinities and NaNs as prescribed. |
| Addition.SubnormalSum | vx64/qemu/fpu/softfloat.c:3319-3331 | The shortcut for two subnormal operands is exact, also where the sum carries into the normal numbers, and raises nothing. |
| Addition.SubFloat64Sigs | vx64/qemu/fpu/softfloat.c:3357-3422 | The exact difference in sign and magnitude rounded once, although alignment jams bits; an exact zero takes its sign from the rounding mode; the difference of infinities is invalid, and NaNs propagate. |
| Addition.Float64Add | vx64/qemu/fpu/softfloat.c:3430-3445 | For all operands: the exact signed sum rounded once with exactly its exceptions; infinities of opposite signs are invalid, and NaNs propagate. |
| Addition.Float64Sub | vx64/qemu/fpu/softfloat.c:3453-3468 | The same for the difference. |
| SignedResults.SumIsSigned | vx64/qemu/fpu/softfloat.c:3430-3468 | What is returned for finite operands is the exact signed sum rounded once; an exact zero from opposite signs is positive unless rounding is down. |
| Remainder.ReductionStep | vx64/qemu/fpu/softfloat.c:3657-3660 | One pass of the loop takes a multiple of the divisor off the dividend scaled by 2^62: what is left, computed modulo 2^64, is exact and below the divisor. |
| Remainder.ReduceDividend | vx64/qemu/fpu/softfloat.c:3655-3661 | The whole loop keeps the dividend up to an even multiple of the divisor and leaves at most 64 bits of exponent difference. |
| Remainder.LastDigits | vx64/qemu/fpu/softfloat.c:3663-3669 | The last partial quotient is at most two too small and the quarter remainder computed modulo 2^64 is exact. |
| Remainder.NearestResidue | vx64/qemu/fpu/softfloat.c:3674-3684 | The subtraction loop and the choice between its last two values end on the residue nearest to zero, with an even quotient on a tie. |
| Remainder.SignificandRemainder | vx64/qemu/fpu/softfloat.c:3653-3684 | Together: the scaled dividend is an integer multiple of the divisor plus a residue of at most half of it, ties to even. |
| Remainder.RemainderIsRepresentable | vx64/qemu/fpu/softfloat.c:3685-3685 | The remainder of two float64 numbers is itself a float64 number. |
| Remainder.NearestIsUnique | vx64/qemu/fpu/softfloat.c:3603-3607 | There is only one integer nearest to the quotient with ties to even. |
| Remainder.RemainderIsUnique | vx64/qemu/fpu/softfloat.c:3603-3607 | So the remainder is determined, sign of zero included. |
| Remainder.Float64Rem | vx64/qemu/fpu/softfloat.c:3609-3687 | For all operands: exactly a - n * b for the integer n nearest to a / b with ties to even, without any exception; infinite dividends and zero divisors are invalid, and NaNs propagate. |
| SignedResults.RemainderIsSigned | vx64/qemu/fpu/softfloat.c:3603-3687 | As signed numbers the remainder is the dividend less an integer multiple of the divisor, at most half of the divisor, the integer even on a tie, and a zero has the sign of the dividend. |
| FlatViews.Memmove | vx64/qemu/memory.c:216-217 | Entries move to overlapping places as if all were read first, and nothing else changes. |
| FlatViews.FlatView.Insert | vx64/qemu/memory.c:209-220 | The range is inserted at the position, later entries move up by one, and growing the array keeps the contents. |
| FlatViews.AtInsert | vx64/qemu/memory.c:206-220 | Inserting a range that keeps the array sorted gives its addresses to it and changes the owner of no other. |
| MemoryRegions.WalkInside | vx64/qemu/memory.c:430-478 | An owner is found only inside the region that was walked, is an enabled terminating region, and the offset lies inside it. |
| MemoryRegions.WalkAnyRank | vx64/qemu/memory.c:430-478 | On acyclic trees the owner does not depend on the measure used to show that the walk ends. |
| MemoryRegions.WalkIsLocal | vx64/qemu/memory.c:430-478 | Walking in the coordinates of the address space finds the owner that a definition in the coordinates of each region gives, where an alias shows its target from the alias offset on. |
| MemoryRegions.WalkReadonly | vx64/qemu/memory.c:449-449 | What is found is read-only when it or the region walked is, and writable where no region is read-only. |
| Rendering.FillGaps | vx64/qemu/memory.c:475-514 | The range goes into exactly the gaps of the view: covered addresses keep their owner, uncovered ones inside it get the matching offset. |
| Rendering.RenderMemoryRegion | vx64/qemu/memory.c:430-515 | The view stays sorted and disjoint; covered addresses keep owner and offset; every other address of the clip gets exactly what the walk finds through subregions in list order, aliases and the region itself; nothing else is added; rendering ends on acyclic trees. |
| Rendering.RenderSubregions | vx64/qemu/memory.c:466-469 | The same for a list of subregions, the earlier obscuring the later. |
| Topology.MergePair | vx64/qemu/memory.c:227-237 | Joining two mergeable neighbours keeps the owner of every address. |
| Topology.JoinRun | vx64/qemu/memory.c:246-251 | The inner loop takes in exactly the run of successors that can be merged one after the other. |
| Topology.Simplify | vx64/qemu/memory.c:240-257 | Compacting in place keeps the owner of every address and leaves no two mergeable neighbours. |
| Topology.SimplifiedIsCanonical | vx64/qemu/memory.c:239-257 | Two simplified views that agree on every address are the same array. |
| Topology.TopologyIsUnique | vx64/qemu/memory.c:518-531 | A tree has only one flat map in this form. |
| Topology.GenerateMemoryTopology | vx64/qemu/memory.c:518-531 | The generated map says of every address who owns it in the tree, without empty, overlapping or mergeable ranges; without a root it is empty. |
| TopologyUpdate.TopologyPass | vx64/qemu/memory.c:535-595 | Each pass, walking both maps in step, makes exactly the callbacks that comparing them range by range calls for, in order. |
| TopologyUpdate.DeletedExactly | vx64/qemu/memory.c:559-570 | A range is reported deleted exactly when it is in the old map and no equal range is in the new one. |
| TopologyUpdate.AddedExactly | vx64/qemu/memory.c:571-593 | A range is reported added exactly when it is new, and gets a nop exactly when it was there before. |
| TopologyUpdate.LogsExactly | vx64/qemu/memory.c:577-585 | Logging is reported started exactly for a range of both maps whose mask was clear and no longer is, and stopped exactly for the converse. |
| TopologyUpdate.EqualButLogging | vx64/qemu/memory.c:190-197 | The comparison of ranges ignores the logging mask and nothing else. |
| TopologyUpdate.UpdateDelivers | vx64/qemu/memory.c:598-608 | A listener that holds the old map can follow every callback, holds pairwise disjoint ranges after each, and ends holding exactly the new map with its logging. |
| RegionChanges.InsertedInOrder | vx64/qemu/memory.c:1152-1158 | Inserting before the first sibling of no higher priority keeps the list sorted by priority and free of repetitions. |
| RegionChanges.AttachedLinked | vx64/qemu/memory.c:1128-1158 | Attaching a region keeps parents and lists in agreement. |
| RegionChanges.DetachedLinked | vx64/qemu/memory.c:1188-1190 | So does detaching one. |
| RegionChanges.AttachedExactly | vx64/qemu/memory.c:1128-1158 | The region gets its parent, address, overlap and priority, stands in the list after all of higher priority and before the others, which keep their order, and nothing else in the store changes. |
| RegionChanges.DetachedExactly | vx64/qemu/memory.c:1188-1190 | The region loses its parent and leaves the list, whose others keep their order, and nothing else changes. |
| RegionChanges.ChangeLinked | vx64/qemu/memory.c:936-1239 | Every operation leaves a well linked, acyclic tree of the same regions. |
| SilentChanges.WalkAlike | vx64/qemu/memory.c:444-478 | Trees that differ only in what rendering does not look at have the same owner for every address. |
| SilentChanges.SilentChangeAlike | vx64/qemu/memory.c:936-1239 | An operation that leaves the update flag unset changes only disabled regions, disabled list entries and addresses of unlisted regions. |
| RootMoves.SilentKeepsRendering | vx64/qemu/memory.c:936-1239 | An operation that leaves the update flag unset never changes the rendering, unless it moves the root. |
| RootMoves.PlacementsAgree | vx64/qemu/memory.c:1212-1215 | Two placements of the root show the same exactly when the lower one shows nothing. |
| RootMoves.SilentRootMove | vx64/qemu/memory.c:1212-1215 | A silent move of the root keeps the rendering exactly when the tree, placed at the lower of the old and new address, shows nothing. |
| MemoryTransactions.Memory.constructor | vx64/qemu/memory.c:1376-1386 | A new address space has an empty map, depth zero and nothing pending. |
| MemoryTransactions.Memory.TransactionBegin | vx64/qemu/memory.c:610-614 | Only the depth changes. |
| MemoryTransactions.Memory.TransactionCommit | vx64/qemu/memory.c:616-632 | The outermost commit with an update pending installs the topology of the tree and reports the deletions, then the additions; every other commit only lowers the depth. |
| MemoryTransactions.Memory.UpdateTopology | vx64/qemu/memory.c:598-608 | The map becomes the topology of the root, and exactly the deletions followed by the additions have been called. |
| MemoryTransactions.Memory.AddSubregionCommon | vx64/qemu/memory.c:1120-1162 | Inside a transaction the region gets its parent, address, overlap and priority and its place in the list, and an update is asked for when both regions are enabled. |
| MemoryTransactions.Memory.AddSubregion | vx64/qemu/memory.c:1165-1172 | The region attached with overlap refused and priority zero, and the rest of the store as it was, then the commit. |
| MemoryTransactions.Memory.AddSubregionOverlap | vx64/qemu/memory.c:1174-1182 | The same with overlap allowed and the given priority. |
| MemoryTransactions.Memory.DelSubregion | vx64/qemu/memory.c:1184-1193 | The region detached and the rest of the store as it was, then the commit. |
| MemoryTransactions.Memory.SetEnabled | vx64/qemu/memory.c:1195-1204 | Nothing when the flag is unchanged; otherwise the flag has the given value, no other field or region changes, and an update is asked for. |
| MemoryTransactions.Memory.SetReadonly | vx64/qemu/memory.c:991-999 | Nothing when unchanged; otherwise the flag has the given value, nothing else changes, and an update is asked for if the region is enabled. |
| MemoryTransactions.Memory.SetReadable | vx64/qemu/memory.c:1001-1009 | The same for the readable flag of a ROM device. |
| MemoryTransactions.Memory.SetLog | vx64/qemu/memory.c:936-944 | The bit of the client is set exactly when logging is asked for, every other bit, field and region is as before, and an update is asked for if the region is enabled. |
| MemoryTransactions.LogMaskIs | vx64/qemu/memory.c:938-941 | In the new mask the bit of the client is the flag, and every other bit is as before. |
| MemoryTransactions.LogOnAndOff | vx64/qemu/memory.c:938-941 | Logging switched on and off again leaves the mask with the bit off. |
| MemoryTransactions.Memory.SetAliasOffset | vx64/qemu/memory.c:1227-1239 | Nothing when unchanged; otherwise the offset is stored, nothing else changes, and an update is asked for if the region is enabled. |
| MemoryTransactions.Memory.SetAddress | vx64/qemu/memory.c:1206-1225 | A region without parent, or at the same address, is only stored to; any other is taken out and put back in one transaction with its overlap and priority kept, which ends in the same state as one change. |
| MemoryRuns.StepKeeps | vx64/qemu/memory.c:610-632 | Every step keeps: no update pending at depth zero, the map up to date unless one is pending, and listeners holding exactly the map; the one exception is a root moved unnoticed. |
| MemoryRuns.RunStaysConsistent | vx64/qemu/memory.c:610-632 | In every run of nested operations from an empty rendering, whenever the depth is zero no update is pending and the map equals the freshly generated topology. |
| MemoryRuns.UnnoticedMove | vx64/qemu/memory.c:1212-1215 | Moving the root without an update keeps the state consistent exactly when the tree as it was, placed at the lower of the old and new address, shows nothing. |
| MemoryRuns.MovedRootGoesStale | vx64/qemu/memory.c:1212-1215 | A concrete tree for which the map is stale afterwards with nothing pending. |
| PhysMaps.PhysMap.NodeReserve | vx64/qemu/exec.c:87-97 | There is room for the nodes asked for, and the existing ones keep their contents. |
| PhysMaps.PhysMap.NodeAlloc | vx64/qemu/exec.c:99-112 | The next node is handed out with empty entries; no other node changes. |
| PhysUpdates.UpdatedTwice | vx64/qemu/exec.c:142-152 | Two updates of adjoining page ranges make one update of the joined range. |
| PhysUpdates.Lift | vx64/qemu/exec.c:140-149 | An update below one slot of a node, stored back, is an update of the node that touches no page outside the slot. |
| PhysMaps.CountNodes | vx64/qemu/exec.c:120-153 | One node per level for each end of the range is enough, whatever the alignment. |
| PhysMaps.NextSlot | vx64/qemu/exec.c:142-152 | One turn of the loop sets the pages of one slot more, within the node bound. |
| PhysMaps.PhysMap.SetLevel | vx64/qemu/exec.c:120-153 | Exactly the pages of the range inside the entry now show the leaf, index and count advance past them, no node is shared, and the array never grows during the recursion. |
| PhysMaps.PhysMap.PageSet | vx64/qemu/exec.c:155-163 | For any number of levels exactly the given pages show the leaf and all others are as before; at most 2 * levels - 1 nodes are added, so the reserve always suffices and no assertion fires. |
| PhysMaps.PhysMap.PageFind | vx64/qemu/exec.c:165-183 | The loop down the levels finds what the recursive reading of the table says. |
| MemoryListener.Dispatch.Begin | vx64/qemu/exec.c:1494-1509 | Afterwards every address finds the unassigned section and the four fixed sections are in place, and no sub-page leads to RAM itself. |
| MemoryListener.Dispatch.SectionAdd | vx64/qemu/exec.c:645-654 | The section is appended and its index, which fits the 15 bits of a page entry, returned. |
| MemoryListener.Dispatch.SubpageRegister | vx64/qemu/exec.c:1419-1442 | Bytes outside the page are refused; otherwise exactly the bytes given hold the section, RAM replaced by its stand-in, so that no sub-page ever leads to RAM itself. |
| MemoryListener.StandInsFilled | vx64/qemu/exec.c:1432-1439 | Filling entries of a sub-page with a section that is not RAM keeps every sub-page leading past RAM. |
| MemoryListener.Dispatch.RegisterSubpage | vx64/qemu/exec.c:661-686 | Exactly the bytes of the section now find it, or its stand-in for RAM, at the same offsets; no sub-page leads to RAM itself; the assertion holds whenever the page shows no whole-page memory section. |
| MemoryListener.Dispatch.RegisterMultipage | vx64/qemu/exec.c:689-701 | Exactly the addresses of the whole pages now find the section, and sub-pages still lead past RAM. |
| MemoryListener.Dispatch.MemAdd | vx64/qemu/exec.c:703-735 | Head, whole pages and tail together: exactly the addresses of the section find its region at the right offset, however its start, size and region offset are aligned; no sub-page leads to RAM itself. |
| MemoryListener.Dispatch.FindSection | vx64/qemu/exec.c:1344-1360 | The page table, then on a sub-page its own table, find the section the abstract lookup names. |
| AddressResolution.StandInExactly | vx64/qemu/exec.c:1432-1439 | When no sub-page leads to RAM, RAM is found as its stand-in exactly on split pages and as itself on whole ones, and nothing else is ever found as the stand-in. |
| AddressResolution.UpdateHeard | vx64/qemu/exec.c:703-735 | Hearing additions and nops alike, the listener is given exactly the new map in order, whatever the old one was. |
| AddressResolution.TopologyInBounds | vx64/qemu/memory.c:518-531 | Ranges of a map lie in the 64-bit address space and their offsets inside a terminating region. |
| AddressResolution.HearUpdate | vx64/qemu/exec.c:703-735 | After an update the tables answer for every address as the flat map does, no sub-page leads to RAM itself, and the assertion of register_subpage never fails. |
| AddressResolution.AccessReachesOwner | vx64/qemu/exec.c:1344-1360 | When the map is up to date and the tables show it, an access reaches the region and the offset that walking the tree finds, RAM through its stand-in exactly on split pages; an address nobody owns reaches the unassigned section. |
| AddressResolution.StepKeepsTables | vx64/qemu/memory.c:610-632 | Every operation, its own commit included, keeps tree, map and tables in agreement; only a root moved unnoticed is excluded. |
| AddressResolution.RunReachesOwner | vx64/qemu/memory.c:610-632 | In every run of nested operations with the dispatch listener attached: whenever no update is pending, so whenever no transaction is open, every access reaches the region and offset that walking the tree finds, RAM through its stand-in exactly on split pages. |
| AddressResolution.CommitAndDispatch | vx64/qemu/memory.c:616-632 | The outermost commit leaves no update pending, the map up to date, and every address below the table limit resolving to the owner and offset the walk over the tree finds, RAM through its stand-in exactly on split pages, or to the unassigned section. |
| TlbEntries.FlushTest | vx64/qemu/cputlb.c:83-88 | The masked comparison of words is true exactly when the word matches the page. |
| TlbEntries.DirtyRamTest | vx64/qemu/cputlb.c:141-144 | The three flag bits are clear exactly for a word that matches a page and lets stores go straight to memory. |
| TlbEntries.SetDirtyTest | vx64/qemu/cputlb.c:192-197 | The comparison is true exactly for the word of the page with the slow flag alone. |
| TlbEntries.FlushEntry | vx64/qemu/cputlb.c:81-91 | The entry is emptied exactly when one of its three words matches the page. |
| TlbEntries.ResetDirtyRange | vx64/qemu/cputlb.c:146-157 | A direct store becomes slow exactly when its host address lies in the range, with wrap-around. |
| TlbEntries.SetDirtyOne | vx64/qemu/cputlb.c:192-197 | A slow store to the page becomes direct, and no other word changes. |
| TlbEntries.FlushedOk | vx64/qemu/cputlb.c:81-91 | Flushing an entry keeps the invariant and leaves nothing for the page. |
| LargePages.BlockInBlock | vx64/qemu/cputlb.c:228-231 | A smaller aligned block lies inside the larger one that contains its start. |
| LargePages.AddLargePage | vx64/qemu/cputlb.c:215-234 | Widening ends, covers the new page entirely, and only ever enlarges the area. |
| LargePages.RemembersMore | vx64/qemu/cputlb.c:215-234 | So the area still covers every large page entered before. |
| SoftTlb.Cpu.Flush | vx64/qemu/cputlb.c:55-79 | Every entry of every mode is empty and no large page is remembered. |
| SoftTlb.Cpu.FlushPage | vx64/qemu/cputlb.c:93-122 | No mode keeps an entry for the page; if the address lies in any large page entered since the last full flush, the whole table is empty; other entries are untouched or emptied. |
| SoftTlb.NewEntryOk | vx64/qemu/cputlb.c:262-310 | A filled entry is in its slot, stores to the RAM page that its iotlb names and directly only if the flags of that page are all set, and is trapped if a watchpoint on the page matches. |
| SoftTlb.Cpu.FindWatch | vx64/qemu/exec.c:579-588 | The search finds a watchpoint exactly when one on the page concerns the access. |
| SoftTlb.Cpu.SetPage | vx64/qemu/cputlb.c:239-311 | The one slot is filled: each word is present exactly for its protection bit and matches the page; what goes the slow way is devices, watched accesses, and stores to ROM or to RAM whose flags are not all set; addend and iotlb lead to the memory; nothing else changes, large pages are remembered, and the invariant holds; the modes still agree on RAM pages if this fill does. |
| SoftTlb.WatchThenFill | vx64/qemu/exec.c:271-301 | After a watchpoint has been inserted, the next entry for its page with write access is trapped in every mode. |
| SoftTlb.ResetKeeps | vx64/qemu/cputlb.c:146-157 | After an entry is reset, whatever it can still store to directly is outside the range. |
| SoftTlb.ResetSlows | vx64/qemu/exec.c:522-538 | A direct store to a RAM page of the range becomes slow, one to a host address outside stays, and nothing else of an entry changes. |
| SoftTlb.Cpu.ResetDirty | vx64/qemu/exec.c:522-538 | In the range exactly the given flags are off and the others as before, and elsewhere nothing changes; exactly the entries that point into it become slow, and the invariant holds. |
| SoftTlb.Cpu.SetDirty | vx64/qemu/cputlb.c:201-211 | Exactly the slow entries of the page become direct, in every mode. |
| SoftTlb.StoreKeeps | vx64/qemu/exec.c:1252-1257 | An entry made direct by a slow store is safe exactly when the flags of its own RAM page are then all set. |
| SoftTlb.Cpu.NotDirtyWrite | vx64/qemu/exec.c:1228-1258 | The flags of the RAM page that the iotlb names become all set except perhaps that for code; entries become direct only when all are; the invariant holds exactly when every entry made direct has a RAM page with all flags set, as it does when the modes agree. |
| Bitwise.PowerTest | vx64/qemu/exec.c:278-278 | Of the lengths that are not zero, n & (n - 1) is zero exactly for the powers of two. |
| Bitwise.MaskIsRemainder | vx64/qemu/exec.c:274-278 | Masking with a power of two less one is the remainder, so the alignment test is divisibility. |
| SoftTlb.Cpu.WatchpointInsert | vx64/qemu/exec.c:271-301 | Refused exactly for lengths that are not powers of two, exceed a page or do not divide the address; otherwise the list has that watchpoint more, first if it is the debugger's and last if not, the others in their order, with no entry left for the page. |
| SoftTlb.Cpu.WatchpointRemove | vx64/qemu/exec.c:304-328 | The first watchpoint with this address, length and flags goes and no other, with no entry left for the page, or an error is returned exactly when there is none. |
| SoftTlb.Cpu.NoMissedWatchpoint | vx64/qemu/exec.c:577-588 | In every state: an entry for a watched page is trapped, for writes always and for reads when reads are watched. |
| SoftTlb.Cpu.NoUnseenStore | vx64/qemu/cputlb.c:141-144 | In every state: an entry that stores directly points to a RAM page whose flags are all set, so translated code is never overwritten unseen. |
| WatchpointTest.HitsExactly | vx64/qemu/exec.c:1282-1286 | The mask test is true exactly when access and watchpoint overlap and the access is aligned or does not start below the watched bytes. |
| WatchpointTest.AlignedHits | vx64/qemu/exec.c:1282-1286 | For an access aligned to its size, as the test receives them, it is true exactly when access and watchpoint overlap. |
| WatchpointTest.AlignedAccess | vx64/qemu/exec.c:1308-1336 | An aligned access of up to eight bytes is caught exactly when a watched byte is accessed, though eight bytes are tested in halves (io_read and io_write of softmmu_template.h). |
| WatchpointTest.Load | vx64/qemu/exec.c:1308-1318 | An unaligned load is caught exactly when a watched byte lies in one of the two aligned words it reads (the slow_ld functions of softmmu_template.h). |
| WatchpointTest.WordsHoldAccess | vx64/qemu/exec.c:1308-1318 | Every byte of the access lies in those words, so no watched byte is loaded unseen. |
| WatchpointTest.Store | vx64/qemu/exec.c:1320-1336 | An unaligned store is caught exactly when one of its bytes is watched, for writing or for reading; an aligned one exactly when it is watched for writing (the slow_st functions of softmmu_template.h). |
| ValueStreams.Output.WriteLeb128 | utils/xvwritter.h:26-36 | The bytes appended are seven bits each, lowest first, the top bit set on the last alone; their number is returned. |
| ValueStreams.Output.WriteString | utils/xvwritter.h:56-106 | A string is refused exactly when it does not fit a 16-bit count with its zero; otherwise type, count, characters and zero are appended. |
| ValueStreams.Output.WriteTable | utils/xvwritter.h:159-233 | The entries are appended in key order after the narrowest count; more than 65535 are refused. |
| ValueLayout.Leb128Digits | utils/xvwritter.h:26-36 | Byte i of a written number holds the i-th digit of it to base 128. |
| ValueLayout.Leb128Ends | utils/xvwritter.h:26-36 | The top bit is set on the last byte alone, and no number is written with a leading zero digit. |
| ValueLayout.LittleEndianDigits | utils/xvwritter.h:10-14 | Byte i of a fixed-width number is its i-th digit to base 256. |
| ValueStreams.Output.Write | utils/xvwritter.h:234-249 | It succeeds exactly for values that have an encoding, which is then what was appended. |
| ValueStreams.Reader.FetchLeb128 | utils/xvreader.h:246-257 | Reads to the first byte with its top bit set or to the limit, joining the bits, and fails exactly when the data end. |
| ValueStreams.Reader.FetchKey | utils/xvreader.h:259-268 | Reads a key, refusing an empty one and one without its final zero, and moves past it. |
| ValueStreams.Reader.FetchTable | utils/xvreader.h:161-199 | Reads the counted entries into a map, a later one replacing an earlier one of the same key. |
| ValueStreams.Reader.Fetch | utils/xvreader.h:142-159 | The cursor-based reader computes what the decoding function says and stands after what it read. |
| ValueRoundTrip.Leb128Back | utils/xvreader.h:246-257 | A number written in at most the limit of bytes is read back, and reading stops at its last byte. |
| ValueRoundTrip.Leb128Length | utils/xvreader.h:246-246 | Five bytes are enough exactly for numbers below 2^35. |
| ValueRoundTrip.SignedBack | utils/xvwritter.h:38-49 | Truncation to a width and sign extension give the number back exactly when it fits. |
| ValueRoundTrip.KeyBack | utils/xvreader.h:259-268 | A key is read back as written, with exactly its bytes. |
| ValueRoundTrip.InsertLast | utils/xvreader.h:182-199 | Entries read in key order rebuild the map they came from. |
| ValueRoundTrip.InsertIsUpdate | utils/xvreader.h:182-199 | Entering a key gives it the value, replaces an earlier entry of that key and no other, and keeps the order. |
| ValueRoundTrip.ValueBack | utils/xvreader.h:142-159 | Reading what was written for an admissible value, at any place and whatever follows, gives an equal value and advances by exactly the bytes written. |
| ValueStreams.Reader.FetchNumber | utils/xvreader.h:24-33 | The bytes at the cursor, lowest first, are read as a number, or nothing moves when the data end. |
| ValueStreams.Reader.FetchString | utils/xvreader.h:270-281 | The last counted byte must be zero, where a zero count looks at the byte before the cursor; the value is the C string at the cursor, which moves by the count. |
| ValueStreams.Reader.FetchWide | utils/xvreader.h:270-281 | The same for wide characters, with the wrap-around of the byte count. |
| ValueLimits.DecodePaid | utils/xvreader.h:142-291 | Whatever is read, from any bytes, is of a kind the reader can make and has used up at least its cost, which for a string is only that of its count. |
| ValueLimits.Spent | utils/xvwritter.h:234-249 | No value without strings is written in more bytes than its cost, and in as many only if nothing in it is null or cut off. |
| ValueAlignment.NoneReplaced | utils/xvreader.h:182-199 | When the map read has as many entries as were counted, no entry has replaced another. |
| ValueAlignment.ReadIsAdmissible | utils/xvreader.h:142-159 | A value without nulls that is read back where it was written is admissible: the reader is never ahead of the writer. |
| ValueSurvival.AdmissibleSurvives | utils/xvreader.h:142-159 | Every admissible value survives writing and reading, whatever follows it. |
| ValueSurvival.RoundTripExactly | utils/xvreader.h:142-159 | Among the values without nulls, and among those without strings, exactly the admissible ones survive. |
| ValueSurvival.ZeroCountTakesNothing | utils/xvreader.h:270-281 | A string with a zero count is read from bytes that stay unread. |
| ValueSurvival.SixteenBitsLost | utils/txvalue.hpp:316-322 | A 16-bit number comes back as zero, whatever it was. |
| ValueSurvival.NotAllSurvive | utils/xvwritter.h:21-24 | Nothing is written for a null, and a UTF-8 string comes back as a local one. |
| SurvivingNulls.NullsCanSurvive | utils/xvreader.h:270-281 | A concrete value with nulls that survives, though it is not admissible. |
| ValueStreams.SaveAndLoad | utils/xvreader.h:142-159 | Writer and reader together: an admissible value comes back and the cursor stands where the writer stopped. |
| RamBlocks.AlignedPositive | vx64/qemu/exec.c:910-910 | The aligned size is positive exactly for positive sizes below the last page of the address space, and is then the next multiple of the page size. |
| RamBlocks.NextAfter | vx64/qemu/exec.c:859-863 | The inner loop finds the first block at or above the end of another. |
| RamBlocks.FindRamOffset | vx64/qemu/exec.c:846-877 | The first block goes to zero; any other into the smallest sufficient gap that follows a block; giving up means every gap is too small. |
| RamBlocks.PlacedApart | vx64/qemu/exec.c:846-877 | A block placed there overlaps no other and stays in the address space. |
| RamBlocks.EmptyBlockClosesGap | vx64/qemu/exec.c:859-867 | An empty block leaves no room in the gap it was placed in. |
| RamBlocks.RamList.Alloc | vx64/qemu/exec.c:905-949 | Blocks stay disjoint whole pages sorted by decreasing length, the new one placed as above; nothing changes when no gap is long enough. |
| RamBlocks.InsertedOne | vx64/qemu/exec.c:923-934 | The insertion adds that one block and leaves the others in their order. |
| RamBlocks.RamList.Free | vx64/qemu/exec.c:974-996 | The first block at the address goes, and nothing else; an unknown address changes nothing. |
| RamBlocks.OffsetIsOne | vx64/qemu/exec.c:980-993 | Two blocks that are not empty never start at the same address, so an address names one block. |
| RamBlocks.ScanFinds | vx64/qemu/exec.c:1077-1081 | The scan finds every address of every live block at its host location. |
| RamBlocks.RamList.GetRamPtr | vx64/qemu/exec.c:1068-1089 | Trying the most recently used block first gives the same host location as the plain scan for every address. |

## Left out

- Floating point: the flush-to-zero modes, the NaN rules of targets other than x86, float16, floatx80 and float128, square root, log2, fused multiply-add, conversions, the 192-bit and 256-bit helpers only those use, and float32 operations other than division.
- SoftFloat.RoundAndPackFloat64: exponent arguments are those of a 16-bit type and the word has its top bit clear, as the header comment of the routine asks of callers; the exact value is a rational passed as ghost arguments.
- Float64.CountLeadingZeros64: doubles until the top bit is set instead of using the byte table or the compiler builtin.
- Memory: Int128 values are integers, so the assertions of int128_get64 on ranges of 2^64 bytes are not modelled; offsets that wrap at 64 bits do not arise (`AddressResolution.TopologyInBounds`).
- Memory: one address space, one filter, one listener of each kind; listener priorities, global callbacks other than begin, coalesced MMIO, ioeventfds, portio, reference counts and region destructors are not part of this model.
- MemoryTransactions.Memory.AddSubregionCommon: the tree that results must have no cycle, which the source does not check; on a cycle its rendering does not end. The scan for colliding siblings has no effect in the source and is left out.
- MemoryTransactions.Memory.SetLog: the client is a bit number below eight as the mask type implies; other numbers change nothing.
- MemoryRuns.RunStaysConsistent: leaves out runs that move the root while no update is asked for, for which the property is false; `MemoryRuns.UnnoticedMove` gives the exact condition.
- The region store is a map from identifiers to values, replaced as a whole; aliasing of MemoryRegion pointers and the links of the intrusive lists are not modelled.
- PhysMaps.PhysMap.PageSet: nodes are sequences in a growing list rather than a reallocated block, so pointers into a moved array are not modelled; that the list keeps its length during the recursion is proved. The pages must not lie below a leaf of an upper level, and the node counter must stay below its 15-bit limit.
- MemoryListener.Dispatch.MemAdd: the addresses must be free and below the limit of the tables, and the node and section counters must stay within 15 bits, which the source does not check for sections; the freeing of old sub-pages and of old tables, and the listener of I/O ports, are not modelled.
- AddressResolution.CommitAndDispatch: assumes tables large enough for the map of the tree.
- AddressResolution.RunReachesOwner: the part of the listener in a step is what `AddressResolution.HearUpdate` promises, so the tables are assumed large enough for every map of the run; roots moved unnoticed are left out as in `MemoryRuns.RunStaysConsistent`.
- TLB: one CPU; the jump cache, the current block and the invalidation of translated code are not modelled, the effect of the last on the dirty flags being a parameter of NotDirtyWrite. The code word of an entry is not trapped by watchpoints, as in the source.
- SoftTlb.Cpu.SetPage: the virtual address is page-aligned and sizes are powers of two.
- SoftTlb.Cpu.ResetDirty: start and end are given as whole pages of one RAM block, where the source aligns them and aborts outside one block.
- WatchpointTest.HitsExactly: the hit flag, the re-entry after a hit and the delivery of the exception are not modelled; nor are the values loaded and stored, and addresses do not wrap around.
- Serializer: xvalue.h is not part of this model, so type codes and width codes are some fixed distinct numbers and the key limit is a parameter; the kind is kept in four bits apart from the width. size_t has 64 bits. Reference counting, allocation failure and conversion between character sets are left out. A string with a zero count that does not end within the data is read past it in the source, and is a failure here.
- ValueSurvival.RoundTripExactly: does not decide values that hold both a null and a string; `SurvivingNulls.NullsCanSurvive` shows that for them the condition is not exact.
- ValueStreams.Output.Write: what a failed write has already appended is not stated.
- RamBlocks.RamList.Alloc: resizing and setting the dirty flags and the host memory of a block are not modelled; a failed search ends the program in the source and returns None here.
- The bounce buffer, map clients, device callbacks, the execution loop, the disassembler, logging, the page tables, and the parts under vos and src are not part of this model.
