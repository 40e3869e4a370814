# roa probe design, modelled in Dafny

roa designs padlock-probe circles for a set of query sequences, based on a
k-mer index of reference sequences. The model covers four parts of the C
sources.

- **The engine of `src/main.c`.**
  - Bases are encoded 2 bits each (`create_base2int`, `int2KmerString`).
  - `createIndex` builds a one-bit index of every forward and
    reverse-complement 16-mer code of the references. `do_index` merges
    several such indexes.
  - `createQuery` lists the 16-mer windows of each query.
  - `vaildKmers` flags the windows found in the index, then drops kept
    runs shorter than 4.
  - `collectSegment` turns longer runs into segments.
  - `filterSegment` cuts 20-base probe candidates out of the segments and
    keeps those that pass the GC, melting-temperature, 3'-end and
    homopolymer rules.
  - `pairJoinCheck` builds the join matrix of probes whose junction holds
    no indexed 16-mer, prunes two-way pairs, scores the probes and sorts
    them.
  - `createCircle` groups probes into circles of four by a bounded
    depth-first walk.
  - `segmentToKmer` and `writeSegments` produce the probe strings.
- **The packed bit array of `src/bitarray.h`.** A class over a `bv8`
  buffer. Its slot arithmetic is described by pure functions on
  `seq<bv8>`.
- **The growable array of `src/array.h`.** A class with `size`,
  `capacity` and a `data` buffer.
- **`roundup` of `src/alloc.h`.** A function on naturals, with the
  `uint64_t` wrap-around written out.

## How each entity is represented

| Entity | Representation |
|---|---|
| C structs `Kmer`, `Segment`, `FilterOpts` | datatypes |
| `BitArray`, `Array` | classes; their methods are proved against the pure functions on the buffer |
| rolling codes, drop flags, join counters | updated in loops with invariants, as in the source except where "## Left out" says otherwise (`Validate.MarkKmers`, `Join.Connect`) |
| `uint32_t` and `uint64_t` arithmetic | naturals with explicit `%`; bitwise or is `Alloc.BitOr` on naturals |
| the `int drop : 1` bit-field | a `BitField` parameter, because whether `drop = 1` stores 1 or -1 is implementation-defined |
| a read past a list that C leaves undefined | the model's `Undefined` outcome |

The k-mer loops of `createIndex` and `createQuery` take a `Scan`
parameter:
- `AsWritten` is the source's loop bound;
- `Corrected` reads every base (see Findings).

Probe scores are likewise modelled under `AsWritten` and `Corrected` prune
decrements.

Files:

| File | Contents |
|---|---|
| alloc.dfy | `roundup` and the bit arithmetic |
| array.dfy | array.h |
| bitarray.dfy | bitarray.h |
| kmer.dfy | base codes and rolling codes |
| index.dfy | createIndex, the do_index merge, the dump and load layout |
| query.dfy | createQuery |
| validate.dfy | vaildKmers |
| segments.dfy | collectSegment |
| filter.dfy | filterSegment |
| join.dfy | pairJoinCheck, cmpSegments, checkJoin |
| circle.dfy | createCircle |
| output.dfy | segmentToKmer, writeSegments |

## Model

| member | source | states |
|---|---|---|
| Alloc.RoundUpValue | src/alloc.h:79-91 | for 1 <= x <= 2^63, `roundup(x)` is 2 to the bit length of x - 1, the least power of two not below x |
| Alloc.RoundUpIsPowerOfTwo | src/alloc.h:79-91 | for 1 <= x <= 2^63, `roundup(x)` is a power of two |
| Alloc.RoundUpBounds | src/alloc.h:82-89 | for 1 <= x <= 2^63, x <= `roundup(x)` < 2x |
| Alloc.RoundUpOfPowerOfTwo | src/alloc.h:82-89 | a power of two below 2^64 is its own `roundup` |
| Alloc.RoundUpZeroWraps | src/alloc.h:81-90 | `roundup(0)` wraps to 0: the decrement gives all ones and the increment wraps |
| Alloc.RoundUpAboveHalfWraps | src/alloc.h:81-90 | every x above 2^63 rounds up to 0 in `uint64_t` |
| Alloc.Smear | src/alloc.h:83-88 | the five shift-or steps turn any nonzero y into the all-ones word of y's bit length |
| Alloc.BitOrShr | src/alloc.h:83-88 | a right shift distributes over or, the law the smearing steps rely on |
| Alloc.BitOrCommutes | src/alloc.h:83-88 | the modelled bitwise or is commutative |
| Alloc.BitOrBelow | src/alloc.h:83-88 | or of two values below 2^n stays below 2^n, so no step leaves 64 bits |
| Arrays.Grown | src/array.h:38-39 | a full array's new capacity `roundup(capacity + 1)` is a power of two, above the old capacity and at most twice it plus one |
| Arrays.DynArray.constructor | src/array.h:15-23 | `arrayNew(c)` is empty with capacity c and a fresh buffer |
| Arrays.DynArray.Get | src/array.h:48-55 | `arrayGet` is none exactly when index >= size; otherwise it is element `index` of the contents |
| Arrays.DynArray.Last | src/array.h:106-107 | `arrayLast` is none exactly on an empty array; otherwise it is the last element |
| Arrays.DynArray.Push | src/array.h:35-46 | the contents become the old contents plus the item; a full array moves to a fresh buffer of capacity `Grown`; otherwise the buffer and capacity stay; size <= capacity is kept |
| Arrays.DynArray.Grow | src/array.h:38-43 | the reallocation keeps the contents and size, and sets the capacity to `Grown(capacity)` in a fresh buffer |
| Arrays.DynArray.Set | src/array.h:57-64 | within range only element `index` changes; out of range nothing changes |
| Arrays.DynArray.Clear | src/array.h:66-70 | the contents are emptied; capacity and buffer stay |
| Arrays.DynArray.Pop | src/array.h:99-104 | a nonempty array loses its last element; an empty one is unchanged; capacity and buffer stay |
| Arrays.DynArray.Shrink | src/array.h:72-90 | contents kept; with spare room the capacity becomes the size; an empty array with capacity ends with capacity 0 and no buffer; a full array is unchanged |
| Arrays.DynArray.Extend | src/array.h:92-97 | the contents become the old contents followed by the other array's, and the other array is unchanged |
| BitArrays.BitArray.New | src/bitarray.h:21-43 | NULL exactly when the width fails the guards (above 8, negative, or odd and not 1); otherwise the given size and width, and every slot reads 0 |
| BitArrays.BitArray.constructor | src/bitarray.h:36-41 | size, width and mask are set, `__realCols` is `(size*nbit+7)/8`, and every byte of the fresh buffer is 0 |
| BitArrays.GuardLetsThrough | src/bitarray.h:24-33 | the guards accept widths 0 and 6 and reject 3, 9 and -1 |
| BitArrays.SixBitSlotTruncated | src/bitarray.h:28-33 | with the accepted width 6, a slot that straddles a byte boundary keeps only its low bits: storing 63 in slot 1 reads back 3 |
| BitArrays.BitArray.Get | src/bitarray.h:86-97 | the result never exceeds the mask, and is 0 for an index past the size |
| BitArrays.BitArray.Set | src/bitarray.h:71-84 | out of range the bytes are unchanged; in range the bytes become `StoreSlot` of the old bytes; for widths 1, 2, 4 and 8 the slot then reads `value & mask` and every other slot keeps its value |
| BitArrays.SlotStoreSame | src/bitarray.h:81-83 | reading back a stored slot gives the value under the mask |
| BitArrays.SlotStoreOther | src/bitarray.h:81-83 | for widths dividing a byte, storing slot i leaves every slot j != i unchanged |
| BitArrays.StoreKeepsOthers | src/bitarray.h:81-83 | the same for all other slots of an array of the given size at once |
| BitArrays.SlotAtMostMask | src/bitarray.h:96 | any slot read is at most the mask |
| BitArrays.SlotOfZero | src/bitarray.h:40-41 | a zeroed buffer reads 0 in every slot |
| BitArrays.BitArray.Clone | src/bitarray.h:45-59 | a fresh array with a fresh buffer, with equal size, width, mask and bytes, reading the same in every slot |
| BitArrays.BitArray.Or | src/bitarray.h:99-116 | with equal sizes each byte becomes the or of both arrays' bytes; with unequal sizes nothing changes; the other array is never changed |
| BitArrays.OrBytesIdempotent | src/bitarray.h:113-115 | or-ing the same array in twice is the same as once |
| BitArrays.OrBytesReorder | src/bitarray.h:113-115 | or-ing two arrays in either order gives the same bytes |
| BitArrays.OrSlots | src/bitarray.h:113-115 | byte-wise or makes every slot the or of the two slots |
| BitArrays.OrBytesSelf | src/bitarray.h:113-115 | or-ing an array with itself leaves it unchanged |
| Kmers.BaseCode | src/main.c:20-31 | codes are at most 4, and a character reads 4 exactly for N, n and NUL; every other non-ACGT character reads 0, as `A` does |
| Kmers.KmerString | src/main.c:37-43 | `int2KmerString` spells the k base-4 digits of the code, most significant first |
| Kmers.KmerStringOfPack | src/main.c:37-43 | spelling the packed code of a word gives back the word's letters |
| Kmers.DigitsOfPack | src/main.c:37-43 | unpacking k digits of a k-base packed code gives back the bases |
| Kmers.FwdWindow | src/main.c:121 | after at least 16 clean bases, the forward rolling code is the big-endian packing of the last 16, whatever it started from |
| Kmers.RevWindow | src/main.c:122 | after at least 16 clean bases, the reverse rolling code is the packing of the reverse complement of the last 16 |
| Kmers.RevCompAt | src/main.c:122 | base i of the reverse complement is 3 minus base n-1-i |
| Kmers.RollWindow | src/main.c:113-129 | over a clean run of at least 16 bases, both rolling codes equal the codes of the window that ends at the current base |
| Kmers.FwdStepValue | src/main.c:121 | the shift-or step is `4f + c` modulo 2^32 |
| Kmers.RevStepValue | src/main.c:122 | the reverse step is `r / 4 + (3 - c) * 2^30`, which stays below 2^32 |
| Index.CreateIndex | src/main.c:95-133 | when an index is given, that index is updated; otherwise a fresh 2^32-slot one-bit array is made; afterwards slot c is 1 exactly when it was 1 before or c is the forward or reverse code of a clean window the loop reaches in some record |
| Index.IndexRecord | src/main.c:113-129 | after one record, slot c is 1 exactly when it was before or c is a code of a clean window ending within the scanned bases |
| Index.IndexBase | src/main.c:114-128 | one base keeps the rolling state and extends the set of marked codes by the window ending there, if that window is clean |
| Index.Mark | src/main.c:127-128 | both orientations are set: afterwards slot c is 1 exactly when it was before or c is the forward or the reverse code |
| Index.Restart | src/main.c:115-119 | an N resets both codes and the counter, and marks nothing |
| Index.Emerge | src/main.c:123-126 | the counter reaches 16 exactly when the last 16 bases form a clean window; the codes are then that window's codes |
| Index.IndexedStep | src/main.c:107-130 | a further record adds to the indexed codes exactly the codes it contributes |
| Index.Merge | src/main.c:1008-1025 | after `bitarrayOr` of two one-bit arrays of the same size, a slot is 1 exactly when it was 1 in either; of different sizes, nothing changes |
| Index.DumpIndex | src/main.c:135-145 | the file holds size, mask, `nbit`, `__realCols` and the bytes, and every slot of it reads as in the array |
| Index.LoadIndex | src/main.c:147-163 | loading a written file gives a fresh array with the header fields and bytes of the file, so every slot reads as in it |
| Index.DumpThenLoad | src/main.c:135-163 | loading what `dumpIndex` wrote gives a fresh array of the same size and width, every slot reading as in the original |
| Index.Absorb | src/main.c:998-1025 | a missing path changes nothing; otherwise the reference's cached or newly built index becomes the index, with the reference's size, or is or-ed into it; the slots set are the old ones plus the reference's when the sizes agree, and the old ones alone when they differ |
| Index.DoIndex | src/main.c:998-1026 | no index exactly when every path is missing; otherwise the index has the size of the first reference that exists, and a slot is set exactly when some reference of that size gives it; when every existing reference has 2^32 slots, it is a 2^32-slot one-bit index |
| Query.CreateQuery | src/main.c:176-236 | every record is copied in order, and `query->kmers` holds one window list per record of at least 16 bases, in record order |
| Query.ScanRecord | src/main.c:209-231 | the list of one record is the records of its clean windows the loop reaches, in order |
| Query.ScanBase | src/main.c:210-230 | one base keeps the rolling state and adds the record of the window ending there when it is clean |
| Query.Record | src/main.c:224-230 | a pushed record has `drop == 0` and `strand == 0` |
| Query.Int30 | src/main.c:227 | positions are stored in a signed 30-bit field, unchanged below 2^29 |
| Query.Dropped | src/main.c:68 | `drop = 1` leaves 1 in an unsigned one-bit field and a nonzero value other than 1 in a signed one |
| Query.WindowsInOrder | src/main.c:224-230 | every record has `pos` = i - 15 of a clean window the loop reaches, with that window's codes, and positions strictly increase |
| Query.WindowsComplete | src/main.c:209-231 | every clean window the loop reaches has its record in the list |
| Query.ListsAligned | src/main.c:206-232 | `query->kmers` is as long as `query->seqs` exactly when no record is shorter than 16 |
| Query.ShortRecordShifts | src/main.c:206-208 | a short first record shifts the lists: list 0 belongs to record 1 |
| Query.ListsPrefix | src/main.c:185-234 | processing more records only appends lists |
| Validate.MarkKmers | src/main.c:276-289 | every k-mer list entry becomes `Marked` by whether the index has its forward or reverse code |
| Validate.MarkOne | src/main.c:277-288 | a k-mer already flagged 1 is skipped; one whose forward or reverse code is indexed is flagged |
| Validate.MarkFlags | src/main.c:276-289 | marking keeps every flag at 0 or the stored drop value |
| Validate.SmoothKmers | src/main.c:291-323 | the smoothing loop, with its run-state variables, leaves exactly `Smoothed` of the marked list: every kept k-mer in a kept run shorter than 4 is dropped and nothing else changes |
| Validate.DropRange | src/main.c:305-309 | the inner loop flags exactly the entries of the window and leaves the rest |
| Validate.CloseWindow | src/main.c:303-310 | closing a run leaves the entries before it as smoothed |
| Validate.Smoothing | src/main.c:291-323 | after smoothing every maximal run of kept k-mers has length at least 4 and was already a run before |
| Validate.KeptAfterAll | src/main.c:291-323 | a k-mer is kept after smoothing exactly when it was kept and its run had at least 4 members |
| Validate.SmoothingOnlyDrops | src/main.c:291-323 | smoothing never clears a flag: what is kept afterwards was kept and is unchanged |
| Validate.ValidKmerList | src/main.c:276-323 | one list ends as `Validated`: marked, then smoothed |
| Validate.VaildKmers | src/main.c:256-325 | every list of the query ends as `Validated` by the index |
| Validate.ValidatedKmer | src/main.c:256-325 | validation changes only flags; a kept k-mer was kept, has neither code in the index, and lies in a run of at least 4 |
| Validate.FieldIrrelevant | src/main.c:291-323 | starting from all kept, the signedness of the bit-field does not change which k-mers validation keeps |
| Segments.Emit | src/main.c:327-348 | the macro's segment for the run of positions [start, end] is `Emitted`: start, end and name as given, `vaild` 1, `end - start + 17` slots, or `Undefined` when it reads past the list |
| Segments.Emitted | src/main.c:330-334 | a segment is produced exactly when `end` indexes the list, with the given start and end, `vaild` 1 and `end - start + 17` bases |
| Segments.Put | src/main.c:339-343 | `bitarraySet` on a 2-bit array stores `v & 3` in slot i and changes nothing else, nor anything when i is out of range |
| Segments.PutIsStore | src/bitarray.h:71-83 | on the slot view of a 2-bit array's bytes, the byte-level store of `bitarraySet` is `Put`, and an index past the size changes nothing |
| Segments.CollectList | src/main.c:358-383 | the loop over one list, with `start` and `end` as positions, gives `Collected` |
| Segments.CollectSegments | src/main.c:350-386 | the segments of all lists in order, or `Undefined` once any list reads out of range |
| Segments.KeptRuns | src/main.c:358-383 | with an unsigned flag and positions equal to indices, every segment is a maximal kept run spanning more than 5, and every such run gives its segment |
| Segments.ClosedSound | src/main.c:362-370 | every segment closed by a flagged k-mer is a maximal kept run spanning more than 5 |
| Segments.ClosedComplete | src/main.c:362-370 | every such run closed before the scanned point has its segment |
| Segments.LastRun | src/main.c:378-382 | the run still open at the end is maximal and is the only run ending there |
| Segments.SignedNeverOne | src/main.c:362-378 | with a signed flag `drop == 1` never holds, so no k-mer closes a run |
| Segments.SignedWholeList | src/main.c:358-383 | with a signed flag one list gives at most one segment, from the first to the last position, or `Undefined` |
| Segments.FirstRunBases | src/main.c:336-345 | for a run starting at index 0 of windows of s, the slots hold the bases of s, and the last slot is 0 |
| Segments.LaterRunLosesBases | src/main.c:342-344 | for a run starting at index 1 or later, slots 16 to start + 15 are never written and read 0 |
| Filter.GCCount | src/main.c:426-429 | the GC count of a window is at most its length |
| Filter.RunLen | src/main.c:464-476 | the length of the run of equal bases ending at i is between 1 and i + 1 |
| Filter.Probe | src/main.c:483-498 | a probe holds the 20 bases at offset j, starts at the segment's start plus j and ends 19 later |
| Filter.Numbered | src/main.c:494-496 | numbering keeps every probe and gives the kth one id `next + k` |
| Filter.ReadWindow | src/main.c:424-430 | the window is bases j..j+19 of the segment, and `gc` is its G/C count |
| Filter.IsHome | src/main.c:464-482 | the homopolymer loop with its early break reports exactly `Homopolymer` |
| Filter.Check | src/main.c:431-482 | a window is accepted exactly when it `Passes`, and its temperature is the Wallace value |
| Filter.SegmentProbes | src/main.c:418-499 | the probes of one segment of at least 40 bases are its passing windows in order, numbered from the running count |
| Filter.FilterSegments | src/main.c:407-502 | the result is every passing window of every segment of at least 40 bases, in order, with ids 0, 1, 2, ... |
| Filter.ProbesSound | src/main.c:420-498 | every probe has 20 bases within the GC and Tm bounds (inclusive), passes the enabled 3'-CG and A/T rules, has no homopolymer run, its Wallace Tm, end = start + 19 and `vaild` 1, and is a window of a segment of at least 40 bases |
| Filter.ProbesComplete | src/main.c:420-498 | every passing window of a segment of at least 40 bases is among the probes |
| Filter.ShortSegmentsGiveNothing | src/main.c:419-422 | segments shorter than 40 bases give no probe |
| Filter.Homopolymers | src/main.c:464-482 | for a threshold h >= 2, the loop finds a homopolymer exactly when h equal bases in a row exist |
| Filter.ShortHomopolymerRejectsAll | src/main.c:464-482 | a threshold of 1 or less rejects every window |
| Filter.DefaultsNeedElevenGC | src/main.c:431-441 | under the default options only windows with 11 G/C pass |
| Join.BaseAt | src/main.c:536-541 | the base read is the kth of the two segments' bases end to end |
| Join.Junction | src/main.c:534 | the scan reads all bases but the first of s1 and the last of s2 |
| Join.JoinScan | src/main.c:529-558 | the scan succeeds exactly when no 16-mer window of the junction has its forward or reverse code in the index |
| Join.ScanStep | src/main.c:535-553 | one step keeps the rolling codes of the junction read so far; a hit means the junction is not clear, otherwise the windows so far are clear |
| Join.Window | src/main.c:542-544 | the `uint64_t` rolling codes at step k are the codes of the 16 junction bases before it |
| Join.JunctionIgnoresEnds | src/main.c:534 | changing the first base of s1 or the last base of s2 never changes the verdict |
| Join.JoinableStraddling | src/main.c:529-558 | when the pair joins, every window straddling the boundary that skips both ends is clear |
| Join.JunctionWindow | src/main.c:534-541 | the junction's windows are the end-to-end windows shifted by one |
| Join.Connect | src/main.c:522-560 | the matrix is `Links`: (i, j) is set exactly when i != j and the pair joins; each probe's `vaild` grows by the number of its links |
| Join.ConnectRow | src/main.c:523-559 | one row is that probe's links, and only its counter changes, by their number |
| Join.ScanRow | src/main.c:525-559 | the scan of one row yields that row and its count |
| Join.ScanCell | src/main.c:526-558 | one cell extends the row so far by that pair's verdict |
| Join.Links | src/main.c:522-560 | the matrix is square with one row per probe |
| Join.Prune | src/main.c:562-573 | the matrix becomes `Pruned`, and each counter falls by the number of its decrements `Lost` |
| Join.PruneRow | src/main.c:563-572 | one row of the prune loop keeps the matrix and the counters in step with the pair order |
| Join.PruneCell | src/main.c:564-571 | one step clears (j, i) and decrements one counter exactly for a two-way pair with i < j |
| Join.PrunedOneWay | src/main.c:562-573 | after pruning no pair is set both ways, no link is added, and a pair linked either way before still is |
| Join.CmpSegments | src/main.c:504-510 | the comparison is positive exactly when the first probe has less `vaild`, negative exactly when more |
| Join.SortByVaild | src/main.c:574 | the probes end in non-increasing `vaild` order, as a permutation |
| Join.Insert | src/main.c:574 | one insertion step extends the sorted prefix by one, as a permutation |
| Join.PairJoinCheck | src/main.c:512-576 | returns the pruned matrix, and leaves the probes sorted by non-increasing `vaild` and forming a permutation of the scored probes |
| Join.ScoredAfter | src/main.c:555-573 | connect then prune leaves each probe scored as `Scored` |
| Join.CheckJoin | src/main.c:604-605 | with no matrix every pair joins; otherwise a join means cell (s1.id, s2.id) is set |
| Join.CheckJoinMeans | src/main.c:512-605 | for scored probes with ids equal to positions, `checkJoin` holds exactly when the ids differ, the pair joins, and the pair was not found both ways with the second id smaller |
| Join.CheckJoinAt | src/main.c:512-605 | the same for the probes at given positions, which keep their ids and bases |
| Join.FilteredProbes | src/main.c:494-496 | the probes of `filterSegment` have 2-bit bases and ids equal to their positions |
| Circle.SizeDiff | src/main.c:639 | a `size_t` subtraction lies in 0..2^64-1 and is exact when no wrap happens |
| Circle.TooCloseMeans | src/main.c:639-641 | for starts below 2^63 the unsigned test skips exactly the pairs less than 1000 apart |
| Circle.SuccMeans | src/main.c:631-647 | a node's successors are exactly the j with an edge, in increasing order |
| Circle.BuildAdjacency | src/main.c:631-647 | the edge loops give `Adjacency`: j follows i exactly when i != j, `checkJoin` holds and the starts are at least 1000 apart |
| Circle.AdjacencyGraph | src/main.c:631-647 | every successor is a valid node |
| Circle.FirstUnvisited | src/main.c:694-704 | the loop stops at the first successor whose id is not visited, the index `FirstFresh` gives |
| Circle.EmitCircle | src/main.c:683-689 | a found group is appended in stack order, and its nodes are visited |
| Circle.Found | src/main.c:673-692 | emitting a group appends it to the groups, keeps the walk invariant and counts one more circle |
| Circle.Close | src/main.c:673-692 | the group appended is the top four times when it has no successors, and otherwise the full stack as it is |
| Circle.Step | src/main.c:666-707 | one pass gives the state `StepF` gives (mark the top's id, then pad, emit the full stack, push the first successor with an unvisited id, or pop), keeps the walk invariant and decreases the measure of unvisited nodes and the stack |
| Circle.Walk | src/main.c:665-708 | the inner loop ends in the state `WalkF` gives, with an empty stack or `count` circles |
| Circle.Dfs | src/main.c:649-708 | it returns the groups `DfsAll` gives, and the result is their probes in order; each is four nodes joined by consecutive edges or a node without successors repeated four times; there are at most `count` of them; when roots are tested by id, or ids equal positions, no node is in two groups |
| Circle.PositionTestRepeatsProbe | src/main.c:658-672 | with ids 0, 2, 1 and one edge from node 0 to node 1, the walk as written pads node 1 twice and never groups node 2 |
| Circle.IdTestKeepsGroupsApart | src/main.c:658-672 | with roots tested by id, the same input pads node 1 and then node 2, and no node is in two groups |
| Circle.GroupIsCircle | src/main.c:639-692 | every group is a circle over the matrix: four probes with distinct ids, each joined to the next (`checkJoin` and the spacing), or one probe with no such successor at all, four times |
| Circle.EmitLength | src/main.c:673-692 | the output has four probes per group |
| Circle.Fallback | src/main.c:719-728 | without a matrix: the first `4 * count` probes in order, nothing when the loop does not run (count 0; `Circle.CreateCircle` stops a negative count before the loop), and `Undefined` when there are fewer than `4 * count` probes |
| Circle.NegativeCountOversized | src/array.h:16-23 | for a negative `int` count, `arrayNew(count * 4)` asks `dmalloc` for 2^64 - 32 * (-count) bytes, at least 2^63 |
| Circle.CreateCircle | src/main.c:614-731 | a negative count ends in the exit of `dmalloc`, and only then; otherwise, with a matrix, the groups are those `DfsAll` gives over `Adjacency` and the output is their probes in order, four per group, at most `count` groups, each a circle over the matrix, disjoint when the root test agrees with the ids; without a matrix, the first `4 * count` probes, or a read past them when there are fewer |
| Output.Word | src/main.c:737-742 | the 20 codes read are the probe's bases, masked to two bits and 0 past its end |
| Output.PackSlots | src/main.c:733-743 | the forward code is the packing of the probe's 20 bases, and the reverse code that of their reverse complement |
| Output.SegmentToKmer | src/main.c:733-745 | the strings are the letters of the probe and of its reverse complement |
| Output.LettersRevComp | src/main.c:740-744 | letter i of the reverse string is the complement of letter 19 - i of the forward string |
| Output.PackSlotsMasked | src/main.c:814-819 | with the 40-bit masks and no reset between probes, the codes still equal the packings of the current probe |
| Output.WriteSegments | src/main.c:797-826 | one line per probe, in order, each `LineOf` it |
| Output.LineMeans | src/main.c:821-823 | a line has 1-based start and end with the same span, the probe's id, name, Tm and count, its forward letters, and the complement of them reversed |

## Left out

- File and gzip I/O are abstracted:
  - FASTA reading (`iter_fasta`) is left out; records are given values;
  - `dumpIndex`/`loadIndex` are a value-level encode/decode without compression;
  - the `.index` cache probe in `do_index` is replaced by a `Reference` value;
  - the `[Or] size mismatch` message of `bitarrayOr` is not modelled; only its effect, no change, is;
  - `printPair`, the `fprintf` of `saveCircle`, and the header line of `writeSegments` are not modelled.
- `saveCircle` (src/main.c:747-783) is not modelled, because it only formats and writes text. Its `segmentToKmer` is modelled.
- `do_design` (src/main.c:892-983) chains the modelled steps, reads options and writes files. The chaining itself is not modelled.
- OpenMP regions are modelled as single-threaded loops:
  - the split of the marking loop in `vaildKmers`;
  - the parallel loops of `filterSegment` and `pairJoinCheck`.
- Floating point is modelled as exact reals: `GC_RATE`, `tm` and the thresholds. The result may differ near a threshold under `float` rounding.
- Allocation accounting (`dmalloc`, `dfree`, `useMemory`) is left out.
- A `Segment`'s `id` and `Tm` written by `collectSegment` are left uninitialised by the source. The model writes 0.
- `Segments.CollectList`, `Segments.CollectSegments`: require non-negative positions, because the 30-bit `pos` is never negative for records of fewer than 2^29 bases.
- `Index.Absorb`, `Index.DoIndex`: a cache is assumed to hold a one-bit array, as `dumpIndex` writes one. A cache of another slot width can have the same size and fewer bytes, and `bitarrayOr` would then read past it.
- `Index.DoIndex`: the final `dumpIndex(index, index_path)` (src/main.c:1027-1029) is not modelled. When every path is missing, `index` is NULL there and `dumpIndex` dereferences it.
- `Index.Readable`: under the as-written scan, records must have at least 15 bases. For shorter ones the `size_t` bound wraps and the loop reads past the record; `Index.ShortRecordOverruns` states the wrap.
- `Kmers.BaseCode`: characters of code 128 and above index past `basemap`, which is undefined, so the records are required to be ASCII.
- `BitArrays.BitArray.New`: requires `nbit != 0`. Width 0 passes the guards and then reads `bitMask[-1]`, which is undefined.
- `BitArrays.BitArray.Or`: requires the other buffer to be at least as long when the sizes agree. The source compares only the sizes, so two arrays of equal size and different widths make it read past the other buffer.
- `Arrays.DynArray.Push`: requires capacity <= 2^63 - 1, so that `roundup(capacity + 1)` does not wrap to 0.
- `Arrays.DynArray.Extend`: requires the arrays to be distinct and their total size to stay below 2^62. Extending an array with itself is not modelled.
- `Arrays.DynArray.constructor`: takes the capacity as a natural. A `size_t` cannot be negative.
- `Validate.MarkKmers`: reads the index as the value `Index.Snapshot`, and a k-mer is stored back even when unchanged.
- `Validate.VaildKmers`: requires the lists to be distinct arrays, as the query's lists are.
- `Join.Connect`: requires the probe array to be distinct from the index buffer. The counter of a row grows once by the row's count rather than once per link; the final value is the same.
- `Join.JoinScan`: requires the two probes to hold at least one base between them, as every probe has 20.
- `Join.SortByVaild`: `qsort` is modelled by an insertion sort. The contract says only what any sort gives, non-increasing `vaild` and a permutation, since `qsort` is not stable.
- The 2-bit `BitArray`s that hold a segment's or a probe's bases (`Segment.bases`) are their slot values as a `seq<bv8>`; `Segments.PutIsStore` ties `Put` to the byte-level store. The join matrix and the `visited` and stack arrays of `createCircle` are sequences of booleans and positions rather than `BitArray`s and arrays of `Node*`.
- `Circle.Dfs`: as written, disjointness of the groups is proved only when every probe's id is its position. After the sort the outer loop tests `visited` by position while the walk sets it by id, and the groups may repeat probes (see Findings).
- `Circle.StepF`, `Circle.FirstFresh`: the functional walk leaves a walker unchanged when its top or an id is out of range, and `FirstFresh` takes such an entry as visited. No walk over a valid graph meets either case (`Circle.Step` requires the walk invariant). The C code would index out of bounds there.
- `Circle.CreateCircle`: `count` is a C `int`. `count * 4` overflows an `int` for counts of 2^29 and above, which is undefined; the model multiplies exactly. A `malloc(0)` for a count of 0 is taken to succeed.
- `Circle.SizeDiff`: starts are assumed below 2^63 in `Circle.TooCloseMeans`. Larger starts are not reached by sequences that fit in memory.

## Findings

| source | as written | input that shows it | evidently intended | confidence | as-written member | corrected member |
|---|---|---|---|---|---|---|
| src/main.c:113 | the k-mer loop of `createIndex` runs while `i < len - 16 + 1`, yet `i` is the newest base of the window, so the last 15 windows are never indexed | one record of sixteen `A`s: one clean window, an empty index | read every base (`i < len`), so that every clean window is indexed, both orientations | not executed | Index.SixteenBasesIndexNothing | Index.CorrectedIndexesEveryWindow |
| src/main.c:113 | the same bound in `size_t` wraps for records shorter than 15 bases, and the loop reads past the record | a record of 10 bases: the bound becomes 2^64 - 5 | the corrected loop has no wrap and needs no length | not executed | Index.ShortRecordOverruns | Index.CorrectedIndexesEveryWindow |
| src/main.c:113 | any record shorter than 31 bases contributes no code at all | a record of 20 bases | every window of at least 16 clean bases counts | not executed | Index.AsWrittenSkipsShortRecords | Index.CorrectedIndexesEveryWindow |
| src/main.c:362 | with the plain `int drop : 1` bit-field read as signed (as GCC does), `drop = 1` stores -1, so `collectSegment`'s `drop == 1` never holds and one segment spans the whole list, dropped k-mers included | eight k-mers at positions 0..7 with only the last dropped: the signed reading emits the run 0..7 | an unsigned flag: segments are exactly the maximal kept runs | not executed; depends on the compiler's treatment of plain `int` bit-fields | Segments.SignedSegmentCoversDropped | Segments.KeptRuns |
| src/main.c:568-571 | pruning a two-way pair (i, j) clears (j, i) but decrements `vaild[i]`, the probe that keeps its link, so the counts no longer match the matrix | two probes joined both ways: afterwards probe 0 counts 0 links but has one, and probe 1 counts 1 but has none | decrement `vaild[j]`, so every probe's count is its links in the pruned matrix | not executed | Join.AsWrittenMiscounts | Join.CorrectedScores |
| src/main.c:659 | the outer loop of `createCircle` tests `visited[i]` with the position `i`, while the walk sets and tests `visited` by id; once the sort has moved the ids, a grouped probe can pass the test and be grouped again, and an ungrouped one can be skipped | three probes with ids 0, 2, 1 and one edge from position 0 to position 1, `count` 2: node 1 is padded twice, node 2 never | test `visited[segments->data[i]->id]`, so that no probe is in two groups | not executed | Circle.PositionTestRepeatsProbe | Circle.Dfs |
