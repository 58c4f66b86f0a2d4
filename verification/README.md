# Verified models of the DataSketches engines

Five sketch engines of the Rust DataSketches library, modelled in Dafny and proved correct. In each
of them a compact representation that is changed in place must agree, over every run, with a simple
mathematical object. The proofs say exactly how.

`dafny verify dfyconfig.toml` checks the whole project.

## What is proved

**CPC sketch** (`Cpc*.dfy`). The object is the set of coupons (row, column) offered; a sketch holds
it as a sparse pair table, or as an 8-column window and a table of surprises whose meaning is
inverted before the window. `PairTable` refines a finite set through linear probing, deletion by
re-inserting a cluster, growth and shrinking. Every update, promotion and window move keeps the
sketch standing for exactly the coupons offered (`Run`), and the window at exactly the offset the
count determines (`ReachableState`). The union stands for all offered coupons with their rows masked
to the smallest K, whatever the order and flavors, and its matrix state is never sparse
(`DenseStaysDense`, a pigeonhole argument). The bit stream, the pair code and the window code round
trip. A saved sketch is restored if and only if it stores no more surprises than it has coupons.

- *Finding.* `deserialize` rejects an image with more table entries than coupons
  (`cpc/sketch.rs:731-737`), on the assumption that no sketch has that many. A sliding sketch can:
  at K = 16, 54 coupons in columns 40 to 43 leave 70 surprises after the first window move.
  `RoundTripFails` builds that sketch through ordinary updates; `RoundTripSketch` proves the exact
  condition.
- *Finding.* The image of an empty sketch holds no estimator registers, so its restored copy has
  kxp = 0 where the original has K (`EmptyLosesKxp`), and the copy's first update divides by it
  (`cpc/sketch.rs:257-263`).

**Frequent items** (`Frequency*.dfy`, `FrequentItems*.dfy`). The object is the multiset of weighted
items. The reverse-purge map refines a map from items to counts through backward-shift deletion and
the back-to-front purge, also where clusters wrap around the arrays; a purge subtracts the sampled
median from every count and drops what is not positive. For every item, over all updates and merges,
lower bound <= true frequency <= upper bound; the two kinds of query answer what they promise; the
golden-ratio iterator yields each entry once; the "purge did not reduce" panic cannot happen.

- *Finding.* The documented error bound 3.5 W / M (`frequencies/mod.rs:50-53`, whose footnote
  concedes a small probability of failing) holds in every run for M <= 1024 (`DocumentedBound`) and
  not in general for larger M: for every M >= 2048 and every hash, `Overshoot` gives a run that
  exceeds it, out of any items that hash to the slots up to the capacity, one each, because a purge
  samples at most 1024 counters.

**Theta** (`ThetaTable.dfy`, `ThetaSetOps.dfy`). The object is the set of hashes seen. At every moment
the table retains exactly the hashes below theta; after a trim, theta and the retained hashes depend
only on the set of hashes offered, not on order, repetitions or resizes. Intersection, union and
A-not-B (its three code paths alike) are characterised by the inputs' hashes and thetas, and so is
whether an intersection is marked empty (`EmptyIffNothingLeft`).

**HLL** (`Hll*.dfy`). The object maps each slot to the largest coupon value. The 4-bit array with its
floating minimum and exception map, the 6-bit array packed across bytes and the 8-bit array all
refine it, through the promotions from list to set to array, so sketches of all types agree on equal
coupons. The union's registers are those of all coupons of all inputs at the smallest size seen.

**REQ** (`Req*.dfy`). The object is the stream. The weights of the retained items always add up to its
length; in update-only runs every rank is within the sum of 2^h times the schedule counter of level h
of the true rank, for every outcome of the coins. Every level has the sections its schedule counter
calls for, a compression passes each level once and compacts exactly the full ones
(`CompressedPassage`), and without merges the sketch never reaches its capacity. At least 3k items at
the protected end are never compacted away. So where the sketch claims to be exact at an item's true rank its estimate is
that rank (`ExactRankIsExact`), and so it is where the claim holds of the estimate itself, other than
at the threshold (`ExactOffThreshold`); both also after merges of equal k.

- *Finding.* `is_exact_rank_threshold` (`req/sketch.rs:419-437`), which the rank bounds ask about the
  rank they are given, includes the threshold itself, and there an estimated rank need not be exact:
  `ClaimFails` is a run of 70 updates at k = 4 after which the claim holds of the estimate 58/70 for
  an item whose true rank is 57/70.

`Powers`, `Sets`, `Cyclic`, `OddStride`, `OpenAddressing`, `Selection`, `Sorting`, `Totals`,
`BitSequences` and `Options` hold what the engines share: powers of two, odd-stride walks, probing,
order statistics and bit sequences.

## How to read the model

Structures that the library changes in place are classes over arrays or reassigned sequences; ghost
fields hold the mathematical object, `Valid()` ties it to the real fields, and method contracts say
what becomes of it. Every `unreachable!`, `expect` and `assert!` on the modelled paths is a proof
obligation inside the stated domain. A 64-bit matrix row is the set of its columns, each mask
operation the set it selects. Hash functions are parameters about which nothing is known. The random
coins of REQ are any function of level and schedule counter: what is proved holds for every outcome.
`ReqSteps` says what each step makes of the levels, the classes of `ReqCompactor` and `ReqSketch`
refine those functions, and `ReqSchedule` and `ReqSizes` say what the steps mean for the bits of the
schedule counter, the sections and the sizes.

Domains stated as preconditions:

- CPC updates (`Accepts`): a coupon of the sketch's K that is not the table's empty marker, fewer
  than 475 K / 8 coupons (the window stays within 64 columns), and surprises that fit the largest
  pair table the code allows. Up to K = 2^21 this holds by itself for coupons in the first 32 columns
  (`CpcDomain`). Unions carry the same condition for the steps of the walks they make
  (`WalkAccepted`); `WalkFitsInColumns`, `WalkFitsBelowSliding` and `WalkFitsForSparse` show where it
  holds by itself.
- Theta tables without growth (`ResizeFactor::X1`) start at full size.
- Inputs of the Theta set operations are well formed: distinct non-zero hashes below their theta.
- The exactness claim of REQ is about sketches whose merged sketches have at least the same k.

## Model

| member | source | states |
|---|---|---|
| `CpcPairTable.PairTable.constructor` | datasketches/src/cpc/pair_table.rs:39-54 | a new table is empty and holds the set {} |
| `CpcPairTable.PairTable.MaybeInsert` | datasketches/src/cpc/pair_table.rs:130-150 | the table then holds the old set and the item; the result says whether the item was new; the table grows exactly when more than three quarters full |
| `CpcPairTable.PairTable.MaybeDelete` | datasketches/src/cpc/pair_table.rs:94-128 | the table then holds the old set without the item; the result says whether it was there; every other item stays findable, and the table has shrunk until a quarter full or of four slots |
| `CpcPairTable.PairTable.Lookup` | datasketches/src/cpc/pair_table.rs:211-232 | the probe ends, at the item or at the first empty slot of its path, given that one slot is empty |
| `CpcPairTable.ProbeDecides` | datasketches/src/cpc/pair_table.rs:211-232 | where every probe chain is unbroken, the slot a probe stops at holds the item if and only if the item is in the set |
| `CpcPairTable.PairTable.MustInsert` | datasketches/src/cpc/pair_table.rs:196-209 | the item goes to the empty slot its probe finds and no other slot changes |
| `CpcPairTable.PutKeeps` | datasketches/src/cpc/pair_table.rs:130-150 | filling the slot a probe stopped at breaks no probe chain and repeats no item |
| `CpcPairTable.RepairStarts` | datasketches/src/cpc/pair_table.rs:94-128 | emptying a slot can break only chains of items behind it |
| `CpcPairTable.RepairStep` | datasketches/src/cpc/pair_table.rs:94-128 | re-inserting the item at the scan position keeps the set and moves every broken chain behind the scan |
| `CpcPairTable.RepairEnds` | datasketches/src/cpc/pair_table.rs:94-128 | when the scan meets an empty slot no chain is broken any more |
| `CpcPairTable.PairTable.Rebuild` | datasketches/src/cpc/pair_table.rs:234-260 | a table of another size holds the same set with unbroken chains; the size assertions hold |
| `CpcPairTable.PairTable.GrowWhileFull` | datasketches/src/cpc/pair_table.rs:142-144 | growing ends with at least one slot in four free and keeps the set |
| `CpcPairTable.PairTable.ShrinkWhileSparse` | datasketches/src/cpc/pair_table.rs:120-125 | shrinking ends with at least one slot in four taken (or four slots) and keeps the set |
| `CpcPairTable.PairTable.Clear` | datasketches/src/cpc/pair_table.rs:89-92 | the table holds nothing |
| `CpcPairTable.PairTable.UnwrappingGetItems` | datasketches/src/cpc/pair_table.rs:156-194 | the array lists the set, each item once; the right index never underflows and the two indices meet exactly |
| `CpcPairTable.PairTable.RightStays` | datasketches/src/cpc/pair_table.rs:156-194 | while a leading run of high items is moved to the right end, room remains there: a wrapped cluster begins in the last slot |
| `CpcPairTable.UnwrapDone` | datasketches/src/cpc/pair_table.rs:156-194 | both ends of the result meet and together are the set |
| `CpcPairTable.TableSizeFor` | datasketches/src/cpc/pair_table.rs:57-70 | the smallest table of 2^2 to 2^26 slots that the items fill at most three quarters, or none |
| `CpcPairTable.FromSlots` | datasketches/src/cpc/pair_table.rs:57-83 | succeeds if and only if there are enough pairs, they fit the largest table and the first n differ; the table then holds exactly those |
| `CpcCoupons.CorrectOffsetIff` | datasketches/src/cpc/mod.rs:92-100 | an offset w is the determined one if and only if the count has passed the threshold of w and not the next |
| `CpcFolding.CountBits` | datasketches/src/cpc/mod.rs:68-74 | counts the ones of the matrix |
| `CpcFolding.PopCountIsSize` | datasketches/src/cpc/mod.rs:68-74 | the matrix of a coupon set has exactly one bit for each coupon |
| `CpcWords.TrailingZeros` | datasketches/src/cpc/sketch.rs:382-388 | the lowest column of a row, 64 for an empty row |
| `CpcWords.SurpriseMask` | datasketches/src/cpc/sketch.rs:370-380 | the two masks of a window move leave exactly the zeros before the window and the ones behind it |
| `CpcCoupons.SurpriseUpdate` | datasketches/src/cpc/sketch.rs:309-335 | one more coupon removes one table entry before the window, changes nothing in it, and adds one behind it |
| `CpcCoupons.WindowUpdate` | datasketches/src/cpc/sketch.rs:309-335 | one more coupon sets one bit of one window byte if its column lies in the window, and the bit was clear exactly when the coupon was new |
| `CpcCoupons.FlipRestores` | datasketches/src/cpc/sketch.rs:425-460 | flipping the surprises of a row into ones up to the window, then the window byte, gives back the row |
| `CpcSketches.CpcSketch.constructor` | datasketches/src/cpc/sketch.rs:107-136 | a new sketch stands for no coupons |
| `CpcSketches.CpcSketch.RowColUpdate` | datasketches/src/cpc/sketch.rs:222-239 | the sketch then stands for the coupons so far and this one, and is in the representation its count calls for; the early return drops only a duplicate, and the first interesting column changes only with the window |
| `CpcSketches.CpcSketch.UpdateSparse` | datasketches/src/cpc/sketch.rs:265-278 | the sparse table collects the coupon and the sketch is promoted when 32C reaches 3K |
| `CpcSketches.CpcSketch.PromoteSparseToWindowed` | datasketches/src/cpc/sketch.rs:280-307 | the window and the new table stand for the same coupons |
| `CpcSketches.CpcSketch.UpdateWindowed` | datasketches/src/cpc/sketch.rs:309-348 | the coupon is collected and the window moves exactly when its threshold is reached |
| `CpcSketches.CpcSketch.CollectWindowed` | datasketches/src/cpc/sketch.rs:309-335 | the result says whether the coupon is new, whichever of the three zones its column lies in |
| `CpcSketches.CpcSketch.MoveWindow` | datasketches/src/cpc/sketch.rs:350-396 | the window is one column further up and the sketch stands for the same coupons; the first interesting column is the first that is not full, up to the window |
| `CpcSketches.SplitMatrix` | datasketches/src/cpc/sketch.rs:370-395 | a bit matrix is split into its window, its surprises and the first column that is not full, up to the offset |
| `CpcSketches.CpcSketch.BuildBitMatrix` | datasketches/src/cpc/sketch.rs:425-460 | row r, column c is set if and only if coupon 64r + c was offered, in every flavor |
| `CpcSketches.FlipItems` | datasketches/src/cpc/sketch.rs:447-456 | every table entry flips its matrix bit, once |
| `CpcSketches.CrossedExactly` | datasketches/src/cpc/sketch.rs:337-346 | because 8 divides (27 + 8w)K, a window threshold is met with equality and the next offset is then the right one |
| `CpcSketches.PromotionExact` | datasketches/src/cpc/sketch.rs:273-285 | a sketch leaves sparse mode at exactly 3K/32 coupons, except at K = 16 |
| `CpcSketches.ReachableState` | datasketches/src/cpc/sketch.rs:222-396 | in every valid sketch the offset is the determined one, the window is empty exactly in the flavors Empty and Sparse, table entries are zeros before or ones behind the window, and columns below the first interesting one are full |
| `CpcSketches.SketchFacts` | datasketches/src/cpc/sketch.rs:218-239 | what each flavor stores: all coupons, or the window and the surprises |
| `CpcSketches.Run` | datasketches/src/cpc/sketch.rs:222-460 | after any accepted stream the bit matrix shows exactly the coupons in it and the counter is the number of different ones |
| `CpcDomain.AcceptsInColumns` | datasketches/src/cpc/sketch.rs:222-239 | up to K = 2^21 a sketch of coupons in the first 32 columns accepts every coupon there, in any flavor |
| `CpcDomain.StreamInColumns` | datasketches/src/cpc/sketch.rs:222-239 | so whole streams of such coupons are accepted |
| `CpcSketches.Feed` | datasketches/src/cpc/sketch.rs:222-239 | the whole stream is collected, in any order and with any repetitions |
| `CpcFolding.MaskedTwice` | datasketches/src/cpc/union.rs:391-399 | masking rows to fewer bits forgets an earlier mask |
| `CpcFolding.MaskIs` | datasketches/src/cpc/union.rs:401-427 | masking the row of a coupon is taking the coupon modulo 64 K |
| `CpcFolding.HalvingKeepsHalf` | datasketches/src/cpc/union.rs:304-338 | folding K in two keeps at least half of the coupons |
| `CpcFolding.DenseStaysDense` | datasketches/src/cpc/union.rs:304-338 | coupons past 3K/32 stay past it at every smaller K |
| `CpcFolding.FoldRow` | datasketches/src/cpc/union.rs:391-399 | or-ing a row into the row it masks to adds exactly its coupons |
| `CpcUnions.WalkTableUpdatingSketch` | datasketches/src/cpc/union.rs:401-427 | the golden-ratio walk offers every table item once and nothing else, its row masked to the sketch's K |
| `CpcUnions.MeetAll` | datasketches/src/cpc/union.rs:401-427 | after as many steps as there are slots the walk has met every item |
| `CpcUnions.OrMatrixIntoMatrix` | datasketches/src/cpc/union.rs:391-399 | the destination then is the matrix of its coupons and the masked ones of the source |
| `CpcUnions.OrWindowIntoMatrix` | datasketches/src/cpc/union.rs:363-376 | the destination then also has the masked coupons inside the window |
| `CpcUnions.OrTableIntoMatrix` | datasketches/src/cpc/union.rs:378-389 | the destination then also has the masked table items |
| `CpcUnions.WindowAndTable` | datasketches/src/cpc/union.rs:280-292 | at offset 0 the window and the table together hold the coupons |
| `CpcUnions.CpcUnion.constructor` | datasketches/src/cpc/union.rs:104-113 | a new union stands for nothing |
| `CpcUnions.CpcUnion.Update` | datasketches/src/cpc/union.rs:215-302 | the union then stands for the coupons offered before and the sketch's, folded to the smaller K, provided its golden-ratio walks stay in the domain of updates step by step; an empty sketch does not lower K |
| `CpcUnions.CpcUnion.ReduceK` | datasketches/src/cpc/union.rs:304-338 | the union stands for the same coupons folded to the smaller K; a bit matrix never becomes sparse |
| `CpcUnions.CpcUnion.MergeSparse` | datasketches/src/cpc/union.rs:237-266 | merging a sparse sketch into a sparse accumulator collects its coupons, and graduates to a matrix when no longer sparse |
| `CpcUnions.CpcUnion.OrSource` | datasketches/src/cpc/union.rs:273-300 | a source of any other flavor is or-ed into the matrix completely, however it is represented |
| `CpcUnions.CpcUnion.Settle` | datasketches/src/cpc/union.rs:316-327 | a walked sketch is kept while it is sparse, else its bit matrix is |
| `CpcUnions.UnionDense` | datasketches/src/cpc/union.rs:227-300 | a dense part keeps the folded whole dense, so the matrix state is never sparse |
| `CpcUnions.CpcUnion.ToSketch` | datasketches/src/cpc/union.rs:141-207 | a valid sketch of its own for the same coupons and K, with the first interesting column recomputed exactly |
| `CpcUnions.SketchOfMatrix` | datasketches/src/cpc/union.rs:153-206 | count, offset, window, table and first column rebuilt from a dense matrix make a valid sketch of its coupons |
| `CpcUnions.WalkFitsBelowSliding` | datasketches/src/cpc/union.rs:401-427 | below the sliding flavor no walk can leave the domain of the sketch's updates |
| `CpcUnions.FittingWalk` | datasketches/src/cpc/union.rs:401-427 | if every order of offering the masked items stays in the domain, the golden-ratio walk does |
| `CpcUnions.WalkFitsInColumns` | datasketches/src/cpc/union.rs:401-427 | up to K = 2^21 walks over coupons of the first 32 columns never leave the domain, in any flavor |
| `CpcUnions.WalkFitsForSparse` | datasketches/src/cpc/union.rs:237-266 | merging sparse sketches of one K never leaves the domain |
| `CpcBitStream.BitWriter.Write` | datasketches/src/cpc/compression.rs:94-98 | the low bits of the value are appended to the stream; the buffer stays below 64 bits |
| `CpcBitStream.StreamBit` | datasketches/src/cpc/compression.rs:94-131 | bit i of the stream is bit i modulo 32 of word i / 32 |
| `CpcBitStream.BitWriter.WriteUnary` | datasketches/src/cpc/compression.rs:100-107 | the chunks of sixteen together append exactly value zeros and a one |
| `CpcBitStream.BitWriter.Pad` | datasketches/src/cpc/compression.rs:109-112 | zeros are appended |
| `CpcBitStream.BitWriter.Finish` | datasketches/src/cpc/compression.rs:123-131 | the words are the stream, padded with fewer than 32 zeros |
| `CpcBitStream.BitReader.Fill` | datasketches/src/cpc/compression.rs:224-236 | enough bits are buffered if and only if the stream has them; the stream itself is unchanged |
| `CpcBitStream.BitReader.Peek` | datasketches/src/cpc/compression.rs:238-241 | the value of the next bits, which stay, or an error exactly when they are missing |
| `CpcBitStream.BitReader.Consume` | datasketches/src/cpc/compression.rs:243-247 | the bits are dropped from the front of the stream |
| `CpcBitStream.BitReader.Read` | datasketches/src/cpc/compression.rs:249-256 | the value of the next bits, which are dropped, or an error exactly when they are missing |
| `CpcBitStream.BitReader.ReadUnary` | datasketches/src/cpc/compression.rs:258-275 | a returned value is the length of the leading run of zeros; with seven bits behind the code it never fails |
| `CpcCompression.FloorLog2OfLong` | datasketches/src/cpc/compression.rs:326-340 | the position of the highest one bit |
| `CpcCompression.GolombChooseNumberOfBaseBits` | datasketches/src/cpc/compression.rs:315-324 | the power of two next below the average gap: 2^base * count <= k - count < 2^(base + 1) * count, and 0 base bits if count > k - count |
| `CpcCompression.ChooseBaseBits` | datasketches/src/cpc/compression.rs:27-31 | coder and decoder choose the one base with 2^base * n <= K < 2^(base + 1) * n, or 0 for more pairs than rows |
| `CpcCompression.AverageUnique` | datasketches/src/cpc/compression.rs:315-324 | no other number of base bits meets that condition |
| `CpcCompression.BaseBitsBound` | datasketches/src/cpc/compression.rs:315-324 | no more base bits than a row has |
| `CpcCompression.DeltasInRange` | datasketches/src/cpc/compression.rs:27-58 | column deltas of an accepted list are below 64, row deltas below K |
| `CpcCompression.EncodePairs` | datasketches/src/cpc/compression.rs:27-58 | the words are exactly the codes of the pairs and the padding the decoder needs, filled up to whole words |
| `CpcCompression.DecodePairs` | datasketches/src/cpc/compression.rs:133-188 | words that start with the padded codes of a list give back that list; every list returned lies in the coupon space |
| `CpcCompression.PairFront` | datasketches/src/cpc/compression.rs:133-188 | what the 12-bit peek, the unary read and the low-bit read find at the front of a pair's code: each succeeds and together they are its deltas |
| `CpcCompression.PairRestored` | datasketches/src/cpc/compression.rs:133-188 | a pair's deltas on top of its predictions are the pair |
| `CpcCompression.RoundTrip` | datasketches/src/cpc/compression.rs:27-188 | decoding an encoded pair list gives the list back |
| `CpcCompression.DeterminePseudoPhase` | datasketches/src/cpc/compression.rs:277-313 | always a table index below 22, and below 16 in the sliding flavor |
| `CpcCompression.PhaseIs` | datasketches/src/cpc/compression.rs:277-313 | below 2.275 K it is 16 and the number of the thresholds 3 K / 4, 11 K / 10, 132 K / 100, 5 K / 3 and 1965 K / 1000 reached, up to 2.375 K it is 6, and from there the whole sixteenths of K in the count, modulo 16 |
| `CpcCompression.EncodeWindow` | datasketches/src/cpc/compression.rs:60-75 | the words are exactly the codes of the window bytes and eleven zeros, filled up to whole words |
| `CpcCompression.DecodeWindow` | datasketches/src/cpc/compression.rs:190-205 | words that start with the padded codes of a window give back that window |
| `CpcPairLists.SortUnstable` | datasketches/src/cpc/sketch.rs:491-545 | the items ascending, each once |
| `CpcPairLists.AppendWindowPairs` | datasketches/src/cpc/sketch.rs:495-505 | the coupons in the first eight columns, ascending, and nothing else of the buffer changed |
| `CpcPairLists.MergeInPlace` | datasketches/src/cpc/sketch.rs:507-521 | merging from the front of the buffer whose end still holds one of the lists gives the ascending union: the write index never passes the read index |
| `CpcPairLists.SplitHybrid` | datasketches/src/cpc/sketch.rs:780-796 | decoded pairs are split into the window and a duplicate-free list of the surprises |
| `CpcPairLists.SlideBack` | datasketches/src/cpc/sketch.rs:531-543 | outside the window the rotation avoids the last eight columns, and permutation and rotation are undone by the inverse permutation and rotation |
| `CpcPairLists.ShiftDown` | datasketches/src/cpc/sketch.rs:523-530 | every pair loses the eight window columns |
| `CpcPairLists.ShiftUp` | datasketches/src/cpc/sketch.rs:797-814 | fails if and only if some column would leave the row, else adds the eight columns |
| `CpcPairLists.SlideAll` | datasketches/src/cpc/sketch.rs:531-543 | every pair is rotated and permuted |
| `CpcPairLists.UnslideAll` | datasketches/src/cpc/sketch.rs:815-843 | fails if and only if some column has no permutation entry, else undoes rotation and permutation |
| `CpcPairLists.MapOut` | datasketches/src/cpc/sketch.rs:523-543 | an invertible shift lists the image of the set, each pair once |
| `CpcPairLists.MapBack` | datasketches/src/cpc/sketch.rs:797-842 | shifting back lists the set, each pair once |
| `CpcSerialization.ByteRestored` | datasketches/src/cpc/sketch.rs:495-504 | a window row survives the trip through its byte |
| `CpcSerialization.ByteBits` | datasketches/src/cpc/sketch.rs:495-504 | column c of the window is bit c of its byte |
| `CpcSerialization.StoredEncodable` | datasketches/src/cpc/sketch.rs:480-558 | what each flavor stores is a list the pair encoder accepts |
| `CpcSerialization.HybridPairs` | datasketches/src/cpc/sketch.rs:486-522 | the merged buffer is the coupon set, each coupon once |
| `CpcSerialization.Serialize` | datasketches/src/cpc/sketch.rs:476-602 | a window is stored exactly from K / 2 coupons on, coded with the table of the pseudo-phase; the pairs stored are all coupons below K / 2, the surprises eight columns lower below 27 K / 8, and else the surprises rotated past the window and permuted; the estimator registers exactly for a non-empty sketch that is not merged |
| `CpcSerialization.Deserialize` | datasketches/src/cpc/sketch.rs:610-858 | restores K, coupons, count, offset, first column, merge flag and the stored estimator registers if and only if the image stores no more table entries than coupons; every other check passes |
| `CpcSerialization.HeldList` | datasketches/src/cpc/sketch.rs:702-757 | of the decoder's checks on a written image only the one on the number of table entries can fail |
| `CpcSerialization.RoundTripSketch` | datasketches/src/cpc/sketch.rs:476-858 | restoring a saved sketch succeeds exactly when it has at most as many stored surprises as coupons (always, except when sliding) and gives back K, coupons, count, offset, first column, merge flag and, if the sketch is neither empty nor merged, kxp and the HIP accumulator |
| `CpcSerialization.EmptyLosesKxp` | datasketches/src/cpc/sketch.rs:627-680 | the restored copy of an empty sketch has kxp = 0 where the original has K |
| `CpcSerialization.HighColumnsAccepted` | datasketches/src/cpc/sketch.rs:222-239 | a concrete stream at K = 16 in columns 40 to 43 is accepted coupon by coupon |
| `CpcSerialization.HighColumnsNotRestorable` | datasketches/src/cpc/sketch.rs:731-737 | after that stream the sketch has 70 surprises for 54 coupons |
| `CpcSerialization.RoundTripFails` | datasketches/src/cpc/sketch.rs:476-858 | that reachable, valid sketch cannot be restored from its own image |
| `FrequencySlots.ProbeDecides` | datasketches/src/frequencies/reverse_purge_item_hash_map.rs:229-250 | the slot a probe stops at is full if and only if the key has a counter, and then holds its count |
| `FrequencySlots.HomeIs` | datasketches/src/frequencies/reverse_purge_item_hash_map.rs:234-235 | the first slot of a key is its hash modulo the number of slots |
| `FrequencySlots.PutNew` | datasketches/src/frequencies/reverse_purge_item_hash_map.rs:79-90 | a new counter at the end of its probe path with its path length as drift keeps every counter findable |
| `FrequencySlots.ShiftStarts` | datasketches/src/frequencies/reverse_purge_item_hash_map.rs:252-271 | a deletion leaves one hole, on paths of later counters only |
| `FrequencySlots.ShiftMoves` | datasketches/src/frequencies/reverse_purge_item_hash_map.rs:252-271 | a counter whose path reaches the hole may move back into it; the hole is then where it was |
| `FrequencySlots.ShiftSkips` | datasketches/src/frequencies/reverse_purge_item_hash_map.rs:252-271 | a counter whose path does not reach the hole may stay |
| `FrequencySlots.ShiftEnds` | datasketches/src/frequencies/reverse_purge_item_hash_map.rs:252-271 | at an empty slot no counter misses a hole any more |
| `FrequencyMap.ReversePurgeItemHashMap.constructor` | datasketches/src/frequencies/reverse_purge_item_hash_map.rs:48-64 | a new map has no counters |
| `FrequencyMap.ReversePurgeItemHashMap.Get` | datasketches/src/frequencies/reverse_purge_item_hash_map.rs:66-77 | the count of a key, or zero |
| `FrequencyMap.ReversePurgeItemHashMap.FindProbeOrEmpty` | datasketches/src/frequencies/reverse_purge_item_hash_map.rs:229-250 | the probe ends at the key or the first empty slot of its path, with the path length as drift |
| `FrequencyMap.ReversePurgeItemHashMap.AdjustOrPutValue` | datasketches/src/frequencies/reverse_purge_item_hash_map.rs:79-90 | exactly one count is raised, inserting the key if absent |
| `FrequencyMap.ReversePurgeItemHashMap.HashDelete` | datasketches/src/frequencies/reverse_purge_item_hash_map.rs:252-271 | exactly one counter is removed and nothing outside its cluster changes, also across the end of the arrays |
| `FrequencyMap.ReversePurgeItemHashMap.KeepOnlyPositiveCounts` | datasketches/src/frequencies/reverse_purge_item_hash_map.rs:109-130 | exactly the counters at zero are removed by the backwards scan and the number of active counters is exact |
| `FrequencyMap.PurgingEnds` | datasketches/src/frequencies/reverse_purge_item_hash_map.rs:109-130 | a scan that has come round once has met every zero counter, also those moved by deletions |
| `FrequencyMap.ReversePurgeItemHashMap.AdjustAllValuesBy` | datasketches/src/frequencies/reverse_purge_item_hash_map.rs:132-139 | every count is lowered, stopping at zero |
| `FrequencyMap.ReversePurgeItemHashMap.Purge` | datasketches/src/frequencies/reverse_purge_item_hash_map.rs:141-157 | for every key the new count is max(0, old - median), keys at zero are gone, at least one counter is dropped, and the median is that of the first sampled counts |
| `FrequencyMap.PurgeReduces` | datasketches/src/frequencies/reverse_purge_item_hash_map.rs:132-157 | lowering by x and keeping the positive counts is subtracting x from every count above x |
| `FrequencyMap.MedianHalves` | datasketches/src/frequencies/reverse_purge_item_hash_map.rs:141-157 | at least half (rounded up) of the sampled counters are at or above the median, and one counter equals it |
| `FrequencyMap.SamplesRemain` | datasketches/src/frequencies/reverse_purge_item_hash_map.rs:141-157 | taking the samples never runs off the end of the arrays |
| `FrequencyMap.ReversePurgeItemHashMap.Resize` | datasketches/src/frequencies/reverse_purge_item_hash_map.rs:160-179 | the map has a new size and the same counters |
| `OddStride.WalkDistinct` | datasketches/src/frequencies/reverse_purge_item_hash_map.rs:283-317 | an odd stride meets no slot twice within as many steps as there are slots |
| `OddStride.WalkCovers` | datasketches/src/frequencies/reverse_purge_item_hash_map.rs:283-317 | an odd stride meets every slot |
| `OddStride.GoldenStride` | datasketches/src/frequencies/reverse_purge_item_hash_map.rs:284-299 | the odd number next to the golden ratio of the table size, at least 3 and below it |
| `OddStride.GoldenDigits` | datasketches/src/frequencies/reverse_purge_item_hash_map.rs:286-286 | the sixteen digits of the constant are those of the golden ratio |
| `FrequencyMap.ReversePurgeItemIter.Next` | datasketches/src/frequencies/reverse_purge_item_hash_map.rs:302-317 | returns an active entry not returned before with its count, or none exactly when all were |
| `FrequencyMap.Drain` | datasketches/src/frequencies/reverse_purge_item_hash_map.rs:221-223 | the iterator yields each active entry exactly once |
| `FrequentItems.CapacityMonotone` | datasketches/src/frequencies/sketch.rs:52-55 | larger maps hold more counters and purge larger shares |
| `FrequentItems.SampleSizes` | datasketches/src/frequencies/sketch.rs:518-525 | a purge samples three quarters as many counters as the map has slots, that is all active ones save one, for maps of up to 1024 slots, and else 1024; half of them lose the median |
| `FrequentItems.SummaryUpdate` | datasketches/src/frequencies/sketch.rs:318-326 | raising one counter by the weight keeps every bound and the accounting of the offset |
| `FrequentItems.SummaryPurge` | datasketches/src/frequencies/sketch.rs:490-503 | a purge keeps every true count within its bounds, and each unit of offset is paid for by 3 M / 8 units of stream weight for M up to 1024, and else by 512 |
| `FrequentItems.SummaryMerge` | datasketches/src/frequencies/sketch.rs:398-411 | after feeding another sketch's counters, adding its offset accounts for its whole stream, at the smaller share |
| `FrequentItems.FrequentItemsSketch.constructor` | datasketches/src/frequencies/sketch.rs:505-528 | a new sketch summarises the empty stream |
| `FrequentItems.FrequentItemsSketch.UpdateWithCount` | datasketches/src/frequencies/sketch.rs:318-326 | the stream grows by the weighted item and one counter is raised; only past three quarters of the largest size follows a purge, by the median of the first 3 M / 4 counters for M up to 1024, and else of 1024; below it the map doubles past three quarters of its slots |
| `FrequentItems.FrequentItemsSketch.MaybeResizeOrPurge` | datasketches/src/frequencies/sketch.rs:490-503 | past its capacity the map doubles and keeps all counters, or at its largest size is purged and the offset grows by the median |
| `FrequentItems.FrequentItemsSketch.GrowMap` | datasketches/src/frequencies/sketch.rs:492-494 | the map has twice the slots and the same counters |
| `FrequentItems.FrequentItemsSketch.PurgeMap` | datasketches/src/frequencies/sketch.rs:495-501 | the panic for a purge that does not reduce the map is unreachable |
| `FrequentItems.FrequentItemsSketch.Merge` | datasketches/src/frequencies/sketch.rs:398-411 | the sketch then summarises both streams; its error share is at least the smaller of the two |
| `FrequentItems.FrequentItemsSketch.Estimate` | datasketches/src/frequencies/sketch.rs:204-215 | zero, or between the true frequency and that plus the maximum error; never zero above the maximum error |
| `FrequentItems.FrequentItemsSketch.LowerBound` | datasketches/src/frequencies/sketch.rs:217-227 | never above the true frequency, and within the maximum error of it |
| `FrequentItems.FrequentItemsSketch.UpperBound` | datasketches/src/frequencies/sketch.rs:229-240 | never below the true frequency, and within the maximum error of it |
| `FrequentItems.FrequentItemsSketch.FrequentItemsWithThreshold` | datasketches/src/frequencies/sketch.rs:460-488 | exactly the counters whose upper bound (or whose lower bound) exceeds the threshold, each once and by falling estimate; so NoFalseNegatives lists every item more frequent than the threshold and NoFalsePositives only such items |
| `FrequentItems.ListingAnswers` | datasketches/src/frequencies/sketch.rs:460-488 | rows selected by upper or by lower bound answer the two kinds of question about true frequencies |
| `FrequentItems.ReorderedListing` | datasketches/src/frequencies/sketch.rs:486-487 | sorting the rows keeps what they answer |
| `FrequentItems.FrequentItemsSketch.MaximumError` | datasketches/src/frequencies/mod.rs:42-53 | the offset, which is the distance between the bounds of every item: at most 3.5 W / M for the smallest M merged if that is at most 1024, and zero while no more different items came than the map holds |
| `FrequentItems.DocumentedBound` | datasketches/src/frequencies/mod.rs:50-53 | 2 M offset <= 7 W in every run with M <= 1024 |
| `FrequentItems.ExactWhenFew` | datasketches/src/frequencies/mod.rs:42-43 | with no more different items than the map holds every count is exact |
| `FrequentItemsLimit.Overshoot` | datasketches/src/frequencies/mod.rs:50-53 | for every M >= 2048, every hash and any items that hash to the slots up to the capacity, one each, there is a run whose error exceeds 3.5 W / M |
| `FrequentItemsLimit.OntoSpreads` | datasketches/src/frequencies/mod.rs:50-53 | a hash that takes the values below n has items that hash to the first n slots |
| `FrequentItemsLimit.HeavyMedian` | datasketches/src/frequencies/mod.rs:50-53 | with 512 heavy items in the first slots the sampled median is their weight |
| `FrequentItemsLimit.Layout` | datasketches/src/frequencies/mod.rs:50-53 | items that hash to the first n slots, one each, occupy them in order, whatever happened before |
| `FrequentItemsLimit.Overshoots` | datasketches/src/frequencies/mod.rs:50-53 | one purge of that stream already exceeds the documented bound |
| `ThetaTable.LargestTheta` | datasketches/src/thetafamily/common/constants.rs:21-21 | the largest theta is the largest 63-bit number |
| `OpenAddressing.PathReturns` | datasketches/src/thetafamily/common/hash_table.rs:357-379 | a probe path comes back to its first slot after exactly as many steps as there are slots |
| `OpenAddressing.PathMeans` | datasketches/src/thetafamily/common/hash_table.rs:357-379 | the slot after j steps is the key plus j strides, modulo the table size |
| `OpenAddressing.StrideMeans` | datasketches/src/thetafamily/common/hash_table.rs:440-442 | hashes step by twice their next seven bits plus one, coupons and slots by the rest of their key made odd |
| `OpenAddressing.ProbeDecides` | datasketches/src/thetafamily/common/hash_table.rs:357-379 | the slot a probe stops at is taken if and only if the key is there |
| `OpenAddressing.Find` | datasketches/src/thetafamily/common/hash_table.rs:357-379 | finds the key or the first free slot of its path, and reports no slot only after missing the key in every slot |
| `OpenAddressing.PlaceNew` | datasketches/src/thetafamily/common/hash_table.rs:381-401 | a new item in a table with a free slot is placed findably; the unreachable case is |
| `ThetaTable.TrimDetermines` | datasketches/src/thetafamily/common/hash_table.rs:234-239 | a trimmed theta is fixed by the set of hashes seen: the (k+1)-th smallest below the initial theta, or the initial theta if there are at most k |
| `ThetaTable.NthSplits` | datasketches/src/thetafamily/common/hash_table.rs:403-438 | exactly k hashes are smaller than the selected one |
| `ThetaTable.RebuildLowers` | datasketches/src/thetafamily/common/hash_table.rs:403-438 | rebuilding keeps every hash seen below the new theta |
| `ThetaTable.ThresholdFits` | datasketches/src/thetafamily/common/hash_table.rs:224-232 | growing a table makes room for one more hash |
| `ThetaTable.RebuildFits` | datasketches/src/thetafamily/common/hash_table.rs:224-238 | a full-size table that must be rebuilt holds more than k hashes, and k fit again |
| `ThetaTable.LgSizeIsMinimal` | datasketches/src/thetafamily/common/hash_table.rs:335-347 | the smallest size at which that many hashes need no rebuild |
| `ThetaTable.StartingSteps` | datasketches/src/thetafamily/common/hash_table.rs:448-457 | the starting size is a whole number of resize steps below the target |
| `ThetaTable.SketchHashTable.constructor` | datasketches/src/thetafamily/common/hash_table.rs:119-148 | a table of the given size has seen nothing |
| `ThetaTable.SketchHashTable.New` | datasketches/src/thetafamily/common/hash_table.rs:95-117 | a new sketch table has seen nothing and is marked empty |
| `ThetaTable.SketchHashTable.UpsertEntry` | datasketches/src/thetafamily/common/hash_table.rs:171-210 | the table retains exactly the hashes seen below theta; the result says whether the hash is newly retained; below the load threshold neither theta nor the size changes; past half of the slots a growing table grows by the resize factor, past fifteen sixteenths a full-size one keeps the nominal number of hashes |
| `ThetaTable.SketchHashTable.Probe` | datasketches/src/thetafamily/common/hash_table.rs:171-210 | a table never fills up, so its probe always finds a slot |
| `ThetaTable.SketchHashTable.Entry` | datasketches/src/thetafamily/common/hash_table.rs:212-222 | whether the hash is retained |
| `ThetaTable.SketchHashTable.GrowOrRebuild` | datasketches/src/thetafamily/common/hash_table.rs:199-207 | past its threshold the table grows or, at its largest size, keeps the k smallest hashes |
| `ThetaTable.SketchHashTable.Resize` | datasketches/src/thetafamily/common/hash_table.rs:381-401 | a larger table, by the resize factor up to the maximum, retains the same hashes |
| `ThetaTable.SketchHashTable.Rebuild` | datasketches/src/thetafamily/common/hash_table.rs:403-438 | theta becomes the (k+1)-th smallest retained hash and exactly k hashes remain; the closing assertion holds |
| `ThetaTable.SketchHashTable.Trim` | datasketches/src/thetafamily/common/hash_table.rs:234-239 | at most k hashes remain, and fewer only if theta never moved |
| `ThetaTable.FeedAndTrim` | datasketches/src/thetafamily/common/hash_table.rs:171-239 | theta and the retained hashes after a run and a trim depend only on the set of non-zero hashes offered |
| `ThetaSetOps.FilterA` | datasketches/src/thetafamily/common/a_not_b.rs:86-87 | B retains nothing: the hashes of A below theta |
| `ThetaSetOps.MergeScan` | datasketches/src/thetafamily/common/a_not_b.rs:88-110 | both ordered: the hashes of A that B lacks, below theta, ascending |
| `ThetaSetOps.HashScan` | datasketches/src/thetafamily/common/a_not_b.rs:111-133 | the hashes of A that B lacks, below theta, by look-up |
| `ThetaSetOps.ANotB` | datasketches/src/thetafamily/common/a_not_b.rs:36-152 | whichever path is taken, the hashes of A that B lacks below both thetas, with the operator's seed hash; an empty operand leaves A as it is; a wrong seed is an error exactly for an operand that matters |
| `ThetaSetOps.PartsFromSketch` | datasketches/src/thetafamily/common/a_not_b.rs:154-177 | a copy with the same hashes, sorted on request |
| `ThetaSetOps.KeptStops` | datasketches/src/thetafamily/common/a_not_b.rs:94-109 | an ordered scan may stop at the first hash at or above theta |
| `ThetaSetOps.IntersectionState.constructor` | datasketches/src/thetafamily/common/intersection.rs:54-68 | no input yet |
| `ThetaSetOps.IntersectionState.Update` | datasketches/src/thetafamily/common/intersection.rs:75-213 | the state is then the intersection of all accepted inputs, marked empty exactly if an input was empty or removed the last common hash of exact inputs; an error exactly for a wrong seed that matters |
| `ThetaSetOps.EmptyWithOneMore` | datasketches/src/thetafamily/common/intersection.rs:98-105 | one more input leaves an intersection marked empty, or is the one that empties it |
| `ThetaSetOps.EmptyIffNothingLeft` | datasketches/src/thetafamily/common/intersection.rs:98-203 | where the exact inputs without hashes are the empty ones, it is marked empty exactly if its first inputs, up to an empty one or all exact, have nothing in common |
| `ThetaSetOps.DisjointIsEmpty` | datasketches/src/thetafamily/common/intersection.rs:198-203 | two exact sketches that share no hash intersect to an empty one |
| `ThetaSetOps.IntersectionState.ToCompactParts` | datasketches/src/thetafamily/common/intersection.rs:247-263 | the hashes common to all inputs below their smallest theta, empty exactly as the inputs say; theta is that minimum, or the maximum once empty; the seed hash is the operator's |
| `ThetaSetOps.MatchedInput` | datasketches/src/thetafamily/common/intersection.rs:166-231 | a later input keeps the running hashes it shares below the new theta, and the result is exactly empty if none is left at the maximal theta |
| `ThetaSetOps.MatchAll` | datasketches/src/thetafamily/common/intersection.rs:166-197 | the running hashes the input has too, below theta; the check for too many matches never fires |
| `ThetaSetOps.Filled` | datasketches/src/thetafamily/common/intersection.rs:130-165 | filling a table sized for the hashes never triggers a rebuild |
| `ThetaSetOps.StaysEmpty` | datasketches/src/thetafamily/common/intersection.rs:99-101 | once exactly empty, an intersection stays so |
| `ThetaSetOps.UnionState.Update` | datasketches/src/thetafamily/common/union.rs:65-109 | the union then covers the accepted input's hashes and its theta; an error exactly for a wrong seed |
| `ThetaSetOps.UnionState.ToCompactParts` | datasketches/src/thetafamily/common/union.rs:111-158 | the accepted hashes below a theta that is the smallest offered or the (k+1)-th smallest hash below it, fixed by the inputs' hashes and thetas alone |
| `ThetaSetOps.LowerToTable` | datasketches/src/thetafamily/common/union.rs:65-158 | lowering the union's theta to its table's keeps it a hash with k smaller ones |
| `HllCoupons.Unpack` | datasketches/src/hll/mod.rs:235-250 | slot and value of a packed coupon |
| `HllCoupons.Repack` | datasketches/src/hll/mod.rs:235-250 | packing a coupon's slot and value gives the coupon |
| `HllCoupons.CouponParts` | datasketches/src/hll/mod.rs:235-250 | the slot is the low 26 bits, the value the bits above, a register the low bits of the slot |
| `HllCoupons.RegistersUnique` | datasketches/src/hll/mod.rs:45-47 | a set of coupons has one register array |
| `HllSketches.SameStreamSameRegisters` | datasketches/src/hll/mod.rs:45-47 | sketches of any types offered the same coupons, in any order, are in array mode together and then have the same registers |
| `HllCoupons.RaiseRegisters` | datasketches/src/hll/mod.rs:45-47 | one more coupon raises one register to the larger value |
| `HllCoupons.RegisterFolds` | datasketches/src/hll/union.rs:477-527 | the register of a coupon in a smaller array is its register masked |
| `HllCoupons.FoldUnites` | datasketches/src/hll/union.rs:445-527 | taking the maximum over the registers that mask to each slot unites the coupons of both arrays |
| `HllAuxMap.AuxMap.constructor` | datasketches/src/hll/aux_map.rs:87-96 | a new map has no pairs |
| `HllAuxMap.AuxMap.FindSlot` | datasketches/src/hll/aux_map.rs:142-171 | finds the slot or its free place; a map is never full |
| `HllAuxMap.AuxMap.Get` | datasketches/src/hll/aux_map.rs:117-122 | the value of a slot, if it has one |
| `HllAuxMap.AuxMap.Insert` | datasketches/src/hll/aux_map.rs:98-112 | exactly one pair is added; the unreachable case is |
| `HllAuxMap.AuxMap.Replace` | datasketches/src/hll/aux_map.rs:125-136 | exactly one value is changed; the unreachable case is |
| `HllAuxMap.AuxMap.CheckGrow` | datasketches/src/hll/aux_map.rs:174-179 | at most three quarters full, with the same pairs |
| `HllAuxMap.AuxMap.Grow` | datasketches/src/hll/aux_map.rs:182-216 | twice as many entries and the same pairs |
| `HllArray4.PutNibble` | datasketches/src/hll/array4.rs:135-146 | writing one half-byte changes one stored value |
| `HllArray4.NibbleBits` | datasketches/src/hll/array4.rs:93-107 | the stored value of a slot is the four bits from 4 * slot on |
| `HllArray4.Array4.constructor` | datasketches/src/hll/array4.rs:78-91 | all registers are zero |
| `HllArray4.Array4.GetRaw` | datasketches/src/hll/array4.rs:93-107 | the stored value of a slot |
| `HllArray4.Array4.PutRaw` | datasketches/src/hll/array4.rs:135-146 | exactly one stored value changes |
| `HllArray4.Array4.Get` | datasketches/src/hll/array4.rs:109-122 | the register, from its half-byte and the minimum or from the exception map |
| `HllArray4.Array4.GetException` | datasketches/src/hll/array4.rs:109-122 | a slot holding the token is in the exception map |
| `HllArray4.Array4.Update` | datasketches/src/hll/array4.rs:148-220 | one register is raised to the larger value; the floating minimum is the true minimum and its count exact |
| `HllArray4.Array4.StoreValue` | datasketches/src/hll/array4.rs:184-211 | the four cases of stored and new value all store the new register |
| `HllArray4.ExceptionsRaise` | datasketches/src/hll/array4.rs:186-211 | raising a register leaves, adds or replaces exactly its own exception |
| `HllArray4.Array4.ShiftToBiggerCurMin` | datasketches/src/hll/array4.rs:227-271 | the minimum rises by one and no register changes; the new count is exact |
| `HllArray4.Array4.DecrementAll` | datasketches/src/hll/array4.rs:232-243 | every stored value below the token drops by one, and those at the new minimum are counted |
| `HllArray4.Array4.MoveEntries` | datasketches/src/hll/array4.rs:245-267 | exceptions that came into reach return to their half-bytes and the others go to a new map |
| `HllArray4.Array4.IsEmpty` | datasketches/src/hll/array4.rs:308-312 | all registers are zero |
| `HllArray6.SlotFits` | datasketches/src/hll/array6.rs:289-300 | both bytes of every field lie in the array |
| `HllArray6.SlotBits` | datasketches/src/hll/array6.rs:71-101 | the register of a slot is the six bits from 6 * slot on |
| `HllArray6.PutReadsBack` | datasketches/src/hll/array6.rs:71-124 | a written register reads back |
| `HllArray6.PutElsewhere` | datasketches/src/hll/array6.rs:71-124 | a write leaves every other register alone, also those it shares bytes with |
| `HllArray6.Array6.constructor` | datasketches/src/hll/array6.rs:55-69 | all registers are zero |
| `HllArray6.Array6.Get` | datasketches/src/hll/array6.rs:85-88 | the register |
| `HllArray6.Array6.PutRaw` | datasketches/src/hll/array6.rs:103-124 | exactly one register changes |
| `HllArray6.Array6.Update` | datasketches/src/hll/array6.rs:126-147 | one register is raised to the larger value and the zeros are counted exactly |
| `HllArray6.Array6.IsEmpty` | datasketches/src/hll/array6.rs:174-178 | all registers are zero |
| `HllArray8.Array8.constructor` | datasketches/src/hll/array8.rs:52-65 | all registers are zero |
| `HllArray8.Array8.Update` | datasketches/src/hll/array8.rs:80-101 | one register is raised to the larger value and the zeros are counted exactly |
| `HllArray8.Array8.MergeArray` | datasketches/src/hll/array8.rs:172-223 | every register is the maximum of itself and the source registers that mask to it |
| `HllArray8.Array8.RebuildCachedValues` | datasketches/src/hll/array8.rs:229-230 | the zeros are counted exactly |
| `HllArray8.Array8.IsEmpty` | datasketches/src/hll/array8.rs:128-130 | all registers are zero |
| `HllContainers.CouponList.constructor` | datasketches/src/hll/list.rs:45-56 | no coupons |
| `HllContainers.CouponList.Update` | datasketches/src/hll/list.rs:59-71 | the list holds the coupon too, once |
| `HllContainers.CouponSet.constructor` | datasketches/src/hll/hash_set.rs:53-57 | no coupons |
| `HllContainers.CouponSet.Update` | datasketches/src/hll/hash_set.rs:60-89 | the set holds the coupon too, once; a set that is not full never runs out of empty slots |
| `HllSketches.HllSketch.constructor` | datasketches/src/hll/sketch.rs:92-114 | a new sketch stands for no coupons |
| `HllSketches.HllSketch.UpdateWithCoupon` | datasketches/src/hll/sketch.rs:215-244 | the sketch then stands for its coupons and this one, in the mode that their number determines, and keeps its type |
| `HllSketches.HllSketch.PromoteToSet` | datasketches/src/hll/sketch.rs:461-468 | the same coupons in a set |
| `HllSketches.HllSketch.SettleSet` | datasketches/src/hll/sketch.rs:230-238 | a set more than three quarters full grows or becomes an array, and stands for the same coupons |
| `HllSketches.HllSketch.GrowSet` | datasketches/src/hll/sketch.rs:470-481 | the same coupons in a set twice as large |
| `HllSketches.HllSketch.PromoteToArray` | datasketches/src/hll/sketch.rs:483-510 | registers with the largest value of the coupons held |
| `HllSketches.BuildArray4` | datasketches/src/hll/sketch.rs:485-492 | feeding the held coupons to a 4-bit array gives the registers of their set |
| `HllSketches.BuildArray6` | datasketches/src/hll/sketch.rs:493-500 | feeding the held coupons to a 6-bit array gives the registers of their set |
| `HllSketches.BuildArray8` | datasketches/src/hll/sketch.rs:501-508 | feeding the held coupons to an 8-bit array gives the registers of their set |
| `HllSketches.Feed` | datasketches/src/hll/sketch.rs:215-244 | the sketch stands for all coupons of the stream |
| `HllSketches.HllSketch.IsEmpty` | datasketches/src/hll/sketch.rs:135-144 | nothing was offered |
| `HllSketches.HllSketch.EmptyByMode` | datasketches/src/hll/sketch.rs:135-144 | in every mode the emptiness test is right |
| `HllUnions.HllUnion.constructor` | datasketches/src/hll/union.rs:84-95 | a new union stands for nothing |
| `HllUnions.HllUnion.Update` | datasketches/src/hll/union.rs:140-158 | the union then stands for the coupons of all inputs; its number of registers is the smallest of its maximum and the array-mode inputs' |
| `HllUnions.HllUnion.UpdateFromListOrSet` | datasketches/src/hll/union.rs:160-179 | an input in list or set mode adds its coupons and never lowers the number of registers |
| `HllUnions.HllUnion.UpdateFromArray` | datasketches/src/hll/union.rs:182-198 | an array-mode input adds its coupons and lowers the number of registers to its own if that is smaller |
| `HllUnions.HllUnion.MergeArrayIntoArray` | datasketches/src/hll/union.rs:201-233 | the gadget is downsized first if the source has fewer registers |
| `HllUnions.HllUnion.DownsizeGadget` | datasketches/src/hll/union.rs:202-221 | folding the gadget's registers stands for the same coupons |
| `HllUnions.HllUnion.PromoteGadgetAndMerge` | datasketches/src/hll/union.rs:236-244 | the gadget's coupons are offered to a copy of the source's registers |
| `HllUnions.CopyOrDownsample` | datasketches/src/hll/union.rs:587-617 | registers of the same coupons at the smaller size |
| `HllUnions.MergeCouponsIntoArray` | datasketches/src/hll/union.rs:391-409 | the registers then are those of both sets of coupons |
| `HllUnions.RegisterOfPack` | datasketches/src/hll/union.rs:534-541 | packing a register with its slot offers its value back to that slot |
| `HllUnions.ToArray4` | datasketches/src/hll/union.rs:551-568 | the same registers in 4-bit form |
| `HllUnions.ToArray6` | datasketches/src/hll/union.rs:532-550 | the same registers in 6-bit form |
| `HllUnions.ConvertArray8` | datasketches/src/hll/union.rs:529-570 | a sketch of the requested type for the same coupons with the same registers |
| `HllUnions.HllUnion.ToSketch` | datasketches/src/hll/union.rs:266-295 | a sketch of its own, in any type, for the same coupons |
| `ReqLevels.HalfRank` | datasketches/src/req/compactor.rs:241-289 | every second item of a sorted even stretch, doubled, misses the rank of any y by at most one, upwards for one coin outcome and downwards for the other |
| `ReqCompactors.Compactor.constructor` | datasketches/src/req/compactor.rs:86-107 | an empty level whose protected half is three times k |
| `ReqCompactors.Compactor.Append` | datasketches/src/req/compactor.rs:126-131 | one item more |
| `ReqCompactors.Compactor.Sort` | datasketches/src/req/compactor.rs:229-235 | the same items in order |
| `ReqCompactors.Compactor.MergeSorted` | datasketches/src/req/compactor.rs:180-225 | the sorted items of both lists |
| `ReqCompactors.Compactor.CountBelow` | datasketches/src/req/compactor.rs:158-174 | the number of items at or below (or only below) the given one, sorted or not |
| `ReqCompactors.PartitionPoint` | datasketches/src/req/compactor.rs:158-165 | the number of sorted items at or below y |
| `ReqCompactors.Compactor.ComputeCompactionRange` | datasketches/src/req/compactor.rs:332-367 | an even stretch at the unprotected end of the items that leaves half the nominal capacity and the sections not due, plus one for parity |
| `ReqSchedule.LeftBounds` | datasketches/src/req/compactor.rs:332-367 | a compaction that takes items leaves the protected half, and one of a level at its nominal capacity leaves less than that |
| `ReqSteps.TakenApart` | datasketches/src/req/compactor.rs:241-289 | the sorted items are cut in two at the unprotected end: the even stretch taken and the rest, whichever coin falls |
| `ReqSteps.PromotedSize` | datasketches/src/req/compactor.rs:241-289 | half of the items taken go up |
| `ReqCompactors.Compactor.CompactInto` | datasketches/src/req/compactor.rs:241-289 | level and promoted items are the functions Compacted and Promoted of the old level and the coins |
| `ReqSteps.CompactedSound` | datasketches/src/req/compactor.rs:241-289 | a compaction keeps the level sound with its protected half of at least 3k, counts itself once, and brings a level at its nominal capacity below it |
| `ReqCompactors.Compactor.TossCoin` | datasketches/src/req/compactor.rs:262-266 | after an odd state the coin is the opposite of the last, after an even one it is tossed |
| `ReqSchedule.SectionsDueBits` | datasketches/src/req/compactor.rs:251-253 | the counter's bits below the last section due are set, and the next is clear unless all are due |
| `ReqSchedule.LeftMeans` | datasketches/src/req/compactor.rs:332-367 | nothing is taken before two items are to go beyond the sections kept; then all of an even number of them |
| `ReqSchedule.DoublesIffDue` | datasketches/src/req/compactor.rs:308-330 | after j doublings there are three times 2^j sections of k over the j-th power of root two, and a level doubles again exactly if its counter has reached 2^(n - 1) for its n sections, the next size is at least four and n is below 96 |
| `ReqSchedule.StepScheduled` | datasketches/src/req/compactor.rs:288-290 | one doubling after each compaction keeps the sections those that the counter calls for |
| `ReqSteps.MergedLevelScheduled` | datasketches/src/req/compactor.rs:134-151 | so do the doublings after a merge |
| `ReqSchedule.RootOfTwo` | datasketches/src/req/compactor.rs:319-319 | the divisor is the single-precision number next to the square root of two |
| `ReqCompactors.Compactor.EnsureEnoughSections` | datasketches/src/req/compactor.rs:308-330 | once the schedule has reached its threshold the sections double, at the raw size divided by the square root of two and rounded to the nearest even size, unless that is below the minimum; the nominal capacity never shrinks |
| `ReqSchedule.ShrinkBounds` | datasketches/src/req/compactor.rs:316-327 | the new section size is at most the old one and at least half of it, for every raw size |
| `ReqSchedule.DoubledSound` | datasketches/src/req/compactor.rs:308-330 | so the protected half never shrinks |
| `ReqSchedule.OrBetween` | datasketches/src/req/compactor.rs:134-151 | a merged schedule counter is between each of the two and their sum |
| `ReqCompactors.Compactor.Merge` | datasketches/src/req/compactor.rs:134-151 | a bit of the counter is then set exactly if it was set in one of the two; items of both in order, sections doubled until no doubling is due |
| `ReqSchedule.OrBits` | datasketches/src/req/compactor.rs:136-136 | bit by bit, the united counter is the or of the two |
| `ReqSteps.MergedLevelSound` | datasketches/src/req/compactor.rs:134-151 | a merged level holds the items of both and keeps its protected half |
| `ReqLevels.AppendRepresents` | datasketches/src/req/sketch.rs:164-186 | one more item at level 0 keeps weights, rank errors and the protected tail |
| `ReqLevels.MovedUpRepresents` | datasketches/src/req/sketch.rs:761-780 | compacting a level into the one above keeps the total weight, adds at most its weight to any rank error, and leaves the protected tail at level 0 |
| `ReqLevels.GrowRepresents` | datasketches/src/req/sketch.rs:754-759 | a new top level changes nothing |
| `ReqLevels.JoinedRepresents` | datasketches/src/req/sketch.rs:306-350 | joining levels of two sketches adds weights and error bounds and protects the smaller tail |
| `ReqLevels.ExactTail` | datasketches/src/req/sketch.rs:419-437 | where the protected tail covers an item, its estimated rank is its true rank |
| `ReqLevels.ExactEstimate` | datasketches/src/req/sketch.rs:419-437 | and so it is where the estimate itself leaves fewer items than the protected tail |
| `ReqSketches.ReqSketch.constructor` | datasketches/src/req/sketch.rs:90-114 | a new sketch stands for the empty stream |
| `ReqSketches.ReqSketch.Update` | datasketches/src/req/sketch.rs:164-186 | the stream grows by the item; below the total capacity only level 0 changes, at it every level falls below its own in one passage, and a sketch below its capacity stays below it |
| `ReqSteps.AddedGood` | datasketches/src/req/sketch.rs:164-186 | those levels represent the longer stream, with the same protected tail, for every outcome of the coins |
| `ReqSteps.SettleGood` | datasketches/src/req/sketch.rs:161-186 | the levels are unchanged exactly below the total capacity, else every level is below its own; the stream is still represented |
| `ReqSizes.CompressedPassage` | datasketches/src/req/sketch.rs:761-780 | a compression passes each level once, from the bottom: a level that what comes up fills is compacted, keeps what its schedule leaves and passes on half of the rest; any other keeps everything |
| `ReqSizes.SettledBelow` | datasketches/src/req/sketch.rs:183-185 | levels that together have just reached their capacity are below it afterwards |
| `ReqSketches.ReqSketch.Compress` | datasketches/src/req/sketch.rs:761-780 | every full level the sketch had is relieved in turn, and the counters are exact |
| `ReqSteps.CompressedGood` | datasketches/src/req/sketch.rs:761-780 | afterwards every level the sketch had is below its nominal capacity and the stream is still represented |
| `ReqSketches.ReqSketch.RelieveLevel` | datasketches/src/req/sketch.rs:762-778 | a level is compacted into the next, which is grown if missing, and nothing else changes |
| `ReqSteps.RelievedGood` | datasketches/src/req/sketch.rs:762-778 | a full level falls below its capacity and the stream is still represented |
| `ReqSketches.ReqSketch.CompactLevel` | datasketches/src/req/sketch.rs:764-775 | only two neighbouring levels change: one is compacted and the other takes the promoted items in order |
| `ReqSketches.ReqSketch.Grow` | datasketches/src/req/sketch.rs:754-759 | one empty level more |
| `ReqSketches.ReqSketch.UpdateMaxNomSize` | datasketches/src/req/sketch.rs:782-784 | the sum of the nominal capacities |
| `ReqSketches.ReqSketch.UpdateNumRetained` | datasketches/src/req/sketch.rs:786-788 | the number of retained items |
| `ReqSketches.ReqSketch.Merge` | datasketches/src/req/sketch.rs:306-350 | the sketch then represents both streams and is below its total capacity, or every level it had or took over is below its own; sketches of different rank accuracy are refused |
| `ReqSteps.MergeGood` | datasketches/src/req/sketch.rs:306-350 | settling the merged levels of two sketches represents both streams and protects the smaller tail |
| `ReqSketches.ReqSketch.RankWeight` | datasketches/src/req/sketch.rs:212-230 | the weighted count, within the error that the compactions can have made of the true count |
| `ReqSketches.ReqSketch.Rank` | datasketches/src/req/sketch.rs:212-230 | the weighted count over the stream length, or an error exactly for the empty sketch |
| `ReqSketches.ReqSketch.ThresholdIff` | datasketches/src/req/sketch.rs:419-437 | the claim is made exactly if the count leaves at most 3k items in the protected tail, or there is one level, or there are at most 3k items |
| `ReqSketches.ReqSketch.ExactRankIsExact` | datasketches/src/req/sketch.rs:419-437 | where the sketch claims to be exact at an item's true rank, its estimate is the true rank |
| `ReqSketches.ReqSketch.ExactInside` | datasketches/src/req/sketch.rs:419-437 | an estimate strictly inside the exact tail is the true rank |
| `ReqSketches.ReqSketch.ExactWhenSmall` | datasketches/src/req/sketch.rs:427-430 | with one level or at most 3k items every estimate is the true rank |
| `ReqSketches.ReqSketch.ExactOffThreshold` | datasketches/src/req/sketch.rs:419-437 | where the sketch claims to be exact at its own estimate, other than at the threshold itself, the estimate is the true rank |
| `ReqExactEdge.ClaimFails` | datasketches/src/req/sketch.rs:419-437 | at the threshold it need not be: a run of 70 updates at k = 4 after which the claim holds of the estimate 58 for an item of rank 57 |
| `ReqExactEdge.Running` | datasketches/src/req/sketch.rs:164-186 | the levels of that run after each of its updates |
| `ReqExactEdge.LastStep` | datasketches/src/req/sketch.rs:761-780 | its last compaction leaves 12 items at level 0 and none above 57 anywhere else |
| `ReqSketches.ReqSketch.UpdateOnlyError` | datasketches/src/req/sketch.rs:164-186 | in update-only runs every rank is within the sum of 2^h times the schedule counter of level h, for every outcome of the coins |
| `ReqSketches.ReqSketch.WeightConserved` | datasketches/src/req/sketch.rs:164-186 | the weights of the retained items add up to the length of the stream, after every update, compression and merge |

## Left out

- Estimators and confidence bounds (HIP, ICON, composite estimators, rank bounds): floating point and
  empirical tables. The HIP and kxp registers of CPC are carried as opaque values, changed exactly
  where the code changes them.
- Hash functions, seeds and seed hashes of CPC, HLL and frequent items, and the value wrappers.
- Headers, byte order and malformed images: `CpcSerialization` stops at the fields of an image and its
  32-bit words. Serialization of the other four engines.
- The constant code tables and column permutations of the CPC codec: any tables with the properties in
  `ValidTables` will do.
- Tuple entries of the Theta family: an entry is its hash, the callbacks and merge policies that
  combine summaries are not modelled; a sampling probability is the initial theta it leads to.
- The error returns for corrupted inputs of `intersection.rs`: inputs are well formed.
- `reset` of the Theta table and union, and the table's own compact form.
- Overflow of 64-bit weights and counters, and of the 16-bit drifts of the frequent-items map.
- Update by reference in the frequent-items sketch: it changes the map like update by value.
- REQ items are integers (no NaN); minimum and maximum item, sorted view, quantiles, PMF and CDF.
- T-digest, Bloom filter, CountMin and Jaccard similarity.
- Display, builders, size estimates, scratch buffers and capacity tuning.
- ReqCompactors.Compactor.EnsureEnoughSections: section sizes are real numbers, divided by the single
  precision constant for the square root of two; the rounding of each quotient is not modelled.
- ReqSketches.ReqSketch.ExactRankIsExact: real arithmetic in place of double precision.
- ReqSketches.ReqSketch.ExactOffThreshold: likewise.
- FrequentItems.FrequentItemsSketch.Merge: which counters are purged while merging is not described,
  only what the result then promises about every item.
- HllArray8.Array8.MergeArray: one loop for the same-size and the downsampling merge of all three
  source types, whose registers are read into a list first; registers are at most 63, so the clamp to
  six bits never acts.
- Sorting.Sort: stands for the standard library's sorts, and Selection.SelectNth for its selection.
