/** Saving and restoring a CPC sketch: `serialize` and `deserialize_with_seed` of `cpc/sketch.rs`,
  * from the flavor's pair list and window down to 32-bit words. */
module CpcSerialization {
  import opened Powers
  import opened Options
  import opened BitSequences
  import opened CpcWords
  import opened CpcCoupons
  import opened Sets
  import opened CpcPairTable
  import opened CpcSketches
  import opened CpcBitStream
  import opened CpcCompression
  import opened CpcPairLists

  /** The constant code tables and column permutations. */
  datatype Tables = Tables(pairEnc: seq<Code>, pairDec: seq<Symbol>,
                           byteEnc: seq<seq<Code>>, byteDec: seq<seq<Symbol>>,
                           encPerm: seq<seq<nat>>, decPerm: seq<seq<nat>>)

  ghost predicate ValidTables(t: Tables) {
    && |t.pairEnc| == 65 && PrefixCode(t.pairEnc, t.pairDec)
    && |t.byteEnc| == |t.byteDec| == 22
    && (forall p :: 0 <= p < 22 ==> |t.byteEnc[p]| == 256 && PrefixCode(t.byteEnc[p], t.byteDec[p]))
    && |t.encPerm| == |t.decPerm| == 16
    && (forall p :: 0 <= p < 16 ==> Inverse(t.encPerm[p], t.decPerm[p]))
  }

  datatype SketchImage = SketchImage(lgK: nat, firstInterestingColumn: nat, numCoupons: nat,
                                     hasTable: bool, hasWindow: bool, tableEntries: nat,
                                     tableWords: seq<nat>, windowWords: seq<nat>,
                                     hasHip: bool, hip: Option<(real, real)>)

  // --------------------------------------------------------- window bytes

  function RowBits(row: Row): (b: seq<bool>)
    ensures |b| == 8
  {
    seq(8, i => i in row)
  }

  function ByteOf(row: Row): nat {
    Value(RowBits(row))
  }

  /** Column c of the window is bit c of its byte. */
  lemma ByteBits(row: Row, c: nat)
    requires c < 8
    ensures ByteOf(row) / Pow2(c) % 2 == 1 <==> c in row
  {
    BitsOfValue(RowBits(row));
    BitsAt(ByteOf(row), 8, c);
  }

  function RowOfByte(byte: nat): Row {
    set c: nat | c < 8 && Bits(byte, 8)[c]
  }

  lemma ByteRestored(row: Row)
    requires forall c :: c in row ==> c < 8
    ensures ByteOf(row) < 256 && RowOfByte(ByteOf(row)) == row
  {
    BitsOfValue(RowBits(row));
    assert Pow2(8) == 256;
  }

  ghost function WindowBytes(coupons: set<nat>, lgK: nat, offset: nat): seq<nat> {
    seq(Pow2(lgK), r requires r >= 0 => ByteOf(WindowOf(RowOf(coupons, r), offset)))
  }

  method BytesOfWindow(window: array<Row>, lgK: nat, ghost coupons: set<nat>, ghost offset: nat) returns (bytes: seq<nat>)
    requires WindowMatches(window[..], coupons, lgK, offset)
    ensures bytes == WindowBytes(coupons, lgK, offset) && forall i :: 0 <= i < |bytes| ==> bytes[i] < 256
  {
    bytes := [];
    for r := 0 to window.Length
      invariant |bytes| == r && forall i :: 0 <= i < r ==> bytes[i] == WindowBytes(coupons, lgK, offset)[i] < 256
    {
      ByteRestored(window[r]);
      bytes := bytes + [ByteOf(window[r])];
    }
  }

  method WindowOfBytes(bytes: seq<nat>, lgK: nat, ghost coupons: set<nat>, ghost offset: nat) returns (window: array<Row>)
    requires bytes == WindowBytes(coupons, lgK, offset)
    ensures fresh(window) && WindowMatches(window[..], coupons, lgK, offset)
  {
    window := new Row[|bytes|](_ => {});
    hide ByteOf, RowOfByte, WindowBytes, WindowMatches;
    for r := 0 to |bytes|
      invariant forall i :: 0 <= i < r ==> window[i] == RowOfByte(bytes[i])
    {
      window[r] := RowOfByte(bytes[r]);
    }
    WindowRestored(window[..], coupons, lgK, offset);
  }

  lemma WindowRestored(window: seq<Row>, coupons: set<nat>, lgK: nat, offset: nat)
    requires |window| == |WindowBytes(coupons, lgK, offset)|
    requires forall i :: 0 <= i < |window| ==> window[i] == RowOfByte(WindowBytes(coupons, lgK, offset)[i])
    ensures WindowMatches(window, coupons, lgK, offset)
  {
    hide ByteOf, RowOfByte;
    forall r | 0 <= r < |window| ensures window[r] == WindowOf(RowOf(coupons, r), offset) {
      ByteRestored(WindowOf(RowOf(coupons, r), offset));
    }
  }

  // ---------------------------------------------------------- stored pairs

  /** The pairs a flavor stores: all coupons while they fit, else the surprises, columns shifted. */
  ghost function StoredPairs(lgK: nat, coupons: set<nat>, t: Tables): set<nat>
    requires 4 <= lgK && ValidTables(t)
  {
    var c := |coupons|;
    var offset := DetermineCorrectOffset(lgK, c);
    match DetermineFlavor(lgK, c)
    case Empty => {}
    case Sparse => coupons
    case Hybrid => coupons
    case Pinned => Image(SurpriseSet(coupons, lgK, 0), Down)
    case Sliding => Image(SurpriseSet(coupons, lgK, offset), SlideBy(offset, t.encPerm[DeterminePseudoPhase(lgK, c)]))
  }

  ghost predicate HasWindow(lgK: nat, coupons: set<nat>) {
    var flavor := DetermineFlavor(lgK, |coupons|);
    flavor == Pinned || flavor == Sliding
  }

  /** An image holds a list: its length and, unless it is empty, its padded codes. */
  ghost predicate HoldsPairs(image: SketchImage, enc: seq<Code>, pairs: seq<nat>) {
    && image.hasTable == (pairs != [])
    && image.tableEntries == |pairs|
    && (pairs != [] ==> Coded(enc, pairs) && Encoded(image.tableWords, enc, image.lgK, pairs))
  }

  /** The images `serialize` writes. */
  ghost predicate ImageOf(image: SketchImage, coupons: set<nat>, column: nat, t: Tables)
    requires 4 <= image.lgK && ValidTables(t)
  {
    && image.numCoupons == |coupons| && image.firstInterestingColumn == column
    && image.hasWindow == HasWindow(image.lgK, coupons)
    && (exists pairs :: Lists(pairs, StoredPairs(image.lgK, coupons, t)) && HoldsPairs(image, t.pairEnc, pairs))
    && (image.hasWindow ==>
      WindowEncoded(image.windowWords, t.byteEnc[DeterminePseudoPhase(image.lgK, |coupons|)],
                    WindowBytes(coupons, image.lgK, DetermineCorrectOffset(image.lgK, |coupons|))))
  }

  /** What is written for a set of coupons: all of them while they are fewer than half of K, else a
    * window and the surprises, their columns shifted past the window, or from 27 K / 8 coupons on
    * rotated past it and permuted. */
  ghost predicate Written(image: SketchImage, coupons: set<nat>, phase: nat, offset: nat, t: Tables)
    requires ValidTables(t) && phase < 22
  {
    var c, k := |coupons|, Pow2(image.lgK);
    && image.numCoupons == c && (image.hasWindow <==> 2 * c >= k)
    && (image.hasWindow ==> WindowWritten(image.windowWords, t.byteEnc[phase], WindowBytes(coupons, image.lgK, offset)))
    && exists pairs ::
        && Ascends(pairs) && image.tableEntries == |pairs| && (image.hasTable <==> pairs != [])
        && (pairs != [] ==> Coded(t.pairEnc, pairs) && PairsWritten(image.tableWords, t.pairEnc, image.lgK, pairs))
        && if 2 * c < k then ToSet(pairs) == coupons
           else if 8 * c < 27 * k then ToSet(pairs) == set rc | rc in SurpriseSet(coupons, image.lgK, 0) && rc >= 8 :: rc - 8
           else phase < 16 && ToSet(pairs) == Image(SurpriseSet(coupons, image.lgK, offset), SlideBy(offset, t.encPerm[phase]))
  }

  lemma FlavorIs(lgK: nat, c: nat)
    requires 4 <= lgK
    ensures var flavor, k := DetermineFlavor(lgK, c), Pow2(lgK);
      && (2 * c < k <==> flavor !in {Pinned, Sliding}) && (8 * c >= 27 * k <==> flavor == Sliding)
      && (flavor == Empty <==> c == 0)
  {
  }

  lemma ByFlavor(image: SketchImage, coupons: set<nat>, pairs: seq<nat>, t: Tables)
    requires 4 <= image.lgK && ValidTables(t) && AllCoupons(image.lgK, coupons) && DetermineCorrectOffset(image.lgK, |coupons|) <= 56
    requires image.numCoupons == |coupons| && image.hasWindow == HasWindow(image.lgK, coupons)
    requires Lists(pairs, StoredPairs(image.lgK, coupons, t)) && image.tableEntries == |pairs| && (image.hasTable <==> pairs != [])
    requires pairs != [] ==> Coded(t.pairEnc, pairs) && PairsWritten(image.tableWords, t.pairEnc, image.lgK, pairs)
    requires var phase := DeterminePseudoPhase(image.lgK, |coupons|);
      image.hasWindow ==>
        WindowWritten(image.windowWords, t.byteEnc[phase], WindowBytes(coupons, image.lgK, DetermineCorrectOffset(image.lgK, |coupons|)))
    ensures forall phase: nat, offset: nat :: PhaseOf(image.lgK, |coupons|, phase) && OffsetFits(image.lgK, |coupons|, offset) ==>
      phase < 22 && Written(image, coupons, phase, offset, t)
  {
    hide PhaseOf, OffsetFits, Coded, PairsWritten, WindowWritten, WindowBytes, SurpriseSet, DeterminePseudoPhase, DetermineCorrectOffset, PrefixCode, Inverse, SlideBy, Pow2;
    forall phase: nat, offset: nat | PhaseOf(image.lgK, |coupons|, phase) && OffsetFits(image.lgK, |coupons|, offset)
      ensures phase < 22 && Written(image, coupons, phase, offset, t)
    {
      PhaseIs(image.lgK, |coupons|, phase);
      CorrectOffsetIff(image.lgK, |coupons|, offset);
      FlavorIs(image.lgK, |coupons|);
      ShiftedDown(SurpriseSet(coupons, image.lgK, 0), coupons, image.lgK);
      assert DetermineFlavor(image.lgK, |coupons|) == Empty ==> coupons == {};
    }
  }

  lemma ShiftedDown(items: set<nat>, coupons: set<nat>, lgK: nat)
    requires items == SurpriseSet(coupons, lgK, 0)
    ensures Image(items, Down) == set rc | rc in items && rc >= 8 :: rc - 8
  {
    forall rc | rc in items ensures rc >= 8 && Down(rc) == rc - 8 {
    }
  }

  method Serialize(sketch: CpcSketch, t: Tables) returns (image: SketchImage)
    requires sketch.Valid() && ValidTables(t)
    ensures image.lgK == sketch.lgK && ImageOf(image, sketch.coupons, sketch.firstInterestingColumn, t)
    ensures forall phase: nat, offset: nat ::
      PhaseOf(sketch.lgK, |sketch.coupons|, phase) && OffsetFits(sketch.lgK, |sketch.coupons|, offset) ==>
        phase < 22 && Written(image, sketch.coupons, phase, offset, t)
    ensures image.firstInterestingColumn == sketch.firstInterestingColumn
    ensures image.hasHip == !sketch.mergeFlag
    ensures image.hip == if sketch.coupons == {} || sketch.mergeFlag then None else Some((sketch.kxp, sketch.hipEstAccum))
  {
    hide CpcSketch.Valid, StoredPairs, Encodable, AllCoupons, SurpriseSet, PairTable.Valid, PairTable.Contents, WindowBytes, FullBelow, Inverse, Pow2, DetermineCorrectOffset, Saved, PhaseOf, OffsetFits, Written, PairsWritten, WindowWritten;
    SketchFacts(sketch);
    SketchSaved(sketch);
    SavedFacts(sketch.lgK, sketch.coupons, sketch.firstInterestingColumn);
    var flavor := sketch.GetFlavor();
    var hasWindow := flavor == Pinned || flavor == Sliding;
    var windowWords, tableWords: seq<nat> := [], [];
    var pairs := PairsOf(sketch, t);
    if hasWindow {
      var phase := DeterminePseudoPhase(sketch.lgK, sketch.numCoupons);
      var bytes := BytesOfWindow(sketch.slidingWindow, sketch.lgK, sketch.coupons, sketch.windowOffset);
      windowWords := EncodeWindow(bytes, t.byteEnc[phase], t.byteDec[phase]);
    }
    if pairs.Length != 0 {
      StoredEncodable(pairs[..], sketch.lgK, sketch.coupons, t);
      tableWords := EncodePairs(pairs[..], sketch.lgK, t.pairEnc, t.pairDec);
    }
    image := SketchImage(sketch.lgK, sketch.firstInterestingColumn, sketch.numCoupons,
                         pairs.Length != 0, hasWindow, pairs.Length, tableWords, windowWords, !sketch.mergeFlag,
                         if sketch.numCoupons == 0 || sketch.mergeFlag then None else Some((sketch.kxp, sketch.hipEstAccum)));
    ByFlavor(image, sketch.coupons, pairs[..], t);
  }

  /** The sorted pairs to store. */
  method PairsOf(sketch: CpcSketch, t: Tables) returns (pairs: array<nat>)
    requires sketch.Valid() && ValidTables(t)
    ensures fresh(pairs) && Lists(pairs[..], StoredPairs(sketch.lgK, sketch.coupons, t))
  {
    SketchFacts(sketch);
    ReachableState(sketch, 0);
    ghost var stored := StoredPairs(sketch.lgK, sketch.coupons, t);
    var flavor := sketch.GetFlavor();
    match flavor {
    case Empty =>
      pairs := new nat[0];
      assert pairs[..] == [] && ToSet([]) == {};
    case Sparse => pairs := TableItems(sketch.table);
    case Hybrid => pairs := HybridPairs(sketch);
    case Pinned => pairs := PinnedPairs(sketch);
    case Sliding =>
      var phase := DeterminePseudoPhase(sketch.lgK, sketch.numCoupons);
      pairs := SlidingPairs(sketch, t.encPerm[phase], t.decPerm[phase]);
    }
    assert ToSet(pairs[..]) == stored;
    SortUnstable(pairs);
  }

  method TableItems(table: PairTable) returns (pairs: array<nat>)
    requires table.Valid()
    ensures fresh(pairs) && ToSet(pairs[..]) == table.Contents() && pairs.Length == |ToSet(pairs[..])|
  {
    pairs := table.UnwrappingGetItems();
  }

  method PinnedPairs(sketch: CpcSketch) returns (pairs: array<nat>)
    requires sketch.table != null && sketch.table.Valid()
    requires sketch.table.Contents() == SurpriseSet(sketch.coupons, sketch.lgK, 0)
    ensures fresh(pairs) && ToSet(pairs[..]) == Image(SurpriseSet(sketch.coupons, sketch.lgK, 0), Down)
    ensures pairs.Length == |ToSet(pairs[..])|
  {
    ghost var items := SurpriseSet(sketch.coupons, sketch.lgK, 0);
    pairs := TableItems(sketch.table);
    ghost var s := pairs[..];
    forall i | 0 <= i < pairs.Length ensures pairs[i] % 64 >= 8 {
      assert pairs[i] in ToSet(s);
    }
    ShiftDown(pairs);
    MapOut(s, pairs[..], items, Down, Up);
  }

  method SlidingPairs(sketch: CpcSketch, perm: seq<nat>, ghost inverse: seq<nat>) returns (pairs: array<nat>)
    requires sketch.table != null && sketch.table.Valid() && sketch.windowOffset <= 56 && Inverse(perm, inverse)
    requires sketch.table.Contents() == SurpriseSet(sketch.coupons, sketch.lgK, sketch.windowOffset)
    ensures fresh(pairs) && pairs.Length == |ToSet(pairs[..])|
    ensures ToSet(pairs[..]) == Image(sketch.table.Contents(), SlideBy(sketch.windowOffset, perm))
  {
    ghost var items := sketch.table.Contents();
    var offset := sketch.windowOffset;
    pairs := TableItems(sketch.table);
    ghost var s := pairs[..];
    forall i | 0 <= i < pairs.Length ensures !(offset <= pairs[i] % 64 < offset + 8) {
      assert pairs[i] in ToSet(s);
    }
    SlideAll(pairs, offset, perm, inverse);
    forall p | p in items ensures Unslide(Slide(p, offset, perm), offset, inverse) == p {
      SlideBack(p, offset, perm, inverse);
    }
    MapOut(s, pairs[..], items, SlideBy(offset, perm), UnslideBy(offset, inverse));
  }

  /** The table's pairs and the window's pairs, merged in one buffer. */
  method HybridPairs(sketch: CpcSketch) returns (all: array<nat>)
    requires sketch.Valid() && sketch.GetFlavor() == Hybrid
    ensures fresh(all) && ToSet(all[..]) == sketch.coupons && all.Length == |ToSet(all[..])|
  {
    SketchFacts(sketch);
    HybridParts(sketch.coupons, sketch.lgK);
    var tablePairs := TableItems(sketch.table);
    SortUnstable(tablePairs);
    assert tablePairs.Length == |sketch.table.Contents()| by { ListSize(tablePairs[..], sketch.table.Contents()); }
    all := new nat[sketch.numCoupons](_ => 0);
    AppendWindowPairs(all, tablePairs.Length, sketch.slidingWindow, sketch.lgK, sketch.coupons);
    MergeInPlace(tablePairs, all);
  }

  lemma HybridParts(coupons: set<nat>, lgK: nat)
    requires AllCoupons(lgK, coupons)
    ensures var s := SurpriseSet(coupons, lgK, 0);
      s + LowColumns(coupons) == coupons && s !! LowColumns(coupons)
      && |s| + |LowColumns(coupons)| == |coupons|
  {
    forall rc | rc in coupons ensures rc in SurpriseSet(coupons, lgK, 0) + LowColumns(coupons) {
      assert Coupon(lgK, rc);
    }
    assert SurpriseSet(coupons, lgK, 0) + LowColumns(coupons) == coupons;
  }

  /** Stored pairs, in order, are what the coder accepts. */
  lemma StoredEncodable(pairs: seq<nat>, lgK: nat, coupons: set<nat>, t: Tables)
    requires 4 <= lgK <= 26 && AllCoupons(lgK, coupons) && ValidTables(t)
    requires DetermineCorrectOffset(lgK, |coupons|) <= 56
    requires Lists(pairs, StoredPairs(lgK, coupons, t))
    ensures Encodable(pairs, lgK)
  {
    forall i | 0 <= i < |pairs| ensures pairs[i] < 64 * Pow2(lgK) && pairs[i] != EMPTY {
      assert pairs[i] in ToSet(pairs);
      StoredInSpace(pairs[i], lgK, coupons, t);
    }
  }

  lemma StoredInSpace(pair: nat, lgK: nat, coupons: set<nat>, t: Tables)
    requires 4 <= lgK <= 26 && AllCoupons(lgK, coupons) && ValidTables(t)
    requires DetermineCorrectOffset(lgK, |coupons|) <= 56 && pair in StoredPairs(lgK, coupons, t)
    ensures pair < 64 * Pow2(lgK) && pair != EMPTY
  {
    var c := |coupons|;
    var offset := DetermineCorrectOffset(lgK, c);
    assert EMPTY % 64 == 63;
    hide Down, Slide, Pow2, DetermineCorrectOffset, DeterminePseudoPhase, PrefixCode;
    match DetermineFlavor(lgK, c)
    case Empty =>
    case Sparse => assert Coupon(lgK, pair);
    case Hybrid => assert Coupon(lgK, pair);
    case Pinned =>
      var rc :| rc in SurpriseSet(coupons, lgK, 0) && pair == Down(rc);
      ShiftedColumn(rc);
    case Sliding =>
      var phase := DeterminePseudoPhase(lgK, c);
      var rc :| rc in SurpriseSet(coupons, lgK, offset) && pair == Slide(rc, offset, t.encPerm[phase]);
      SlideInSpace(rc, lgK, coupons, offset, t.encPerm[phase], t.decPerm[phase]);
  }

  lemma SlideInSpace(rc: nat, lgK: nat, coupons: set<nat>, offset: nat, perm: seq<nat>, inverse: seq<nat>)
    requires offset <= 56 && Inverse(perm, inverse) && rc in SurpriseSet(coupons, lgK, offset)
    ensures Slide(rc, offset, perm) < 64 * Pow2(lgK) && Slide(rc, offset, perm) != EMPTY
  {
    SlideBack(rc, offset, perm, inverse);
    assert EMPTY % 64 == 63 && rc / 64 < Pow2(lgK);
  }

  // -------------------------------------------------------------- restoring

  /** Which sketches survive: the decoder rejects an image with more table entries than coupons,
    * and only a sliding sketch can have that many surprises. */
  ghost predicate Restorable(lgK: nat, coupons: set<nat>) {
    DetermineFlavor(lgK, |coupons|) == Sliding ==>
      |SurpriseSet(coupons, lgK, DetermineCorrectOffset(lgK, |coupons|))| <= |coupons|
  }

  /** What a saved sketch promises about its coupons. */
  ghost predicate Saved(lgK: nat, coupons: set<nat>, column: nat) {
    var offset := DetermineCorrectOffset(lgK, |coupons|);
    && 4 <= lgK <= 26 && AllCoupons(lgK, coupons) && offset <= 56
    && column <= offset && FullBelow(coupons, lgK, column) && SurprisesFit(coupons, lgK, offset)
  }

  lemma SavedFacts(lgK: nat, coupons: set<nat>, column: nat)
    requires Saved(lgK, coupons, column)
    ensures 4 <= lgK <= 26 && AllCoupons(lgK, coupons) && DetermineCorrectOffset(lgK, |coupons|) <= 56
    ensures column <= DetermineCorrectOffset(lgK, |coupons|) && FullBelow(coupons, lgK, column)
    ensures SurprisesFit(coupons, lgK, DetermineCorrectOffset(lgK, |coupons|))
    ensures OffsetFits(lgK, |coupons|, DetermineCorrectOffset(lgK, |coupons|))
  {
    CorrectOffsetIff(lgK, |coupons|, DetermineCorrectOffset(lgK, |coupons|));
  }

  /** Before the sliding flavor the window has not moved; windowed flavors are dense. */
  lemma FlavorFacts(lgK: nat, coupons: set<nat>)
    ensures DetermineFlavor(lgK, |coupons|) != Sliding ==> DetermineCorrectOffset(lgK, |coupons|) == 0
    ensures DetermineFlavor(lgK, |coupons|) !in {Empty, Sparse} ==> Dense(coupons, lgK)
  {
    CorrectOffsetIff(lgK, |coupons|, 0);
  }

  method NewTable(lgK: nat) returns (table: PairTable)
    requires 4 <= lgK <= 26
    ensures fresh(table) && fresh(table.slots) && table.Valid() && table.numValidBits == 6 + lgK && table.Contents() == {}
  {
    table := new PairTable(2, 6 + lgK);
  }

  method ArrayOf(pairs: seq<nat>) returns (a: array<nat>)
    ensures fresh(a) && a[..] == pairs
  {
    a := new nat[|pairs|](i requires 0 <= i < |pairs| => pairs[i]);
  }

  /** The table of a duplicate-free list of surprises. */
  method TableOf(lgK: nat, n: nat, pairs: seq<nat>, ghost coupons: set<nat>, ghost offset: nat) returns (table: PairTable)
    requires 4 <= lgK <= 26 && n <= |pairs| && InSpace(pairs, lgK) && SurprisesFit(coupons, lgK, offset)
    requires NoDuplicates(pairs[..n]) && ToSet(pairs[..n]) == SurpriseSet(coupons, lgK, offset)
    ensures fresh(table) && fresh(table.slots) && table.Valid() && table.numValidBits == 6 + lgK
    ensures table.Contents() == SurpriseSet(coupons, lgK, offset)
  {
    ToSetSize(pairs[..n]);
    SurprisesSmall(lgK, n);
    hide SurpriseSet, PairTable.Valid, PairTable.Contents, Pow2;
    var result := FromSlots(lgK, n, pairs);
    table := result.value;
  }

  lemma SurprisesSmall(lgK: nat, n: nat)
    requires 4 <= lgK <= 26 && 4 * n <= 3 * Pow2(if lgK <= 21 then lgK + 5 else 26)
    ensures 4 * n <= 3 * Pow2(26) && 4 * n <= 3 * Pow2(5 + lgK) && 64 * Pow2(lgK) == Pow2(6 + lgK)
  {
    Add(6, lgK);
    assert Pow2(6) == 64;
    Monotone(if lgK <= 21 then lgK + 5 else 26, 26);
    Monotone(if lgK <= 21 then lgK + 5 else 26, 5 + lgK);
  }

  /** What the image holds about its pairs, with the list made explicit. */
  ghost predicate PairsHeld(image: SketchImage, t: Tables, pairs: seq<nat>) {
    ValidTables(t) && Encodable(pairs, image.lgK) && HoldsPairs(image, t.pairEnc, pairs)
  }

  /** Reads back the stored list. */
  method StoredList(image: SketchImage, t: Tables, ghost pairs: seq<nat>) returns (decoded: seq<nat>)
    requires PairsHeld(image, t, pairs) && image.lgK <= 26 && image.hasTable
    ensures decoded == pairs && InSpace(decoded, image.lgK)
  {
    var result := DecodePairs(image.tableWords, image.tableEntries, image.lgK, t.pairEnc, t.pairDec, pairs);
    decoded := result.value;
  }

  method RestoreSparse(image: SketchImage, t: Tables, ghost pairs: seq<nat>, ghost coupons: set<nat>) returns (sketch: CpcSketch)
    requires PairsHeld(image, t, pairs) && Saved(image.lgK, coupons, 0) && image.hasTable && 4 <= image.lgK <= 26
    requires Lists(pairs, coupons) && image.numCoupons == |coupons| && 32 * |coupons| < 3 * Pow2(image.lgK)
    ensures fresh(sketch) && fresh(sketch.Repr) && Restored(sketch, image.lgK, coupons, 0)
  {
    hide *;
    var table := SparseTable(image, t, pairs, coupons);
    sketch := RestoredSparse(image.lgK, image.numCoupons, table, coupons);
  }

  method RestoredSparse(lgK: nat, numCoupons: nat, table: PairTable, ghost coupons: set<nat>) returns (sketch: CpcSketch)
    requires Saved(lgK, coupons, 0) && numCoupons == |coupons| && 32 * |coupons| < 3 * Pow2(lgK)
    requires table.Valid() && table.numValidBits == 6 + lgK && table.Contents() == coupons
    ensures fresh(sketch) && fresh(sketch.Repr - {table, table.slots}) && Restored(sketch, lgK, coupons, 0)
  {
    hide *;
    SavedFacts(lgK, coupons, 0);
    sketch := new CpcSketch.FromSparse(lgK, numCoupons, table, coupons);
    RestoredSparsely(sketch);
  }

  lemma RestoredSparsely(sketch: CpcSketch)
    requires sketch.Valid() && sketch.windowOffset == 0 && 32 * |sketch.coupons| < 3 * Pow2(sketch.lgK)
    ensures Restored(sketch, sketch.lgK, sketch.coupons, sketch.firstInterestingColumn)
  {
    hide CpcSketch.Valid;
    CorrectOffsetIff(sketch.lgK, |sketch.coupons|, 0);
  }

  method SparseTable(image: SketchImage, t: Tables, ghost pairs: seq<nat>, ghost coupons: set<nat>) returns (table: PairTable)
    requires PairsHeld(image, t, pairs) && 4 <= image.lgK <= 26 && image.hasTable
    requires Lists(pairs, coupons) && image.numCoupons == |coupons| && 32 * |coupons| < 3 * Pow2(image.lgK)
    ensures fresh(table) && fresh(table.slots) && table.Valid() && table.numValidBits == 6 + image.lgK
    ensures table.Contents() == coupons
  {
    hide *;
    var decoded := StoredList(image, t, pairs);
    ListFacts(pairs, coupons);
    SparseFits(image.lgK, |coupons|);
    var result := FromSlots(image.lgK, image.numCoupons, decoded);
    table := result.value;
  }

  lemma ListFacts(pairs: seq<nat>, items: set<nat>)
    requires Lists(pairs, items)
    ensures |pairs| == |items| && ToSet(pairs) == items && NoDuplicates(pairs) && pairs[..|pairs|] == pairs
  {
    ListSize(pairs, items);
  }

  lemma SparseFits(lgK: nat, c: nat)
    requires 4 <= lgK <= 26 && 32 * c < 3 * Pow2(lgK)
    ensures 4 * c <= 3 * Pow2(26) && 4 * c <= 3 * Pow2(5 + lgK) && 64 * Pow2(lgK) == Pow2(6 + lgK)
  {
    Monotone(lgK, if lgK <= 21 then lgK + 5 else 26);
    SurprisesSmall(lgK, c);
  }

  ghost predicate Restored(sketch: CpcSketch, lgK: nat, coupons: set<nat>, column: nat)
    reads sketch, sketch.Repr
  {
    && sketch.Valid() && sketch.lgK == lgK && sketch.coupons == coupons
    && sketch.firstInterestingColumn == column
    && sketch.windowOffset == DetermineCorrectOffset(lgK, |coupons|)
  }

  method RestoreHybrid(image: SketchImage, t: Tables, ghost pairs: seq<nat>, ghost coupons: set<nat>) returns (sketch: CpcSketch)
    requires PairsHeld(image, t, pairs) && Saved(image.lgK, coupons, 0) && image.hasTable
    requires Lists(pairs, coupons) && image.numCoupons == |coupons|
    requires DetermineFlavor(image.lgK, |coupons|) == Hybrid
    ensures fresh(sketch) && fresh(sketch.Repr) && Restored(sketch, image.lgK, coupons, 0)
  {
    hide *;
    SavedFacts(image.lgK, coupons, 0);
    FlavorFacts(image.lgK, coupons);
    var window, table := SplitList(image, t, pairs, coupons);
    sketch := AssembleWindowed(image.lgK, image.numCoupons, 0, 0, window, table, coupons);
  }

  method SplitList(image: SketchImage, t: Tables, ghost pairs: seq<nat>, ghost coupons: set<nat>)
    returns (window: array<Row>, table: PairTable)
    requires PairsHeld(image, t, pairs) && 4 <= image.lgK <= 26 && AllCoupons(image.lgK, coupons) && image.hasTable
    requires Lists(pairs, coupons) && SurprisesFit(coupons, image.lgK, 0)
    ensures fresh(window) && WindowMatches(window[..], coupons, image.lgK, 0)
    ensures fresh(table) && fresh(table.slots) && table.Valid() && table.numValidBits == 6 + image.lgK
    ensures table.Contents() == SurpriseSet(coupons, image.lgK, 0) && table.slots as object != window
  {
    hide ValidTables, HoldsPairs, Encodable, Lists, PairTable.Valid, PairTable.Contents, SurpriseSet, SurprisesFit;
    var decoded := StoredList(image, t, pairs);
    window := new Row[Pow2(image.lgK)](_ => {});
    var a := ArrayOf(decoded);
    EmptyWindow(window[..], image.lgK);
    hide *;
    var next := SplitHybrid(a, window, image.lgK, coupons);
    SplitInSpace(a[..next], coupons, image.lgK);
    table := TableOf(image.lgK, next, a[..next], coupons, 0);
  }

  lemma EmptyWindow(window: seq<Row>, lgK: nat)
    requires |window| == Pow2(lgK) && forall i :: 0 <= i < |window| ==> window[i] == {}
    ensures WindowMatches(window, {}, lgK, 0)
  {
  }

  lemma SplitInSpace(kept: seq<nat>, coupons: set<nat>, lgK: nat)
    requires ToSet(kept) == SurpriseSet(coupons, lgK, 0) && AllCoupons(lgK, coupons)
    ensures InSpace(kept, lgK) && kept[..|kept|] == kept
  {
    forall i | 0 <= i < |kept| ensures kept[i] < 64 * Pow2(lgK) && kept[i] != EMPTY {
      assert kept[i] in ToSet(kept);
    }
  }

  /** Reads back the window. */
  method StoredWindow(image: SketchImage, t: Tables, ghost coupons: set<nat>) returns (window: array<Row>)
    requires ValidTables(t) && Saved(image.lgK, coupons, image.firstInterestingColumn) && image.numCoupons == |coupons|
    requires WindowEncoded(image.windowWords, t.byteEnc[DeterminePseudoPhase(image.lgK, |coupons|)],
                           WindowBytes(coupons, image.lgK, DetermineCorrectOffset(image.lgK, |coupons|)))
    ensures fresh(window) && WindowMatches(window[..], coupons, image.lgK, DetermineCorrectOffset(image.lgK, |coupons|))
  {
    var phase := DeterminePseudoPhase(image.lgK, image.numCoupons);
    ghost var offset := DetermineCorrectOffset(image.lgK, |coupons|);
    var bytes := DecodeWindow(image.windowWords, Pow2(image.lgK), t.byteDec[phase], t.byteEnc[phase],
                              WindowBytes(coupons, image.lgK, offset));
    window := WindowOfBytes(bytes.value, image.lgK, coupons, offset);
  }

  /** Undoes the pinned shift of the stored list. */
  method PinnedTable(image: SketchImage, t: Tables, ghost pairs: seq<nat>, ghost coupons: set<nat>) returns (table: PairTable)
    requires PairsHeld(image, t, pairs) && 4 <= image.lgK <= 26 && AllCoupons(image.lgK, coupons)
    requires SurprisesFit(coupons, image.lgK, 0) && Lists(pairs, Image(SurpriseSet(coupons, image.lgK, 0), Down))
    ensures fresh(table) && fresh(table.slots) && table.Valid() && table.numValidBits == 6 + image.lgK
    ensures table.Contents() == SurpriseSet(coupons, image.lgK, 0)
  {
    ghost var items := SurpriseSet(coupons, image.lgK, 0);
    if !image.hasTable {
      table := NewTable(image.lgK);
      NoItems(items, Down);
    } else {
      var decoded := StoredList(image, t, pairs);
      var a := ArrayOf(decoded);
      DownColumns(pairs, items);
      var ok := ShiftUp(a);
      ListSize(pairs, Image(items, Down));
      MapBack(pairs, a[..], items, Down, Up);
      SplitInSpace(a[..], coupons, image.lgK);
      assert a[..][..image.tableEntries] == a[..];
      table := TableOf(image.lgK, image.tableEntries, a[..], coupons, 0);
    }
  }

  lemma NoItems(items: set<nat>, f: nat -> nat)
    requires Lists([], Image(items, f))
    ensures items == {}
  {
    forall x: nat ensures x !in items {
      assert x in items ==> f(x) in Image(items, f);
    }
  }

  lemma DownColumns(pairs: seq<nat>, items: set<nat>)
    requires ToSet(pairs) == Image(items, Down) && forall x :: x in items ==> x % 64 >= 8
    ensures forall i :: 0 <= i < |pairs| ==> pairs[i] % 64 < 56
    ensures forall x :: x in items ==> Up(Down(x)) == x
  {
    hide Down, Up;
    forall x | x in items ensures Down(x) % 64 < 56 && Up(Down(x)) == x {
      ShiftedColumn(x);
    }
    forall i | 0 <= i < |pairs| ensures pairs[i] % 64 < 56 {
      assert pairs[i] in ToSet(pairs);
    }
  }

  lemma ShiftedColumn(x: nat)
    requires x % 64 >= 8
    ensures Down(x) % 64 < 56 && Down(x) % 64 == x % 64 - 8 && Down(x) <= x && Up(Down(x)) == x
  {
  }

  method RestorePinned(image: SketchImage, t: Tables, ghost pairs: seq<nat>, ghost coupons: set<nat>) returns (sketch: CpcSketch)
    requires PairsHeld(image, t, pairs) && Saved(image.lgK, coupons, image.firstInterestingColumn)
    requires image.numCoupons == |coupons| && DetermineFlavor(image.lgK, |coupons|) == Pinned
    requires Lists(pairs, Image(SurpriseSet(coupons, image.lgK, 0), Down))
    requires WindowEncoded(image.windowWords, t.byteEnc[DeterminePseudoPhase(image.lgK, |coupons|)],
                           WindowBytes(coupons, image.lgK, DetermineCorrectOffset(image.lgK, |coupons|)))
    ensures fresh(sketch) && fresh(sketch.Repr) && Restored(sketch, image.lgK, coupons, image.firstInterestingColumn)
  {
    hide *;
    SavedFacts(image.lgK, coupons, image.firstInterestingColumn);
    FlavorFacts(image.lgK, coupons);
    HeldTables(image, t, pairs);
    var window := StoredWindow(image, t, coupons);
    var table := PinnedTable(image, t, pairs, coupons);
    sketch := AssembleWindowed(image.lgK, image.numCoupons, 0, image.firstInterestingColumn, window, table, coupons);
  }

  method AssembleWindowed(lgK: nat, numCoupons: nat, offset: nat, column: nat, window: array<Row>, table: PairTable, ghost coupons: set<nat>)
    returns (sketch: CpcSketch)
    requires Saved(lgK, coupons, column) && numCoupons == |coupons| && Dense(coupons, lgK)
    requires offset == DetermineCorrectOffset(lgK, |coupons|)
    requires table.Valid() && table.numValidBits == 6 + lgK && table.slots as object != window
    requires table.Contents() == SurpriseSet(coupons, lgK, offset) && WindowMatches(window[..], coupons, lgK, offset)
    ensures fresh(sketch) && sketch.Repr == {sketch, window, table, table.slots} && Restored(sketch, lgK, coupons, column)
  {
    hide PairTable.Valid, PairTable.Contents, FullBelow, SurpriseSet, AllCoupons, WindowMatches, SurprisesFit, DetermineCorrectOffset, OffsetFits, Saved, CpcSketch.Valid;
    SavedFacts(lgK, coupons, column);
    assert window.Length != 0 by { WindowLength(window[..], coupons, lgK, offset); }
    sketch := new CpcSketch.FromParts(lgK, numCoupons, offset, column, window, table, coupons);
  }

  /** Undoes the permutation and rotation of the stored list. */
  method SlidingTable(image: SketchImage, t: Tables, offset: nat, a: seq<nat>, b: seq<nat>, ghost pairs: seq<nat>, ghost coupons: set<nat>)
    returns (table: PairTable)
    requires PairsHeld(image, t, pairs) && 4 <= image.lgK <= 26 && AllCoupons(image.lgK, coupons)
    requires offset <= 56 && Inverse(a, b) && SurprisesFit(coupons, image.lgK, offset)
    requires Lists(pairs, Image(SurpriseSet(coupons, image.lgK, offset), SlideBy(offset, a)))
    ensures fresh(table) && fresh(table.slots) && table.Valid() && table.numValidBits == 6 + image.lgK
    ensures table.Contents() == SurpriseSet(coupons, image.lgK, offset)
  {
    hide *;
    HeldTables(image, t, pairs);
    if !image.hasTable {
      table := NewTable(image.lgK);
      NoItems(SurpriseSet(coupons, image.lgK, offset), SlideBy(offset, a));
    } else {
      var decoded := StoredList(image, t, pairs);
      var stored := ArrayOf(decoded);
      SlidColumns(pairs, coupons, image.lgK, offset, a, b);
      var ok := UnslideAll(stored, offset, b);
      UnslidItems(pairs, stored[..], coupons, image.lgK, offset, a, b);
      table := TableOf(image.lgK, image.tableEntries, stored[..], coupons, offset);
    }
  }

  lemma SlidColumns(pairs: seq<nat>, coupons: set<nat>, lgK: nat, offset: nat, a: seq<nat>, b: seq<nat>)
    requires offset <= 56 && Inverse(a, b) && Lists(pairs, Image(SurpriseSet(coupons, lgK, offset), SlideBy(offset, a)))
    ensures |b| == 56 && forall i :: 0 <= i < |pairs| ==> pairs[i] % 64 < 56
    ensures forall x :: x in SurpriseSet(coupons, lgK, offset) ==> Unslide(Slide(x, offset, a), offset, b) == x
  {
    hide Slide, Unslide;
    SlideColumns(pairs, SurpriseSet(coupons, lgK, offset), offset, a, b);
  }

  /** Undoing the slide of a stored list lists the surprises, each once. */
  lemma UnslidItems(pairs: seq<nat>, stored: seq<nat>, coupons: set<nat>, lgK: nat, offset: nat, a: seq<nat>, b: seq<nat>)
    requires offset <= 56 && Inverse(a, b) && AllCoupons(lgK, coupons)
    requires Lists(pairs, Image(SurpriseSet(coupons, lgK, offset), SlideBy(offset, a)))
    requires |stored| == |pairs| && forall i :: 0 <= i < |pairs| ==> stored[i] == Unslide(pairs[i], offset, b)
    ensures NoDuplicates(stored) && ToSet(stored) == SurpriseSet(coupons, lgK, offset) && InSpace(stored, lgK)
    ensures stored[..|stored|] == stored
  {
    hide Slide, Unslide, Inverse, Lists, Image, SurpriseSet, InSpace, NoDuplicates, ToSet, AllCoupons;
    var items := SurpriseSet(coupons, lgK, offset);
    SlidColumns(pairs, coupons, lgK, offset, a, b);
    ListFacts(pairs, Image(items, SlideBy(offset, a)));
    MapBack(pairs, stored, items, SlideBy(offset, a), UnslideBy(offset, b));
    SurprisesInSpace(stored, coupons, lgK, offset);
  }

  lemma SlideColumns(pairs: seq<nat>, items: set<nat>, offset: nat, a: seq<nat>, b: seq<nat>)
    requires offset <= 56 && Inverse(a, b) && ToSet(pairs) == Image(items, SlideBy(offset, a))
    requires forall x :: x in items ==> !(offset <= x % 64 < offset + 8)
    ensures forall i :: 0 <= i < |pairs| ==> pairs[i] % 64 < 56
    ensures forall x :: x in items ==> Unslide(Slide(x, offset, a), offset, b) == x
  {
    forall x | x in items ensures Slide(x, offset, a) % 64 < 56 && Unslide(Slide(x, offset, a), offset, b) == x {
      SlideBack(x, offset, a, b);
    }
    forall i | 0 <= i < |pairs| ensures pairs[i] % 64 < 56 {
      assert pairs[i] in ToSet(pairs);
    }
  }

  lemma SurprisesInSpace(kept: seq<nat>, coupons: set<nat>, lgK: nat, offset: nat)
    requires ToSet(kept) == SurpriseSet(coupons, lgK, offset) && AllCoupons(lgK, coupons) && offset <= 56
    ensures InSpace(kept, lgK)
  {
    assert EMPTY % 64 == 63;
    forall i | 0 <= i < |kept| ensures kept[i] < 64 * Pow2(lgK) && kept[i] != EMPTY {
      assert kept[i] in ToSet(kept);
    }
  }

  lemma HeldTables(image: SketchImage, t: Tables, pairs: seq<nat>)
    requires PairsHeld(image, t, pairs)
    ensures ValidTables(t) && |t.byteEnc| == |t.byteDec| == 22
    ensures image.tableEntries == |pairs| && (image.hasTable <==> pairs != [])
  {
  }

  lemma StoredSliding(lgK: nat, coupons: set<nat>, t: Tables)
    requires 4 <= lgK && ValidTables(t) && DetermineFlavor(lgK, |coupons|) == Sliding
    ensures var phase, offset := DeterminePseudoPhase(lgK, |coupons|), DetermineCorrectOffset(lgK, |coupons|);
      && phase < 16 == |t.encPerm| == |t.decPerm| && Inverse(t.encPerm[phase], t.decPerm[phase])
      && StoredPairs(lgK, coupons, t) == Image(SurpriseSet(coupons, lgK, offset), SlideBy(offset, t.encPerm[phase]))
  {
    hide Image, SurpriseSet, SlideBy, DetermineCorrectOffset, Inverse, PrefixCode;
  }

  method RestoreSliding(image: SketchImage, t: Tables, ghost pairs: seq<nat>, ghost coupons: set<nat>) returns (sketch: CpcSketch)
    requires PairsHeld(image, t, pairs) && Saved(image.lgK, coupons, image.firstInterestingColumn)
    requires image.numCoupons == |coupons| && DetermineFlavor(image.lgK, |coupons|) == Sliding
    requires Lists(pairs, StoredPairs(image.lgK, coupons, t))
    requires WindowEncoded(image.windowWords, t.byteEnc[DeterminePseudoPhase(image.lgK, |coupons|)],
                           WindowBytes(coupons, image.lgK, DetermineCorrectOffset(image.lgK, |coupons|)))
    ensures fresh(sketch) && fresh(sketch.Repr) && Restored(sketch, image.lgK, coupons, image.firstInterestingColumn)
  {
    hide *;
    SavedFacts(image.lgK, coupons, image.firstInterestingColumn);
    FlavorFacts(image.lgK, coupons);
    HeldTables(image, t, pairs);
    StoredSliding(image.lgK, coupons, t);
    var phase := DeterminePseudoPhase(image.lgK, image.numCoupons);
    var offset := DetermineCorrectOffset(image.lgK, image.numCoupons);
    var window := StoredWindow(image, t, coupons);
    var table := SlidingTable(image, t, offset, t.encPerm[phase], t.decPerm[phase], pairs, coupons);
    sketch := AssembleWindowed(image.lgK, image.numCoupons, offset, image.firstInterestingColumn, window, table, coupons);
  }

  /** The list behind an image, and that only the entry count can make the decoder reject it. */
  lemma HeldList(image: SketchImage, t: Tables, coupons: set<nat>) returns (pairs: seq<nat>)
    requires ValidTables(t) && Saved(image.lgK, coupons, image.firstInterestingColumn)
    requires ImageOf(image, coupons, image.firstInterestingColumn, t)
    ensures Lists(pairs, StoredPairs(image.lgK, coupons, t)) && PairsHeld(image, t, pairs)
    ensures image.numCoupons <= 64 * Pow2(image.lgK)
    ensures |pairs| <= 32 * |image.tableWords|
    ensures image.hasWindow ==> Pow2(image.lgK) <= 32 * |image.windowWords|
    ensures image.hasWindow ==> (|pairs| <= |coupons| <==> Restorable(image.lgK, coupons))
    ensures !image.hasWindow ==> |pairs| == |coupons| && Restorable(image.lgK, coupons)
    ensures !image.hasTable <==> pairs == []
  {
    pairs :| Lists(pairs, StoredPairs(image.lgK, coupons, t)) && HoldsPairs(image, t.pairEnc, pairs);
    StoredEncodable(pairs, image.lgK, coupons, t);
    forall x | x in coupons ensures x < 64 * Pow2(image.lgK) {
      assert Coupon(image.lgK, x);
    }
    TooMany(coupons, 64 * Pow2(image.lgK));
    CodesLong(image, t, pairs);
    if image.hasWindow {
      WindowLong(image, t.byteEnc[DeterminePseudoPhase(image.lgK, |coupons|)], t.byteDec[DeterminePseudoPhase(image.lgK, |coupons|)], coupons);
    }
    StoredSize(image.lgK, coupons, t, pairs);
  }

  lemma StoredSize(lgK: nat, coupons: set<nat>, t: Tables, pairs: seq<nat>)
    requires 4 <= lgK && ValidTables(t) && Lists(pairs, StoredPairs(lgK, coupons, t))
    requires DetermineCorrectOffset(lgK, |coupons|) <= 56
    ensures HasWindow(lgK, coupons) ==> (|pairs| <= |coupons| <==> Restorable(lgK, coupons))
    ensures !HasWindow(lgK, coupons) ==> |pairs| == |coupons| && Restorable(lgK, coupons)
  {
    ListSize(pairs, StoredPairs(lgK, coupons, t));
    var c := |coupons|;
    var offset := DetermineCorrectOffset(lgK, c);
    match DetermineFlavor(lgK, c)
    case Empty =>
    case Sparse =>
    case Hybrid =>
    case Pinned =>
      SurprisesAtZero(coupons, lgK);
      ImageSize(SurpriseSet(coupons, lgK, 0), Down, Up);
    case Sliding =>
      var phase := DeterminePseudoPhase(lgK, c);
      var items := SurpriseSet(coupons, lgK, offset);
      forall x | x in items ensures UnslideBy(offset, t.decPerm[phase])(SlideBy(offset, t.encPerm[phase])(x)) == x {
        SlideBack(x, offset, t.encPerm[phase], t.decPerm[phase]);
      }
      ImageSize(items, SlideBy(offset, t.encPerm[phase]), UnslideBy(offset, t.decPerm[phase]));
  }

  lemma {:induction false} ImageSize(items: set<nat>, f: nat -> nat, back: nat -> nat)
    requires forall x :: x in items ==> back(f(x)) == x
    ensures |Image(items, f)| == |items|
  {
    if items != {} {
      var x :| x in items;
      ImageSize(items - {x}, f, back);
      assert Image(items, f) == Image(items - {x}, f) + {f(x)};
    } else {
      assert Image(items, f) == {};
    }
  }

  lemma CodesLong(image: SketchImage, t: Tables, pairs: seq<nat>)
    requires PairsHeld(image, t, pairs)
    ensures |pairs| <= 32 * |image.tableWords|
  {
    if pairs != [] {
      CodesAtLeast(t.pairEnc, BaseBits(image.lgK, |pairs|), pairs, 0);
    }
  }

  lemma {:induction false} CodesAtLeast(enc: seq<Code>, base: nat, pairs: seq<nat>, i: nat)
    requires i <= |pairs| && Coded(enc, pairs)
    ensures |pairs| - i <= |CodesFrom(enc, base, pairs, i)|
    decreases |pairs| - i
  {
    if i < |pairs| {
      CodesAtLeast(enc, base, pairs, i + 1);
    }
  }

  lemma WindowLong(image: SketchImage, enc: seq<Code>, dec: seq<Symbol>, coupons: set<nat>)
    requires PrefixCode(enc, dec)
    requires WindowEncoded(image.windowWords, enc, WindowBytes(coupons, image.lgK, DetermineCorrectOffset(image.lgK, |coupons|)))
    ensures Pow2(image.lgK) <= 32 * |image.windowWords|
  {
    BytesAtLeast(enc, dec, WindowBytes(coupons, image.lgK, DetermineCorrectOffset(image.lgK, |coupons|)), 0);
  }

  lemma {:induction false} BytesAtLeast(enc: seq<Code>, dec: seq<Symbol>, window: seq<nat>, i: nat)
    requires PrefixCode(enc, dec) && i <= |window| && forall j :: 0 <= j < |window| ==> window[j] < |enc|
    ensures |window| - i <= |BytesFrom(enc, window, i)|
    decreases |window| - i
  {
    if i < |window| {
      assert Recognised(enc[window[i]], dec, window[i]);
      BytesAtLeast(enc, dec, window, i + 1);
    }
  }

  /** Restores a saved sketch: its K, its coupons and with them its count, offset and bit matrix,
    * and its first interesting column, unless it stores more surprises than coupons. */
  method Deserialize(image: SketchImage, t: Tables, ghost coupons: set<nat>) returns (sketch: Option<CpcSketch>)
    requires ValidTables(t) && Saved(image.lgK, coupons, image.firstInterestingColumn)
    requires ImageOf(image, coupons, image.firstInterestingColumn, t)
    ensures sketch.Some? <==> Restorable(image.lgK, coupons)
    ensures sketch.Some? ==> fresh(sketch.value) && fresh(sketch.value.Repr)
    ensures sketch.Some? ==> Restored(sketch.value, image.lgK, coupons, image.firstInterestingColumn)
    ensures sketch.Some? ==> sketch.value.mergeFlag == !image.hasHip
    ensures sketch.Some? ==> (sketch.value.kxp, sketch.value.hipEstAccum) == if image.hip.Some? then image.hip.value else (0.0, 0.0)
  {
    sketch := RestoreCoupons(image, t, coupons);
    if sketch.Some? {
      var (kxp, hip) := if image.hip.Some? then image.hip.value else (0.0, 0.0);
      sketch.value.SetEstimator(!image.hasHip, kxp, hip);
    }
  }

  /** The decoder's checks before it restores anything. */
  predicate Rejects(image: SketchImage) {
    var flavor := DetermineFlavor(image.lgK, image.numCoupons);
    var tableEntries :=
      if image.hasTable && image.hasWindow then image.tableEntries else if image.hasWindow then 0 else image.numCoupons;
    || image.firstInterestingColumn > 63 || image.numCoupons > 64 * Pow2(image.lgK)
    || image.hasWindow != (flavor == Pinned || flavor == Sliding)
    || ((flavor == Sparse || flavor == Hybrid) && !image.hasTable)
    || tableEntries > image.numCoupons
    || tableEntries > 32 * |image.tableWords|
    || (image.hasWindow && 32 * |image.windowWords| < Pow2(image.lgK))
  }

  lemma ImageChecked(image: SketchImage, t: Tables, coupons: set<nat>, pairs: seq<nat>)
    requires ValidTables(t) && Saved(image.lgK, coupons, image.firstInterestingColumn)
    requires ImageOf(image, coupons, image.firstInterestingColumn, t)
    requires Lists(pairs, StoredPairs(image.lgK, coupons, t)) && PairsHeld(image, t, pairs)
    requires image.numCoupons <= 64 * Pow2(image.lgK) && |pairs| <= 32 * |image.tableWords|
    requires image.hasWindow ==> Pow2(image.lgK) <= 32 * |image.windowWords|
    requires image.hasWindow ==> (|pairs| <= |coupons| <==> Restorable(image.lgK, coupons))
    requires !image.hasWindow ==> |pairs| == |coupons| && Restorable(image.lgK, coupons)
    ensures Rejects(image) <==> !Restorable(image.lgK, coupons)
  {
    hide ValidTables, Lists, StoredPairs, Encodable, Restorable, WindowEncoded, WindowBytes, DetermineCorrectOffset, FullBelow, SurprisesFit, AllCoupons;
  }

  /** What each flavor's image holds. */
  lemma FlavorStored(image: SketchImage, t: Tables, coupons: set<nat>, pairs: seq<nat>)
    requires ValidTables(t) && Saved(image.lgK, coupons, image.firstInterestingColumn)
    requires ImageOf(image, coupons, image.firstInterestingColumn, t)
    requires Lists(pairs, StoredPairs(image.lgK, coupons, t)) && PairsHeld(image, t, pairs)
    ensures image.numCoupons == |coupons| && 4 <= image.lgK <= 26
    ensures |t.byteEnc| == |t.byteDec| == 22
    ensures DetermineFlavor(image.lgK, |coupons|) != Sliding ==> image.firstInterestingColumn == 0
    ensures match DetermineFlavor(image.lgK, |coupons|)
      case Empty => coupons == {} && |coupons| == 0
      case Sparse => Lists(pairs, coupons) && image.hasTable && 32 * |coupons| < 3 * Pow2(image.lgK)
      case Hybrid => Lists(pairs, coupons) && image.hasTable
      case Pinned => image.hasWindow && Lists(pairs, Image(SurpriseSet(coupons, image.lgK, 0), Down))
      case Sliding => image.hasWindow
    ensures image.hasWindow ==>
      WindowEncoded(image.windowWords, t.byteEnc[DeterminePseudoPhase(image.lgK, |coupons|)],
                    WindowBytes(coupons, image.lgK, DetermineCorrectOffset(image.lgK, |coupons|)))
  {
    hide Lists, Encodable, WindowEncoded, WindowBytes, DetermineCorrectOffset, FullBelow, SurprisesFit, AllCoupons, Image, SurpriseSet, DeterminePseudoPhase, Pow2, PrefixCode, Inverse;
    FlavorFacts(image.lgK, coupons);
    if DetermineFlavor(image.lgK, |coupons|) in {Sparse, Hybrid} {
      ListFacts(pairs, coupons);
    }
  }

  /** The coupon state of an image, by flavor. */
  method RestoreCoupons(image: SketchImage, t: Tables, ghost coupons: set<nat>) returns (sketch: Option<CpcSketch>)
    requires ValidTables(t) && Saved(image.lgK, coupons, image.firstInterestingColumn)
    requires ImageOf(image, coupons, image.firstInterestingColumn, t)
    ensures sketch.Some? <==> Restorable(image.lgK, coupons)
    ensures sketch.Some? ==> fresh(sketch.value) && fresh(sketch.value.Repr)
    ensures sketch.Some? ==> Restored(sketch.value, image.lgK, coupons, image.firstInterestingColumn)
  {
    hide *;
    ghost var pairs := HeldList(image, t, coupons);
    ImageChecked(image, t, coupons, pairs);
    FlavorStored(image, t, coupons, pairs);
    if Rejects(image) {
      return None;
    }
    match DetermineFlavor(image.lgK, image.numCoupons)
    case Empty =>
      var table := NewTable(image.lgK);
      var s := RestoredSparse(image.lgK, 0, table, {});
      return Some(s);
    case Sparse =>
      var s := RestoreSparse(image, t, pairs, coupons);
      return Some(s);
    case Hybrid =>
      var s := RestoreHybrid(image, t, pairs, coupons);
      return Some(s);
    case Pinned =>
      var s := RestorePinned(image, t, pairs, coupons);
      return Some(s);
    case Sliding =>
      var s := RestoreSliding(image, t, pairs, coupons);
      return Some(s);
  }

  // ------------------------------------------------------------ round trip

  /** Restoring what was saved: it succeeds exactly for restorable sketches and then gives back the
    * same sketch. */
  method RoundTripSketch(sketch: CpcSketch, t: Tables) returns (copy: Option<CpcSketch>)
    requires sketch.Valid() && ValidTables(t)
    ensures copy.Some? <==> Restorable(sketch.lgK, sketch.coupons)
    ensures copy.Some? ==> copy.value.Valid() && copy.value.lgK == sketch.lgK && copy.value.coupons == sketch.coupons
    ensures copy.Some? ==> copy.value.numCoupons == sketch.numCoupons && copy.value.windowOffset == sketch.windowOffset
    ensures copy.Some? ==> copy.value.firstInterestingColumn == sketch.firstInterestingColumn
    ensures copy.Some? ==> copy.value.mergeFlag == sketch.mergeFlag
    ensures copy.Some? ==> var stored := sketch.coupons != {} && !sketch.mergeFlag;
      (copy.value.kxp, copy.value.hipEstAccum) == if stored then (sketch.kxp, sketch.hipEstAccum) else (0.0, 0.0)
  {
    var image := Serialize(sketch, t);
    SketchSaved(sketch);
    hide ImageOf, Saved, Restorable, ValidTables;
    copy := Deserialize(image, t, sketch.coupons);
  }

  lemma SketchSaved(sketch: CpcSketch)
    requires sketch.Valid()
    ensures Saved(sketch.lgK, sketch.coupons, sketch.firstInterestingColumn)
    ensures sketch.windowOffset == DetermineCorrectOffset(sketch.lgK, |sketch.coupons|)
    ensures sketch.numCoupons == |sketch.coupons|
  {
    hide PairTable.Valid, PairTable.Contents, AllCoupons, FullBelow, WindowMatches, Pow2;
    ReachableState(sketch, 0);
    if sketch.numCoupons == 0 {
      SurprisesAtZero(sketch.coupons, sketch.lgK);
    } else {
      TableWithin(sketch);
      if sketch.slidingWindow.Length == 0 {
        SurprisesAtZero(sketch.coupons, sketch.lgK);
      }
    }
  }

  lemma TableWithin(sketch: CpcSketch)
    requires sketch.Valid() && sketch.table != null
    ensures 4 * |sketch.table.Contents()| <= 3 * Pow2(if sketch.lgK <= 21 then sketch.lgK + 5 else 26)
  {
    Monotone(sketch.table.lgSize, if sketch.lgK <= 21 then sketch.lgK + 5 else 26);
  }

  // ------------------------------------------------ where restoring fails

  /** 54 coupons at K = 16, all in columns 40 to 43: with none in column 0, moving the window once
    * leaves sixteen surprising zeros besides 54 surprising ones. */
  function HighColumns(): (s: seq<nat>)
    ensures |s| == 54 && forall i :: 0 <= i < 54 ==> s[i] == 64 * (i % 16) + 40 + i / 16
  {
    seq(54, i requires 0 <= i < 54 => 64 * (i % 16) + 40 + i / 16)
  }

  ghost function ColumnZero(): (s: seq<nat>)
    ensures |s| == 16 && forall i :: 0 <= i < 16 ==> s[i] == 64 * i
  {
    seq(16, i requires 0 <= i < 16 => 64 * i)
  }

  lemma FewSurprises(coupons: set<nat>, w: nat)
    requires w <= 1
    ensures |SurpriseSet(coupons, 4, w)| <= 16 + |coupons|
  {
    var zeros := ToSet(ColumnZero());
    ToSetSize(ColumnZero());
    assert Pow2(4) == 16;
    forall rc | rc in SurpriseSet(coupons, 4, w) ensures rc in zeros + coupons {
      if rc !in coupons {
        assert rc % 64 == 0 && rc == ColumnZero()[rc / 64];
      }
    }
    SubsetSize(SurpriseSet(coupons, 4, w), zeros + coupons);
  }

  lemma HighColumnsAccepted(i: nat)
    requires i < 54
    ensures Accepts(4, ToSet(HighColumns()[..i]), HighColumns()[i])
  {
    hide SurpriseSet, DetermineCorrectOffset, ToSet, NoDuplicates;
    var s := HighColumns();
    var before := ToSet(s[..i]);
    assert Pow2(4) == 16 && Pow2(9) == 512;
    ToSetSize(s[..i]);
    SmallOffset(|before|);
    SmallOffset(|before| + 1);
    FewSurprises(before + {s[i]}, DetermineCorrectOffset(4, |before|));
    FewSurprises(before + {s[i]}, DetermineCorrectOffset(4, |before| + 1));
  }

  lemma SmallOffset(c: nat)
    requires c <= 54
    ensures DetermineCorrectOffset(4, c) <= 1 && (c == 54 ==> DetermineCorrectOffset(4, c) == 1)
  {
    assert Pow2(4) == 16;
    if 8 * c < 27 * 16 {
      CorrectOffsetIff(4, c, 0);
    } else {
      CorrectOffsetIff(4, c, 1);
    }
  }

  lemma HighColumnsSize()
    ensures |ToSet(HighColumns())| == 54
    ensures forall rc :: rc in ToSet(HighColumns()) ==> rc < 1024 && rc % 64 >= 40
  {
    var s := HighColumns();
    forall i | 0 <= i < 54 ensures s[i] / 64 == i % 16 && s[i] % 64 == 40 + i / 16 {
    }
    forall i, j | 0 <= i < j < 54 ensures s[i] != s[j] {
    }
    hide HighColumns;
    ToSetSize(s);
  }

  lemma ColumnZeroSize()
    ensures |ToSet(ColumnZero())| == 16
    ensures forall rc :: rc in ToSet(ColumnZero()) ==> rc < 1024 && rc % 64 == 0
  {
    ToSetSize(ColumnZero());
  }

  lemma DisjointSize(a: set<nat>, b: set<nat>)
    requires forall rc :: rc in b ==> rc !in a
    ensures |a + b| == |a| + |b|
  {
    assert a * b == {};
  }

  lemma AllSurprise(coupons: set<nat>, zeros: set<nat>)
    requires forall rc :: rc in coupons ==> rc < 1024 && rc % 64 >= 40
    requires forall rc :: rc in zeros ==> rc < 1024 && rc % 64 == 0
    ensures zeros + coupons <= SurpriseSet(coupons, 4, 1)
  {
    assert Pow2(4) == 16;
  }

  lemma HighColumnsNotRestorable()
    ensures !Restorable(4, ToSet(HighColumns()))
  {
    var coupons, zeros := ToSet(HighColumns()), ToSet(ColumnZero());
    HighColumnsSize();
    ColumnZeroSize();
    DisjointSize(zeros, coupons);
    AllSurprise(coupons, zeros);
    SmallOffset(54);
    assert DetermineFlavor(4, 54) == Sliding by {
      assert Pow2(4) == 16;
    }
    hide SurpriseSet, ToSet, HighColumns, ColumnZero, DetermineFlavor, DetermineCorrectOffset;
    SubsetSize(zeros + coupons, SurpriseSet(coupons, 4, 1));
  }

  /** An empty image stores no estimator registers: a new sketch starts with kxp = K, its restored
    * copy with zero, which its first update divides by. */
  method EmptyLosesKxp(lgK: nat, t: Tables) returns (sketch: CpcSketch, copy: Option<CpcSketch>)
    requires 4 <= lgK <= 26 && ValidTables(t)
    ensures sketch.Valid() && sketch.coupons == {} && !sketch.mergeFlag && sketch.kxp == Pow2(lgK) as real > 0.0
    ensures copy.Some? && copy.value.Valid() && copy.value.coupons == {} && !copy.value.mergeFlag && copy.value.kxp == 0.0
  {
    hide ValidTables, SurpriseSet;
    sketch := new CpcSketch(lgK);
    EmptyRestorable(lgK);
    copy := RoundTripSketch(sketch, t);
  }

  lemma EmptyRestorable(lgK: nat)
    ensures Restorable(lgK, {})
  {
  }

  /** The sketch of that stream is reachable and valid, and restoring it fails. */
  method RoundTripFails(t: Tables) returns (copy: Option<CpcSketch>)
    requires ValidTables(t)
    ensures copy.None?
  {
    forall i | 0 <= i < 54 ensures Accepts(4, ToSet(HighColumns()[..i]), HighColumns()[i]) {
      HighColumnsAccepted(i);
    }
    HighColumnsNotRestorable();
    hide *;
    var sketch := new CpcSketch(4);
    Feed(sketch, HighColumns());
    copy := RoundTripSketch(sketch, t);
  }
}
