/** The CPC union: `cpc/union.rs`. */
module CpcUnions {
  import opened Powers
  import opened OddStride
  import opened CpcWords
  import opened CpcCoupons
  import opened Sets
  import opened CpcPairTable
  import opened CpcFolding
  import opened CpcSketches
  import opened CpcDomain

  /** What the first j slots of a golden-ratio walk hold. */
  ghost function MetItems(s: seq<nat>, stride: nat, lg: nat, j: nat): set<nat> {
    if j == 0 then {}
    else MetItems(s, stride, lg, j - 1) + SlotItem(s, Walk(0, stride, lg, j - 1))
  }

  ghost function SlotItem(s: seq<nat>, p: nat): set<nat> {
    if p < |s| && s[p] != EMPTY then {s[p]} else {}
  }

  /** Step j of the walk offers a coupon that is accepted after those offered before. */
  ghost predicate StepAccepted(lgK: nat, start: set<nat>, s: seq<nat>, stride: nat, lg: nat, j: nat) {
    forall rc :: rc in SlotItem(s, Walk(0, stride, lg, j)) ==>
      Accepts(lgK, start + Masked(MetItems(s, stride, lg, j), lgK), MaskCoupon(rc, lgK))
  }

  /** The walk of a table into a sketch of K = 2^lgK with the coupons `start` stays in the domain
    * of the sketch's updates. */
  ghost predicate WalkAccepted(lgK: nat, start: set<nat>, table: PairTable?)
    reads table, if table == null then {} else {table.slots}
  {
    table != null ==>
      forall j :: 0 <= j < table.slots.Length ==>
        StepAccepted(lgK, start, table.slots[..], GoldenRatio(table.slots.Length), table.lgSize, j)
  }

  /** Offers every item of the table, its row masked to the sketch's K, in golden-ratio order. */
  method WalkTableUpdatingSketch(sketch: CpcSketch, table: PairTable)
    requires sketch.Valid() && table.Valid() && table !in sketch.Repr && table.slots !in sketch.Repr
    requires WalkAccepted(sketch.lgK, sketch.coupons, table)
    modifies sketch.Repr
    ensures sketch.Valid() && fresh(sketch.Repr - old(sketch.Repr))
    ensures sketch.coupons == old(sketch.coupons) + Masked(table.Contents(), sketch.lgK)
  {
    hide *;
    ghost var s := table.slots[..];
    ghost var start := sketch.coupons;
    ghost var lg := table.lgSize;
    TableShape(table);
    var numSlots := table.slots.Length;
    var stride := GoldenStride(numSlots);
    var k := 0;
    WalkStarts(s, stride, lg, sketch.lgK);
    StepsAccepted(sketch.lgK, start, table);
    assert start + {} == start;
    for j := 0 to numSlots
      invariant sketch.Valid() && fresh(sketch.Repr - old(sketch.Repr))
      invariant table.slots[..] == s && table.lgSize == lg && table.slots.Length == numSlots
      invariant LowBits(k, lg) == Walk(0, stride, lg, j)
      invariant sketch.coupons == start + Masked(MetItems(s, stride, lg, j), sketch.lgK)
    {
      k := LowBits(k, table.lgSize);
      MeetNext(s, stride, lg, j);
      var rowCol := table.slots[k];
      if rowCol != EMPTY {
        assert StepAccepted(sketch.lgK, start, s, stride, lg, j);
        OfferMasked(sketch, rowCol, start, s, stride, lg, j);
      }
      k := k + stride;
      NextOnWalk(stride, lg, j);
    }
    MeetAll(s, stride, lg);
  }

  method OfferMasked(sketch: CpcSketch, rowCol: nat, ghost start: set<nat>, ghost s: seq<nat>, ghost stride: nat, ghost lg: nat, ghost j: nat)
    requires sketch.Valid() && sketch.coupons == start + Masked(MetItems(s, stride, lg, j), sketch.lgK)
    requires rowCol in SlotItem(s, Walk(0, stride, lg, j)) && StepAccepted(sketch.lgK, start, s, stride, lg, j)
    modifies sketch.Repr
    ensures sketch.Valid() && fresh(sketch.Repr - old(sketch.Repr))
    ensures sketch.coupons == start + Masked(MetItems(s, stride, lg, j + 1), sketch.lgK)
  {
    MeetStep(sketch.lgK, start, s, stride, lg, j, rowCol);
    hide *;
    sketch.RowColUpdate(MaskCoupon(rowCol, sketch.lgK));
  }

  lemma TableShape(table: PairTable)
    requires table.Valid()
    ensures table.slots.Length == Pow2(table.lgSize) >= 4 && Items(table.slots[..]) == table.Contents()
  {
    Monotone(2, table.lgSize);
    assert Pow2(2) == 4;
  }

  lemma WalkStarts(s: seq<nat>, stride: nat, lg: nat, lgK: nat)
    requires |s| == Pow2(lg)
    ensures LowBits(0, lg) == Walk(0, stride, lg, 0)
    ensures MetItems(s, stride, lg, 0) == {} && Masked({}, lgK) == {}
  {
    LowBitsBound(0, lg);
  }

  lemma StepsAccepted(lgK: nat, start: set<nat>, table: PairTable)
    requires WalkAccepted(lgK, start, table)
    ensures forall j :: 0 <= j < table.slots.Length ==>
      StepAccepted(lgK, start, table.slots[..], GoldenRatio(table.slots.Length), table.lgSize, j)
  {
  }

  lemma NextOnWalk(stride: nat, lg: nat, j: nat)
    ensures LowBits(Walk(0, stride, lg, j) + stride, lg) == Walk(0, stride, lg, j + 1)
  {
  }

  lemma MeetNext(s: seq<nat>, stride: nat, lg: nat, j: nat)
    requires |s| == Pow2(lg)
    ensures var p := Walk(0, stride, lg, j);
      && p < |s|
      && if s[p] == EMPTY then MetItems(s, stride, lg, j + 1) == MetItems(s, stride, lg, j) else s[p] in SlotItem(s, p)
  {
    WalkInside(0, stride, lg, j);
  }

  lemma MeetStep(lgK: nat, start: set<nat>, s: seq<nat>, stride: nat, lg: nat, j: nat, rc: nat)
    requires rc in SlotItem(s, Walk(0, stride, lg, j)) && StepAccepted(lgK, start, s, stride, lg, j)
    ensures Accepts(lgK, start + Masked(MetItems(s, stride, lg, j), lgK), MaskCoupon(rc, lgK))
    ensures start + Masked(MetItems(s, stride, lg, j + 1), lgK)
         == start + Masked(MetItems(s, stride, lg, j), lgK) + {MaskCoupon(rc, lgK)}
  {
    hide Accepts, MaskCoupon;
    MaskedUnion(MetItems(s, stride, lg, j), {rc}, lgK);
    assert MetItems(s, stride, lg, j + 1) == MetItems(s, stride, lg, j) + {rc};
    assert Masked({rc}, lgK) == {MaskCoupon(rc, lgK)};
  }

  lemma {:induction false} MetItemsHave(s: seq<nat>, stride: nat, lg: nat, n: nat, j: nat)
    requires j < n
    ensures SlotItem(s, Walk(0, stride, lg, j)) <= MetItems(s, stride, lg, n)
  {
    if j < n - 1 {
      MetItemsHave(s, stride, lg, n - 1, j);
    }
  }

  lemma {:induction false} MetWithin(s: seq<nat>, stride: nat, lg: nat, n: nat)
    ensures MetItems(s, stride, lg, n) <= Items(s)
  {
    if n != 0 {
      MetWithin(s, stride, lg, n - 1);
    }
  }

  /** As many steps as there are slots meet every item. */
  lemma MeetAll(s: seq<nat>, stride: nat, lg: nat)
    requires stride % 2 == 1 && |s| == Pow2(lg)
    ensures MetItems(s, stride, lg, |s|) == Items(s)
  {
    MetWithin(s, stride, lg, |s|);
    forall x | x in Items(s) ensures x in MetItems(s, stride, lg, |s|) {
      var p :| 0 <= p < |s| && s[p] == x;
      var j := WalkCovers(0, stride, lg, p);
      MetItemsHave(s, stride, lg, |s|, j);
    }
  }

  // ----------------------------------------------------- or-ing matrices

  method OrMatrixIntoMatrix(dst: array<Row>, dstLgK: nat, src: array<Row>, srcLgK: nat, ghost a: set<nat>, ghost b: set<nat>)
    requires dstLgK <= srcLgK && dst != src && AllCoupons(srcLgK, b)
    requires MatrixOf(dst[..], a, dstLgK) && MatrixOf(src[..], b, srcLgK)
    modifies dst
    ensures MatrixOf(dst[..], a + Masked(b, dstLgK), dstLgK)
  {
    FoldNothing(a, b, dstLgK);
    ghost var s := src[..];
    for r := 0 to src.Length
      invariant src[..] == s && MatrixOf(dst[..], a + Masked(RowsBelow(b, r), dstLgK), dstLgK)
    {
      assert src[r] == s[r] == RowOf(b, r);
      hide *;
      FoldRow(dst[..], a, b, dstLgK, r);
      ghost var m := dst[..];
      var dstRow := LowBits(r, dstLgK);
      dst[dstRow] := dst[dstRow] + src[r];
      assert dst[..] == m[dstRow := m[dstRow] + RowOf(b, r)];
    }
    AllRowsBelow(b, srcLgK);
  }

  lemma FoldNothing(a: set<nat>, b: set<nat>, lgK: nat)
    ensures a + Masked(RowsBelow(b, 0), lgK) == a
  {
    assert RowsBelow(b, 0) == {} && Masked({}, lgK) == {};
  }

  lemma AllRowsBelow(b: set<nat>, lgK: nat)
    requires AllCoupons(lgK, b)
    ensures RowsBelow(b, Pow2(lgK)) == b
  {
    forall rc | rc in b ensures rc / 64 < Pow2(lgK) {
      assert Coupon(lgK, rc);
    }
  }

  /** The coupons inside a window. */
  ghost function Windowed(b: set<nat>, offset: nat): set<nat> {
    set rc | rc in b && offset <= rc % 64 < offset + 8
  }

  lemma WindowedRow(b: set<nat>, offset: nat, r: nat)
    requires offset <= 56
    ensures Shifted(WindowOf(RowOf(b, r), offset), offset) == RowOf(Windowed(b, offset), r)
  {
    forall c: nat | Col(c)
      ensures c in RowOf(Windowed(b, offset), r) <==> c in RowOf(b, r) && offset <= c < offset + 8
    {
      assert (64 * r + c) % 64 == c;
    }
  }

  method OrWindowIntoMatrix(dst: array<Row>, dstLgK: nat, window: array<Row>, offset: nat, srcLgK: nat, ghost a: set<nat>, ghost b: set<nat>)
    requires dstLgK <= srcLgK && dst != window && AllCoupons(srcLgK, b) && offset <= 56
    requires MatrixOf(dst[..], a, dstLgK) && WindowMatches(window[..], b, srcLgK, offset)
    modifies dst
    ensures MatrixOf(dst[..], a + Masked(Windowed(b, offset), dstLgK), dstLgK)
  {
    ghost var w := Windowed(b, offset);
    FoldNothing(a, w, dstLgK);
    ghost var s := window[..];
    for r := 0 to window.Length
      invariant window[..] == s && MatrixOf(dst[..], a + Masked(RowsBelow(w, r), dstLgK), dstLgK)
    {
      assert window[r] == s[r] == WindowOf(RowOf(b, r), offset);
      hide *;
      WindowedRow(b, offset, r);
      FoldRow(dst[..], a, w, dstLgK, r);
      ghost var m := dst[..];
      var dstRow := LowBits(r, dstLgK);
      dst[dstRow] := dst[dstRow] + Shifted(window[r], offset);
      assert dst[..] == m[dstRow := m[dstRow] + RowOf(w, r)];
    }
    AllRowsBelow(w, srcLgK);
  }

  method OrTableIntoMatrix(dst: array<Row>, dstLgK: nat, table: PairTable, ghost a: set<nat>)
    requires table.Valid() && dst as object != table.slots && MatrixOf(dst[..], a, dstLgK)
    modifies dst
    ensures MatrixOf(dst[..], a + Masked(table.Contents(), dstLgK), dstLgK)
  {
    ghost var s := table.slots[..];
    OrNothing(a, s, dstLgK);
    for i := 0 to table.slots.Length
      invariant table.slots[..] == s && MatrixOf(dst[..], a + Masked(Items(s[..i]), dstLgK), dstLgK)
    {
      hide *;
      var rowCol := table.slots[i];
      if rowCol != EMPTY {
        PrefixGrows(s, i);
        OrOne(dst[..], a, Items(s[..i]), dstLgK, rowCol);
        ghost var m := dst[..];
        var dstRow := LowBits(rowCol / 64, dstLgK);
        dst[dstRow] := dst[dstRow] + {rowCol % 64};
        assert dst[..] == m[dstRow := m[dstRow] + {rowCol % 64}];
      } else {
        PrefixSkips(s, i);
      }
    }
  }

  lemma OrNothing(a: set<nat>, s: seq<nat>, lgK: nat)
    ensures a + Masked(Items(s[..0]), lgK) == a && s[..|s|] == s
  {
    assert Items(s[..0]) == {} && Masked({}, lgK) == {};
  }

  lemma OrOne(dst: seq<Row>, a: set<nat>, items: set<nat>, lgK: nat, rc: nat)
    requires MatrixOf(dst, a + Masked(items, lgK), lgK)
    ensures LowBits(rc / 64, lgK) < |dst|
    ensures var q := LowBits(rc / 64, lgK);
      MatrixOf(dst[q := dst[q] + {rc % 64}], a + Masked(items + {rc}, lgK), lgK)
  {
    LowBitsBound(rc / 64, lgK);
    var m := MaskCoupon(rc, lgK);
    assert a + Masked(items + {rc}, lgK) == a + Masked(items, lgK) + {m};
    forall r | 0 <= r < |dst|
      ensures RowOf(a + Masked(items + {rc}, lgK), r)
           == RowOf(a + Masked(items, lgK), r) + if r == m / 64 then {m % 64} else {}
    {
      RowUpdate(a + Masked(items, lgK), m, r);
    }
  }

  // ------------------------------------------------------------ the union

  /** A sparse sketch until it graduates, then a bit matrix. */
  datatype UnionState = Accumulator(sketch: CpcSketch) | BitMatrix(matrix: array<Row>)

  class CpcUnion {
    var lgK: nat
    var state: UnionState

    /** Every coupon of every source, rows unmasked. */
    ghost var offered: set<nat>
    ghost var Repr: set<object>

    /** The union stands for all that was offered, folded to the smallest K seen. */
    ghost function Coupons(): set<nat>
      reads this
    {
      Masked(offered, lgK)
    }

    ghost predicate Stands()
      reads this, Repr
    {
      && this in Repr && 4 <= lgK <= 26 && AllCoupons(26, offered)
      && match state
         case Accumulator(s) =>
           s in Repr && s.Repr <= Repr && this !in s.Repr && s.Valid() && s.lgK == lgK && s.coupons == Coupons()
         case BitMatrix(m) =>
           m in Repr && MatrixOf(m[..], Coupons(), lgK)
    }

    /** A bit matrix is never sparse, an accumulator always is. */
    ghost predicate Valid()
      reads this, Repr
    {
      Stands() && (state.BitMatrix? <==> Dense(Coupons(), lgK))
    }

    constructor (lgK: nat)
      requires 4 <= lgK <= 26
      ensures Valid() && fresh(Repr) && this.lgK == lgK && offered == {}
    {
      this.lgK := lgK;
      var sketch := new CpcSketch(lgK);
      state := Accumulator(sketch);
      offered := {};
      new;
      Repr := {this} + sketch.Repr;
      assert Masked({}, lgK) == {};
    }

    /** The walks of an update stay in the domain: that of the old sparse coupons into a sketch of
      * the smaller K, and that of a sparse source into the accumulator, unless it is copied. */
    ghost predicate WalksAccepted(sketch: CpcSketch)
      reads this, Repr, sketch, sketch.Repr
      requires Stands() && sketch.Valid()
    {
      var newLgK := if sketch.lgK < lgK then sketch.lgK else lgK;
      state.Accumulator? && sketch.coupons != {} ==>
        && (newLgK < lgK && Coupons() != {} ==> WalkAccepted(newLgK, {}, state.sketch.table))
        && (Walked(newLgK, sketch) ==> WalkAccepted(newLgK, Masked(offered, newLgK), sketch.table))
    }

    /** A sparse source is walked into an accumulator that is still sparse at the new K, except that
      * an empty one of the source's K takes a copy. */
    ghost predicate Walked(newLgK: nat, sketch: CpcSketch)
      reads this, sketch
    {
      && !Dense(sketch.coupons, sketch.lgK) && !Dense(Masked(offered, newLgK), newLgK)
      && !(Masked(offered, newLgK) == {} && newLgK == sketch.lgK)
    }

    /** Merges a sketch: the union then stands for its coupons too, at the smaller K. */
    method Update(sketch: CpcSketch)
      requires Valid() && sketch.Valid() && sketch.Repr !! Repr
      requires WalksAccepted(sketch)
      modifies Repr
      ensures Valid() && fresh(Repr - old(Repr))
      ensures offered == old(offered) + sketch.coupons
      ensures lgK == if sketch.coupons == {} || old(lgK) <= sketch.lgK then old(lgK) else sketch.lgK
    {
      hide CpcSketch.Valid, AllCoupons, WalkAccepted, Dense, DetermineFlavor, MatrixOf;
      SketchFacts(sketch);
      if sketch.GetFlavor() == Empty {
        assert offered + sketch.coupons == offered;
        return;
      }
      if sketch.lgK < lgK {
        ReduceK(sketch.lgK);
      }
      Merge(sketch);
    }

    /** Merges a non-empty source of at least the union's K. */
    method Merge(sketch: CpcSketch)
      requires Valid() && sketch.Valid() && sketch.Repr !! Repr && sketch.coupons != {} && lgK <= sketch.lgK
      requires state.Accumulator? && Walked(lgK, sketch) ==> WalkAccepted(lgK, Coupons(), sketch.table)
      modifies Repr
      ensures Valid() && fresh(Repr - old(Repr))
      ensures offered == old(offered) + sketch.coupons && lgK == old(lgK)
    {
      hide CpcSketch.Valid, AllCoupons, WalkAccepted, Dense, DetermineFlavor, MatrixOf;
      SketchFacts(sketch);
      if sketch.GetFlavor() != Sparse && state.Accumulator? {
        Densify();
      }
      match state
      case Accumulator(accumulator) =>
        MergeSparse(accumulator, sketch);
      case BitMatrix(matrix) =>
        MergeIntoMatrix(matrix, sketch);
    }

    method MergeIntoMatrix(matrix: array<Row>, sketch: CpcSketch)
      requires Stands() && state == BitMatrix(matrix) && lgK <= sketch.lgK
      requires sketch.Valid() && sketch.Repr !! Repr && sketch.coupons != {}
      requires Dense(Coupons(), lgK) || Dense(sketch.coupons, sketch.lgK)
      modifies Repr
      ensures Valid() && Repr == old(Repr)
      ensures offered == old(offered) + sketch.coupons && lgK == old(lgK)
    {
      OwnCoupons(sketch);
      SketchFacts(sketch);
      SourceCoupons(sketch);
      SumOfCoupons(offered, sketch.coupons);
      UnionDense(offered, sketch.coupons, sketch.lgK, lgK);
      hide Masked, AllCoupons, Dense, DetermineFlavor, MatrixOf;
      assert sketch.lgK <= 26;
      OrSource(matrix, sketch, sketch.GetFlavor());
      offered := offered + sketch.coupons;
    }

    /** Cases B, C and D: or a non-empty source into the matrix, however it is represented. */
    method OrSource(matrix: array<Row>, sketch: CpcSketch, flavor: Flavor)
      requires Stands() && state == BitMatrix(matrix) && lgK <= sketch.lgK
      requires sketch.Valid() && sketch.Repr !! Repr && flavor == sketch.GetFlavor() && flavor != Empty
      modifies matrix
      ensures MatrixOf(matrix[..], Masked(offered + sketch.coupons, lgK), lgK)
    {
      SketchFacts(sketch);
      MaskedUnion(offered, sketch.coupons, lgK);
      ghost var a := Coupons();
      hide Pow2, Masked, AllCoupons, MatrixOf, DetermineFlavor, OffsetFits, WindowMatches, SurpriseSet, PairTable.Valid;
      if flavor == Sparse {
        OrTableIntoMatrix(matrix, lgK, sketch.table, a);
      } else if flavor == Hybrid || flavor == Pinned {
        OrWindowIntoMatrix(matrix, lgK, sketch.slidingWindow, sketch.windowOffset, sketch.lgK, a, sketch.coupons);
        OrTableIntoMatrix(matrix, lgK, sketch.table, a + Masked(Windowed(sketch.coupons, 0), lgK));
        WindowAndTable(a, sketch.coupons, sketch.lgK, lgK);
      } else {
        assert flavor == Sliding;
        var src := sketch.BuildBitMatrix();
        OrMatrixIntoMatrix(matrix, lgK, src, sketch.lgK, a, sketch.coupons);
      }
    }

    method ReduceK(newLgK: nat)
      requires Valid() && 4 <= newLgK < lgK
      requires state.Accumulator? && Coupons() != {} ==> WalkAccepted(newLgK, {}, state.sketch.table)
      modifies Repr
      ensures Valid() && fresh(Repr - old(Repr))
      ensures lgK == newLgK && offered == old(offered) && (old(state.BitMatrix?) ==> state.BitMatrix?)
    {
      match state
      case Accumulator(sketch) =>
        ReduceAccumulator(sketch, newLgK);
      case BitMatrix(matrix) =>
        ReduceMatrix(matrix, newLgK);
    }

    method ReduceMatrix(matrix: array<Row>, newLgK: nat)
      requires Valid() && state == BitMatrix(matrix) && 4 <= newLgK < lgK
      modifies Repr
      ensures Valid() && fresh(Repr - old(Repr))
      ensures lgK == newLgK && offered == old(offered) && state.BitMatrix?
    {
      hide Masked, AllCoupons, Dense, MatrixOf, Pow2;
      ReducedDense(offered, lgK, newLgK);
      var newMatrix := new Row[Pow2(newLgK)](_ => {});
      ClearMatrix(newMatrix[..], newLgK);
      OrMatrixIntoMatrix(newMatrix, newLgK, matrix, lgK, {}, Coupons());
      assert {} + Masked(offered, newLgK) == Masked(offered, newLgK);
      SetMatrix(newMatrix, newLgK);
    }

    method ReduceAccumulator(sketch: CpcSketch, newLgK: nat)
      requires Valid() && state == Accumulator(sketch) && 4 <= newLgK < lgK
      requires Coupons() != {} ==> WalkAccepted(newLgK, {}, sketch.table)
      modifies Repr
      ensures Valid() && fresh(Repr - old(Repr))
      ensures lgK == newLgK && offered == old(offered)
    {
      hide CpcSketch.Valid, Masked, AllCoupons, PairTable.Valid, PairTable.Contents, WalkAccepted, Dense, MatrixOf;
      MaskedTwice(offered, lgK, newLgK);
      SketchFacts(sketch);
      NothingMasked(newLgK);
      var newSketch := new CpcSketch(newLgK);
      if sketch.numCoupons != 0 {
        WalkTableUpdatingSketch(newSketch, sketch.table);
      }
      Settle(newSketch, newLgK);
    }

    /** Keeps a walked sketch while it is sparse, else its bit matrix. */
    method Settle(sketch: CpcSketch, newLgK: nat)
      requires this in Repr && 4 <= newLgK <= 26 && AllCoupons(26, offered)
      requires sketch.Valid() && sketch.lgK == newLgK && sketch.coupons == Masked(offered, newLgK) && this !in sketch.Repr
      modifies this
      ensures Valid() && lgK == newLgK && offered == old(offered)
      ensures fresh(Repr - old(sketch.Repr) - {this})
    {
      SketchFacts(sketch);
      hide CpcSketch.Denotes, Masked, Pow2, AllCoupons, MatrixOf, PopCount;
      var flavor := sketch.GetFlavor();
      if flavor == Empty || flavor == Sparse {
        lgK, state := newLgK, Accumulator(sketch);
        Repr := {this} + sketch.Repr;
      } else {
        var matrix := sketch.BuildBitMatrix();
        SetMatrix(matrix, newLgK);
      }
    }

    method SetMatrix(matrix: array<Row>, newLgK: nat)
      requires 4 <= newLgK <= 26 && AllCoupons(26, offered) && MatrixOf(matrix[..], Masked(offered, newLgK), newLgK)
      modifies this
      ensures Stands() && lgK == newLgK && offered == old(offered) && state == BitMatrix(matrix)
      ensures Repr == {this, matrix}
    {
      hide Masked, AllCoupons, MatrixOf;
      lgK, state := newLgK, BitMatrix(matrix);
      Repr := {this, matrix};
    }

    /** A source past sparse mode turns the accumulator into a matrix, however few its coupons. */
    method Densify()
      requires Stands() && state.Accumulator?
      modifies this
      ensures Stands() && state.BitMatrix? && fresh(Repr - {this})
      ensures lgK == old(lgK) && offered == old(offered)
    {
      var matrix := state.sketch.BuildBitMatrix();
      SetMatrix(matrix, lgK);
    }

    /** Case A: both are sparse. */
    method MergeSparse(accumulator: CpcSketch, sketch: CpcSketch)
      requires Valid() && state == Accumulator(accumulator) && lgK <= sketch.lgK
      requires sketch.Valid() && sketch.Repr !! Repr && sketch.coupons != {} && !Dense(sketch.coupons, sketch.lgK)
      requires Walked(lgK, sketch) ==> WalkAccepted(lgK, Coupons(), sketch.table)
      modifies Repr
      ensures Valid() && fresh(Repr - old(Repr))
      ensures offered == old(offered) + sketch.coupons && lgK == old(lgK)
    {
      SketchFacts(accumulator);
      var oldFlavor := accumulator.GetFlavor();
      assert oldFlavor == Sparse || oldFlavor == Empty;
      if oldFlavor == Empty && lgK == sketch.lgK {
        CopySource(sketch);
      } else {
        WalkSource(accumulator, sketch);
      }
    }

    method CopySource(sketch: CpcSketch)
      requires Stands() && Coupons() == {} && lgK == sketch.lgK && sketch.Valid() && sketch.Repr !! Repr
      modifies this
      ensures Valid() && fresh(Repr - old(Repr))
      ensures offered == old(offered) + sketch.coupons && lgK == old(lgK)
    {
      OwnCoupons(sketch);
      SourceCoupons(sketch);
      SumOfCoupons(offered, sketch.coupons);
      EmptyUnion(offered, sketch.coupons, lgK);
      hide CpcSketch.Valid, Masked, AllCoupons;
      var copy := sketch.Clone();
      offered := offered + sketch.coupons;
      Settle(copy, lgK);
    }

    method WalkSource(accumulator: CpcSketch, sketch: CpcSketch)
      requires Stands() && state == Accumulator(accumulator)
      requires sketch.Valid() && sketch.Repr !! Repr && sketch.coupons != {} && !Dense(sketch.coupons, sketch.lgK)
      requires WalkAccepted(lgK, Coupons(), sketch.table)
      modifies Repr
      ensures Valid() && fresh(Repr - old(Repr))
      ensures offered == old(offered) + sketch.coupons && lgK == old(lgK)
    {
      SketchFacts(sketch);
      SourceCoupons(sketch);
      SumOfCoupons(offered, sketch.coupons);
      MaskedUnion(offered, sketch.coupons, lgK);
      hide CpcSketch.Valid, Masked, AllCoupons, PairTable.Valid, PairTable.Contents, WalkAccepted, Dense;
      WalkTableUpdatingSketch(accumulator, sketch.table);
      offered := offered + sketch.coupons;
      Settle(accumulator, lgK);
    }

    /** The union as a sketch of its own, never sharing state with the union. */
    method ToSketch() returns (sketch: CpcSketch)
      requires Valid()
      requires state.BitMatrix? ==>
        8 * |Coupons()| < 475 * Pow2(lgK) && SurprisesFit(Coupons(), lgK, DetermineCorrectOffset(lgK, |Coupons()|))
      ensures fresh(sketch) && fresh(sketch.Repr) && sketch.Valid()
      ensures sketch.lgK == lgK && sketch.coupons == Coupons() && sketch.mergeFlag == (Coupons() != {})
      ensures state.BitMatrix? && sketch.firstInterestingColumn < sketch.windowOffset ==>
        !FullBelow(Coupons(), lgK, sketch.firstInterestingColumn + 1)
    {
      match state
      case Accumulator(accumulator) =>
        SketchFacts(accumulator);
        if accumulator.numCoupons == 0 {
          sketch := new CpcSketch(lgK);
        } else {
          assert accumulator.GetFlavor() == Sparse;
          sketch := accumulator.Clone();
          sketch.SetEstimator(true, sketch.kxp, sketch.hipEstAccum);
        }
      case BitMatrix(matrix) =>
        MaskedCoupons(offered, 26, lgK);
        sketch := SketchOfMatrix(matrix, lgK, Coupons());
    }
  }

  /** Rebuilds count, offset, window, table and first column from a dense matrix. */
  method SketchOfMatrix(matrix: array<Row>, lgK: nat, ghost coupons: set<nat>) returns (sketch: CpcSketch)
    requires 4 <= lgK <= 26 && AllCoupons(lgK, coupons) && MatrixOf(matrix[..], coupons, lgK)
    requires Dense(coupons, lgK) && 8 * |coupons| < 475 * Pow2(lgK)
    requires SurprisesFit(coupons, lgK, DetermineCorrectOffset(lgK, |coupons|))
    ensures fresh(sketch) && fresh(sketch.Repr) && sketch.Valid()
    ensures sketch.lgK == lgK && sketch.coupons == coupons && sketch.mergeFlag
    ensures sketch.firstInterestingColumn < sketch.windowOffset ==> !FullBelow(coupons, lgK, sketch.firstInterestingColumn + 1)
  {
    hide MatrixOf, AllCoupons, DetermineCorrectOffset, OffsetFits, SurprisesFit, FullBelow, CpcSketch.Valid;
    var numCoupons, offset := CountOfMatrix(matrix, lgK, coupons);
    sketch := SketchFromCount(matrix, lgK, numCoupons, offset, coupons);
  }

  /** The number of coupons in a matrix, and the window offset it determines. */
  method CountOfMatrix(matrix: array<Row>, lgK: nat, ghost coupons: set<nat>) returns (numCoupons: nat, offset: nat)
    requires AllCoupons(lgK, coupons) && MatrixOf(matrix[..], coupons, lgK) && 8 * |coupons| < 475 * Pow2(lgK)
    ensures numCoupons == |coupons| && offset == DetermineCorrectOffset(lgK, |coupons|)
    ensures OffsetFits(lgK, |coupons|, offset) && offset <= 56
  {
    hide *;
    numCoupons := CountBits(matrix);
    PopCountIsSize(matrix[..], coupons, lgK);
    offset := DetermineCorrectOffset(lgK, numCoupons);
    CorrectOffsetIff(lgK, numCoupons, offset);
    OffsetInDomain(lgK, numCoupons, offset);
  }

  method SketchFromCount(matrix: array<Row>, lgK: nat, numCoupons: nat, offset: nat, ghost coupons: set<nat>)
    returns (sketch: CpcSketch)
    requires 4 <= lgK <= 26 && AllCoupons(lgK, coupons) && MatrixOf(matrix[..], coupons, lgK)
    requires numCoupons == |coupons| && 3 * Pow2(lgK) <= 32 * numCoupons
    requires offset <= 56 && OffsetFits(lgK, numCoupons, offset) && SurprisesFit(coupons, lgK, offset)
    ensures fresh(sketch) && fresh(sketch.Repr) && sketch.Valid()
    ensures sketch.lgK == lgK && sketch.coupons == coupons && sketch.mergeFlag
    ensures sketch.firstInterestingColumn < sketch.windowOffset ==> !FullBelow(coupons, lgK, sketch.firstInterestingColumn + 1)
  {
    hide *;
    var window := new Row[Pow2(lgK)](_ => {});
    var table := new PairTable(if lgK - 4 >= 2 then lgK - 4 else 2, 6 + lgK);
    var column := SplitMatrix(matrix, window, table, lgK, offset, coupons);
    WindowNotEmpty(window[..], coupons, lgK, offset);
    sketch := new CpcSketch.FromParts(lgK, numCoupons, offset, column, window, table, coupons);
    sketch.SetEstimator(true, sketch.kxp, sketch.hipEstAccum);
  }

  lemma WindowNotEmpty(window: seq<Row>, coupons: set<nat>, lgK: nat, offset: nat)
    requires WindowMatches(window, coupons, lgK, offset)
    ensures |window| == Pow2(lgK) > 0
  {
  }

  lemma ReducedDense(offered: set<nat>, lgK: nat, newLgK: nat)
    requires AllCoupons(26, offered) && newLgK <= lgK <= 26 && Dense(Masked(offered, lgK), lgK)
    ensures Masked(Masked(offered, lgK), newLgK) == Masked(offered, newLgK) && Dense(Masked(offered, newLgK), newLgK)
    ensures AllCoupons(lgK, Masked(offered, lgK))
  {
    MaskedCoupons(offered, 26, lgK);
    MaskedTwice(offered, lgK, newLgK);
    DenseStaysDense(Masked(offered, lgK), lgK, newLgK);
  }

  lemma OffsetInDomain(lgK: nat, c: nat, w: nat)
    requires 8 * c < 475 * Pow2(lgK) && OffsetFits(lgK, c, w)
    ensures w <= 56
    ensures w > 0 ==> c > 0
  {
    var k := Pow2(lgK);
    if w > 56 {
      MulLe(19 + 8 * 57, 19 + 8 * w, k);
      assert false;
    }
    if w > 0 {
      MulLe(1, 19 + 8 * w, k);
    }
  }

  lemma ClearMatrix(matrix: seq<Row>, lgK: nat)
    requires |matrix| == Pow2(lgK) && forall i :: 0 <= i < |matrix| ==> matrix[i] == {}
    ensures MatrixOf(matrix, {}, lgK)
  {
  }

  lemma SumOfCoupons(a: set<nat>, b: set<nat>)
    requires AllCoupons(26, a) && AllCoupons(26, b)
    ensures AllCoupons(26, a + b)
  {
  }

  lemma EmptyUnion(offered: set<nat>, source: set<nat>, lgK: nat)
    requires Masked(offered, lgK) == {} && AllCoupons(lgK, source)
    ensures Masked(offered + source, lgK) == source
  {
    EmptyPart(offered, source, lgK);
    MaskedSame(source, lgK);
  }

  lemma NothingMasked(lgK: nat)
    ensures Masked({}, lgK) == {} && forall s: set<nat> :: {} + s == s
  {
  }

  lemma EmptyPart(offered: set<nat>, source: set<nat>, lgK: nat)
    requires Masked(offered, lgK) == {}
    ensures Masked(offered + source, lgK) == Masked(source, lgK)
  {
    MaskedUnion(offered, source, lgK);
  }

  lemma OwnCoupons(sketch: CpcSketch)
    requires sketch.Valid()
    ensures AllCoupons(sketch.lgK, sketch.coupons)
  {
  }

  lemma SourceCoupons(sketch: CpcSketch)
    requires sketch.Valid()
    ensures AllCoupons(26, sketch.coupons)
  {
    Monotone(sketch.lgK, 26);
    forall rc | rc in sketch.coupons ensures Coupon(26, rc) {
      assert Coupon(sketch.lgK, rc);
    }
  }

  /** A dense part keeps the whole dense, and a dense source stays dense when folded. */
  lemma UnionDense(offered: set<nat>, source: set<nat>, m: nat, n: nat)
    requires n <= m <= 26 && AllCoupons(m, source)
    requires Dense(Masked(offered, n), n) || Dense(source, m)
    ensures Dense(Masked(offered + source, n), n)
  {
    MaskedUnion(offered, source, n);
    if Dense(source, m) {
      DenseStaysDense(source, m, n);
    }
    SubsetSize(Masked(offered, n), Masked(offered + source, n));
    SubsetSize(Masked(source, n), Masked(offered + source, n));
  }

  /** At offset 0 the window and the table together hold the coupons. */
  lemma WindowAndTable(a: set<nat>, b: set<nat>, m: nat, n: nat)
    requires AllCoupons(m, b)
    ensures a + Masked(Windowed(b, 0), n) + Masked(SurpriseSet(b, m, 0), n) == a + Masked(b, n)
  {
    forall rc | rc in b ensures rc in Windowed(b, 0) + SurpriseSet(b, m, 0) {
      assert Coupon(m, rc);
    }
    assert Windowed(b, 0) + SurpriseSet(b, m, 0) == b;
    MaskedUnion(Windowed(b, 0), SurpriseSet(b, m, 0), n);
  }

  // --------------------------------------------------------- the domain

  /** Every walk within `total`, in any order, stays in the domain of the sketch's updates. */
  ghost predicate WalkFits(lgK: nat, total: set<nat>) {
    forall mid: set<nat>, rc :: mid <= total && rc in total ==> Accepts(lgK, mid, rc)
  }

  /** Then so does the golden-ratio walk of a table. */
  lemma FittingWalk(lgK: nat, start: set<nat>, table: PairTable)
    requires WalkFits(lgK, start + Masked(table.Contents(), lgK))
    ensures WalkAccepted(lgK, start, table)
  {
    hide Accepts, MaskCoupon;
    var s, stride, lg := table.slots[..], GoldenRatio(table.slots.Length), table.lgSize;
    forall j | 0 <= j < |s| ensures StepAccepted(lgK, start, s, stride, lg, j) {
      MetWithin(s, stride, lg, j);
      var mid := start + Masked(MetItems(s, stride, lg, j), lgK);
      assert mid <= start + Masked(Items(s), lgK);
      forall rc | rc in SlotItem(s, Walk(0, stride, lg, j)) ensures Accepts(lgK, mid, MaskCoupon(rc, lgK)) {
        assert rc in Items(s);
      }
    }
  }

  /** Coupons of the first 32 columns fit up to K = 2^21, in every flavor. */
  lemma WalkFitsInColumns(lgK: nat, total: set<nat>)
    requires 4 <= lgK <= 21 && AllCoupons(lgK, total) && InColumns(total, 32)
    ensures WalkFits(lgK, total)
  {
    forall mid: set<nat>, rc | mid <= total && rc in total ensures Accepts(lgK, mid, rc) {
      AcceptsInColumns(lgK, mid, rc);
    }
  }

  /** Below the sliding flavor no walk can leave the domain: the window stays at 0 and every
    * surprise is a coupon. */
  lemma WalkFitsBelowSliding(lgK: nat, total: set<nat>)
    requires AllCoupons(lgK, total) && 8 * |total| < 27 * Pow2(lgK)
    requires 4 * |total| <= 3 * Pow2(if lgK <= 21 then lgK + 5 else 26)
    ensures WalkFits(lgK, total)
  {
    forall mid: set<nat>, rc | mid <= total && rc in total ensures Accepts(lgK, mid, rc) {
      if rc !in mid {
        SubsetSize(mid + {rc}, total);
        assert |mid + {rc}| == |mid| + 1;
        CorrectOffsetIff(lgK, |mid|, 0);
        CorrectOffsetIff(lgK, |mid| + 1, 0);
        SurprisesAtZero(mid + {rc}, lgK);
      }
    }
  }

  /** Merging sparse sketches of one K never leaves the domain. */
  lemma WalkFitsForSparse(lgK: nat, a: set<nat>, b: set<nat>)
    requires 4 <= lgK <= 26 && AllCoupons(lgK, a) && AllCoupons(lgK, b)
    requires !Dense(a, lgK) && !Dense(b, lgK)
    ensures WalkFits(lgK, a + b)
  {
    Monotone(lgK, if lgK <= 21 then lgK + 5 else 26);
    assert |a + b| <= |a| + |b|;
    WalkFitsBelowSliding(lgK, a + b);
  }
}
