/** The CPC sketch: `cpc/sketch.rs`, coupon state only. */
module CpcSketches {
  import opened Powers
  import opened CpcWords
  import opened CpcCoupons
  import opened Sets
  import opened CpcPairTable

  /** The pair table can hold the surprises of these coupons at its largest size. */
  ghost predicate SurprisesFit(coupons: set<nat>, lgK: nat, offset: nat) {
    4 * |SurpriseSet(coupons, lgK, offset)| <= 3 * Pow2(if lgK <= 21 then lgK + 5 else 26)
  }

  /** The domain of an update: the window stays within the 64 columns and the table assertions
    * hold. A coupon already collected is always accepted. */
  ghost predicate Accepts(lgK: nat, coupons: set<nat>, rc: nat) {
    && Coupon(lgK, rc)
    && (rc !in coupons ==>
      var c := |coupons| + 1;
      && 8 * c < 475 * Pow2(lgK)
      && SurprisesFit(coupons + {rc}, lgK, DetermineCorrectOffset(lgK, c - 1))
      && SurprisesFit(coupons + {rc}, lgK, DetermineCorrectOffset(lgK, c)))
  }

  class CpcSketch {
    const lgK: nat
    var firstInterestingColumn: nat
    var numCoupons: nat
    var table: PairTable?
    var windowOffset: nat
    var slidingWindow: array<Row>
    /** Whether the sketch is the result of a merge, and the two registers of its HIP estimator,
      * whose values are opaque. */
    var mergeFlag: bool
    var kxp: real
    var hipEstAccum: real

    /** Every coupon offered so far. */
    ghost var coupons: set<nat>
    ghost var Repr: set<object>

    /** The fields stand for `coupons`, whatever the window offset. */
    ghost predicate Denotes()
      reads this, Repr
    {
      && this in Repr && slidingWindow in Repr
      && (table != null ==>
        && table in Repr && table.slots in Repr && table.slots as object != slidingWindow
        && table.Valid() && table.numValidBits == 6 + lgK)
      && 4 <= lgK <= 26 && AllCoupons(lgK, coupons)
      && numCoupons == |coupons| && (numCoupons > 0 ==> table != null) && (numCoupons == 0 ==> windowOffset == 0)
      && firstInterestingColumn <= windowOffset <= 56
      && FullBelow(coupons, lgK, firstInterestingColumn)
      && if slidingWindow.Length == 0 then
          windowOffset == 0 && (table != null ==> table.Contents() == coupons)
        else
          && WindowMatches(slidingWindow[..], coupons, lgK, windowOffset)
          && table != null && table.Contents() == SurpriseSet(coupons, lgK, windowOffset)
    }

    /** ... and the representation is the one the number of coupons calls for. */
    ghost predicate Valid()
      reads this, Repr
    {
      && Denotes()
      && (slidingWindow.Length == 0 <==> 32 * numCoupons < 3 * Pow2(lgK))
      && OffsetFits(lgK, numCoupons, windowOffset)
    }

    constructor (lgK: nat)
      requires 4 <= lgK <= 26
      ensures Valid() && fresh(Repr) && this.lgK == lgK && coupons == {}
      ensures !mergeFlag && kxp == Pow2(lgK) as real && hipEstAccum == 0.0
    {
      this.lgK := lgK;
      mergeFlag, kxp, hipEstAccum := false, Pow2(lgK) as real, 0.0;
      firstInterestingColumn, numCoupons, windowOffset := 0, 0, 0;
      table := null;
      slidingWindow := new Row[0];
      coupons := {};
      new;
      Repr := {this, slidingWindow};
    }

    /** Assembles a windowed sketch from its parts, as the union and the decoder do. */
    constructor FromParts(lgK: nat, numCoupons: nat, offset: nat, column: nat, window: array<Row>, table: PairTable,
                          ghost coupons: set<nat>)
      requires 4 <= lgK <= 26 && AllCoupons(lgK, coupons) && numCoupons == |coupons| && 3 * Pow2(lgK) <= 32 * numCoupons
      requires table.Valid() && table.numValidBits == 6 + lgK && table.slots as object != window
      requires column <= offset <= 56 && FullBelow(coupons, lgK, column) && OffsetFits(lgK, numCoupons, offset)
      requires window.Length != 0 && WindowMatches(window[..], coupons, lgK, offset)
      requires table.Contents() == SurpriseSet(coupons, lgK, offset)
      ensures Valid() && Repr == {this, window, table, table.slots}
      ensures this.lgK == lgK && this.coupons == coupons
      ensures firstInterestingColumn == column && windowOffset == offset
    {
      hide PairTable.Valid, PairTable.Contents, Pow2, SurpriseSet, FullBelow, AllCoupons, WindowMatches, OffsetFits;
      this.lgK, this.numCoupons, this.windowOffset, this.firstInterestingColumn := lgK, numCoupons, offset, column;
      mergeFlag, kxp, hipEstAccum := false, Pow2(lgK) as real, 0.0;
      this.slidingWindow, this.table, this.coupons := window, table, coupons;
      Repr := {this, window, table, table.slots};
    }

    /** Assembles a sparse (or empty) sketch around its table. */
    constructor FromSparse(lgK: nat, numCoupons: nat, table: PairTable, ghost coupons: set<nat>)
      requires 4 <= lgK <= 26 && AllCoupons(lgK, coupons) && numCoupons == |coupons| && 32 * numCoupons < 3 * Pow2(lgK)
      requires table.Valid() && table.numValidBits == 6 + lgK && table.Contents() == coupons
      ensures Valid() && fresh(Repr - {table, table.slots}) && this.lgK == lgK && this.coupons == coupons
      ensures firstInterestingColumn == 0 && windowOffset == 0
    {
      hide PairTable.Valid, PairTable.Contents, Pow2, AllCoupons;
      this.lgK, this.numCoupons := lgK, numCoupons;
      mergeFlag, kxp, hipEstAccum := false, Pow2(lgK) as real, 0.0;
      windowOffset, firstInterestingColumn := 0, 0;
      slidingWindow := new Row[0];
      this.table, this.coupons := table, coupons;
      new;
      Repr := {this, slidingWindow, table, table.slots};
    }

    method Clone() returns (c: CpcSketch)
      requires Valid()
      ensures fresh(c) && fresh(c.Repr) && c.Valid() && c.lgK == lgK && c.coupons == coupons
      ensures c.firstInterestingColumn == firstInterestingColumn && c.windowOffset == windowOffset
      ensures c.mergeFlag == mergeFlag && c.kxp == kxp && c.hipEstAccum == hipEstAccum
    {
      hide PairTable.Valid, PairTable.Contents, Pow2, SurpriseSet, FullBelow, AllCoupons, WindowMatches, OffsetFits, SurprisesFit;
      if table == null {
        c := new CpcSketch(lgK);
      } else if slidingWindow.Length == 0 {
        var t := table.Clone();
        c := new CpcSketch.FromSparse(lgK, numCoupons, t, coupons);
      } else {
        var t := table.Clone();
        var w := CloneRows(slidingWindow);
        c := new CpcSketch.FromParts(lgK, numCoupons, windowOffset, firstInterestingColumn, w, t, coupons);
      }
      c.SetEstimator(mergeFlag, kxp, hipEstAccum);
    }

    /** Sets the merge flag and the estimator's registers. */
    method SetEstimator(mergeFlag: bool, kxp: real, hipEstAccum: real)
      requires Valid()
      modifies this`mergeFlag, this`kxp, this`hipEstAccum
      ensures Valid() && this.mergeFlag == mergeFlag && this.kxp == kxp && this.hipEstAccum == hipEstAccum
    {
      hide PairTable.Valid, PairTable.Contents, Pow2, SurpriseSet, FullBelow, AllCoupons, WindowMatches, OffsetFits;
      this.mergeFlag, this.kxp, this.hipEstAccum := mergeFlag, kxp, hipEstAccum;
    }

    /** A new coupon moves the estimator's registers. */
    method UpdateHip(rowCol: nat)
      modifies this`kxp, this`hipEstAccum
    {
      kxp, hipEstAccum := *, *;
    }

    function GetFlavor(): Flavor
      reads this
    {
      DetermineFlavor(lgK, numCoupons)
    }

    /** Offers a coupon; the sketch then stands for the coupons so far and this one. */
    method RowColUpdate(rowCol: nat)
      requires Valid() && Accepts(lgK, coupons, rowCol)
      modifies Repr
      ensures Valid() && fresh(Repr - old(Repr))
      ensures coupons == old(coupons) + {rowCol}
      ensures mergeFlag == old(mergeFlag) && (rowCol in old(coupons) ==> kxp == old(kxp) && hipEstAccum == old(hipEstAccum))
      ensures if windowOffset == old(windowOffset) then firstInterestingColumn == old(firstInterestingColumn)
        else firstInterestingColumn < windowOffset ==> !FullBelow(coupons, lgK, firstInterestingColumn + 1)
    {
      hide PairTable.Shaped, Chained, Items, SurpriseSet, WindowMatches, OffsetFits, SurprisesFit, DetermineCorrectOffset;
      if rowCol % 64 < firstInterestingColumn {
        assert old(coupons) + {rowCol} == old(coupons);
        return;
      }
      if numCoupons == 0 {
        table := new PairTable(2, 6 + lgK);
        Repr := Repr + {table, table.slots};
      }
      if slidingWindow.Length == 0 {
        UpdateSparse(rowCol);
      } else {
        UpdateWindowed(rowCol);
      }
    }

    method UpdateSparse(rowCol: nat)
      requires Valid() && Accepts(lgK, coupons, rowCol) && slidingWindow.Length == 0 && table != null
      modifies Repr
      ensures Valid() && fresh(Repr - old(Repr))
      ensures coupons == old(coupons) + {rowCol}
      ensures mergeFlag == old(mergeFlag) && (rowCol in old(coupons) ==> kxp == old(kxp) && hipEstAccum == old(hipEstAccum))
      ensures windowOffset == old(windowOffset) && firstInterestingColumn == old(firstInterestingColumn)
    {
      hide *;
      var k := Pow2(lgK);
      ValidDenotes();
      SparseParts();
      AcceptedCoupon(lgK, coupons, rowCol);
      var novel := CollectSparse(rowCol);
      if novel && 32 * numCoupons >= 3 * k {
        PromoteSparseToWindowed();
      } else {
        SparseOffset(lgK, numCoupons);
        DenotesValid();
      }
    }

    method CollectSparse(rowCol: nat) returns (novel: bool)
      requires Denotes() && slidingWindow.Length == 0 && table != null && 32 * numCoupons < 3 * Pow2(lgK)
      requires Coupon(lgK, rowCol) && rowCol < Pow2(6 + lgK) && rowCol != EMPTY
      modifies Repr
      ensures Denotes() && fresh(Repr - old(Repr)) && slidingWindow == old(slidingWindow) && table == old(table)
      ensures coupons == old(coupons) + {rowCol} && novel == (rowCol !in old(coupons))
      ensures numCoupons == old(numCoupons) + (if novel then 1 else 0)
      ensures mergeFlag == old(mergeFlag) && (!novel ==> kxp == old(kxp) && hipEstAccum == old(hipEstAccum))
      ensures windowOffset == old(windowOffset) == 0 && firstInterestingColumn == old(firstInterestingColumn) == 0
    {
      hide *;
      SparseParts();
      SparseRoom(lgK, numCoupons, table);
      novel := table.MaybeInsert(rowCol);
      Repr := Repr + {table.slots};
      coupons := coupons + {rowCol};
      if novel {
        numCoupons := numCoupons + 1;
        UpdateHip(rowCol);
      }
      OneMore(old(coupons), lgK, rowCol);
      SparseDenotes();
    }

    /** Splits the sparse table into the window of the low eight columns and a new table. */
    method PromoteSparseToWindowed()
      requires Denotes() && slidingWindow.Length == 0 && table != null && firstInterestingColumn == 0
      requires 3 * Pow2(lgK) <= 32 * numCoupons < 3 * Pow2(lgK) + 32
      modifies Repr
      ensures Valid() && fresh(Repr - old(Repr))
      ensures coupons == old(coupons)
      ensures mergeFlag == old(mergeFlag) && kxp == old(kxp) && hipEstAccum == old(hipEstAccum)
      ensures windowOffset == old(windowOffset) && firstInterestingColumn == old(firstInterestingColumn)
    {
      hide *;
      var k := Pow2(lgK);
      SparseParts();
      PromotionExact(lgK, numCoupons);
      assert 32 * numCoupons == 3 * k || (lgK == 4 && 32 * numCoupons > 3 * k);
      slidingWindow := new Row[k](_ => {});
      var oldTable := table;
      table := new PairTable(2, 6 + lgK);
      SplitSparse(oldTable);
      Repr := Repr + {slidingWindow, table, table.slots};
      NothingBelow(coupons, lgK);
      WindowedDenotes();
      JustPromoted(lgK, numCoupons);
      DenotesValid();
    }

    method SplitSparse(oldTable: PairTable)
      requires 4 <= lgK <= 26 && AllCoupons(lgK, coupons) && 32 * |coupons| < 3 * Pow2(lgK) + 32
      requires oldTable.Valid() && oldTable.numValidBits == 6 + lgK && oldTable.Contents() == coupons
      requires table != null && table.Valid() && table.Contents() == {} && table.numValidBits == 6 + lgK
      requires slidingWindow.Length == Pow2(lgK) && forall i :: 0 <= i < slidingWindow.Length ==> slidingWindow[i] == {}
      requires oldTable != table && oldTable.slots != table.slots
      requires slidingWindow as object != table.slots && slidingWindow as object != oldTable.slots
      modifies slidingWindow, table, table.slots
      ensures table.Valid() && (table.slots == old(table.slots) || fresh(table.slots))
      ensures WindowMatches(slidingWindow[..], coupons, lgK, 0)
      ensures table.Contents() == SurpriseSet(coupons, lgK, 0)
    {
      ghost var s := oldTable.slots[..];
      SplitStart(slidingWindow[..], s, lgK);
      assert Items(s) == coupons && Distinct(s);
      hide PairTable.Valid, Items, Distinct, WindowMatches, SurpriseSet;
      for i := 0 to oldTable.slots.Length
        invariant oldTable.slots[..] == s
        invariant table.Valid() && (table.slots == old(table.slots) || fresh(table.slots))
        invariant WindowMatches(slidingWindow[..], Items(s[..i]), lgK, 0)
        invariant table.Contents() == SurpriseSet(Items(s[..i]), lgK, 0)
      {
        var rowCol := oldTable.slots[i];
        if rowCol != EMPTY {
          PrefixGrows(s, i);
          ItemIn(s, i);
          SplitOne(rowCol, Items(s[..i]));
        } else {
          PrefixSkips(s, i);
        }
      }
    }

    method SplitOne(rowCol: nat, ghost done: set<nat>)
      requires 4 <= lgK <= 26 && Coupon(lgK, rowCol) && rowCol !in done && 32 * |done| < 3 * Pow2(lgK)
      requires table != null && table.Valid() && table.numValidBits == 6 + lgK && slidingWindow as object != table.slots
      requires WindowMatches(slidingWindow[..], done, lgK, 0) && table.Contents() == SurpriseSet(done, lgK, 0)
      modifies slidingWindow, table, table.slots
      ensures table.Valid() && (table.slots == old(table.slots) || fresh(table.slots))
      ensures WindowMatches(slidingWindow[..], done + {rowCol}, lgK, 0)
      ensures table.Contents() == SurpriseSet(done + {rowCol}, lgK, 0)
    {
      hide PairTable.Shaped, Chained, Items, Pow2, SurpriseSet, WindowMatches, RowOf, WindowOf;
      WindowUpdate(slidingWindow[..], done, lgK, 0, rowCol);
      SurpriseUpdate(done, lgK, 0, rowCol);
      var col, row := rowCol % 64, rowCol / 64;
      if col < 8 {
        ghost var w := slidingWindow[..];
        slidingWindow[row] := slidingWindow[row] + {col};
        assert slidingWindow[..] == w[row := w[row] + {col}];
      } else {
        SurprisesAtZero(done, lgK);
        SparseRoom(lgK, table.numItems, table);
        var novel := table.MaybeInsert(rowCol);
        assert novel;
      }
    }

    method UpdateWindowed(rowCol: nat)
      requires Valid() && Accepts(lgK, coupons, rowCol) && slidingWindow.Length != 0
      modifies Repr
      ensures Valid() && fresh(Repr - old(Repr))
      ensures coupons == old(coupons) + {rowCol}
      ensures mergeFlag == old(mergeFlag) && (rowCol in old(coupons) ==> kxp == old(kxp) && hipEstAccum == old(hipEstAccum))
      ensures if windowOffset == old(windowOffset) then firstInterestingColumn == old(firstInterestingColumn)
        else firstInterestingColumn < windowOffset ==> !FullBelow(coupons, lgK, firstInterestingColumn + 1)
    {
      hide PairTable.Shaped, Chained, Items, Pow2, SurpriseSet, WindowMatches, FullBelow, SurprisesFit, DetermineCorrectOffset;
      var k := Pow2(lgK);
      CorrectOffsetIff(lgK, numCoupons, windowOffset);
      var novel := CollectWindowed(rowCol);
      if novel {
        UpdateHip(rowCol);
      }
      if novel && 8 * numCoupons >= (27 + 8 * windowOffset) * k {
        CrossedExactly(lgK, numCoupons, windowOffset);
        CorrectOffsetIff(lgK, numCoupons, windowOffset + 1);
        MoveWindow();
      } else {
        assert coupons == old(coupons) || OffsetFits(lgK, numCoupons, windowOffset);
      }
    }

    lemma SparseParts()
      requires Denotes() && slidingWindow.Length == 0 && table != null
      ensures this in Repr && slidingWindow in Repr && 4 <= lgK <= 26 && AllCoupons(lgK, coupons)
      ensures table in Repr && table.slots in Repr && table.slots as object != slidingWindow
      ensures table.Valid() && table.numValidBits == 6 + lgK && table.Contents() == coupons
      ensures numCoupons == |coupons| == table.numItems && windowOffset == 0 && firstInterestingColumn == 0
    {
      hide PairTable.Contents, Pow2, SurpriseSet, AllCoupons;
    }

    lemma SparseDenotes()
      requires this in Repr && slidingWindow in Repr && 4 <= lgK <= 26 && AllCoupons(lgK, coupons)
      requires table != null && table in Repr && table.slots in Repr && table.slots as object != slidingWindow
      requires table.Valid() && table.numValidBits == 6 + lgK && table.Contents() == coupons
      requires numCoupons == |coupons| && windowOffset == 0 && firstInterestingColumn == 0 && slidingWindow.Length == 0
      ensures Denotes()
    {
      hide PairTable.Valid, PairTable.Contents, Pow2, SurpriseSet, AllCoupons;
    }

    lemma ValidDenotes()
      requires Valid()
      ensures Denotes() && this in Repr && slidingWindow in Repr
      ensures (slidingWindow.Length == 0 <==> 32 * numCoupons < 3 * Pow2(lgK)) && OffsetFits(lgK, numCoupons, windowOffset)
    {
      hide OffsetFits, Pow2, PairTable.Valid, PairTable.Contents, SurpriseSet, AllCoupons, WindowMatches, FullBelow;
    }

    lemma DenotesValid()
      requires Denotes() && (slidingWindow.Length == 0 <==> 32 * numCoupons < 3 * Pow2(lgK))
      requires OffsetFits(lgK, numCoupons, windowOffset)
      ensures Valid()
    {
      hide OffsetFits, Pow2, PairTable.Valid, PairTable.Contents, SurpriseSet, AllCoupons, WindowMatches, FullBelow;
    }

    lemma WindowedParts()
      requires Denotes() && slidingWindow.Length != 0
      ensures this in Repr && slidingWindow in Repr && 4 <= lgK <= 26 && AllCoupons(lgK, coupons)
      ensures table != null && table in Repr && table.slots in Repr && table.slots as object != slidingWindow
      ensures table.Valid() && table.numValidBits == 6 + lgK
      ensures numCoupons == |coupons| && (numCoupons == 0 ==> windowOffset == 0)
      ensures firstInterestingColumn <= windowOffset <= 56 && FullBelow(coupons, lgK, firstInterestingColumn)
      ensures WindowMatches(slidingWindow[..], coupons, lgK, windowOffset) && slidingWindow.Length == Pow2(lgK)
      ensures table.Contents() == SurpriseSet(coupons, lgK, windowOffset)
    {
      hide PairTable.Valid, PairTable.Contents, Pow2, SurpriseSet, FullBelow, AllCoupons;
    }

    lemma WindowedDenotes()
      requires this in Repr && slidingWindow in Repr && 4 <= lgK <= 26 && AllCoupons(lgK, coupons)
      requires table != null && table in Repr && table.slots in Repr && table.slots as object != slidingWindow
      requires table.Valid() && table.numValidBits == 6 + lgK
      requires numCoupons == |coupons| && (numCoupons == 0 ==> windowOffset == 0)
      requires firstInterestingColumn <= windowOffset <= 56 && FullBelow(coupons, lgK, firstInterestingColumn)
      requires slidingWindow.Length != 0 && WindowMatches(slidingWindow[..], coupons, lgK, windowOffset)
      requires table.Contents() == SurpriseSet(coupons, lgK, windowOffset)
      ensures Denotes()
    {
      hide PairTable.Valid, PairTable.Contents, Pow2, SurpriseSet, FullBelow, AllCoupons, WindowMatches;
    }

    /** The coupon goes where its column belongs: out of the table before the window, into the
      * window byte, or into the table behind it. */
    method CollectWindowed(rowCol: nat) returns (novel: bool)
      requires Denotes() && slidingWindow.Length != 0 && Coupon(lgK, rowCol)
      requires rowCol !in coupons ==> SurprisesFit(coupons + {rowCol}, lgK, windowOffset)
      modifies Repr
      ensures Denotes() && fresh(Repr - old(Repr)) && slidingWindow == old(slidingWindow)
      ensures coupons == old(coupons) + {rowCol} && novel == (rowCol !in old(coupons))
      ensures windowOffset == old(windowOffset) && firstInterestingColumn == old(firstInterestingColumn)
      ensures mergeFlag == old(mergeFlag) && kxp == old(kxp) && hipEstAccum == old(hipEstAccum)
    {
      hide *;
      WindowedParts();
      WindowUpdate(slidingWindow[..], coupons, lgK, windowOffset, rowCol);
      SurpriseEither(coupons, lgK, windowOffset, rowCol);
      FullBelowGrows(coupons, lgK, firstInterestingColumn, rowCol);
      if windowOffset <= rowCol % 64 < windowOffset + 8 {
        novel := CollectInWindow(rowCol);
      } else {
        novel := CollectInTable(rowCol);
      }
      coupons := coupons + {rowCol};
      Repr := Repr + {table.slots};
      if novel {
        numCoupons := numCoupons + 1;
      }
      assert novel || coupons == old(coupons);
      OneMore(old(coupons), lgK, rowCol);
      WindowedDenotes();
    }

    method CollectInWindow(rowCol: nat) returns (novel: bool)
      requires Coupon(lgK, rowCol) && windowOffset <= rowCol % 64 < windowOffset + 8
      requires WindowMatches(slidingWindow[..], coupons, lgK, windowOffset)
      modifies slidingWindow
      ensures novel == (rowCol !in coupons)
      ensures WindowMatches(slidingWindow[..], coupons + {rowCol}, lgK, windowOffset)
    {
      WindowUpdate(slidingWindow[..], coupons, lgK, windowOffset, rowCol);
      hide *;
      var row := rowCol / 64;
      ghost var w := slidingWindow[..];
      var oldBits := slidingWindow[row];
      var newBits := oldBits + {rowCol % 64 - windowOffset};
      if oldBits != newBits {
        slidingWindow[row] := newBits;
        novel := true;
      } else {
        novel := false;
      }
      assert slidingWindow[..] == w[row := newBits];
    }

    method CollectInTable(rowCol: nat) returns (novel: bool)
      requires 4 <= lgK <= 26 && Coupon(lgK, rowCol) && !(windowOffset <= rowCol % 64 < windowOffset + 8)
      requires table != null && table.Valid() && table.numValidBits == 6 + lgK
      requires table.Contents() == SurpriseSet(coupons, lgK, windowOffset)
      requires rowCol !in coupons ==> SurprisesFit(coupons + {rowCol}, lgK, windowOffset)
      modifies table, table.slots
      ensures novel == (rowCol !in coupons)
      ensures table.Valid() && (table.slots == old(table.slots) || fresh(table.slots))
      ensures table.Contents() == SurpriseSet(coupons + {rowCol}, lgK, windowOffset)
    {
      CouponBits(lgK, rowCol);
      SurpriseEither(coupons, lgK, windowOffset, rowCol);
      if rowCol % 64 >= windowOffset {
        TableRoom(coupons, lgK, windowOffset, rowCol, table);
      }
      assert rowCol != EMPTY;
      hide *;
      if rowCol % 64 < windowOffset {
        novel := table.MaybeDelete(rowCol);
      } else {
        novel := table.MaybeInsert(rowCol);
      }
    }

    /** Slides the window one column up: the matrix is rebuilt and split again. */
    method MoveWindow()
      requires Denotes() && slidingWindow.Length != 0 && windowOffset + 1 <= 56
      requires windowOffset + 1 == DetermineCorrectOffset(lgK, numCoupons)
      requires SurprisesFit(coupons, lgK, windowOffset + 1)
      modifies Repr
      ensures Denotes() && fresh(Repr - old(Repr)) && slidingWindow == old(slidingWindow)
      ensures coupons == old(coupons) && windowOffset == old(windowOffset) + 1
      ensures mergeFlag == old(mergeFlag) && hipEstAccum == old(hipEstAccum)
      ensures firstInterestingColumn < windowOffset ==> !FullBelow(coupons, lgK, firstInterestingColumn + 1)
    {
      hide *;
      OffsetPositive(lgK, numCoupons);
      var bitMatrix := BuildBitMatrix();
      Resplit(bitMatrix, windowOffset + 1);
      if windowOffset % 8 == 0 {
        RefreshKxp();
      }
    }

    /** Computes kxp afresh from the matrix. */
    method RefreshKxp()
      requires Denotes()
      modifies this`kxp
      ensures Denotes()
    {
      hide PairTable.Valid, PairTable.Contents, Pow2, SurpriseSet, FullBelow, AllCoupons, WindowMatches, Coupon;
      kxp := *;
    }

    method Resplit(bitMatrix: array<Row>, newOffset: nat)
      requires Denotes() && slidingWindow.Length != 0 && numCoupons > 0 && newOffset <= 56
      requires MatrixOf(bitMatrix[..], coupons, lgK) && bitMatrix !in Repr
      requires SurprisesFit(coupons, lgK, newOffset)
      modifies Repr
      ensures Denotes() && fresh(Repr - old(Repr)) && slidingWindow == old(slidingWindow)
      ensures coupons == old(coupons) && windowOffset == newOffset
      ensures mergeFlag == old(mergeFlag) && kxp == old(kxp) && hipEstAccum == old(hipEstAccum)
      ensures firstInterestingColumn < newOffset ==> !FullBelow(coupons, lgK, firstInterestingColumn + 1)
    {
      hide *;
      WindowedParts();
      table.Clear();
      firstInterestingColumn := SplitMatrix(bitMatrix, slidingWindow, table, lgK, newOffset, coupons);
      windowOffset := newOffset;
      Repr := Repr + {table.slots};
      WindowedDenotes();
    }

    /** The whole bit matrix, from any representation. */
    method BuildBitMatrix() returns (matrix: array<Row>)
      requires Denotes()
      ensures fresh(matrix) && MatrixOf(matrix[..], coupons, lgK)
    {
      hide PairTable.Valid, PairTable.Contents, Pow2, SurpriseSet, FullBelow, AllCoupons, EarlyZone, RowOf;
      matrix := DefaultRows(Pow2(lgK), slidingWindow, windowOffset);
      if numCoupons == 0 {
        assert coupons == {};
        EmptyMatrix(lgK);
        return;
      }
      TableCoupons();
      ghost var base := matrix[..];
      FlipItems(matrix, table, lgK);
      FlippedRows(base, matrix[..]);
    }

    lemma TableCoupons()
      requires Denotes() && table != null
      ensures table.Valid() && AllCoupons(lgK, table.Contents())
    {
      hide PairTable.Valid, PairTable.Contents, Pow2, FullBelow;
    }

    /** Flipping the table's items into the default rows gives the matrix. */
    lemma FlippedRows(base: seq<Row>, matrix: seq<Row>)
      requires Denotes() && table != null && |base| == |matrix| == Pow2(lgK)
      requires forall r :: 0 <= r < |base| ==>
        base[r] == if slidingWindow.Length == 0 then EarlyZone(windowOffset) else DefaultRow(slidingWindow[r], windowOffset)
      requires forall r :: 0 <= r < |base| ==> matrix[r] == Xor(base[r], RowOf(table.Contents(), r))
      ensures MatrixOf(matrix, coupons, lgK)
    {
      hide PairTable.Valid, PairTable.Contents, Pow2, FullBelow, SurpriseSet, DefaultRow, RowOf, AllCoupons;
      forall r | 0 <= r < |matrix| ensures matrix[r] == RowOf(coupons, r) {
        if slidingWindow.Length != 0 {
          FlipRestores(coupons, lgK, windowOffset, r);
        }
      }
    }
  }

  lemma AcceptedCoupon(lgK: nat, coupons: set<nat>, rc: nat)
    requires 4 <= lgK <= 26 && Accepts(lgK, coupons, rc)
    ensures Coupon(lgK, rc) && rc < Pow2(6 + lgK) && rc != EMPTY
  {
    hide SurprisesFit, DetermineCorrectOffset;
    CouponBits(lgK, rc);
  }

  lemma SparseOffset(lgK: nat, c: nat)
    ensures 32 * c < 3 * Pow2(lgK) ==> OffsetFits(lgK, c, 0)
  {
  }

  lemma JustPromoted(lgK: nat, c: nat)
    requires 3 * Pow2(lgK) <= 32 * c < 3 * Pow2(lgK) + 32 && lgK >= 4
    ensures OffsetFits(lgK, c, 0)
  {
    Monotone(4, lgK);
  }

  lemma OneMore(coupons: set<nat>, lgK: nat, rowCol: nat)
    requires AllCoupons(lgK, coupons) && Coupon(lgK, rowCol)
    ensures AllCoupons(lgK, coupons + {rowCol})
    ensures |coupons + {rowCol}| == |coupons| + if rowCol in coupons then 0 else 1
  {
    if rowCol in coupons {
      assert coupons + {rowCol} == coupons;
    }
  }

  lemma NothingBelow(coupons: set<nat>, lgK: nat)
    ensures FullBelow(coupons, lgK, 0)
  {
  }

  lemma OffsetPositive(lgK: nat, c: nat)
    requires DetermineCorrectOffset(lgK, c) > 0
    ensures c > 0
  {
    assert Pow2(lgK) > 0;
  }

  /** Ones before the window, then the window. */
  method DefaultRows(k: nat, window: array<Row>, offset: nat) returns (matrix: array<Row>)
    requires window.Length == 0 || window.Length == k
    ensures fresh(matrix) && matrix.Length == k
    ensures forall r :: 0 <= r < k ==> matrix[r] == if window.Length == 0 then EarlyZone(offset) else DefaultRow(window[r], offset)
  {
    hide EarlyZone, Shifted;
    matrix := new Row[k](_ => EarlyZone(offset));
    if window.Length != 0 {
      for i := 0 to k
        invariant forall j :: 0 <= j < i ==> matrix[j] == DefaultRow(window[j], offset)
        invariant forall j :: i <= j < k ==> matrix[j] == EarlyZone(offset)
      {
        matrix[i] := matrix[i] + Shifted(window[i], offset);
      }
    }
  }

  method CloneRows(rows: array<Row>) returns (c: array<Row>)
    ensures fresh(c) && c[..] == rows[..]
  {
    c := new Row[rows.Length](_ => {});
    for i := 0 to rows.Length
      invariant c[..i] == rows[..i]
    {
      c[i] := rows[i];
    }
  }

  lemma WindowLength(window: seq<Row>, coupons: set<nat>, lgK: nat, offset: nat)
    requires WindowMatches(window, coupons, lgK, offset)
    ensures |window| == Pow2(lgK)
  {
  }

  lemma EmptyMatrix(lgK: nat)
    ensures forall r :: 0 <= r < Pow2(lgK) ==> RowOf({}, r) == EarlyZone(0)
  {
  }

  /** Splits a full matrix into the window at `offset` and the table of surprises, and returns the
    * first column that may still be missing a coupon. Shared by `move_window` and the union's
    * `to_sketch`. */
  method SplitMatrix(matrix: array<Row>, window: array<Row>, table: PairTable, lgK: nat, offset: nat,
                     ghost coupons: set<nat>)
    returns (column: nat)
    requires 4 <= lgK <= 26 && offset <= 56 && AllCoupons(lgK, coupons)
    requires MatrixOf(matrix[..], coupons, lgK) && window.Length == Pow2(lgK) && window != matrix
    requires table.Valid() && table.numValidBits == 6 + lgK && table.Contents() == {}
    requires table.slots as object != window && table.slots as object != matrix
    requires SurprisesFit(coupons, lgK, offset)
    modifies window, table, table.slots
    ensures table.Valid() && (table.slots == old(table.slots) || fresh(table.slots))
    ensures table.Contents() == SurpriseSet(coupons, lgK, offset)
    ensures WindowMatches(window[..], coupons, lgK, offset)
    ensures column <= offset && FullBelow(coupons, lgK, column)
    ensures column < offset ==> !FullBelow(coupons, lgK, column + 1)
  {
    var k := Pow2(lgK);
    var allSurprisesOred: Row := {};
    assert SurprisesBelow(coupons, lgK, offset, 0) == {};
    for i := 0 to k
      invariant table.Valid() && (table.slots == old(table.slots) || fresh(table.slots))
      invariant table.Contents() == SurprisesBelow(coupons, lgK, offset, i)
      invariant forall r :: 0 <= r < i ==> window[r] == WindowOf(RowOf(coupons, r), offset)
      invariant Covers(allSurprisesOred, SurprisesBelow(coupons, lgK, offset, i))
    {
      hide *;
      var pattern := SplitRow(matrix[i], window, table, lgK, i, offset, coupons);
      OrCovers(allSurprisesOred, coupons, lgK, offset, i);
      allSurprisesOred := allSurprisesOred + pattern;
    }
    assert SurprisesBelow(coupons, lgK, offset, k) == SurpriseSet(coupons, lgK, offset);
    column := TrailingZeros(allSurprisesOred);
    if column > offset {
      column := offset;
    }
    NoSurpriseBelow(allSurprisesOred, coupons, lgK, offset, column);
  }

  /** The disjunction of the rows shows the columns of the surprises. */
  ghost predicate Covers(ored: Row, surprises: set<nat>) {
    (forall rc :: rc in surprises ==> rc % 64 in ored) && forall c :: c in ored ==> HasColumn(surprises, c)
  }

  ghost predicate HasColumn(surprises: set<nat>, c: nat) {
    exists rc :: rc in surprises && rc % 64 == c
  }

  lemma OrCovers(ored: Row, coupons: set<nat>, lgK: nat, offset: nat, r: nat)
    requires r < Pow2(lgK) && Covers(ored, SurprisesBelow(coupons, lgK, offset, r))
    ensures Covers(ored + Surprises(RowOf(coupons, r), offset), SurprisesBelow(coupons, lgK, offset, r + 1))
  {
    hide Covers, Surprises, SurprisesBelow, RowItems, RowOf, Pow2;
    SurprisesOfRow(coupons, lgK, offset, r);
    SurpriseColumns(RowOf(coupons, r), offset);
    CoversMore(ored, SurprisesBelow(coupons, lgK, offset, r), r, Surprises(RowOf(coupons, r), offset));
  }

  lemma SurpriseColumns(row: Row, offset: nat)
    ensures IsRow(Surprises(row, offset))
  {
  }

  lemma CoversMore(ored: Row, before: set<nat>, r: nat, row: Row)
    requires Covers(ored, before) && IsRow(row)
    ensures Covers(ored + row, before + RowItems(r, row))
  {
    hide RowItems;
    var after := before + RowItems(r, row);
    forall c | c in ored + row ensures HasColumn(after, c) {
      if c in row {
        ItemOfColumn(r, row, c);
      } else {
        var rc :| rc in before && rc % 64 == c;
        assert rc in after;
      }
    }
    forall rc | rc in after ensures rc % 64 in ored + row {
      if rc in RowItems(r, row) {
        ColumnOfItem(r, row, rc);
      }
    }
  }

  lemma ItemOfColumn(r: nat, row: Row, c: nat)
    requires IsRow(row) && c in row
    ensures 64 * r + c in RowItems(r, row) && (64 * r + c) % 64 == c
  {
    assert Col(c) && InRow(64 * r + c, r);
  }

  lemma ColumnOfItem(r: nat, row: Row, rc: nat)
    requires rc in RowItems(r, row)
    ensures rc % 64 in row
  {
    assert InRow(rc, r);
  }

  lemma NoSurpriseBelow(ored: Row, coupons: set<nat>, lgK: nat, offset: nat, column: nat)
    requires Covers(ored, SurpriseSet(coupons, lgK, offset)) && column <= offset
    requires forall c :: c < column ==> c !in ored
    ensures FullBelow(coupons, lgK, column)
    ensures column in ored && column < offset ==> !FullBelow(coupons, lgK, column + 1)
  {
    if column in ored && column < offset {
      var rc :| rc in SurpriseSet(coupons, lgK, offset) && rc % 64 == column;
      assert rc !in coupons;
    }
    forall rc: nat | rc < 64 * Pow2(lgK) && rc % 64 < column ensures rc in coupons {
      assert rc !in SurpriseSet(coupons, lgK, offset);
    }
  }

  method SplitRow(row: Row, window: array<Row>, table: PairTable, lgK: nat, i: nat, offset: nat, ghost coupons: set<nat>)
    returns (pattern: Row)
    requires 4 <= lgK <= 26 && offset <= 56 && AllCoupons(lgK, coupons) && SurprisesFit(coupons, lgK, offset)
    requires i < Pow2(lgK) && row == RowOf(coupons, i) && window.Length == Pow2(lgK)
    requires table.Valid() && table.numValidBits == 6 + lgK && table.slots as object != window
    requires table.Contents() == SurprisesBelow(coupons, lgK, offset, i)
    modifies window, table, table.slots
    ensures table.Valid() && (table.slots == old(table.slots) || fresh(table.slots))
    ensures table.Contents() == SurprisesBelow(coupons, lgK, offset, i + 1)
    ensures window[i] == WindowOf(RowOf(coupons, i), offset)
    ensures forall r :: 0 <= r < window.Length && r != i ==> window[r] == old(window[r])
    ensures pattern == Surprises(RowOf(coupons, i), offset)
  {
    SplitRowFits(coupons, lgK, offset, i);
    hide *;
    pattern := row;
    window[i] := WindowOf(pattern, offset);
    SurpriseMask(pattern, offset);
    pattern := pattern - WindowZone(offset);
    pattern := Xor(pattern, EarlyZone(offset));
    InsertRow(table, lgK, i, pattern, SurpriseSet(coupons, lgK, offset));
  }

  lemma SplitRowFits(coupons: set<nat>, lgK: nat, offset: nat, i: nat)
    requires AllCoupons(lgK, coupons) && SurprisesFit(coupons, lgK, offset) && offset <= 56 && i < Pow2(lgK)
    ensures var row := RowOf(coupons, i);
      var below, now := SurprisesBelow(coupons, lgK, offset, i), RowItems(i, Surprises(row, offset));
      && IsRow(row) && IsRow(Surprises(row, offset))
      && SurprisesBelow(coupons, lgK, offset, i + 1) == below + now
      && below + now <= SurpriseSet(coupons, lgK, offset) && below !! now
    ensures AllCoupons(lgK, SurpriseSet(coupons, lgK, offset))
  {
    SurprisesOfRow(coupons, lgK, offset, i);
    assert EMPTY % 64 == 63;
  }

  /** Inserts the columns of one row, lowest first; each is new to the table. */
  method InsertRow(table: PairTable, lgK: nat, r: nat, row: Row, ghost all: set<nat>)
    requires 4 <= lgK <= 26 && table.Valid() && table.numValidBits == 6 + lgK && IsRow(row)
    requires table.Contents() + RowItems(r, row) <= all && table.Contents() !! RowItems(r, row)
    requires AllCoupons(lgK, all)
    requires 4 * |all| <= 3 * Pow2(if lgK <= 21 then lgK + 5 else 26)
    modifies table, table.slots
    ensures table.Valid() && (table.slots == old(table.slots) || fresh(table.slots))
    ensures table.Contents() == old(table.Contents()) + RowItems(r, row)
  {
    var pattern := row;
    ghost var before := table.Contents();
    RowItemsStart(r, row);
    hide *;
    while pattern != {}
      invariant pattern <= row
      invariant table.Valid() && (table.slots == old(table.slots) || fresh(table.slots))
      invariant table.Contents() == before + RowItems(r, row - pattern)
    {
      pattern := InsertLowest(table, lgK, r, row, pattern, before, all);
    }
  }

  /** Erases the lowest column of the pattern and inserts its pair. */
  method InsertLowest(table: PairTable, lgK: nat, r: nat, ghost row: Row, pattern: Row, ghost before: set<nat>, ghost all: set<nat>)
    returns (rest: Row)
    requires 4 <= lgK <= 26 && table.Valid() && table.numValidBits == 6 + lgK && IsRow(row)
    requires before + RowItems(r, row) <= all && before !! RowItems(r, row)
    requires AllCoupons(lgK, all) && 4 * |all| <= 3 * Pow2(if lgK <= 21 then lgK + 5 else 26)
    requires pattern <= row && pattern != {}
    requires table.Contents() == before + RowItems(r, row - pattern)
    modifies table, table.slots
    ensures rest < pattern
    ensures table.Valid() && (table.slots == old(table.slots) || fresh(table.slots))
    ensures table.Contents() == before + RowItems(r, row - rest)
  {
    hide *;
    var col := TrailingZeros(pattern);
    RowStep(before, r, row, pattern, col);
    assert table.Contents() <= all;
    RoomWithin(table, lgK, 64 * r + col, all);
    var novel := table.MaybeInsert(64 * r + col);
    assert novel;
    rest := pattern - {col};
  }

  lemma RowItemsStart(r: nat, row: Row)
    ensures row - row == {} && row - {} == row && RowItems(r, {}) == {}
  {
  }

  lemma RowItemsStep(r: nat, row: Row, pattern: Row, col: nat)
    requires IsRow(row) && pattern <= row && pattern != {} && col == TrailingZeros(pattern)
    ensures col in pattern && 64 * r + col in RowItems(r, row) && 64 * r + col !in RowItems(r, row - pattern)
    ensures RowItems(r, row - (pattern - {col})) == RowItems(r, row - pattern) + {64 * r + col}
    ensures RowItems(r, row - pattern) <= RowItems(r, row)
  {
    assert Col(col);
    var c :| c in pattern;
    assert Col(c);
  }

  lemma RowStep(before: set<nat>, r: nat, row: Row, pattern: Row, col: nat)
    requires IsRow(row) && before !! RowItems(r, row)
    requires pattern <= row && pattern != {} && col == TrailingZeros(pattern)
    ensures col in pattern && 64 * r + col in RowItems(r, row)
    ensures 64 * r + col !in before + RowItems(r, row - pattern)
    ensures before + RowItems(r, row - pattern) <= before + RowItems(r, row)
    ensures before + RowItems(r, row - (pattern - {col})) == before + RowItems(r, row - pattern) + {64 * r + col}
  {
    RowItemsStep(r, row, pattern, col);
    hide *;
  }

  lemma RoomWithin(table: PairTable, lgK: nat, rc: nat, all: set<nat>)
    requires 4 <= lgK <= 26 && table.Valid() && table.numValidBits == 6 + lgK
    requires AllCoupons(lgK, all) && 4 * |all| <= 3 * Pow2(if lgK <= 21 then lgK + 5 else 26)
    requires table.Contents() <= all && rc in all && rc !in table.Contents()
    ensures rc < Pow2(6 + lgK) && rc != EMPTY && table.RoomFor(table.numItems + 1)
  {
    hide Items, Pow2;
    CouponBits(lgK, rc);
    SubsetSize(table.Contents() + {rc}, all);
  }

  /** Flips the matrix bit of every item of the table. */
  method FlipItems(matrix: array<Row>, table: PairTable, lgK: nat)
    requires table.Valid() && AllCoupons(lgK, table.Contents())
    requires matrix.Length == Pow2(lgK) && matrix as object != table.slots
    modifies matrix
    ensures forall r :: 0 <= r < matrix.Length ==> matrix[r] == Xor(old(matrix[r]), RowOf(table.Contents(), r))
  {
    ghost var s := table.slots[..];
    ghost var base := matrix[..];
    FlipNothing(base, s);
    for i := 0 to table.slots.Length
      invariant table.slots[..] == s && Flipped(matrix[..], base, Items(s[..i]))
    {
      var rowCol := table.slots[i];
      if rowCol != EMPTY {
        assert rowCol in table.Contents() && rowCol / 64 < matrix.Length;
        hide *;
        PrefixGrows(s, i);
        FlipStep(matrix[..], base, Items(s[..i]), rowCol);
        ghost var m := matrix[..];
        matrix[rowCol / 64] := Xor(matrix[rowCol / 64], {rowCol % 64});
        assert matrix[..] == m[rowCol / 64 := Xor(m[rowCol / 64], {rowCol % 64})];
      } else {
        PrefixSkips(s, i);
      }
    }
  }

  ghost predicate Flipped(matrix: seq<Row>, base: seq<Row>, items: set<nat>) {
    |matrix| == |base| && forall r :: 0 <= r < |base| ==> matrix[r] == Xor(base[r], RowOf(items, r))
  }

  lemma FlipNothing(base: seq<Row>, s: seq<nat>)
    ensures Flipped(base, base, Items(s[..0])) && s[..|s|] == s
  {
    assert Items(s[..0]) == {};
  }

  lemma FlipStep(matrix: seq<Row>, base: seq<Row>, items: set<nat>, rc: nat)
    requires Flipped(matrix, base, items) && rc !in items && rc / 64 < |matrix|
    ensures Flipped(matrix[rc / 64 := Xor(matrix[rc / 64], {rc % 64})], base, items + {rc})
  {
    var m := matrix[rc / 64 := Xor(matrix[rc / 64], {rc % 64})];
    forall r | 0 <= r < |base| ensures m[r] == Xor(base[r], RowOf(items + {rc}, r)) {
      RowUpdate(items, rc, r);
      assert rc == 64 * (rc / 64) + rc % 64;
    }
  }

  lemma ItemIn(s: seq<nat>, i: nat)
    requires i < |s| && s[i] != EMPTY
    ensures s[i] in Items(s)
  {
  }

  lemma SplitStart(window: seq<Row>, s: seq<nat>, lgK: nat)
    requires |window| == Pow2(lgK) && forall i :: 0 <= i < |window| ==> window[i] == {}
    ensures WindowMatches(window, Items(s[..0]), lgK, 0) && SurpriseSet(Items(s[..0]), lgK, 0) == {}
    ensures s[..|s|] == s
  {
    assert Items(s[..0]) == {};
  }

  lemma FullBelowGrows(coupons: set<nat>, lgK: nat, bound: nat, rc: nat)
    requires FullBelow(coupons, lgK, bound)
    ensures FullBelow(coupons + {rc}, lgK, bound)
  {
  }

  lemma CouponBits(lgK: nat, rc: nat)
    requires Coupon(lgK, rc)
    ensures rc < Pow2(6 + lgK)
  {
    Add(6, lgK);
    assert Pow2(6) == 64;
  }

  /** The table changes by one item before the window, not at all inside, by one item behind. */
  lemma SurpriseEither(coupons: set<nat>, lgK: nat, offset: nat, rc: nat)
    requires Coupon(lgK, rc)
    ensures var s, t := SurpriseSet(coupons, lgK, offset), SurpriseSet(coupons + {rc}, lgK, offset);
      if rc % 64 < offset then t == s - {rc} && (rc in s <==> rc !in coupons)
      else if rc % 64 < offset + 8 then t == s
      else t == s + {rc} && (rc in s <==> rc in coupons)
  {
    if rc in coupons {
      assert coupons + {rc} == coupons;
    } else {
      SurpriseUpdate(coupons, lgK, offset, rc);
    }
  }

  lemma TableRoom(coupons: set<nat>, lgK: nat, offset: nat, rc: nat, table: PairTable)
    requires 4 <= lgK <= 26 && table.Valid() && table.numValidBits == 6 + lgK
    requires table.Contents() == SurpriseSet(coupons, lgK, offset) && rc % 64 >= offset + 8
    requires Coupon(lgK, rc) && (rc !in coupons ==> SurprisesFit(coupons + {rc}, lgK, offset))
    ensures rc !in table.Contents() ==> table.RoomFor(table.numItems + 1)
  {
    if rc !in table.Contents() {
      SurpriseEither(coupons, lgK, offset, rc);
    }
  }

  /** 8 divides (27 + 8w)K, so the threshold of offset w is met with equality; the next offset
    * is then the right one. */
  lemma CrossedExactly(lgK: nat, c: nat, w: nat)
    requires 4 <= lgK && 8 * (c - 1) < (27 + 8 * w) * Pow2(lgK) <= 8 * c
    ensures 8 * c == (27 + 8 * w) * Pow2(lgK)
    ensures OffsetFits(lgK, c, w + 1)
  {
    hide Pow2;
    EightTimes(lgK - 3);
    MultipleCrossed(c, w, Pow2(lgK), Pow2(lgK - 3));
  }

  lemma MultipleCrossed(c: nat, w: nat, k: nat, p: nat)
    requires k == 8 * p && p > 0 && 8 * (c - 1) < (27 + 8 * w) * k <= 8 * c
    ensures 8 * c == (27 + 8 * w) * k && 8 * c < (27 + 8 * (w + 1)) * k && (19 + 8 * (w + 1)) * k <= 8 * c
  {
    var t := w * p;
    assert (27 + 8 * w) * k == 8 * (27 * p + 8 * t);
    assert (27 + 8 * (w + 1)) * k == 8 * (35 * p + 8 * t);
    assert (19 + 8 * (w + 1)) * k == 8 * (27 * p + 8 * t);
  }

  /** A sketch leaves sparse mode at exactly 3K/32 coupons, unless K = 16 where that is 1.5. */
  lemma PromotionExact(lgK: nat, c: nat)
    requires 4 <= lgK && 3 * Pow2(lgK) <= 32 * c < 3 * Pow2(lgK) + 32
    ensures 32 * c == 3 * Pow2(lgK) || (lgK == 4 && 32 * c > 3 * Pow2(lgK))
  {
    assert Pow2(4) == 16;
    if lgK > 4 {
      assert Pow2(lgK) == 4 * Pow2(lgK - 2);
      EightTimes(lgK - 5);
    }
  }

  /** Past the sparse limit of 3K/32 coupons. */
  ghost predicate Dense(coupons: set<nat>, lgK: nat) {
    3 * Pow2(lgK) <= 32 * |coupons|
  }

  /** The representation behind each flavor. */
  lemma SketchFacts(sketch: CpcSketch)
    requires sketch.Valid()
    ensures sketch in sketch.Repr && sketch.slidingWindow in sketch.Repr && 4 <= sketch.lgK <= 26
    ensures sketch.table != null ==>
      sketch.table in sketch.Repr && sketch.table.slots in sketch.Repr && sketch.table.Valid()
    ensures sketch.numCoupons == 0 <==> sketch.coupons == {}
    ensures sketch.GetFlavor() == Empty <==> sketch.coupons == {}
    ensures sketch.GetFlavor() == Empty || sketch.GetFlavor() == Sparse <==> !Dense(sketch.coupons, sketch.lgK)
    ensures !Dense(sketch.coupons, sketch.lgK) && sketch.coupons != {} ==>
      sketch.table != null && sketch.table.Contents() == sketch.coupons
    ensures Dense(sketch.coupons, sketch.lgK) ==>
      && sketch.table != null && sketch.slidingWindow.Length != 0
      && sketch.table.Contents() == SurpriseSet(sketch.coupons, sketch.lgK, sketch.windowOffset)
      && WindowMatches(sketch.slidingWindow[..], sketch.coupons, sketch.lgK, sketch.windowOffset)
    ensures sketch.GetFlavor() == Hybrid || sketch.GetFlavor() == Pinned ==> sketch.windowOffset == 0
  {
    hide PairTable.Valid, SurpriseSet, WindowMatches, AllCoupons, FullBelow;
    if sketch.windowOffset > 0 {
      LateFlavor(sketch.lgK, sketch.numCoupons, sketch.windowOffset);
    }
  }

  lemma LateFlavor(lgK: nat, c: nat, offset: nat)
    requires OffsetFits(lgK, c, offset) && offset > 0
    ensures DetermineFlavor(lgK, c) == Sliding
  {
    var k := Pow2(lgK);
    MulLe(1, offset, 8 * k);
    assert (19 + 8 * offset) * k == 19 * k + offset * (8 * k);
  }

  /** What holds in every reachable sketch: the offset is the one its coupon count determines, it
    * is windowed from 3K/32 coupons on, and once windowed the table holds no entry inside the
    * window, only zeros before it and ones behind it. */
  lemma ReachableState(sketch: CpcSketch, rc: nat)
    requires sketch.Valid()
    ensures sketch.windowOffset == DetermineCorrectOffset(sketch.lgK, sketch.numCoupons) <= 56
    ensures sketch.slidingWindow.Length == 0 <==> sketch.GetFlavor() == Empty || sketch.GetFlavor() == Sparse
    ensures sketch.slidingWindow.Length != 0 && rc in sketch.table.Contents() ==>
      !(sketch.windowOffset <= rc % 64 < sketch.windowOffset + 8) && (rc in sketch.coupons <==> rc % 64 > sketch.windowOffset)
    ensures Coupon(sketch.lgK, rc) && rc % 64 < sketch.firstInterestingColumn ==> rc in sketch.coupons
  {
    CorrectOffsetIff(sketch.lgK, sketch.numCoupons, sketch.windowOffset);
  }

  /** A whole run: after any accepted stream the bit matrix shows exactly the coupons offered, in
    * any order and with any repetitions, and the counter is their number. */
  method Run(lgK: nat, stream: seq<nat>) returns (sketch: CpcSketch, matrix: array<Row>)
    requires 4 <= lgK <= 26
    requires forall i :: 0 <= i < |stream| ==> Accepts(lgK, ToSet(stream[..i]), stream[i])
    ensures sketch.Valid() && sketch.numCoupons == |ToSet(stream)|
    ensures matrix.Length == Pow2(lgK)
    ensures forall r, c: nat :: 0 <= r < matrix.Length && c < 64 ==> (c in matrix[r] <==> 64 * r + c in stream)
  {
    hide *;
    sketch := new CpcSketch(lgK);
    Feed(sketch, stream);
    SketchDenotes(sketch);
    matrix := sketch.BuildBitMatrix();
    RowMembers(ToSet(stream), matrix[..], lgK);
    InStream(stream);
  }

  method Feed(sketch: CpcSketch, stream: seq<nat>)
    requires sketch.Valid() && sketch.coupons == {}
    requires forall i :: 0 <= i < |stream| ==> Accepts(sketch.lgK, ToSet(stream[..i]), stream[i])
    modifies sketch.Repr
    ensures sketch.Valid() && fresh(sketch.Repr - old(sketch.Repr))
    ensures sketch.coupons == ToSet(stream) && sketch.numCoupons == |ToSet(stream)|
  {
    for i := 0 to |stream|
      invariant sketch.Valid() && fresh(sketch.Repr - old(sketch.Repr))
      invariant sketch.coupons == ToSet(stream[..i])
    {
      hide *;
      ToSetPrefix(stream, i);
      sketch.RowColUpdate(stream[i]);
    }
    assert stream[..|stream|] == stream;
  }

  lemma InStream(stream: seq<nat>)
    ensures forall x: nat :: x in ToSet(stream) <==> x in stream
  {
  }

  lemma SketchDenotes(sketch: CpcSketch)
    requires sketch.Valid()
    ensures sketch.Denotes()
  {
  }

  lemma ToSetPrefix(s: seq<nat>, i: nat)
    requires i < |s|
    ensures ToSet(s[..i + 1]) == ToSet(s[..i]) + {s[i]}
  {
    assert s[..i + 1] == s[..i] + [s[i]];
  }

  lemma RowMembers(coupons: set<nat>, matrix: seq<Row>, lgK: nat)
    requires MatrixOf(matrix, coupons, lgK)
    ensures |matrix| == Pow2(lgK)
    ensures forall r, c: nat :: 0 <= r < |matrix| && c < 64 ==> (c in matrix[r] <==> 64 * r + c in coupons)
  {
    forall r, c: nat | 0 <= r < |matrix| && c < 64 ensures c in matrix[r] <==> 64 * r + c in coupons {
      assert Col(c);
    }
  }

  lemma SparseRoom(lgK: nat, c: nat, table: PairTable)
    requires 4 <= lgK <= 26 && 32 * c < 3 * Pow2(lgK) && table.numValidBits == 6 + lgK
    ensures table.RoomFor(c + 1)
    ensures 64 * Pow2(lgK) == Pow2(6 + lgK)
  {
    Add(6, lgK);
    assert Pow2(6) == 64;
    var m := if table.numValidBits <= 27 then table.numValidBits - 1 else 26;
    Monotone(lgK, m);
    Monotone(4, lgK);
    assert Pow2(4) == 16;
  }
}
