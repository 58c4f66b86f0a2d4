/** The mathematical object behind a CPC sketch, a set of coupons (row * 64 + column), and the
  * thresholds of `cpc/mod.rs`. */
module CpcCoupons {
  import opened Powers
  import opened CpcWords
  import opened Sets
  import opened CpcPairTable

  datatype Flavor = Empty | Sparse | Hybrid | Pinned | Sliding

  function DetermineFlavor(lgK: nat, c: nat): Flavor {
    var k := Pow2(lgK);
    if c == 0 then Empty
    else if 32 * c < 3 * k then Sparse
    else if 2 * c < k then Hybrid
    else if 8 * c < 27 * k then Pinned
    else Sliding
  }

  /** Whole multiples of 8K above 19K. */
  function DetermineCorrectOffset(lgK: nat, c: nat): nat {
    var tmp := 8 * c - 19 * Pow2(lgK);
    if tmp < 0 then 0 else Shr(tmp, lgK + 3)
  }

  /** A window offset w is right for c coupons: they have passed its threshold, not the next. */
  ghost predicate OffsetFits(lgK: nat, c: nat, w: nat) {
    var k := Pow2(lgK);
    8 * c < (27 + 8 * w) * k && (w > 0 ==> (19 + 8 * w) * k <= 8 * c)
  }

  lemma CorrectOffsetIff(lgK: nat, c: nat, w: nat)
    ensures w == DetermineCorrectOffset(lgK, c) <==> OffsetFits(lgK, c, w)
  {
    hide Pow2;
    var k := Pow2(lgK);
    EightTimes(lgK);
    var tmp := 8 * c - 19 * k;
    if tmp >= 0 {
      ShrIsDivision(tmp, lgK + 3);
      OffsetQuotient(Shr(tmp, lgK + 3), w, k, c);
    } else {
      OffsetQuotient(0, w, k, c);
    }
  }

  lemma OffsetQuotient(q: nat, w: nat, k: nat, c: nat)
    requires k > 0 && (q * (8 * k) <= 8 * c - 19 * k < (q + 1) * (8 * k) || (q == 0 && 8 * c < 19 * k))
    ensures w == q <==> 8 * c < (27 + 8 * w) * k && (w > 0 ==> (19 + 8 * w) * k <= 8 * c)
  {
    assert q * (8 * k) == 8 * (q * k) && (q + 1) * (8 * k) == 8 * (q * k) + 8 * k;
    assert (27 + 8 * w) * k == 27 * k + 8 * (w * k) && (19 + 8 * w) * k == 19 * k + 8 * (w * k);
    if w < q {
      MulLe(w + 1, q, k);
      assert (w + 1) * k == w * k + k;
    } else if q < w {
      MulLe(q + 1, w, k);
      assert (q + 1) * k == q * k + k;
    }
  }

  // ------------------------------------------------------------ coupons

  ghost predicate Coupon(lgK: nat, rc: nat) {
    rc < 64 * Pow2(lgK) && rc != EMPTY
  }

  ghost predicate AllCoupons(lgK: nat, coupons: set<nat>) {
    forall rc :: rc in coupons ==> Coupon(lgK, rc)
  }

  /** Row r of the bit matrix. */
  ghost function RowOf(coupons: set<nat>, r: nat): Row {
    set c: nat | c < 64 && Col(c) && 64 * r + c in coupons
  }

  ghost predicate Surprising(coupons: set<nat>, rc: nat, offset: nat) {
    if rc % 64 < offset then rc !in coupons else offset + 8 <= rc % 64 && rc in coupons
  }

  /** What the surprise table holds for a window at `offset`. */
  ghost function SurpriseSet(coupons: set<nat>, lgK: nat, offset: nat): set<nat> {
    set rc: nat | rc < 64 * Pow2(lgK) && Surprising(coupons, rc, offset)
  }

  lemma SurpriseUpdate(coupons: set<nat>, lgK: nat, offset: nat, rc: nat)
    requires Coupon(lgK, rc) && rc !in coupons
    ensures var s, t := SurpriseSet(coupons, lgK, offset), SurpriseSet(coupons + {rc}, lgK, offset);
      if rc % 64 < offset then rc in s && t == s - {rc}
      else if rc % 64 < offset + 8 then t == s
      else rc !in s && t == s + {rc}
  {
    var s, t := SurpriseSet(coupons, lgK, offset), SurpriseSet(coupons + {rc}, lgK, offset);
    forall x: nat ensures x in t <==> if x == rc then rc % 64 >= offset + 8 else x in s {
    }
  }

  lemma RowUpdate(coupons: set<nat>, rc: nat, r: nat)
    ensures RowOf(coupons + {rc}, r) == RowOf(coupons, r) + (if r == rc / 64 then {rc % 64} else {})
  {
    var a, b := RowOf(coupons, r), RowOf(coupons + {rc}, r);
    forall c: nat ensures c in b <==> c in a || (r == rc / 64 && c == rc % 64) {
    }
  }

  /** The sliding window shows, row by row, the eight columns from the offset on. */
  ghost predicate WindowMatches(window: seq<Row>, coupons: set<nat>, lgK: nat, offset: nat) {
    && |window| == Pow2(lgK)
    && forall r :: 0 <= r < |window| ==> window[r] == WindowOf(RowOf(coupons, r), offset)
  }

  lemma RowHas(coupons: set<nat>, rc: nat)
    ensures rc % 64 in RowOf(coupons, rc / 64) <==> rc in coupons
  {
    assert rc == 64 * (rc / 64) + rc % 64 && Col(rc % 64);
  }

  lemma WindowGrows(row: Row, c: nat, offset: nat)
    ensures WindowOf(row + {}, offset) == WindowOf(row, offset)
    ensures WindowOf(row + {c}, offset) == WindowOf(row, offset) + if offset <= c < offset + 8 then {c - offset} else {}
    ensures offset <= c < offset + 8 ==> (c - offset in WindowOf(row, offset) <==> c in row)
  {
    assert row + {} == row;
    if offset <= c < offset + 8 {
      assert Col(c - offset);
    }
  }

  lemma WindowUpdate(window: seq<Row>, coupons: set<nat>, lgK: nat, offset: nat, rc: nat)
    requires WindowMatches(window, coupons, lgK, offset) && Coupon(lgK, rc)
    ensures rc / 64 < |window|
    ensures var c, r := rc % 64, rc / 64;
      if offset <= c < offset + 8
      then && (c - offset in window[r] <==> rc in coupons)
           && WindowMatches(window[r := window[r] + {c - offset}], coupons + {rc}, lgK, offset)
      else WindowMatches(window, coupons + {rc}, lgK, offset)
  {
    hide WindowOf, RowOf;
    var c, r := rc % 64, rc / 64;
    RowHas(coupons, rc);
    WindowGrows(RowOf(coupons, r), c, offset);
    forall q | 0 <= q < |window|
      ensures WindowOf(RowOf(coupons + {rc}, q), offset)
           == WindowOf(RowOf(coupons, q), offset) + if q == r && offset <= c < offset + 8 then {c - offset} else {}
    {
      RowUpdate(coupons, rc, q);
      WindowGrows(RowOf(coupons, q), c, offset);
    }
  }

  /** Every column below `bound` is full. */
  ghost predicate FullBelow(coupons: set<nat>, lgK: nat, bound: nat) {
    forall rc: nat :: rc < 64 * Pow2(lgK) && rc % 64 < bound ==> rc in coupons
  }

  /** The bit matrix of a coupon set. */
  ghost predicate MatrixOf(matrix: seq<Row>, coupons: set<nat>, lgK: nat) {
    |matrix| == Pow2(lgK) && forall r :: 0 <= r < |matrix| ==> matrix[r] == RowOf(coupons, r)
  }

  /** A row before the surprises are flipped in: ones up to the window, then the window. */
  ghost function DefaultRow(window: Row, offset: nat): Row {
    EarlyZone(offset) + Shifted(window, offset)
  }

  /** Flipping the surprises of a row into its default gives back the row. */
  lemma FlipRestores(coupons: set<nat>, lgK: nat, offset: nat, r: nat)
    requires AllCoupons(lgK, coupons) && offset <= 56 && r < Pow2(lgK)
    ensures Xor(DefaultRow(WindowOf(RowOf(coupons, r), offset), offset), RowOf(SurpriseSet(coupons, lgK, offset), r))
         == RowOf(coupons, r)
  {
    var base := DefaultRow(WindowOf(RowOf(coupons, r), offset), offset);
    var flips := RowOf(SurpriseSet(coupons, lgK, offset), r);
    forall c: nat | c < 64
      ensures c in base <==> c < offset || (c < offset + 8 && c in RowOf(coupons, r))
      ensures c in flips <==> c in Surprises(RowOf(coupons, r), offset)
    {
      assert Col(c);
      assert 64 * r + c < 64 * Pow2(lgK) && (64 * r + c) % 64 == c;
    }
  }

  /** The items of one row. */
  ghost function RowItems(r: nat, row: Row): set<nat> {
    set rc: nat | rc < 64 * r + 64 && InRow(rc, r) && rc - 64 * r in row
  }

  ghost predicate InRow(rc: nat, r: nat) {
    64 * r <= rc < 64 * r + 64
  }

  /** The surprises of the rows below r. */
  ghost function SurprisesBelow(coupons: set<nat>, lgK: nat, offset: nat, r: nat): set<nat> {
    set rc | rc in SurpriseSet(coupons, lgK, offset) && rc / 64 < r
  }

  lemma SurprisesOfRow(coupons: set<nat>, lgK: nat, offset: nat, r: nat)
    requires r < Pow2(lgK)
    ensures SurprisesBelow(coupons, lgK, offset, r + 1)
         == SurprisesBelow(coupons, lgK, offset, r) + RowItems(r, Surprises(RowOf(coupons, r), offset))
  {
    var row := Surprises(RowOf(coupons, r), offset);
    var a, b := SurprisesBelow(coupons, lgK, offset, r), SurprisesBelow(coupons, lgK, offset, r + 1);
    forall rc: nat ensures rc in b <==> rc in a || rc in RowItems(r, row) {
      var c := rc % 64;
      assert Col(c);
      if rc / 64 == r {
        assert rc == 64 * r + c;
        assert rc < 64 * Pow2(lgK);
        assert c in RowOf(coupons, r) <==> rc in coupons;
        assert c in row <==> Surprising(coupons, rc, offset);
      }
    }
  }

  /** Sparse coupons split into a window at offset 0 and the surprises behind it. */
  lemma SurprisesAtZero(coupons: set<nat>, lgK: nat)
    ensures SurpriseSet(coupons, lgK, 0) <= coupons && |SurpriseSet(coupons, lgK, 0)| <= |coupons|
  {
    SubsetSize(SurpriseSet(coupons, lgK, 0), coupons);
  }
}
