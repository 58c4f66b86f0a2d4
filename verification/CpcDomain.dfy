/** Where the domain of a CPC sketch's updates holds by itself. */
module CpcDomain {
  import opened Powers
  import opened Sets
  import opened CpcWords
  import opened CpcCoupons
  import opened CpcPairTable
  import opened CpcFolding
  import opened CpcSketches

  /** Coupons of the first `columns` columns only: column c takes 2^(c + 1) hashes on average. */
  ghost predicate InColumns(coupons: set<nat>, columns: nat) {
    forall rc :: rc in coupons ==> rc % 64 < columns
  }

  /** At most `columns.size` coupons in each of K rows. */
  lemma {:induction false} RowsTimesColumns(coupons: set<nat>, r: nat, columns: Row)
    requires forall rc :: rc in coupons ==> rc % 64 in columns
    ensures |RowsBelow(coupons, r)| <= r * |columns|
  {
    if r == 0 {
      assert RowsBelow(coupons, 0) == {};
    } else {
      RowsTimesColumns(coupons, r - 1, columns);
      RowsBelowSize(coupons, r - 1);
      RowWithin(coupons, r - 1, columns);
      MulDistributes(r - 1, 1, |columns|);
    }
  }

  lemma RowWithin(coupons: set<nat>, r: nat, columns: Row)
    requires forall rc :: rc in coupons ==> rc % 64 in columns
    ensures |RowOf(coupons, r)| <= |columns|
  {
    forall c | c in RowOf(coupons, r) ensures c in columns {
      assert (64 * r + c) % 64 == c;
    }
    SubsetSize(RowOf(coupons, r), columns);
  }

  lemma ColumnsBound(coupons: set<nat>, lgK: nat, columns: Row)
    requires forall rc :: rc in coupons ==> rc < 64 * Pow2(lgK) && rc % 64 in columns
    ensures |coupons| <= Pow2(lgK) * |columns|
  {
    RowsTimesColumns(coupons, Pow2(lgK), columns);
    assert RowsBelow(coupons, Pow2(lgK)) == coupons;
  }

  lemma {:induction false} FirstColumns(n: nat)
    requires n <= 64
    ensures |EarlyZone(n)| == n
  {
    if n == 0 {
      assert EarlyZone(0) == {};
    } else {
      FirstColumns(n - 1);
      assert Col(n - 1);
      assert EarlyZone(n) == EarlyZone(n - 1) + {n - 1};
    }
  }

  lemma InFirstColumns(coupons: set<nat>, lgK: nat)
    requires AllCoupons(lgK, coupons) && InColumns(coupons, 32)
    ensures |coupons| <= 32 * Pow2(lgK)
  {
    FirstColumns(32);
    forall rc | rc in coupons ensures rc % 64 in EarlyZone(32) {
      assert Col(rc % 64);
    }
    ColumnsBound(coupons, lgK, EarlyZone(32));
  }

  /** Up to offset 24 the surprises lie in the 24 columns outside the window. */
  lemma EarlySurprises(coupons: set<nat>, lgK: nat, w: nat)
    requires InColumns(coupons, 32) && w <= 24
    ensures |SurpriseSet(coupons, lgK, w)| <= 24 * Pow2(lgK)
  {
    FirstColumns(32);
    var columns := EarlyZone(32) - WindowZone(w);
    WindowSize(w);
    assert WindowZone(w) <= EarlyZone(32);
    forall rc | rc in SurpriseSet(coupons, lgK, w) ensures rc % 64 in columns {
      assert Col(rc % 64);
    }
    ColumnsBound(SurpriseSet(coupons, lgK, w), lgK, columns);
  }

  lemma WindowSize(w: nat)
    requires w <= 56
    ensures |WindowZone(w)| == 8
  {
    FirstColumns(w);
    FirstColumns(w + 8);
    assert EarlyZone(w + 8) == EarlyZone(w) + WindowZone(w);
  }

  /** Later ones are zeros, and few are left of the 32 columns. */
  lemma LateSurprises(coupons: set<nat>, lgK: nat, w: nat)
    requires AllCoupons(lgK, coupons) && InColumns(coupons, 32)
    requires 25 <= w && (19 + 8 * w) * Pow2(lgK) <= 8 * |coupons|
    ensures |SurpriseSet(coupons, lgK, w)| <= 24 * Pow2(lgK)
  {
    var k, zeros := Pow2(lgK), SurpriseSet(coupons, lgK, w);
    InFirstColumns(coupons, lgK);
    if w >= 30 {
      MulLe(19 + 240, 19 + 8 * w, k);
      assert false;
    }
    MulLe(19 + 200, 19 + 8 * w, k);
    FirstColumns(32);
    forall rc | rc in zeros + coupons ensures rc < 64 * k && rc % 64 in EarlyZone(32) {
      assert Col(rc % 64);
    }
    ColumnsBound(zeros + coupons, lgK, EarlyZone(32));
    assert zeros !! coupons;
    assert |zeros + coupons| == |zeros| + |coupons|;
  }

  lemma SurprisesInColumns(coupons: set<nat>, lgK: nat, c: nat)
    requires lgK <= 21 && AllCoupons(lgK, coupons) && InColumns(coupons, 32) && c <= |coupons|
    ensures SurprisesFit(coupons, lgK, DetermineCorrectOffset(lgK, c))
  {
    hide SurpriseSet, AllCoupons, InColumns, DetermineCorrectOffset;
    var w := DetermineCorrectOffset(lgK, c);
    if w <= 24 {
      EarlySurprises(coupons, lgK, w);
    } else {
      CorrectOffsetIff(lgK, c, w);
      LateSurprises(coupons, lgK, w);
    }
    FiveMore(lgK);
  }

  lemma FiveMore(n: nat)
    ensures Pow2(n + 5) == 32 * Pow2(n)
  {
    Add(5, n);
    assert Pow2(5) == 32;
  }

  /** Up to K = 2^21 a sketch of coupons in the first 32 columns accepts every coupon there: the
    * pair table never outgrows its largest size, in any flavor. */
  lemma AcceptsInColumns(lgK: nat, coupons: set<nat>, rc: nat)
    requires 4 <= lgK <= 21 && AllCoupons(lgK, coupons + {rc}) && InColumns(coupons + {rc}, 32)
    ensures Accepts(lgK, coupons, rc)
  {
    hide SurprisesFit, DetermineCorrectOffset, InColumns;
    var more := coupons + {rc};
    assert rc in more;
    if rc !in coupons {
      assert |more| == |coupons| + 1;
      InFirstColumns(more, lgK);
      SurprisesInColumns(more, lgK, |coupons|);
      SurprisesInColumns(more, lgK, |coupons| + 1);
    }
  }

  /** So whole streams of such coupons are accepted. */
  lemma StreamInColumns(lgK: nat, stream: seq<nat>, i: nat)
    requires 4 <= lgK <= 21 && i < |stream| && AllCoupons(lgK, ToSet(stream)) && InColumns(ToSet(stream), 32)
    ensures Accepts(lgK, ToSet(stream[..i]), stream[i])
  {
    assert ToSet(stream[..i]) + {stream[i]} <= ToSet(stream);
    AcceptsInColumns(lgK, ToSet(stream[..i]), stream[i]);
  }
}
