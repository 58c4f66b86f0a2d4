/** The coupon list and the coupon set: `hll/list.rs`, `hll/hash_set.rs` and `hll/container.rs`. */
module HllContainers {
  import opened Powers
  import opened OpenAddressing
  import opened HllCoupons

  const LG_INIT_LIST_SIZE: nat := 3
  const LG_INIT_SET_SIZE: nat := 5

  /** The first n slots hold different coupons, the rest are empty. */
  ghost predicate Filled(s: seq<nat>, n: nat) {
    && n <= |s| && Distinct(ByCoupon, s)
    && (forall i :: 0 <= i < n ==> s[i] != EMPTY) && (forall i :: n <= i < |s| ==> s[i] == EMPTY)
  }

  lemma {:induction false} FilledSize(s: seq<nat>, n: nat)
    requires Filled(s, n)
    ensures |Items(s)| == n && Items(s) == Items(s[..n])
    decreases |s|
  {
    if n < |s| {
      var front := s[..|s| - 1];
      assert s == front + [EMPTY];
      assert Items(s) == Items(front);
      FilledSize(front, n);
      assert front[..n] == s[..n];
    } else {
      ItemsBound(ByCoupon, s);
      assert s[..n] == s;
    }
  }

  lemma FilledPut(s: seq<nat>, n: nat, c: nat)
    requires Filled(s, n) && n < |s| && c != EMPTY && forall i :: 0 <= i < n ==> s[i] != c
    ensures Filled(s[n := c], n + 1) && Items(s[n := c]) == Items(s) + {c}
  {
    ItemsPut(s, n, c);
  }

  class CouponList {
    const lgSize: nat
    var coupons: array<nat>
    var len: nat

    ghost predicate Valid()
      reads this, coupons
    {
      coupons.Length == Pow2(lgSize) && Filled(coupons[..], len)
    }

    ghost function Contents(): set<nat>
      reads this`coupons, coupons
    {
      Items(coupons[..])
    }

    lemma Facts()
      requires Valid()
      ensures coupons.Length == Pow2(lgSize) && len == |Contents()| && len <= coupons.Length && Distinct(ByCoupon, coupons[..])
      ensures Contents() == Items(coupons[..])
    {
      FilledSize(coupons[..], len);
    }

    constructor ()
      ensures Valid() && fresh(coupons) && Contents() == {} && len == 0 && lgSize == LG_INIT_LIST_SIZE
    {
      lgSize := LG_INIT_LIST_SIZE;
      coupons := new nat[Pow2(LG_INIT_LIST_SIZE)](_ => EMPTY);
      len := 0;
      new;
      NoItems(ByCoupon, coupons[..], LG_INIT_LIST_SIZE);
    }

    constructor Clone(other: CouponList)
      requires other.Valid()
      ensures Valid() && fresh(coupons) && Contents() == other.Contents() && len == other.len && lgSize == other.lgSize
    {
      lgSize := other.lgSize;
      coupons := new nat[other.coupons.Length](i requires 0 <= i < other.coupons.Length reads other, other.coupons => other.coupons[i]);
      len := other.len;
      new;
      assert coupons[..] == other.coupons[..];
    }

    /** Appends the coupon unless the scan meets it. */
    method Update(coupon: nat)
      requires Valid() && coupon != EMPTY && len < coupons.Length
      modifies this`len, coupons
      ensures Valid() && Contents() == old(Contents()) + {coupon} && len <= old(len) + 1
    {
      ghost var s := coupons[..];
      var i := 0;
      while i < coupons.Length
        invariant 0 <= i <= len && coupons[..] == s
        invariant forall k :: 0 <= k < i ==> s[k] != coupon
      {
        if coupons[i] == EMPTY {
          FilledPut(s, len, coupon);
          coupons[i] := coupon;
          len := len + 1;
          assert coupons[..] == s[i := coupon];
          return;
        } else if coupons[i] == coupon {
          assert coupon in Items(s);
          assert Items(s) + {coupon} == Items(s);
          return;
        }
        i := i + 1;
      }
    }
  }

  class CouponSet {
    const lgSize: nat
    var coupons: array<nat>
    var len: nat

    ghost predicate Valid()
      reads this, coupons
    {
      Findable(ByCoupon, coupons[..], lgSize) && len == |Items(coupons[..])|
    }

    ghost function Contents(): set<nat>
      reads this`coupons, coupons
    {
      Items(coupons[..])
    }

    lemma Facts()
      requires Valid()
      ensures coupons.Length == Pow2(lgSize) && len == |Contents()| && Distinct(ByCoupon, coupons[..])
      ensures Contents() == Items(coupons[..])
    {
    }

    constructor (lgSize: nat)
      ensures Valid() && fresh(coupons) && Contents() == {} && len == 0 && this.lgSize == lgSize
    {
      this.lgSize := lgSize;
      coupons := new nat[Pow2(lgSize)](_ => EMPTY);
      len := 0;
      new;
      NoItems(ByCoupon, coupons[..], lgSize);
    }

    constructor Clone(other: CouponSet)
      requires other.Valid()
      ensures Valid() && fresh(coupons) && Contents() == other.Contents() && len == other.len && lgSize == other.lgSize
    {
      lgSize := other.lgSize;
      coupons := new nat[other.coupons.Length](i requires 0 <= i < other.coupons.Length reads other, other.coupons => other.coupons[i]);
      len := other.len;
      new;
      assert coupons[..] == other.coupons[..];
    }

    /** Probes with an odd stride; a set that is not full cannot run out of slots. */
    method Update(coupon: nat)
      requires Valid() && coupon != EMPTY && len < coupons.Length
      modifies this`len, coupons
      ensures Valid() && Contents() == old(Contents()) + {coupon} && len <= old(len) + 1
    {
      hide Findable, Stopped, Missed, Path, Items, HasKey;
      Facts();
      ghost var s := coupons[..];
      ghost var e := FreeSlot(ByCoupon, s);
      var found, probe, j := Find(ByCoupon, coupons, coupon, lgSize);
      FreeSlotStops(ByCoupon, s, coupon, lgSize, e);
      if coupons[probe] == EMPTY {
        PutKeeps(ByCoupon, s, coupon, lgSize, j);
        coupons[probe] := coupon;
        assert coupons[..] == s[probe := coupon];
        len := len + 1;
      } else {
        DuplicateFound(s, coupon, lgSize, j);
      }
    }
  }

  lemma DuplicateFound(s: seq<nat>, coupon: nat, lg: nat, j: nat)
    requires |s| == Pow2(lg) && Stopped(ByCoupon, s, coupon, lg, j) && s[Path(ByCoupon, coupon, lg, j)] != EMPTY
    ensures Items(s) + {coupon} == Items(s)
  {
    assert coupon in s;
  }
}
