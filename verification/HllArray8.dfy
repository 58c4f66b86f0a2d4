/** Registers of one byte each: `hll/array8.rs`. */
module HllArray8 {
  import opened Powers
  import opened HllCoupons

  class Array8 {
    const lgConfigK: nat
    var bytes: array<nat>
    var numZeros: nat

    ghost predicate Valid()
      reads this, bytes
    {
      && bytes.Length == Pow2(lgConfigK) && numZeros == CountOf(bytes[..], 0)
      && forall i :: 0 <= i < bytes.Length ==> bytes[i] <= 63
    }

    constructor (lgConfigK: nat)
      ensures Valid() && fresh(bytes) && bytes[..] == ZeroRegisters(Pow2(lgConfigK)) && this.lgConfigK == lgConfigK
    {
      this.lgConfigK := lgConfigK;
      bytes := new nat[Pow2(lgConfigK)](_ => 0);
      numZeros := Pow2(lgConfigK);
      new;
      CountZero(bytes[..], 0);
    }

    method Update(coupon: nat)
      requires Valid() && Coupon(coupon)
      modifies this`numZeros, bytes
      ensures Valid() && bytes[..] == Raise(old(bytes[..]), Register(coupon, lgConfigK), Value(coupon))
    {
      hide Coupon, CountOf, Register, Value, Pow2;
      ghost var regs := bytes[..];
      var slot := Register(coupon, lgConfigK);
      var newValue := Value(coupon);
      CouponRange(coupon);
      var oldValue := bytes[slot];
      if newValue > oldValue {
        CountUpdate(regs, slot, newValue, 0);
        bytes[slot] := newValue;
        assert bytes[..] == regs[slot := newValue];
        if oldValue == 0 {
          numZeros := numZeros - 1;
        }
      }
    }

    predicate IsEmpty()
      requires Valid()
      reads this, bytes
      ensures IsEmpty() <==> forall i :: 0 <= i < bytes.Length ==> bytes[i] == 0
    {
      assert numZeros == bytes.Length <==> forall i :: 0 <= i < bytes.Length ==> bytes[i] == 0 by {
        CountZero(bytes[..], 0);
      }
      numZeros == bytes.Length
    }

    /** Recounts the zero registers after bulk changes. */
    method RebuildCachedValues()
      requires bytes.Length == Pow2(lgConfigK) && forall i :: 0 <= i < bytes.Length ==> bytes[i] <= 63
      modifies this`numZeros
      ensures Valid()
    {
      var zeros := 0;
      for i := 0 to bytes.Length
        invariant zeros == CountOf(bytes[..i], 0)
      {
        assert bytes[..i + 1][..i] == bytes[..i];
        if bytes[i] == 0 {
          zeros := zeros + 1;
        }
      }
      assert bytes[..bytes.Length] == bytes[..];
      numZeros := zeros;
    }

    /** Takes the larger of corresponding registers, a source register folded onto the one its
      * slot masks to. */
    method MergeArray(src: seq<nat>, srcLgK: nat)
      requires Valid() && lgConfigK <= srcLgK && |src| == Pow2(srcLgK)
      requires forall i :: 0 <= i < |src| ==> src[i] <= 63
      modifies this`numZeros, bytes
      ensures Valid() && Folded(old(bytes[..]), src, |src|, lgConfigK, bytes[..])
    {
      ghost var dst0 := bytes[..];
      FoldStarts(dst0, src, lgConfigK);
      for i := 0 to |src|
        invariant Folded(dst0, src, i, lgConfigK, bytes[..])
        invariant bytes.Length == Pow2(lgConfigK) && forall j :: 0 <= j < bytes.Length ==> bytes[j] <= 63
      {
        hide Folded, Pow2, LowBits;
        ghost var before := bytes[..];
        FoldStep(dst0, src, i, lgConfigK, before);
        var slot := Fold(i, lgConfigK);
        bytes[slot] := Larger(bytes[slot], src[i]);
        assert bytes[..] == Raise(before, slot, src[i]);
      }
      RebuildCachedValues();
    }
  }

}
