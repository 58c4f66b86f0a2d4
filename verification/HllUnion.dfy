/** The HLL union: `hll/union.rs`. */
module HllUnions {
  import opened Powers
  import opened Sets
  import opened OpenAddressing
  import opened HllCoupons
  import opened HllContainers
  import opened HllArray4
  import opened HllArray6
  import opened HllArray8
  import opened HllSketches

  /** Copies registers into an 8-bit array, folding them if there are more than the target's. */
  method CopyOrDownsample(vals: seq<nat>, srcLgK: nat, tgtLgK: nat, ghost theirs: set<nat>) returns (arr: Array8)
    requires Registers(theirs, srcLgK, vals) && Small(vals)
    ensures fresh(arr) && fresh(arr.bytes) && arr.Valid() && arr.lgConfigK == Min(srcLgK, tgtLgK)
    ensures Registers(theirs, arr.lgConfigK, arr.bytes[..])
  {
    hide Registers, Folded, Array8.Valid, Small;
    arr := new Array8(Min(srcLgK, tgtLgK));
    ghost var before := arr.bytes[..];
    ZerosRegister(arr.lgConfigK);
    RegistersSize(theirs, srcLgK, vals);
    SmallValues(vals);
    arr.MergeArray(vals, srcLgK);
    FoldUnites({}, theirs, srcLgK, arr.lgConfigK, before, vals, arr.bytes[..]);
    assert {} + theirs == theirs;
  }

  /** Offers every coupon of a list or set to an 8-bit array. */
  method MergeCouponsIntoArray(coupons: array<nat>, arr: Array8, ghost theirs: set<nat>)
    requires arr.Valid() && arr.bytes != coupons && AllCoupons(Items(coupons[..]))
    requires Registers(theirs, arr.lgConfigK, arr.bytes[..])
    modifies arr`numZeros, arr.bytes
    ensures arr.Valid() && Registers(theirs + Items(coupons[..]), arr.lgConfigK, arr.bytes[..])
  {
    hide Registers, Items, AllCoupons, Array8.Valid, Raise, Register;
    ghost var s := coupons[..];
    assert s[..|s|] == s;
    NoItemsYet(s);
    assert theirs + {} == theirs;
    for i := 0 to coupons.Length
      invariant arr.Valid() && coupons[..] == s
      invariant Registers(theirs + Items(s[..i]), arr.lgConfigK, arr.bytes[..])
    {
      MergeNext(s, i, theirs, arr.lgConfigK, arr.bytes[..]);
      if coupons[i] != EMPTY {
        arr.Update(coupons[i]);
      }
    }
  }

  lemma MergeNext(s: seq<nat>, i: nat, theirs: set<nat>, lg: nat, regs: seq<nat>)
    requires i < |s| && AllCoupons(Items(s)) && Registers(theirs + Items(s[..i]), lg, regs)
    ensures s[i] == EMPTY ==> Items(s[..i + 1]) == Items(s[..i])
    ensures s[i] != EMPTY ==> Coupon(s[i]) && |regs| == Pow2(lg)
    ensures s[i] != EMPTY ==> Registers(theirs + Items(s[..i + 1]), lg, Raise(regs, Register(s[i], lg), Value(s[i])))
  {
    PrefixItems(s, i);
    if s[i] != EMPTY {
      assert s[i] in Items(s);
      RaiseRegisters(theirs + Items(s[..i]), lg, regs, s[i]);
      assert theirs + Items(s[..i]) + {s[i]} == theirs + Items(s[..i + 1]);
    }
  }

  // --------------------------------------------------------- conversions

  /** Packing a register with its slot offers its value back to that slot. */
  lemma RegisterOfPack(slot: nat, value: nat, lg: nat)
    requires slot < Pow2(lg) && lg <= 21 && 1 <= value <= 63
    ensures Coupon(Pack(slot, value)) && Register(Pack(slot, value), lg) == slot && Value(Pack(slot, value)) == value
  {
    Monotone(lg, KEY_BITS);
    Unpack(slot, value);
    LowBitsBound(slot, lg);
  }

  /** The first i registers are copied. */
  ghost predicate Copied(vals: seq<nat>, i: nat, regs: seq<nat>) {
    |regs| == |vals| && i <= |vals| && forall j :: 0 <= j < |vals| ==> regs[j] == if j < i then vals[j] else 0
  }

  lemma CopyNext(vals: seq<nat>, i: nat, regs: seq<nat>, lg: nat)
    requires Copied(vals, i, regs) && i < |vals| == Pow2(lg) && lg <= 21 && vals[i] <= 63
    ensures vals[i] == 0 ==> Copied(vals, i + 1, regs)
    ensures vals[i] > 0 ==>
      && Coupon(Pack(i, vals[i])) && Register(Pack(i, vals[i]), lg) < |regs|
      && Copied(vals, i + 1, Raise(regs, Register(Pack(i, vals[i]), lg), Value(Pack(i, vals[i]))))
  {
    if vals[i] > 0 {
      RegisterOfPack(i, vals[i], lg);
    }
  }

  lemma CopyDone(vals: seq<nat>, regs: seq<nat>)
    requires Copied(vals, |vals|, regs)
    ensures regs == vals
  {
  }

  lemma CopyNone(vals: seq<nat>)
    ensures Copied(vals, 0, ZeroRegisters(|vals|))
  {
  }

  method ToArray4(vals: seq<nat>, lgConfigK: nat) returns (arr: Array4)
    requires 4 <= lgConfigK <= 21 && |vals| == Pow2(lgConfigK) && Small(vals)
    ensures fresh(arr) && fresh(arr.Repr) && arr.Valid() && arr.lgConfigK == lgConfigK && arr.regs == vals
  {
    hide Array4.Valid, Pow2, Raise, Copied, Pack, Register, Coupon;
    SmallValues(vals);
    CopyNone(vals);
    arr := new Array4(lgConfigK);
    for slot := 0 to |vals|
      invariant fresh(arr) && fresh(arr.Repr) && arr.Valid() && arr.lgConfigK == lgConfigK && Copied(vals, slot, arr.regs)
    {
      CopyNext(vals, slot, arr.regs, lgConfigK);
      if vals[slot] > 0 {
        arr.Update(Pack(slot, vals[slot]));
      }
    }
    CopyDone(vals, arr.regs);
  }

  method ToArray6(vals: seq<nat>, lgConfigK: nat) returns (arr: Array6)
    requires 4 <= lgConfigK <= 21 && |vals| == Pow2(lgConfigK) && Small(vals)
    ensures fresh(arr) && fresh(arr.bytes) && arr.Valid() && arr.lgConfigK == lgConfigK && arr.regs == vals
  {
    hide Array6.Valid, Pow2, Raise, Copied, Pack, Register, Coupon;
    SmallValues(vals);
    CopyNone(vals);
    arr := new Array6(lgConfigK);
    for slot := 0 to |vals|
      invariant fresh(arr) && fresh(arr.bytes) && arr.Valid() && arr.lgConfigK == lgConfigK && Copied(vals, slot, arr.regs)
    {
      CopyNext(vals, slot, arr.regs, lgConfigK);
      if vals[slot] > 0 {
        var clamped := Min(vals[slot], 63);
        arr.Update(Pack(slot, clamped));
      }
    }
    CopyDone(vals, arr.regs);
  }

  /** A sketch of another type with the same registers. */
  method ConvertArray8(vals: seq<nat>, lgConfigK: nat, hllType: HllType, ghost coupons: set<nat>) returns (r: HllSketch)
    requires 4 <= lgConfigK <= 21 && AllCoupons(coupons) && Promoted(lgConfigK, |coupons|)
    requires Registers(coupons, lgConfigK, vals) && Small(vals)
    ensures r.Valid() && fresh(r) && fresh(r.Repr) && r.coupons == coupons && r.lgConfigK == lgConfigK && r.TargetType() == hllType
  {
    hide Registers, AllCoupons, Promoted, Small, Array4.Valid, Array6.Valid, Array8.Valid;
    RegistersSize(coupons, lgConfigK, vals);
    if hllType == Hll4 {
      var arr := ToArray4(vals, lgConfigK);
      r := new HllSketch.FromArray4(arr, coupons);
    } else if hllType == Hll6 {
      var arr := ToArray6(vals, lgConfigK);
      r := new HllSketch.FromArray6(arr, coupons);
    } else {
      var arr := CopyOrDownsample(vals, lgConfigK, lgConfigK, coupons);
      r := new HllSketch.FromArray8(arr, coupons);
    }
  }

  // ------------------------------------------------------------ the union

  class HllUnion {
    const lgMaxK: nat
    var gadget: HllSketch
    /** Every coupon offered to any input, and the smallest register count among the maximum and
      * the inputs in array mode. */
    ghost var coupons: set<nat>
    ghost var lowest: nat
    ghost var Repr: set<object>

    ghost predicate Valid()
      reads this, Repr
    {
      && this in Repr && gadget in Repr && gadget.Repr <= Repr && this !in gadget.Repr
      && gadget.Valid() && gadget.TargetType() == Hll8 && 4 <= lgMaxK <= 21
      && gadget.coupons == coupons && gadget.lgConfigK == lowest <= lgMaxK
      && (!gadget.mode.IsArray() ==> lowest == lgMaxK)
    }

    constructor (lgMaxK: nat)
      requires 4 <= lgMaxK <= 21
      ensures Valid() && fresh(Repr) && coupons == {} && lowest == this.lgMaxK == lgMaxK
    {
      hide HllSketch.Valid;
      this.lgMaxK := lgMaxK;
      var g := new HllSketch(lgMaxK, Hll8);
      gadget := g;
      coupons := {};
      lowest := lgMaxK;
      Repr := {this, g} + g.Repr;
      new;
    }

    /** After an update the union stands for the coupons of all inputs so far, at the smallest
      * register count seen. */
    method Update(sketch: HllSketch)
      requires Valid() && sketch.Valid() && sketch !in Repr && sketch.Repr !! Repr
      modifies Repr
      ensures Valid() && fresh(Repr - old(Repr)) && coupons == old(coupons) + sketch.coupons
      ensures lowest == if sketch.mode.IsArray() then Min(old(lowest), sketch.lgConfigK) else old(lowest)
    {
      hide HllSketch.Valid;
      if sketch.IsEmpty() {
        EmptyIsNoArray(sketch);
        return;
      }
      if sketch.mode.IsArray() {
        UpdateFromArray(sketch);
      } else {
        UpdateFromListOrSet(sketch);
      }
    }

    method UpdateFromListOrSet(sketch: HllSketch)
      requires Valid() && sketch.Valid() && sketch !in Repr && sketch.Repr !! Repr && !sketch.mode.IsArray()
      modifies Repr
      ensures Valid() && fresh(Repr - old(Repr)) && coupons == old(coupons) + sketch.coupons && lowest == old(lowest)
    {
      hide HllSketch.Valid;
      if gadget.IsEmpty() && sketch.lgConfigK == gadget.lgConfigK {
        EmptyIsNoArray(gadget);
        var copy := CopyCoupons(sketch, Hll8);
        Install(copy);
      } else {
        MergeCouponsIntoGadget(sketch);
      }
    }

    /** Takes over a freshly built gadget. */
    method Install(g: HllSketch)
      requires this in Repr && 4 <= lgMaxK <= 21 && this !in g.Repr && g.Valid() && g.TargetType() == Hll8
      requires g.lgConfigK <= lgMaxK && (!g.mode.IsArray() ==> g.lgConfigK == lgMaxK)
      modifies this
      ensures Valid() && Repr == old(Repr) + {g} + g.Repr && coupons == g.coupons && lowest == g.lgConfigK
    {
      hide HllSketch.Valid;
      gadget := g;
      coupons := g.coupons;
      lowest := g.lgConfigK;
      Repr := Repr + {g} + g.Repr;
    }

    /** The array of coupons of a sketch in list or set mode. */
    method Container(sketch: HllSketch) returns (held: array<nat>)
      requires sketch.Valid() && !sketch.mode.IsArray()
      ensures Items(held[..]) == sketch.coupons && AllCoupons(sketch.coupons) && held in sketch.Repr
    {
      held := if sketch.mode.ListMode? then sketch.mode.list.coupons else sketch.mode.coupons.coupons;
    }

    method MergeCouponsIntoGadget(sketch: HllSketch)
      requires Valid() && sketch.Valid() && sketch !in Repr && sketch.Repr !! Repr && !sketch.mode.IsArray()
      modifies Repr
      ensures Valid() && fresh(Repr - old(Repr)) && coupons == old(coupons) + sketch.coupons && lowest == old(lowest)
    {
      hide HllSketch.Valid, Items, AllCoupons, Coupon;
      var held := Container(sketch);
      ghost var s, mine := held[..], coupons;
      assert s[..|s|] == s;
      NoItemsYet(s);
      for i := 0 to held.Length
        invariant Valid() && fresh(Repr - old(Repr)) && lowest == old(lowest)
        invariant held[..] == s && held !in Repr && coupons == mine + Items(s[..i])
      {
        PrefixItems(s, i);
        if held[i] != EMPTY {
          IsCoupon(s, i);
          OfferToGadget(held[i]);
        }
      }
    }

    /** Offers one coupon to the gadget, which may change its mode but never back. */
    method OfferToGadget(coupon: nat)
      requires Valid() && Coupon(coupon)
      modifies Repr
      ensures Valid() && fresh(Repr - old(Repr)) && coupons == old(coupons) + {coupon} && lowest == old(lowest)
    {
      hide HllSketch.Valid, Coupon;
      ModeFacts(gadget);
      ghost var wasArray := gadget.mode.IsArray();
      gadget.UpdateWithCoupon(coupon);
      ModeFacts(gadget);
      StaysPromoted(gadget.lgConfigK, coupons, coupon);
      coupons := gadget.coupons;
      Repr := Repr + gadget.Repr;
    }

    method UpdateFromArray(sketch: HllSketch)
      requires Valid() && sketch.Valid() && sketch !in Repr && sketch.Repr !! Repr && sketch.mode.IsArray()
      modifies Repr
      ensures Valid() && fresh(Repr - old(Repr)) && coupons == old(coupons) + sketch.coupons
      ensures lowest == Min(old(lowest), sketch.lgConfigK)
    {
      hide HllSketch.Valid, Registers, Small, AllCoupons, Promoted;
      var vals := sketch.Values();
      SketchFacts(sketch);
      SketchFacts(gadget);
      if gadget.IsEmpty() {
        EmptyIsNoArray(gadget);
        PromotedMonotone(sketch.lgConfigK, Min(sketch.lgConfigK, lgMaxK), |sketch.coupons|, |sketch.coupons|);
        var arr := CopyOrDownsample(vals, sketch.lgConfigK, lgMaxK, sketch.coupons);
        var g := new HllSketch.FromArray8(arr, sketch.coupons);
        Install(g);
      } else if gadget.mode.Mode8? {
        MergeArrayIntoArray(vals, sketch.lgConfigK, sketch.coupons);
      } else {
        PromoteGadgetAndMerge(vals, sketch.lgConfigK, sketch.coupons);
      }
    }

    method MergeArrayIntoArray(vals: seq<nat>, srcLgK: nat, ghost theirs: set<nat>)
      requires Valid() && gadget.mode.Mode8? && 4 <= srcLgK <= 21
      requires Registers(theirs, srcLgK, vals) && Small(vals) && AllCoupons(theirs) && Promoted(srcLgK, |theirs|)
      modifies Repr
      ensures Valid() && fresh(Repr - old(Repr)) && coupons == old(coupons) + theirs && lowest == Min(old(lowest), srcLgK)
    {
      hide HllSketch.Valid, Registers, Small, AllCoupons, Promoted;
      RegistersSize(theirs, srcLgK, vals);
      if srcLgK < gadget.lgConfigK {
        DownsizeGadget(srcLgK);
      }
      gadget.MergeRegisters(vals, srcLgK, theirs);
      coupons := gadget.coupons;
      Repr := Repr + gadget.Repr;
    }

    /** Folds the gadget's registers into a smaller array. */
    method DownsizeGadget(lgK: nat)
      requires Valid() && gadget.mode.Mode8? && 4 <= lgK < gadget.lgConfigK
      modifies Repr
      ensures Valid() && fresh(Repr - old(Repr)) && coupons == old(coupons) && lowest == lgK && gadget.mode.Mode8?
    {
      hide HllSketch.Valid, Registers, Small, AllCoupons, Promoted;
      var vals := gadget.Values();
      SketchFacts(gadget);
      PromotedMonotone(gadget.lgConfigK, lgK, |coupons|, |coupons|);
      var arr := CopyOrDownsample(vals, gadget.lgConfigK, lgK, coupons);
      var g := new HllSketch.FromArray8(arr, coupons);
      Install(g);
    }

    method PromoteGadgetAndMerge(vals: seq<nat>, srcLgK: nat, ghost theirs: set<nat>)
      requires Valid() && !gadget.mode.IsArray() && 4 <= srcLgK <= 21
      requires Registers(theirs, srcLgK, vals) && Small(vals) && AllCoupons(theirs) && Promoted(srcLgK, |theirs|)
      modifies Repr
      ensures Valid() && fresh(Repr - old(Repr)) && coupons == old(coupons) + theirs && lowest == Min(old(lowest), srcLgK)
    {
      hide HllSketch.Valid, Registers, Small, AllCoupons, Promoted, Items;
      var arr := CopyOrDownsample(vals, srcLgK, lgMaxK, theirs);
      var held := Container(gadget);
      MergeCouponsIntoArray(held, arr, theirs);
      BothCoupons(theirs, coupons);
      PromotedMore(srcLgK, theirs, coupons);
      PromotedMonotone(srcLgK, arr.lgConfigK, |theirs + coupons|, |theirs + coupons|);
      assert theirs + coupons == coupons + theirs;
      var g := new HllSketch.FromArray8(arr, theirs + coupons);
      Install(g);
    }

    /** The result in any type stands for the same coupons. */
    method ToSketch(hllType: HllType) returns (r: HllSketch)
      requires Valid()
      ensures r.Valid() && fresh(r) && fresh(r.Repr) && r.coupons == coupons && r.lgConfigK == lowest && r.TargetType() == hllType
    {
      hide HllSketch.Valid, Registers, Small, AllCoupons, Promoted;
      if !gadget.mode.IsArray() {
        r := CopyCoupons(gadget, hllType);
      } else {
        var vals := gadget.Values();
        SketchFacts(gadget);
        r := ConvertArray8(vals, gadget.lgConfigK, hllType, coupons);
      }
    }
  }

  lemma IsCoupon(s: seq<nat>, i: nat)
    requires i < |s| && s[i] != EMPTY && AllCoupons(Items(s))
    ensures Coupon(s[i])
  {
    assert s[i] in Items(s);
  }

  lemma EmptyIsNoArray(sketch: HllSketch)
    requires sketch.Valid() && sketch.IsEmpty()
    ensures !sketch.mode.IsArray() && sketch.coupons == {}
  {
    sketch.EmptyByMode();
  }

  lemma ModeFacts(sketch: HllSketch)
    requires sketch.Valid()
    ensures sketch.mode.IsArray() <==> Promoted(sketch.lgConfigK, |sketch.coupons|)
    ensures sketch in sketch.Repr
  {
  }

  lemma SketchFacts(sketch: HllSketch)
    requires sketch.Valid()
    ensures 4 <= sketch.lgConfigK <= 21 && AllCoupons(sketch.coupons)
    ensures sketch.mode.IsArray() <==> Promoted(sketch.lgConfigK, |sketch.coupons|)
    ensures sketch.mode.IsArray() && sketch.TargetType() == Hll8 ==> sketch.mode.Mode8?
  {
  }

  lemma StaysPromoted(lgK: nat, coupons: set<nat>, c: nat)
    ensures Promoted(lgK, |coupons|) ==> Promoted(lgK, |coupons + {c}|)
  {
    SubsetSize(coupons, coupons + {c});
  }
}
