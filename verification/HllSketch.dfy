/** The HLL sketch and its promotions from list to set to array: `hll/sketch.rs`. */
module HllSketches {
  import opened Powers
  import opened Sets
  import opened Options
  import opened OpenAddressing
  import opened HllCoupons
  import opened HllContainers
  import opened HllArray4
  import opened HllArray6
  import opened HllArray8

  datatype HllType = Hll4 | Hll6 | Hll8

  datatype Mode =
    | ListMode(list: CouponList, hllType: HllType)
    | SetMode(coupons: CouponSet, hllType: HllType)
    | Mode4(regs4: Array4)
    | Mode6(regs6: Array6)
    | Mode8(regs8: Array8)
  {
    predicate IsArray() {
      Mode4? || Mode6? || Mode8?
    }
  }

  ghost predicate AllCoupons(items: set<nat>) {
    forall c :: c in items ==> Coupon(c)
  }

  /** How many different coupons make a sketch use an array. */
  ghost predicate Promoted(lgK: nat, n: nat) {
    if lgK < 8 then n >= 8 else 4 * n > 3 * Pow2(lgK - 3)
  }

  /** A set takes over from a full list, and grows only past three quarters full. */
  ghost predicate Grown(n: nat, lgSize: nat, size: nat) {
    n >= 8 && (lgSize > 5 ==> 8 * n > 3 * size)
  }

  lemma PromotedMonotone(src: nat, lg: nat, n: nat, more: nat)
    requires Promoted(src, n) && lg <= src && n <= more
    ensures Promoted(lg, more)
  {
    if src >= 8 {
      Monotone(5, src - 3);
      assert Pow2(5) == 32;
      if lg >= 8 {
        Monotone(lg - 3, src - 3);
      }
    }
  }

  lemma CouponNotEmpty(c: nat)
    requires Coupon(c)
    ensures c != EMPTY
  {
    assert forall n: nat :: Shr(0, n) == 0 by {
      forall n: nat ensures Shr(0, n) == 0 {
        ShrZero(n);
      }
    }
  }

  lemma {:induction false} ShrZero(n: nat)
    ensures Shr(0, n) == 0
  {
    if n > 0 {
      ShrZero(n - 1);
    }
  }

  // ------------------------------------------------- building an array

  /** The registers of the items before position i, and the next of them. */
  lemma NextRegisters(s: seq<nat>, i: nat, lgK: nat, regs: seq<nat>)
    requires i < |s| && Registers(Items(s[..i]), lgK, regs) && AllCoupons(Items(s))
    ensures s[i] == EMPTY ==> Items(s[..i + 1]) == Items(s[..i])
    ensures s[i] != EMPTY ==> Coupon(s[i]) && |regs| == Pow2(lgK)
    ensures s[i] != EMPTY ==> Registers(Items(s[..i + 1]), lgK, Raise(regs, Register(s[i], lgK), Value(s[i])))
  {
    PrefixItems(s, i);
    if s[i] != EMPTY {
      assert s[i] in Items(s);
      RaiseRegisters(Items(s[..i]), lgK, regs, s[i]);
    }
  }

  lemma NoRegisters(s: seq<nat>, lgK: nat)
    ensures Registers(Items(s[..0]), lgK, ZeroRegisters(Pow2(lgK))) && s[..|s|] == s
  {
    ZerosRegister(lgK);
    assert Items(s[..0]) == {};
  }

  method BuildArray4(coupons: array<nat>, lgK: nat) returns (arr: Array4)
    requires 4 <= lgK <= 21 && AllCoupons(Items(coupons[..]))
    ensures fresh(arr.Repr) && fresh(arr) && arr.Valid() && arr.lgConfigK == lgK && Registers(Items(coupons[..]), lgK, arr.regs)
  {
    hide Registers, Items, AllCoupons, Array4.Valid, Register, Pow2;
    arr := new Array4(lgK);
    ghost var s := coupons[..];
    NoRegisters(s, lgK);
    for i := 0 to coupons.Length
      invariant fresh(arr.Repr) && fresh(arr) && arr.Valid() && arr.lgConfigK == lgK && coupons[..] == s
      invariant Registers(Items(s[..i]), lgK, arr.regs)
    {
      NextRegisters(s, i, lgK, arr.regs);
      if coupons[i] != EMPTY {
        arr.Update(coupons[i]);
      }
    }
  }

  method BuildArray6(coupons: array<nat>, lgK: nat) returns (arr: Array6)
    requires 4 <= lgK <= 21 && AllCoupons(Items(coupons[..]))
    ensures fresh(arr) && fresh(arr.bytes) && arr.Valid() && arr.lgConfigK == lgK && Registers(Items(coupons[..]), lgK, arr.regs)
  {
    hide Registers, Items, AllCoupons, Array6.Valid, Register, Pow2;
    arr := new Array6(lgK);
    ghost var s := coupons[..];
    NoRegisters(s, lgK);
    for i := 0 to coupons.Length
      invariant fresh(arr) && fresh(arr.bytes) && arr.Valid() && arr.lgConfigK == lgK && coupons[..] == s
      invariant Registers(Items(s[..i]), lgK, arr.regs)
    {
      NextRegisters(s, i, lgK, arr.regs);
      if coupons[i] != EMPTY {
        arr.Update(coupons[i]);
      }
    }
  }

  method BuildArray8(coupons: array<nat>, lgK: nat) returns (arr: Array8)
    requires 4 <= lgK <= 21 && AllCoupons(Items(coupons[..]))
    ensures fresh(arr) && fresh(arr.bytes) && arr.Valid() && arr.lgConfigK == lgK && Registers(Items(coupons[..]), lgK, arr.bytes[..])
  {
    hide Registers, Items, AllCoupons, Array8.Valid, Register, Pow2;
    arr := new Array8(lgK);
    ghost var s := coupons[..];
    NoRegisters(s, lgK);
    for i := 0 to coupons.Length
      invariant fresh(arr) && fresh(arr.bytes) && arr.Valid() && arr.lgConfigK == lgK && coupons[..] == s
      invariant Registers(Items(s[..i]), lgK, arr.bytes[..])
    {
      NextRegisters(s, i, lgK, arr.bytes[..]);
      if coupons[i] != EMPTY {
        arr.Update(coupons[i]);
      }
    }
  }

  /** A larger set with the same coupons. */
  method Refill(coupons: array<nat>, lgSize: nat) returns (r: CouponSet)
    requires Distinct(ByCoupon, coupons[..]) && |Items(coupons[..])| < Pow2(lgSize)
    ensures fresh(r) && fresh(r.coupons) && r.Valid() && r.lgSize == lgSize && r.Contents() == Items(coupons[..])
  {
    hide Items, Distinct, CouponSet.Valid, CouponSet.Contents, Pow2;
    r := new CouponSet(lgSize);
    ghost var s := coupons[..];
    assert s[..|s|] == s;
    NoItemsYet(s);
    for i := 0 to coupons.Length
      invariant fresh(r) && fresh(r.coupons) && r.Valid() && coupons[..] == s && r.Contents() == Items(s[..i])
    {
      PrefixItems(s, i);
      r.Facts();
      if coupons[i] != EMPTY {
        PrefixSmaller(ByCoupon, s, i);
        r.Update(coupons[i]);
      }
    }
  }

  lemma OneLarger(lg: nat)
    ensures Pow2(lg + 1) == 2 * Pow2(lg)
  {
  }

  lemma NoItemsYet(s: seq<nat>)
    ensures Items(s[..0]) == {}
  {
  }

  // ------------------------------------------------------------ the sketch

  class HllSketch {
    const lgConfigK: nat
    var mode: Mode
    /** The different coupons offered. */
    ghost var coupons: set<nat>
    ghost var Repr: set<object>

    ghost predicate Valid()
      reads this, Repr
    {
      && this in Repr && 4 <= lgConfigK <= 21 && AllCoupons(coupons)
      && Owned() && (if mode.IsArray() then Promoted(lgConfigK, |coupons|) else !Promoted(lgConfigK, |coupons|))
      && Denotes(coupons)
    }

    /** The sketch owns what its mode refers to. */
    ghost predicate Owned()
      reads this, Repr
    {
      match mode
      case ListMode(list, _) => list in Repr && list.coupons in Repr
      case SetMode(held, _) => held in Repr && held.coupons in Repr
      case Mode4(arr) => arr in Repr && arr.Repr <= Repr && this !in arr.Repr
      case Mode6(arr) => arr in Repr && arr.bytes in Repr
      case Mode8(arr) => arr in Repr && arr.bytes in Repr
    }

    /** The mode represents a set of coupons: it holds them, or registers with their maxima. */
    ghost predicate Denotes(offered: set<nat>)
      requires Owned()
      reads this, Repr
    {
      match mode
      case ListMode(list, _) => list.Valid() && list.Contents() == offered && list.len < list.coupons.Length == 8
      case SetMode(held, _) =>
        && held.Valid() && held.Contents() == offered && 4 * held.len <= 3 * held.coupons.Length
        && 5 <= held.lgSize && held.lgSize + 3 <= lgConfigK && Grown(held.len, held.lgSize, held.coupons.Length)
      case Mode4(arr) => arr.Valid() && arr.lgConfigK == lgConfigK && Registers(offered, lgConfigK, arr.regs)
      case Mode6(arr) => arr.Valid() && arr.lgConfigK == lgConfigK && Registers(offered, lgConfigK, arr.regs)
      case Mode8(arr) => arr.Valid() && arr.lgConfigK == lgConfigK && Registers(offered, lgConfigK, arr.bytes[..])
    }

    constructor (lgConfigK: nat, hllType: HllType)
      requires 4 <= lgConfigK <= 21
      ensures Valid() && fresh(Repr) && coupons == {} && this.lgConfigK == lgConfigK && mode.ListMode? && mode.hllType == hllType
    {
      this.lgConfigK := lgConfigK;
      var list := new CouponList();
      mode := ListMode(list, hllType);
      coupons := {};
      Repr := {this, list, list.coupons};
      new;
      assert Pow2(3) == 8;
    }

    function TargetType(): HllType
      reads this
    {
      match mode
      case ListMode(_, hllType) => hllType
      case SetMode(_, hllType) => hllType
      case Mode4(_) => Hll4
      case Mode6(_) => Hll6
      case Mode8(_) => Hll8
    }

    /** Offers a coupon; a full list becomes a set or an array, a set three quarters full grows or
      * becomes an array. */
    method UpdateWithCoupon(coupon: nat)
      requires Valid() && Coupon(coupon)
      modifies Repr
      ensures Valid() && fresh(Repr - old(Repr)) && coupons == old(coupons) + {coupon}
      ensures TargetType() == old(TargetType())
    {
      match mode {
        case ListMode(list, hllType) =>
          UpdateList(list, hllType, coupon);
        case SetMode(held, hllType) =>
          UpdateSet(held, hllType, coupon);
        case Mode4(arr) =>
          Update4(arr, coupon);
        case Mode6(arr) =>
          Update6(arr, coupon);
        case Mode8(arr) =>
          Update8(arr, coupon);
      }
    }

    method UpdateList(list: CouponList, hllType: HllType, coupon: nat)
      requires Valid() && Coupon(coupon) && mode == ListMode(list, hllType)
      modifies this, list, list.coupons
      ensures Valid() && fresh(Repr - old(Repr)) && coupons == old(coupons) + {coupon} && TargetType() == hllType
    {
      hide AllCoupons, Coupon, Promoted, CouponList.Valid, CouponList.Contents, Distinct;
      CouponNotEmpty(coupon);
      MoreCoupons(coupons, coupon);
      list.Facts();
      list.Update(coupon);
      list.Facts();
      coupons := coupons + {coupon};
      if list.len == list.coupons.Length {
        if lgConfigK < 8 {
          EightPromote(lgConfigK);
          PromoteToArray(list.coupons, hllType);
        } else {
          PromoteToSet(list, hllType);
        }
      } else {
        FewStay(lgConfigK, list.len);
      }
    }

    method PromoteToSet(list: CouponList, hllType: HllType)
      requires this in Repr && 8 <= lgConfigK <= 21 && AllCoupons(coupons) && list.Valid() && list.Contents() == coupons && |coupons| == 8
      modifies this`mode, this`Repr
      ensures Valid() && fresh(Repr - old(Repr)) && TargetType() == hllType && coupons == old(coupons)
    {
      hide AllCoupons, Promoted, CouponList.Valid, CouponSet.Valid, CouponSet.Contents, Distinct;
      list.Facts();
      EightStay(lgConfigK);
      var held := Refill(list.coupons, LG_INIT_SET_SIZE);
      held.Facts();
      mode := SetMode(held, hllType);
      Repr := Repr + {held, held.coupons};
    }

    method UpdateSet(held: CouponSet, hllType: HllType, coupon: nat)
      requires Valid() && Coupon(coupon) && mode == SetMode(held, hllType)
      modifies this, held, held.coupons
      ensures Valid() && fresh(Repr - old(Repr)) && coupons == old(coupons) + {coupon} && TargetType() == hllType
    {
      hide AllCoupons, Coupon, Promoted, CouponSet.Valid, CouponSet.Contents, Distinct, Pow2;
      CouponNotEmpty(coupon);
      MoreCoupons(coupons, coupon);
      held.Facts();
      LargeEnough(held.lgSize);
      held.Update(coupon);
      held.Facts();
      coupons := coupons + {coupon};
      SettleSet(held, hllType);
    }

    /** A set more than three quarters full is promoted or grows. */
    method SettleSet(held: CouponSet, hllType: HllType)
      requires this in Repr && held in Repr && held.coupons in Repr && 4 <= lgConfigK <= 21 && AllCoupons(coupons)
      requires mode == SetMode(held, hllType) && held.Valid() && held.Contents() == coupons
      requires 5 <= held.lgSize && held.lgSize + 3 <= lgConfigK && held.len <= held.coupons.Length
      requires Grown(held.len, held.lgSize, held.coupons.Length)
      modifies this`mode, this`Repr
      ensures Valid() && fresh(Repr - old(Repr)) && TargetType() == hllType && coupons == old(coupons)
    {
      hide AllCoupons, Promoted, CouponSet.Valid, CouponSet.Contents, Distinct, Pow2;
      held.Facts();
      if 4 * held.len > 3 * held.coupons.Length {
        if held.lgSize == lgConfigK - 3 {
          FullPromote(lgConfigK, held.len);
          PromoteToArray(held.coupons, hllType);
        } else {
          GrowSet(held, hllType);
        }
      } else {
        SmallStay(lgConfigK, held.lgSize, held.len);
      }
    }

    method GrowSet(held: CouponSet, hllType: HllType)
      requires this in Repr && 8 <= lgConfigK <= 21 && AllCoupons(coupons) && held.Valid() && held.Contents() == coupons
      requires 5 <= held.lgSize && held.lgSize + 4 <= lgConfigK && held.len <= held.coupons.Length
      requires held.len >= 8 && 4 * held.len > 3 * held.coupons.Length
      modifies this`mode, this`Repr
      ensures Valid() && fresh(Repr - old(Repr)) && TargetType() == hllType && coupons == old(coupons)
    {
      hide AllCoupons, Promoted, CouponSet.Valid, CouponSet.Contents, Distinct, Pow2;
      held.Facts();
      LargeEnough(held.lgSize);
      var larger := Refill(held.coupons, held.lgSize + 1);
      larger.Facts();
      OneLarger(held.lgSize);
      SmallStay(lgConfigK, larger.lgSize, larger.len);
      mode := SetMode(larger, hllType);
      Repr := Repr + {larger, larger.coupons};
    }

    method PromoteToArray(held: array<nat>, hllType: HllType)
      requires this in Repr && 4 <= lgConfigK <= 21 && AllCoupons(coupons) && Items(held[..]) == coupons && Promoted(lgConfigK, |coupons|)
      modifies this`mode, this`Repr
      ensures Valid() && fresh(Repr - old(Repr)) && TargetType() == hllType && coupons == old(coupons) && mode.IsArray()
    {
      hide AllCoupons, Promoted, Items, Registers, Array4.Valid, Array6.Valid, Array8.Valid;
      match hllType {
        case Hll4 =>
          var arr := BuildArray4(held, lgConfigK);
          mode := Mode4(arr);
          Repr := Repr + {arr} + arr.Repr;
        case Hll6 =>
          var arr := BuildArray6(held, lgConfigK);
          mode := Mode6(arr);
          Repr := Repr + {arr, arr.bytes};
        case Hll8 =>
          var arr := BuildArray8(held, lgConfigK);
          mode := Mode8(arr);
          Repr := Repr + {arr, arr.bytes};
      }
    }

    method Update4(arr: Array4, coupon: nat)
      requires Valid() && Coupon(coupon) && mode == Mode4(arr)
      modifies Repr
      ensures Valid() && fresh(Repr - old(Repr)) && coupons == old(coupons) + {coupon} && TargetType() == Hll4
    {
      hide AllCoupons, Coupon, Promoted, Registers, Array4.Valid, Raise, Register;
      MoreCoupons(coupons, coupon);
      MorePromoted(lgConfigK, coupons, coupon);
      RaiseRegisters(coupons, lgConfigK, arr.regs, coupon);
      arr.Update(coupon);
      coupons := coupons + {coupon};
      Repr := Repr + arr.Repr;
    }

    method Update6(arr: Array6, coupon: nat)
      requires Valid() && Coupon(coupon) && mode == Mode6(arr)
      modifies Repr
      ensures Valid() && fresh(Repr - old(Repr)) && coupons == old(coupons) + {coupon} && TargetType() == Hll6
    {
      hide AllCoupons, Coupon, Promoted, Registers, Array6.Valid, Raise, Register;
      MoreCoupons(coupons, coupon);
      MorePromoted(lgConfigK, coupons, coupon);
      RaiseRegisters(coupons, lgConfigK, arr.regs, coupon);
      arr.Update(coupon);
      coupons := coupons + {coupon};
    }

    method Update8(arr: Array8, coupon: nat)
      requires Valid() && Coupon(coupon) && mode == Mode8(arr)
      modifies Repr
      ensures Valid() && fresh(Repr - old(Repr)) && coupons == old(coupons) + {coupon} && TargetType() == Hll8
    {
      hide AllCoupons, Coupon, Promoted, Registers, Array8.Valid, Raise, Register;
      MoreCoupons(coupons, coupon);
      MorePromoted(lgConfigK, coupons, coupon);
      RaiseRegisters(coupons, lgConfigK, arr.bytes[..], coupon);
      arr.Update(coupon);
      coupons := coupons + {coupon};
    }

    /** Nothing was offered. */
    predicate IsEmpty()
      requires Valid()
      reads this, Repr
      ensures IsEmpty() <==> coupons == {}
    {
      assert EmptyMeans() by {
        EmptyByMode();
      }
      match mode
      case ListMode(list, _) => list.len == 0
      case SetMode(held, _) => held.len == 0
      case Mode4(arr) => arr.IsEmpty()
      case Mode6(arr) => arr.IsEmpty()
      case Mode8(arr) => arr.IsEmpty()
    }

    ghost predicate EmptyMeans()
      requires Valid()
      reads this, Repr
    {
      match mode
      case ListMode(list, _) => list.len == 0 <==> coupons == {}
      case SetMode(held, _) => held.len == 0 <==> coupons == {}
      case Mode4(arr) => coupons != {} && !AllZero(arr.regs)
      case Mode6(arr) => coupons != {} && !AllZero(arr.regs)
      case Mode8(arr) => coupons != {} && !AllZero(arr.bytes[..])
    }

    lemma EmptyByMode()
      requires Valid()
      ensures EmptyMeans()
    {
      match mode {
        case ListMode(list, _) =>
          list.Facts();
        case SetMode(held, _) =>
          held.Facts();
        case Mode4(arr) =>
          SomeRegister(coupons, lgConfigK, arr.regs);
        case Mode6(arr) =>
          SomeRegister(coupons, lgConfigK, arr.regs);
        case Mode8(arr) =>
          SomeRegister(coupons, lgConfigK, arr.bytes[..]);
      }
    }

    /** The register values of a sketch in array mode. */
    method Values() returns (vals: seq<nat>)
      requires Valid() && mode.IsArray()
      ensures Registers(coupons, lgConfigK, vals) && Small(vals) && |vals| == Pow2(lgConfigK)
    {
      hide Registers, AllCoupons, Promoted, Array4.Valid, Array6.Valid, Array8.Valid;
      match mode {
        case Mode4(arr) =>
          vals := Values4(arr);
        case Mode6(arr) =>
          vals := Values6(arr);
        case Mode8(arr) =>
          vals := Values8(arr);
      }
      RegistersSize(coupons, lgConfigK, vals);
    }

    /** The registers of a sketch in array mode. */
    ghost function RegisterValues(): seq<nat>
      requires Valid() && mode.IsArray()
      reads this, Repr
    {
      match mode
      case Mode4(arr) => arr.regs
      case Mode6(arr) => arr.regs
      case Mode8(arr) => arr.bytes[..]
    }

    /** Takes over the registers of a source with at least as many, keeping the larger values. */
    method MergeRegisters(vals: seq<nat>, srcLgK: nat, ghost theirs: set<nat>)
      requires Valid() && mode.Mode8? && lgConfigK <= srcLgK && Small(vals) && AllCoupons(theirs)
      requires Registers(theirs, srcLgK, vals) && |vals| == Pow2(srcLgK)
      modifies Repr
      ensures Valid() && fresh(Repr - old(Repr)) && coupons == old(coupons) + theirs && mode == old(mode)
    {
      hide Registers, Folded, AllCoupons, Promoted, Array8.Valid, Small;
      ghost var before := mode.regs8.bytes[..];
      SmallValues(vals);
      mode.regs8.MergeArray(vals, srcLgK);
      FoldUnites(coupons, theirs, srcLgK, lgConfigK, before, vals, mode.regs8.bytes[..]);
      BothCoupons(coupons, theirs);
      PromotedMore(lgConfigK, coupons, theirs);
      coupons := coupons + theirs;
    }

    /** A sketch around an array. */
    constructor FromArray8(arr: Array8, ghost coupons: set<nat>)
      requires 4 <= arr.lgConfigK <= 21 && arr.Valid() && AllCoupons(coupons)
      requires Registers(coupons, arr.lgConfigK, arr.bytes[..]) && Promoted(arr.lgConfigK, |coupons|)
      ensures Valid() && Repr == {this, arr, arr.bytes} && this.coupons == coupons && mode == Mode8(arr) && lgConfigK == arr.lgConfigK
    {
      lgConfigK := arr.lgConfigK;
      mode := Mode8(arr);
      this.coupons := coupons;
      Repr := {this, arr, arr.bytes};
    }

    constructor FromArray6(arr: Array6, ghost coupons: set<nat>)
      requires 4 <= arr.lgConfigK <= 21 && arr.Valid() && AllCoupons(coupons)
      requires Registers(coupons, arr.lgConfigK, arr.regs) && Promoted(arr.lgConfigK, |coupons|)
      ensures Valid() && Repr == {this, arr, arr.bytes} && this.coupons == coupons && mode == Mode6(arr) && lgConfigK == arr.lgConfigK
    {
      lgConfigK := arr.lgConfigK;
      mode := Mode6(arr);
      this.coupons := coupons;
      Repr := {this, arr, arr.bytes};
    }

    constructor FromArray4(arr: Array4, ghost coupons: set<nat>)
      requires 4 <= arr.lgConfigK <= 21 && arr.Valid() && AllCoupons(coupons)
      requires Registers(coupons, arr.lgConfigK, arr.regs) && Promoted(arr.lgConfigK, |coupons|)
      ensures Valid() && Repr == {this, arr} + arr.Repr && this.coupons == coupons && mode == Mode4(arr) && lgConfigK == arr.lgConfigK
    {
      lgConfigK := arr.lgConfigK;
      mode := Mode4(arr);
      this.coupons := coupons;
      Repr := {this, arr} + arr.Repr;
      new;
    }

    constructor FromList(lgConfigK: nat, list: CouponList, hllType: HllType)
      requires 4 <= lgConfigK <= 21 && list.Valid() && AllCoupons(list.Contents()) && list.len < list.coupons.Length == 8
      ensures Valid() && Repr == {this, list, list.coupons} && coupons == list.Contents() && this.lgConfigK == lgConfigK
      ensures mode == ListMode(list, hllType)
    {
      hide AllCoupons, Promoted, CouponList.Valid, CouponList.Contents;
      list.Facts();
      FewStay(lgConfigK, list.len);
      this.lgConfigK := lgConfigK;
      mode := ListMode(list, hllType);
      coupons := list.Contents();
      Repr := {this, list, list.coupons};
    }

    constructor FromSet(lgConfigK: nat, held: CouponSet, hllType: HllType)
      requires 4 <= lgConfigK <= 21 && held.Valid() && AllCoupons(held.Contents()) && 4 * held.len <= 3 * held.coupons.Length
      requires 5 <= held.lgSize && held.lgSize + 3 <= lgConfigK && Grown(held.len, held.lgSize, held.coupons.Length)
      ensures Valid() && Repr == {this, held, held.coupons} && coupons == held.Contents() && this.lgConfigK == lgConfigK
      ensures mode == SetMode(held, hllType)
    {
      hide AllCoupons, Promoted, CouponSet.Valid, CouponSet.Contents;
      held.Facts();
      SmallStay(lgConfigK, held.lgSize, held.len);
      this.lgConfigK := lgConfigK;
      mode := SetMode(held, hllType);
      coupons := held.Contents();
      Repr := {this, held, held.coupons};
    }
  }

  /** A copy of a sketch in list or set mode, with its own target type. */
  method CopyCoupons(other: HllSketch, hllType: HllType) returns (r: HllSketch)
    requires other.Valid() && !other.mode.IsArray()
    ensures r.Valid() && fresh(r) && fresh(r.Repr) && r.coupons == other.coupons && r.lgConfigK == other.lgConfigK
    ensures r.TargetType() == hllType && !r.mode.IsArray()
  {
    hide AllCoupons, Promoted, CouponList.Valid, CouponSet.Valid, CouponList.Contents, CouponSet.Contents;
    if other.mode.ListMode? {
      other.mode.list.Facts();
      var list := new CouponList.Clone(other.mode.list);
      list.Facts();
      r := new HllSketch.FromList(other.lgConfigK, list, hllType);
    } else {
      other.mode.coupons.Facts();
      var held := new CouponSet.Clone(other.mode.coupons);
      held.Facts();
      r := new HllSketch.FromSet(other.lgConfigK, held, hllType);
    }
  }

  /** Sketches of any types that were offered the same coupons, in whatever order, are in array mode
    * together and then have the same registers. */
  lemma SameStreamSameRegisters(a: HllSketch, b: HllSketch)
    requires a.Valid() && b.Valid() && a.coupons == b.coupons && a.lgConfigK == b.lgConfigK
    ensures a.mode.IsArray() <==> b.mode.IsArray()
    ensures a.mode.IsArray() ==> a.RegisterValues() == b.RegisterValues()
  {
    if a.mode.IsArray() {
      RegistersUnique(a.coupons, a.lgConfigK, a.RegisterValues(), b.RegisterValues());
    }
  }

  /** Offers a stream of coupons. */
  method Feed(sketch: HllSketch, stream: seq<nat>)
    requires sketch.Valid() && forall i :: 0 <= i < |stream| ==> Coupon(stream[i])
    modifies sketch.Repr
    ensures sketch.Valid() && sketch.coupons == old(sketch.coupons) + set c | c in stream
    ensures sketch.TargetType() == old(sketch.TargetType())
  {
    hide HllSketch.Valid, Coupon;
    ghost var before := sketch.coupons;
    for i := 0 to |stream|
      invariant sketch.Valid() && fresh(sketch.Repr - old(sketch.Repr)) && sketch.TargetType() == old(sketch.TargetType())
      invariant sketch.coupons == before + set c | c in stream[..i]
    {
      assert stream[..i + 1] == stream[..i] + [stream[i]];
      sketch.UpdateWithCoupon(stream[i]);
    }
    assert stream[..|stream|] == stream;
  }

  ghost predicate AllZero(regs: seq<nat>) {
    forall i :: 0 <= i < |regs| ==> regs[i] == 0
  }

  ghost predicate Small(vals: seq<nat>) {
    forall i :: 0 <= i < |vals| ==> vals[i] <= 63
  }

  lemma SmallValues(vals: seq<nat>)
    requires Small(vals)
    ensures forall i :: 0 <= i < |vals| ==> vals[i] <= 63
  {
  }

  lemma RegistersSize(coupons: set<nat>, lg: nat, regs: seq<nat>)
    requires Registers(coupons, lg, regs)
    ensures |regs| == Pow2(lg)
  {
  }

  /** Coupons have positive values, so some register is not zero. */
  lemma SomeRegister(coupons: set<nat>, lgK: nat, regs: seq<nat>)
    requires Registers(coupons, lgK, regs) && AllCoupons(coupons) && Promoted(lgK, |coupons|)
    ensures coupons != {} && !AllZero(regs)
  {
    var c :| c in coupons;
    assert IsMax(coupons, lgK, Register(c, lgK), regs[Register(c, lgK)]);
  }

  lemma BothCoupons(a: set<nat>, b: set<nat>)
    requires AllCoupons(a) && AllCoupons(b)
    ensures AllCoupons(a + b)
  {
  }

  lemma PromotedMore(lgK: nat, a: set<nat>, b: set<nat>)
    requires Promoted(lgK, |a|)
    ensures Promoted(lgK, |a + b|) && Promoted(lgK, |b + a|)
  {
    SubsetSize(a, a + b);
    SubsetSize(a, b + a);
  }

  method Values4(arr: Array4) returns (vals: seq<nat>)
    requires arr.Valid()
    ensures vals == arr.regs && Small(vals)
  {
    vals := [];
    arr.Facts();
    for slot := 0 to Pow2(arr.lgConfigK)
      invariant vals == arr.regs[..slot] && Small(vals)
    {
      var value := arr.Get(slot);
      vals := vals + [value];
    }
  }

  method Values6(arr: Array6) returns (vals: seq<nat>)
    requires arr.Valid()
    ensures vals == arr.regs && Small(vals)
  {
    vals := [];
    for slot := 0 to Pow2(arr.lgConfigK)
      invariant vals == arr.regs[..slot] && Small(vals)
    {
      var value := arr.Get(slot);
      vals := vals + [value];
    }
  }

  method Values8(arr: Array8) returns (vals: seq<nat>)
    requires arr.Valid()
    ensures vals == arr.bytes[..] && Small(vals)
  {
    vals := arr.bytes[..];
  }

  lemma MoreCoupons(coupons: set<nat>, c: nat)
    requires AllCoupons(coupons) && Coupon(c)
    ensures AllCoupons(coupons + {c}) && |coupons + {c}| >= |coupons|
  {
    SubsetSize(coupons, coupons + {c});
  }

  lemma MorePromoted(lgK: nat, coupons: set<nat>, c: nat)
    requires Promoted(lgK, |coupons|)
    ensures Promoted(lgK, |coupons + {c}|)
  {
    SubsetSize(coupons, coupons + {c});
  }

  lemma EightPromote(lgK: nat)
    requires lgK < 8
    ensures Promoted(lgK, 8)
  {
  }

  lemma EightStay(lgK: nat)
    requires 8 <= lgK
    ensures !Promoted(lgK, 8) && Pow2(LG_INIT_SET_SIZE) == 32
  {
    Monotone(5, lgK - 3);
    assert Pow2(5) == 32;
  }

  lemma FewStay(lgK: nat, n: nat)
    requires n < 8
    ensures !Promoted(lgK, n)
  {
    if lgK >= 8 {
      EightStay(lgK);
    }
  }

  lemma LargeEnough(lg: nat)
    requires lg >= 5
    ensures Pow2(lg) >= 32 && Pow2(lg + 1) == 2 * Pow2(lg)
  {
    Monotone(5, lg);
    assert Pow2(5) == 32;
  }

  lemma FullPromote(lgK: nat, n: nat)
    requires lgK >= 8 && 4 * n > 3 * Pow2(lgK - 3)
    ensures Promoted(lgK, n)
  {
  }

  lemma SmallStay(lgK: nat, lgSize: nat, n: nat)
    requires 5 <= lgSize && lgSize + 3 <= lgK && 4 * n <= 3 * Pow2(lgSize)
    ensures !Promoted(lgK, n)
  {
    Monotone(lgSize, lgK - 3);
  }
}
