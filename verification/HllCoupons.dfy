/** Coupons, and what a set of them makes of the registers: `hll/mod.rs`. */
module HllCoupons {
  import opened Powers

  /** A coupon packs a 6-bit value above a 26-bit slot; zero is the empty coupon. */
  const KEY_BITS: nat := 26

  function Slot(coupon: nat): nat {
    LowBits(coupon, KEY_BITS)
  }

  function Value(coupon: nat): nat {
    Shr(coupon, KEY_BITS)
  }

  function Pack(slot: nat, value: nat): nat {
    value * Pow2(KEY_BITS) + LowBits(slot, KEY_BITS)
  }

  /** The slot is the low 26 bits, the value the bits above, and a register of 2^lg the low lg bits. */
  lemma CouponParts(c: nat, lg: nat)
    ensures Slot(c) == c % 0x400_0000 && Value(c) == c / 0x400_0000
    ensures lg <= 26 ==> Register(c, lg) == c % Pow2(lg)
  {
    hide Pow2, LowBits, Shr;
    LargePowers();
    LowBitsAre(c, 26);
    ShrDivides(c, 26);
    if lg <= 26 {
      LowBitsTwice(c, 26, lg);
      LowBitsAre(c, lg);
    }
  }

  ghost predicate Coupon(c: nat) {
    1 <= Value(c) <= 63
  }

  lemma CouponRange(c: nat)
    requires Coupon(c)
    ensures 1 <= Value(c) <= 63
  {
  }

  lemma {:induction false} ShrLowOf(q: nat, r: nat, n: nat)
    requires r < Pow2(n)
    ensures Shr(q * Pow2(n) + r, n) == q && LowBits(q * Pow2(n) + r, n) == r
  {
    if n > 0 {
      MulDouble(q, Pow2(n - 1));
      assert (q * Pow2(n) + r) / 2 == q * Pow2(n - 1) + r / 2;
      ShrLowOf(q, r / 2, n - 1);
    }
  }

  lemma Unpack(slot: nat, value: nat)
    requires slot < Pow2(KEY_BITS)
    ensures Slot(Pack(slot, value)) == slot && Value(Pack(slot, value)) == value
    ensures value > 0 ==> Pack(slot, value) != 0
  {
    hide Pow2, LowBits, Shr;
    PackedParts(slot, value, KEY_BITS);
  }

  lemma PackedParts(slot: nat, value: nat, n: nat)
    requires slot < Pow2(n)
    ensures LowBits(value * Pow2(n) + LowBits(slot, n), n) == slot
    ensures Shr(value * Pow2(n) + LowBits(slot, n), n) == value
    ensures value > 0 ==> value * Pow2(n) + LowBits(slot, n) > 0
  {
    LowBitsBound(slot, n);
    ShrLowOf(value, slot, n);
    if value > 0 {
      MulLe(1, value, Pow2(n));
    }
  }

  lemma Repack(coupon: nat)
    ensures Pack(Slot(coupon), Value(coupon)) == coupon
  {
    SplitBits(coupon, KEY_BITS);
    LowBitsTwice(coupon, KEY_BITS, KEY_BITS);
  }

  // ---------------------------------------------------------- registers

  /** The register a coupon belongs to, of 2^lg. */
  function Register(coupon: nat, lg: nat): (r: nat)
    ensures r < Pow2(lg)
  {
    LowBitsBound(Slot(coupon), lg);
    LowBits(Slot(coupon), lg)
  }

  /** v is the largest value among the coupons of a register, or zero if it has none. */
  ghost predicate IsMax(coupons: set<nat>, lg: nat, slot: nat, v: nat) {
    && (forall c :: c in coupons && Register(c, lg) == slot ==> Value(c) <= v)
    && (v == 0 || exists c :: c in coupons && Register(c, lg) == slot && Value(c) == v)
  }

  /** The reference object: every register holds the largest value offered to it. */
  ghost predicate Registers(coupons: set<nat>, lg: nat, regs: seq<nat>) {
    |regs| == Pow2(lg) && forall slot :: 0 <= slot < |regs| ==> IsMax(coupons, lg, slot, regs[slot])
  }

  lemma RegistersUnique(coupons: set<nat>, lg: nat, a: seq<nat>, b: seq<nat>)
    requires Registers(coupons, lg, a) && Registers(coupons, lg, b)
    ensures a == b
  {
    forall slot | 0 <= slot < |a| ensures a[slot] == b[slot] {
      assert IsMax(coupons, lg, slot, a[slot]) && IsMax(coupons, lg, slot, b[slot]);
    }
  }

  function Larger(a: nat, b: nat): nat {
    if a >= b then a else b
  }

  ghost function Raise(regs: seq<nat>, slot: nat, v: nat): seq<nat>
    requires slot < |regs|
  {
    regs[slot := Larger(regs[slot], v)]
  }

  ghost function ZeroRegisters(k: nat): (regs: seq<nat>)
    ensures |regs| == k && forall i :: 0 <= i < k ==> regs[i] == 0
  {
    seq(k, _ => 0)
  }

  lemma ZerosRegister(lg: nat)
    ensures Registers({}, lg, ZeroRegisters(Pow2(lg)))
  {
  }

  lemma RaiseRegisters(coupons: set<nat>, lg: nat, regs: seq<nat>, c: nat)
    requires Registers(coupons, lg, regs)
    ensures Registers(coupons + {c}, lg, Raise(regs, Register(c, lg), Value(c)))
  {
    var t := Raise(regs, Register(c, lg), Value(c));
    forall slot | 0 <= slot < |t| ensures IsMax(coupons + {c}, lg, slot, t[slot]) {
      assert IsMax(coupons, lg, slot, regs[slot]);
      if t[slot] != 0 {
        if slot == Register(c, lg) && Value(c) >= regs[slot] {
          assert c in coupons + {c};
        } else {
          var d :| d in coupons && Register(d, lg) == slot && Value(d) == regs[slot];
          assert d in coupons + {c};
        }
      }
    }
  }

  /** Registers of 2^src belong to registers of 2^dst by masking. */
  lemma RegisterFolds(c: nat, src: nat, dst: nat)
    requires dst <= src
    ensures Register(c, dst) == LowBits(Register(c, src), dst)
  {
    LowBitsTwice(Slot(c), src, dst);
  }

  /** Taking the maximum per masked register, over the registers before position n, on top of dst. */
  ghost predicate Folded(dst0: seq<nat>, src: seq<nat>, n: nat, lg: nat, dst: seq<nat>)
    requires n <= |src|
  {
    && |dst0| == |dst| == Pow2(lg)
    && (forall slot :: 0 <= slot < |dst| ==> dst0[slot] <= dst[slot])
    && (forall i :: 0 <= i < n ==> src[i] <= dst[Fold(i, lg)])
    && (forall slot :: 0 <= slot < |dst| ==> dst[slot] == dst0[slot] || FoldedFrom(src, n, lg, slot, dst[slot]))
  }

  function Fold(i: nat, lg: nat): (r: nat)
    ensures r < Pow2(lg)
  {
    LowBitsBound(i, lg);
    LowBits(i, lg)
  }

  ghost predicate FoldedFrom(src: seq<nat>, n: nat, lg: nat, slot: nat, v: nat)
    requires n <= |src|
  {
    exists i :: 0 <= i < n && Fold(i, lg) == slot && src[i] == v
  }

  lemma FoldStep(dst0: seq<nat>, src: seq<nat>, n: nat, lg: nat, dst: seq<nat>)
    requires n < |src| && Folded(dst0, src, n, lg, dst)
    ensures Folded(dst0, src, n + 1, lg, Raise(dst, Fold(n, lg), src[n]))
  {
    var t := Raise(dst, Fold(n, lg), src[n]);
    forall slot | 0 <= slot < |t| && t[slot] != dst0[slot] ensures FoldedFrom(src, n + 1, lg, slot, t[slot]) {
      if slot == Fold(n, lg) && src[n] >= dst[slot] {
        assert Fold(n, lg) == slot && src[n] == t[slot];
      } else {
        var i :| 0 <= i < n && Fold(i, lg) == slot && src[i] == dst[slot];
      }
    }
  }

  /** Folding a source's registers onto a destination's unites their coupons. */
  lemma FoldUnites(a: set<nat>, b: set<nat>, srcLg: nat, lg: nat, dst0: seq<nat>, src: seq<nat>, dst: seq<nat>)
    requires Registers(a, lg, dst0) && Registers(b, srcLg, src) && lg <= srcLg
    requires Folded(dst0, src, |src|, lg, dst)
    ensures Registers(a + b, lg, dst)
  {
    forall slot | 0 <= slot < |dst| ensures IsMax(a + b, lg, slot, dst[slot]) {
      assert IsMax(a, lg, slot, dst0[slot]);
      forall c | c in a + b && Register(c, lg) == slot ensures Value(c) <= dst[slot] {
        if c in b {
          RegisterFolds(c, srcLg, lg);
          assert IsMax(b, srcLg, Register(c, srcLg), src[Register(c, srcLg)]);
          assert src[Register(c, srcLg)] <= dst[Fold(Register(c, srcLg), lg)];
        }
      }
      FoldWitness(a, b, srcLg, lg, dst0, src, dst, slot);
    }
  }

  lemma FoldWitness(a: set<nat>, b: set<nat>, srcLg: nat, lg: nat, dst0: seq<nat>, src: seq<nat>, dst: seq<nat>, slot: nat)
    requires Registers(a, lg, dst0) && Registers(b, srcLg, src) && lg <= srcLg && slot < |dst|
    requires Folded(dst0, src, |src|, lg, dst)
    ensures dst[slot] == 0 || exists c :: c in a + b && Register(c, lg) == slot && Value(c) == dst[slot]
  {
    if dst[slot] != 0 {
      if dst[slot] == dst0[slot] {
        assert IsMax(a, lg, slot, dst0[slot]);
        var c :| c in a && Register(c, lg) == slot && Value(c) == dst[slot];
        assert c in a + b;
      } else {
        assert FoldedFrom(src, |src|, lg, slot, dst[slot]);
        var i :| 0 <= i < |src| && Fold(i, lg) == slot && src[i] == dst[slot];
        assert IsMax(b, srcLg, i, src[i]);
        var c :| c in b && Register(c, srcLg) == i && Value(c) == src[i];
        RegisterFolds(c, srcLg, lg);
        assert c in a + b;
      }
    }
  }

  lemma FoldStarts(dst: seq<nat>, src: seq<nat>, lg: nat)
    requires |dst| == Pow2(lg)
    ensures Folded(dst, src, 0, lg, dst)
  {
  }

  // ------------------------------------------------------------- counting

  ghost function CountOf(regs: seq<nat>, v: nat): nat {
    if regs == [] then 0 else CountOf(regs[..|regs| - 1], v) + if regs[|regs| - 1] == v then 1 else 0
  }

  lemma {:induction false} CountUpdate(regs: seq<nat>, slot: nat, x: nat, v: nat)
    requires slot < |regs|
    ensures CountOf(regs[slot := x], v) == CountOf(regs, v) - (if regs[slot] == v then 1 else 0) + (if x == v then 1 else 0)
  {
    var n := |regs| - 1;
    if slot < n {
      CountUpdate(regs[..n], slot, x, v);
      assert regs[slot := x][..n] == regs[..n][slot := x];
    } else {
      assert regs[slot := x][..n] == regs[..n];
    }
  }

  lemma {:induction false} CountZero(regs: seq<nat>, v: nat)
    ensures CountOf(regs, v) == 0 <==> v !in regs
    ensures CountOf(regs, v) <= |regs| && (CountOf(regs, v) == |regs| <==> forall i :: 0 <= i < |regs| ==> regs[i] == v)
  {
    if regs != [] {
      var n := |regs| - 1;
      CountZero(regs[..n], v);
      assert regs == regs[..n] + [regs[n]];
    }
  }
}
