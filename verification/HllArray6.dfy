/** Registers of six bits packed across bytes: `hll/array6.rs`. */
module HllArray6 {
  import opened Powers
  import opened HllCoupons

  // ------------------------------------------------ six bits in two bytes

  function NumBytesForK(k: nat): nat {
    k * 3 / 4 + 1
  }

  function ByteIndex(slot: nat): nat {
    slot * 6 / 8
  }

  /** The bit offset of a slot in its 16-bit window: 0, 6, 4 or 2. */
  function Shift(slot: nat): nat {
    slot * 6 % 8
  }

  ghost function Window(bytes: seq<nat>, i: nat): nat
    requires i + 1 < |bytes|
  {
    bytes[i] + 256 * bytes[i + 1]
  }

  /** `(window >> shift) & 63`. */
  function Field(window: nat, shift: nat): nat {
    match shift
    case 0 => window % 64
    case 2 => window / 4 % 64
    case 4 => window / 16 % 64
    case _ => window / 64 % 64
  }

  /** The bits of a slot are the six from 6 * slot on. */
  lemma SlotBits(slot: nat, window: nat)
    ensures 8 * ByteIndex(slot) + Shift(slot) == 6 * slot
    ensures Field(window, Shift(slot)) == window / Pow2(Shift(slot)) % 64
  {
    EvenShift(slot);
    FieldBits(window, Shift(slot));
  }

  lemma EvenShift(slot: nat)
    ensures Shift(slot) in {0, 2, 4, 6}
  {
  }

  lemma FieldBits(window: nat, shift: nat)
    requires shift in {0, 2, 4, 6}
    ensures Field(window, shift) == window / Pow2(shift) % 64
  {
    SmallPowers();
    hide Pow2;
  }

  lemma SmallPowers()
    ensures Pow2(0) == 1 && Pow2(2) == 4 && Pow2(4) == 16 && Pow2(6) == 64
  {
  }

  /** The window with the field cleared and then set: `window & !(63 << shift) | value << shift`. */
  function SetField(window: nat, shift: nat, value: nat): nat {
    match shift
    case 0 => window / 64 * 64 + value
    case 2 => window / 256 * 256 + 4 * value + window % 4
    case 4 => window / 1024 * 1024 + 16 * value + window % 16
    case _ => window / 4096 * 4096 + 64 * value + window % 64
  }

  ghost predicate Bytes(s: seq<nat>) {
    forall i :: 0 <= i < |s| ==> s[i] < 256
  }

  lemma SlotPlace(slot: nat)
    ensures var q, r := slot / 4, slot % 4;
      && ByteIndex(slot) == 3 * q + (if r == 0 then 0 else r - 1)
      && Shift(slot) == (if r == 0 then 0 else 8 - 2 * r)
  {
  }

  lemma SlotFits(slot: nat, k: nat)
    requires slot < k && k % 4 == 0
    ensures ByteIndex(slot) + 1 < NumBytesForK(k)
  {
  }

  ghost function RawAt(bytes: seq<nat>, slot: nat): nat
    requires ByteIndex(slot) + 1 < |bytes|
  {
    Field(Window(bytes, ByteIndex(slot)), Shift(slot))
  }

  ghost function Put(bytes: seq<nat>, slot: nat, value: nat): seq<nat>
    requires ByteIndex(slot) + 1 < |bytes|
  {
    var i := ByteIndex(slot);
    var window := SetField(Window(bytes, i), Shift(slot), value);
    bytes[i := window % 256][i + 1 := window / 256]
  }

  /** Which bits of the two bytes a field is. */
  ghost function FieldOfBytes(low: nat, high: nat, shift: nat): nat {
    match shift
    case 0 => low % 64
    case 2 => low / 4
    case 4 => low / 16 + 16 * (high % 4)
    case _ => low / 64 + 4 * (high % 16)
  }

  lemma FieldSplits(low: nat, high: nat, shift: nat)
    requires low < 256 && high < 256 && shift in {0, 2, 4, 6}
    ensures Field(low + 256 * high, shift) == FieldOfBytes(low, high, shift)
  {
    if shift == 2 {
      ShiftedBy2(low, high);
    } else if shift == 4 {
      ShiftedBy4(low, high);
    } else if shift == 6 {
      ShiftedBy6(low, high);
    }
  }

  lemma ShiftedBy2(low: nat, high: nat)
    requires low < 256
    ensures (low + 256 * high) / 4 % 64 == low / 4
  {
    assert (low + 256 * high) / 4 == low / 4 + 64 * high;
  }

  lemma ShiftedBy4(low: nat, high: nat)
    requires low < 256
    ensures (low + 256 * high) / 16 % 64 == low / 16 + 16 * (high % 4)
  {
    assert (low + 256 * high) / 16 == low / 16 + 16 * high;
    Quotient(low / 16 + 16 * high, 64, high / 4, low / 16 + 16 * (high % 4));
  }

  lemma ShiftedBy6(low: nat, high: nat)
    requires low < 256
    ensures (low + 256 * high) / 64 % 64 == low / 64 + 4 * (high % 16)
  {
    assert (low + 256 * high) / 64 == low / 64 + 4 * high;
    Quotient(low / 64 + 4 * high, 64, high / 16, low / 64 + 4 * (high % 16));
  }

  lemma WindowParts(low: nat, high: nat)
    requires low < 256
    ensures var w := low + 256 * high;
      w / 1024 == high / 4 && w % 16 == low % 16 && w / 4096 == high / 16 && w % 64 == low % 64
  {
    var w := low + 256 * high;
    Quotient(w, 1024, high / 4, 256 * (high % 4) + low);
    Quotient(w, 4096, high / 16, 256 * (high % 16) + low);
    Quotient(w, 16, low / 16 + 16 * high, low % 16);
    Quotient(w, 64, low / 64 + 4 * high, low % 64);
  }

  lemma Quotient(x: nat, n: nat, q: nat, r: nat)
    requires x == n * q + r && r < n
    ensures x / n == q && x % n == r
  {
    DivModUnique(x, n, q, r, x / n, x % n);
  }

  lemma DivModUnique(x: nat, n: nat, q: nat, r: nat, q2: nat, r2: nat)
    requires x == n * q + r == n * q2 + r2 && r < n && r2 < n
    ensures q == q2 && r == r2
  {
    if q < q2 {
      MulLe(q + 1, q2, n);
    } else if q2 < q {
      MulLe(q2 + 1, q, n);
    }
  }

  /** What setting a field makes of the lower byte. */
  ghost function LowSet(low: nat, shift: nat, value: nat): nat {
    match shift
    case 0 => 64 * (low / 64) + value
    case 2 => 4 * value + low % 4
    case 4 => 16 * (value % 16) + low % 16
    case _ => 64 * (value % 4) + low % 64
  }

  /** And of the upper byte. */
  ghost function HighSet(high: nat, shift: nat, value: nat): nat {
    match shift
    case 0 => high
    case 2 => high
    case 4 => 4 * (high / 4) + value / 16
    case _ => 16 * (high / 16) + value / 4
  }

  lemma SetSplits(low: nat, high: nat, shift: nat, value: nat)
    requires low < 256 && high < 256 && value < 64 && shift in {0, 2, 4, 6}
    ensures SetField(low + 256 * high, shift, value) == LowSet(low, shift, value) + 256 * HighSet(high, shift, value)
    ensures LowSet(low, shift, value) < 256 && HighSet(high, shift, value) < 256
  {
    if shift == 0 {
      assert (low + 256 * high) / 64 == low / 64 + 4 * high;
    } else if shift == 2 {
      assert (low + 256 * high) / 256 == high && (low + 256 * high) % 4 == low % 4;
    } else if shift == 4 {
      SetBy4(low, high, value);
    } else {
      SetBy6(low, high, value);
    }
  }

  lemma SetBy4(low: nat, high: nat, value: nat)
    requires low < 256 && high < 256 && value < 64
    ensures SetField(low + 256 * high, 4, value) == LowSet(low, 4, value) + 256 * HighSet(high, 4, value)
    ensures LowSet(low, 4, value) < 256 && HighSet(high, 4, value) < 256
  {
    WindowParts(low, high);
    assert 16 * value == 256 * (value / 16) + 16 * (value % 16);
  }

  lemma SetBy6(low: nat, high: nat, value: nat)
    requires low < 256 && high < 256 && value < 64
    ensures SetField(low + 256 * high, 6, value) == LowSet(low, 6, value) + 256 * HighSet(high, 6, value)
    ensures LowSet(low, 6, value) < 256 && HighSet(high, 6, value) < 256
  {
    WindowParts(low, high);
    assert 64 * value == 256 * (value / 4) + 64 * (value % 4);
  }

  lemma FieldReadsBack(low: nat, high: nat, shift: nat, value: nat)
    requires low < 256 && high < 256 && value < 64 && shift in {0, 2, 4, 6}
    ensures FieldOfBytes(LowSet(low, shift, value), HighSet(high, shift, value), shift) == value
  {
    if shift == 0 {
      Parts64(low / 64, value);
    } else if shift == 2 {
      Parts4(value, low % 4);
    } else if shift == 4 {
      Parts16(value % 16, low % 16);
      Parts4(high / 4, value / 16);
    } else {
      Parts64(value % 4, low % 64);
      Parts16(high / 16, value / 4);
    }
  }

  lemma Parts4(q: nat, r: nat)
    requires r < 4
    ensures (4 * q + r) / 4 == q && (4 * q + r) % 4 == r
  {
  }

  lemma Parts16(q: nat, r: nat)
    requires r < 16
    ensures (16 * q + r) / 16 == q && (16 * q + r) % 16 == r
  {
  }

  lemma Parts64(q: nat, r: nat)
    requires r < 64
    ensures (64 * q + r) / 64 == q && (64 * q + r) % 64 == r
  {
  }

  lemma PutSplits(bytes: seq<nat>, slot: nat, value: nat)
    requires Bytes(bytes) && ByteIndex(slot) + 1 < |bytes| && value < 64
    ensures var i := ByteIndex(slot);
      Put(bytes, slot, value) == bytes[i := LowSet(bytes[i], Shift(slot), value)][i + 1 := HighSet(bytes[i + 1], Shift(slot), value)]
    ensures Bytes(Put(bytes, slot, value))
  {
    SlotPlace(slot);
    var i := ByteIndex(slot);
    SetSplits(bytes[i], bytes[i + 1], Shift(slot), value);
    Quotients(LowSet(bytes[i], Shift(slot), value), HighSet(bytes[i + 1], Shift(slot), value));
  }

  lemma Quotients(low: nat, high: nat)
    requires low < 256
    ensures (low + 256 * high) % 256 == low && (low + 256 * high) / 256 == high
  {
  }

  lemma RawSplits(bytes: seq<nat>, slot: nat)
    requires Bytes(bytes) && ByteIndex(slot) + 1 < |bytes|
    ensures RawAt(bytes, slot) == FieldOfBytes(bytes[ByteIndex(slot)], bytes[ByteIndex(slot) + 1], Shift(slot))
    ensures RawAt(bytes, slot) < 64
  {
    SlotPlace(slot);
    FieldSplits(bytes[ByteIndex(slot)], bytes[ByteIndex(slot) + 1], Shift(slot));
  }

  lemma PutReadsBack(bytes: seq<nat>, slot: nat, value: nat)
    requires Bytes(bytes) && ByteIndex(slot) + 1 < |bytes| && value < 64
    ensures RawAt(Put(bytes, slot, value), slot) == value
  {
    hide Put, RawAt, FieldOfBytes, LowSet, HighSet, ByteIndex, Shift;
    SlotPlace(slot);
    PutSplits(bytes, slot, value);
    RawSplits(Put(bytes, slot, value), slot);
    FieldReadsBack(bytes[ByteIndex(slot)], bytes[ByteIndex(slot) + 1], Shift(slot), value);
  }

  /** A write leaves every other register alone, also those it shares bytes with. */
  lemma PutElsewhere(bytes: seq<nat>, slot: nat, value: nat, other: nat)
    requires Bytes(bytes) && ByteIndex(slot) + 1 < |bytes| && ByteIndex(other) + 1 < |bytes| && value < 64 && other != slot
    ensures RawAt(Put(bytes, slot, value), other) == RawAt(bytes, other)
  {
    hide Put, RawAt, FieldOfBytes, LowSet, HighSet, ByteIndex, Shift;
    SlotPlace(slot);
    SlotPlace(other);
    PutSplits(bytes, slot, value);
    RawSplits(Put(bytes, slot, value), other);
    RawSplits(bytes, other);
    var i, j := ByteIndex(slot), ByteIndex(other);
    if i == j {
      SharedWindow(bytes[i], bytes[i + 1], Shift(slot), value, Shift(other));
    } else if j == i + 1 {
      SharedUpper(bytes[j], bytes[j + 1], Shift(slot), value, Shift(other));
    } else if i == j + 1 {
      SharedLower(bytes[j], bytes[i], Shift(slot), value, Shift(other));
    }
  }

  lemma SharedWindow(low: nat, high: nat, shift: nat, value: nat, other: nat)
    requires low < 256 && high < 256 && value < 64 && {shift, other} == {0, 6}
    ensures FieldOfBytes(LowSet(low, shift, value), HighSet(high, shift, value), other) == FieldOfBytes(low, high, other)
  {
  }

  lemma SharedUpper(byte: nat, next: nat, shift: nat, value: nat, other: nat)
    requires byte < 256 && value < 64
    requires shift == 0 || shift == 2 || (shift == 6 && other == 4) || (shift == 4 && other == 2)
    ensures FieldOfBytes(HighSet(byte, shift, value), next, other) == FieldOfBytes(byte, next, other)
  {
  }

  lemma SharedLower(before: nat, byte: nat, shift: nat, value: nat, other: nat)
    requires byte < 256 && value < 64
    requires other == 0 || other == 2 || (shift == 4 && other == 6) || (shift == 2 && other == 4)
    ensures FieldOfBytes(before, LowSet(byte, shift, value), other) == FieldOfBytes(before, byte, other)
  {
    if shift == 4 && other == 6 {
      Parts16(value % 16, byte % 16);
    } else if shift == 2 && other == 4 {
      Parts4(value, byte % 4);
    }
  }

  // ---------------------------------------------------------- the class

  class Array6 {
    const lgConfigK: nat
    var bytes: array<nat>
    var numZeros: nat
    /** The registers. */
    ghost var regs: seq<nat>

    ghost predicate Stored()
      reads this`bytes, this`regs, bytes
    {
      && lgConfigK >= 2 && bytes.Length == NumBytesForK(Pow2(lgConfigK)) && Bytes(bytes[..]) && |regs| == Pow2(lgConfigK)
      && Stores(bytes[..], regs)
    }

    ghost predicate Valid()
      reads this, bytes
    {
      Stored() && numZeros == CountOf(regs, 0)
    }

    constructor (lgConfigK: nat)
      requires lgConfigK >= 2
      ensures Valid() && fresh(bytes) && regs == ZeroRegisters(Pow2(lgConfigK)) && this.lgConfigK == lgConfigK
    {
      this.lgConfigK := lgConfigK;
      bytes := new nat[NumBytesForK(Pow2(lgConfigK))](_ => 0);
      numZeros := Pow2(lgConfigK);
      regs := ZeroRegisters(Pow2(lgConfigK));
      new;
      FourDivides(lgConfigK);
      CountZero(regs, 0);
      forall slot | 0 <= slot < |regs| ensures Holds(bytes[..], slot, regs[slot]) {
        ZeroBytes(bytes[..], slot, Pow2(lgConfigK));
      }
    }

    method Get(slot: nat) returns (value: nat)
      requires Stored() && slot < |regs|
      ensures value == regs[slot] <= 63
    {
      assert Holds(bytes[..], slot, regs[slot]);
      var i := ByteIndex(slot);
      value := Field(bytes[i] + 256 * bytes[i + 1], Shift(slot));
      RawSplits(bytes[..], slot);
    }

    method PutRaw(slot: nat, value: nat)
      requires Stored() && slot < |regs| && value <= 63
      modifies this`regs, bytes
      ensures Stored() && regs == old(regs)[slot := value]
    {
      hide RawAt, Put, Field, SetField, Window, Bytes, Stores, Pow2, NumBytesForK;
      ghost var before := bytes[..];
      FourDivides(lgConfigK);
      SlotFits(slot, Pow2(lgConfigK));
      PutSplits(before, slot, value);
      PutStores(before, regs, slot, value);
      WriteWindow(slot, value);
      regs := regs[slot := value];
    }

    method WriteWindow(slot: nat, value: nat)
      requires ByteIndex(slot) + 1 < bytes.Length
      modifies bytes
      ensures bytes[..] == Put(old(bytes[..]), slot, value)
    {
      var i := ByteIndex(slot);
      var window := SetField(bytes[i] + 256 * bytes[i + 1], Shift(slot), value);
      bytes[i] := window % 256;
      bytes[i + 1] := window / 256;
    }

    method Update(coupon: nat)
      requires Valid() && Coupon(coupon)
      modifies this`regs, this`numZeros, bytes
      ensures Valid() && regs == Raise(old(regs), Register(coupon, lgConfigK), Value(coupon))
    {
      hide Stored, CountOf, Register, Coupon, Value, Pow2;
      var slot := Register(coupon, lgConfigK);
      var newValue := Value(coupon);
      Sizes();
      CouponRange(coupon);
      var oldValue := Get(slot);
      if newValue > oldValue {
        CountUpdate(regs, slot, newValue, 0);
        PutRaw(slot, newValue);
        if oldValue == 0 {
          numZeros := numZeros - 1;
        }
      }
    }

    lemma Sizes()
      requires Stored()
      ensures |regs| == Pow2(lgConfigK)
    {
    }

    predicate IsEmpty()
      requires Valid()
      reads this, bytes
      ensures IsEmpty() <==> forall i :: 0 <= i < |regs| ==> regs[i] == 0
    {
      assert numZeros == |regs| <==> forall i :: 0 <= i < |regs| ==> regs[i] == 0 by {
        CountZero(regs, 0);
      }
      numZeros == Pow2(lgConfigK)
    }
  }

  ghost predicate Holds(bytes: seq<nat>, slot: nat, value: nat) {
    ByteIndex(slot) + 1 < |bytes| && RawAt(bytes, slot) == value
  }

  lemma FourDivides(lg: nat)
    requires lg >= 2
    ensures Pow2(lg) % 4 == 0
  {
    assert Pow2(lg) == 2 * Pow2(lg - 1) == 4 * Pow2(lg - 2);
  }

  lemma ZeroBytes(bytes: seq<nat>, slot: nat, k: nat)
    requires slot < k && k % 4 == 0 && |bytes| == NumBytesForK(k) && forall i :: 0 <= i < |bytes| ==> bytes[i] == 0
    ensures Holds(bytes, slot, 0)
  {
    SlotFits(slot, k);
  }

  ghost predicate Stores(bytes: seq<nat>, regs: seq<nat>) {
    forall slot :: 0 <= slot < |regs| ==> Holds(bytes, slot, regs[slot])
  }

  lemma PutStores(bytes: seq<nat>, regs: seq<nat>, slot: nat, value: nat)
    requires Bytes(bytes) && slot < |regs| && value <= 63 && ByteIndex(slot) + 1 < |bytes|
    requires Stores(bytes, regs)
    ensures Stores(Put(bytes, slot, value), regs[slot := value])
  {
    hide RawAt, Put, ByteIndex;
    PutSplits(bytes, slot, value);
    var t, changed := Put(bytes, slot, value), regs[slot := value];
    forall s | 0 <= s < |changed| ensures Holds(t, s, changed[s]) {
      assert Holds(bytes, s, regs[s]);
      if s == slot {
        PutReadsBack(bytes, slot, value);
      } else {
        PutElsewhere(bytes, slot, value, s);
      }
    }
  }
}
