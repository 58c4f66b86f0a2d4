/** Registers of four bits above a floating minimum, with an exception map: `hll/array4.rs`. */
module HllArray4 {
  import opened Powers
  import opened Options
  import opened OpenAddressing
  import opened HllCoupons
  import opened HllAuxMap

  const AUX_TOKEN: nat := 15

  // -------------------------------------------------- two nibbles a byte

  ghost function NibbleAt(bytes: seq<nat>, slot: nat): nat
    requires slot / 2 < |bytes|
  {
    if slot % 2 == 0 then bytes[slot / 2] % 16 else bytes[slot / 2] / 16
  }

  /** The bits of a slot are the four from 4 * slot on. */
  lemma NibbleBits(bytes: seq<nat>, slot: nat)
    requires slot / 2 < |bytes| && bytes[slot / 2] < 256
    ensures NibbleAt(bytes, slot) == bytes[4 * slot / 8] / Pow2(4 * slot % 8) % 16
  {
    assert 4 * slot / 8 == slot / 2;
    assert 4 * slot % 8 == 4 * (slot % 2);
    assert Pow2(0) == 1 && Pow2(4) == 16;
  }

  function SetNibble(byte: nat, slot: nat, value: nat): nat {
    if slot % 2 == 0 then 16 * (byte / 16) + value else 16 * value + byte % 16
  }

  /** The bytes store the given 4-bit values. */
  ghost predicate Stores(bytes: seq<nat>, raws: seq<nat>) {
    && |raws| == 2 * |bytes| && (forall i :: 0 <= i < |bytes| ==> bytes[i] < 256)
    && forall slot :: 0 <= slot < |raws| ==> NibbleAt(bytes, slot) == raws[slot] <= AUX_TOKEN
  }

  lemma SetNibbleReads(byte: nat, slot: nat, value: nat, other: nat)
    requires byte < 256 && value < 16
    ensures var b := SetNibble(byte, slot, value);
      b < 256 && (if other % 2 == 0 then b % 16 else b / 16) == if other % 2 == slot % 2 then value else
        (if other % 2 == 0 then byte % 16 else byte / 16)
  {
  }

  lemma PutNibble(bytes: seq<nat>, raws: seq<nat>, slot: nat, value: nat)
    requires Stores(bytes, raws) && slot < |raws| && value <= AUX_TOKEN
    ensures Stores(bytes[slot / 2 := SetNibble(bytes[slot / 2], slot, value)], raws[slot := value])
  {
    var t, changed := bytes[slot / 2 := SetNibble(bytes[slot / 2], slot, value)], raws[slot := value];
    hide SetNibble;
    SetNibbleReads(bytes[slot / 2], slot, value, slot);
    forall s | 0 <= s < |changed| ensures NibbleAt(t, s) == changed[s] {
      assert NibbleAt(bytes, s) == raws[s];
      SetNibbleReads(bytes[slot / 2], slot, value, s);
      assert s / 2 == slot / 2 && s != slot ==> s % 2 != slot % 2;
    }
  }

  // --------------------------------- the state a minimum gives registers

  /** The stored value of a register: its distance from the minimum, or the token. */
  ghost function Nibble(value: nat, curMin: nat): nat {
    if value < curMin then 0 else if value - curMin < AUX_TOKEN then value - curMin else AUX_TOKEN
  }

  ghost predicate Nibbles(regs: seq<nat>, curMin: nat, raws: seq<nat>) {
    |raws| == |regs| && forall i :: 0 <= i < |regs| ==> curMin <= regs[i] <= 63 && raws[i] == Nibble(regs[i], curMin)
  }

  ghost predicate Exceptional(regs: seq<nat>, curMin: nat, slot: nat)
    requires slot < |regs|
  {
    regs[slot] >= curMin + AUX_TOKEN
  }

  /** The registers too far above the minimum, packed with their slots. */
  ghost function Exceptions(regs: seq<nat>, curMin: nat): set<nat> {
    set slot: nat | slot < |regs| && Exceptional(regs, curMin, slot) :: Pack(slot, regs[slot])
  }

  lemma ExceptionOf(regs: seq<nat>, curMin: nat, slot: nat, value: nat, lg: nat)
    requires |regs| == Pow2(lg) && lg <= 26 && slot < |regs| && value >= 1
    ensures Pack(slot, value) in Exceptions(regs, curMin) <==> Exceptional(regs, curMin, slot) && regs[slot] == value
  {
    if Pack(slot, value) in Exceptions(regs, curMin) {
      var s: nat :| s < |regs| && Exceptional(regs, curMin, s) && Pack(s, regs[s]) == Pack(slot, value);
      KeyOfPack(s, regs[s], lg);
      KeyOfPack(slot, value, lg);
    }
  }

  lemma ExceptionSlots(regs: seq<nat>, curMin: nat, lg: nat, c: nat)
    requires |regs| == Pow2(lg) && lg <= 26 && c in Exceptions(regs, curMin)
    ensures Slot(c) < |regs| && Exceptional(regs, curMin, Slot(c)) && Value(c) == regs[Slot(c)] && c == Pack(Slot(c), Value(c))
  {
    var s: nat :| s < |regs| && Exceptional(regs, curMin, s) && Pack(s, regs[s]) == c;
    KeyOfPack(s, regs[s], lg);
  }

  /** Raising one register changes the exceptions at its slot only. */
  lemma ExceptionsRaise(regs: seq<nat>, curMin: nat, slot: nat, value: nat, lg: nat)
    requires |regs| == Pow2(lg) && lg <= 26 && slot < |regs| && value > regs[slot]
    ensures var e, f := Exceptions(regs, curMin), Exceptions(regs[slot := value], curMin);
      if value < curMin + AUX_TOKEN then f == e
      else if regs[slot] < curMin + AUX_TOKEN then f == e + {Pack(slot, value)} && (forall c :: c in e ==> Slot(c) != slot)
      else f == e - {Pack(slot, regs[slot])} + {Pack(slot, value)} && Pack(slot, regs[slot]) in e
  {
    var changed := regs[slot := value];
    var e, f := Exceptions(regs, curMin), Exceptions(changed, curMin);
    forall c | c in e ensures Slot(c) < |regs| && c == Pack(Slot(c), regs[Slot(c)]) && Exceptional(regs, curMin, Slot(c)) {
      ExceptionSlots(regs, curMin, lg, c);
    }
    forall c | c in f ensures Slot(c) < |regs| && c == Pack(Slot(c), changed[Slot(c)]) && Exceptional(changed, curMin, Slot(c)) {
      ExceptionSlots(changed, curMin, lg, c);
    }
    forall c | c in e && Slot(c) != slot ensures c in f {
      assert Exceptional(changed, curMin, Slot(c)) && changed[Slot(c)] == regs[Slot(c)];
    }
    forall c | c in f && Slot(c) != slot ensures c in e {
      assert Exceptional(regs, curMin, Slot(c)) && changed[Slot(c)] == regs[Slot(c)];
    }
    KeyOfPack(slot, value, lg);
    if value >= curMin + AUX_TOKEN {
      assert Exceptional(changed, curMin, slot);
    }
    if regs[slot] >= curMin + AUX_TOKEN {
      assert Exceptional(regs, curMin, slot);
      KeyOfPack(slot, regs[slot], lg);
    }
  }

  // ------------------------------------------------ raising the minimum

  /** All stored values one lower, exceptions still marked by the token. */
  ghost predicate Decremented(raws0: seq<nat>, raws: seq<nat>, n: nat) {
    && |raws| == |raws0| && n <= |raws|
    && forall i :: 0 <= i < |raws| ==> raws[i] == if i < n && 1 <= raws0[i] < AUX_TOKEN then raws0[i] - 1 else raws0[i]
  }

  /** The exceptions met so far have their new stored value, the others still the token. */
  ghost predicate Moving(regs: seq<nat>, curMin: nat, met: set<nat>, raws: seq<nat>) {
    && |raws| == |regs|
    && (forall i :: 0 <= i < |regs| ==> curMin < regs[i] <= 63)
    && (forall i :: 0 <= i < |regs| ==> raws[i] == MovingNibble(regs, curMin, met, i))
  }

  ghost function MovingNibble(regs: seq<nat>, curMin: nat, met: set<nat>, i: nat): nat
    requires i < |regs|
  {
    if Exceptional(regs, curMin, i) && Pack(i, regs[i]) !in met then AUX_TOKEN else Nibble(regs[i], curMin + 1)
  }

  /** Of the exceptions met, those that remain exceptions. */
  ghost function StillHigh(met: set<nat>, curMin: nat): set<nat> {
    set c | c in met && Value(c) >= curMin + AUX_TOKEN
  }

  lemma MovingStarts(regs: seq<nat>, curMin: nat, raws0: seq<nat>, raws: seq<nat>)
    requires Nibbles(regs, curMin, raws0) && Decremented(raws0, raws, |raws0|) && curMin !in regs
    ensures Moving(regs, curMin, {}, raws)
  {
    forall i | 0 <= i < |regs| ensures regs[i] > curMin {
      assert regs[i] in regs;
    }
  }

  lemma MovingNext(regs: seq<nat>, curMin: nat, met: set<nat>, raws: seq<nat>, c: nat, lg: nat)
    requires Moving(regs, curMin, met, raws) && c in Exceptions(regs, curMin) && |regs| == Pow2(lg) && lg <= 26
    ensures Slot(c) < |regs| && 1 <= Value(c) <= 63 && Value(c) >= curMin + 1
    ensures Moving(regs, curMin, met + {c},
      if Value(c) - (curMin + 1) < AUX_TOKEN then raws[Slot(c) := Value(c) - (curMin + 1)] else raws)
  {
    ExceptionSlots(regs, curMin, lg, c);
    forall i | 0 <= i < |regs| ensures Exceptional(regs, curMin, i) && i != Slot(c) ==> Pack(i, regs[i]) != c {
      KeyOfPack(i, regs[i], lg);
    }
  }

  lemma MovingEnds(regs: seq<nat>, curMin: nat, raws: seq<nat>)
    requires Moving(regs, curMin, Exceptions(regs, curMin), raws)
    ensures Nibbles(regs, curMin + 1, raws)
  {
    forall i | 0 <= i < |regs| ensures raws[i] == Nibble(regs[i], curMin + 1) {
      if Exceptional(regs, curMin, i) {
        assert Pack(i, regs[i]) in Exceptions(regs, curMin);
      }
    }
  }

  lemma HighRemain(regs: seq<nat>, curMin: nat, lg: nat)
    requires |regs| == Pow2(lg) && lg <= 26
    ensures StillHigh(Exceptions(regs, curMin), curMin + 1) == Exceptions(regs, curMin + 1)
  {
    forall c | c in Exceptions(regs, curMin) ensures c in Exceptions(regs, curMin + 1) <==> Value(c) >= curMin + 1 + AUX_TOKEN {
      ExceptionSlots(regs, curMin, lg, c);
      if Value(c) >= curMin + 1 + AUX_TOKEN {
        assert Exceptional(regs, curMin + 1, Slot(c));
      } else if c in Exceptions(regs, curMin + 1) {
        ExceptionSlots(regs, curMin + 1, lg, c);
      }
    }
    forall c | c in Exceptions(regs, curMin + 1) ensures c in Exceptions(regs, curMin) {
      ExceptionSlots(regs, curMin + 1, lg, c);
      assert Exceptional(regs, curMin, Slot(c));
    }
  }

  // ------------------------------------------------------------ the class

  class Array4 {
    const lgConfigK: nat
    var bytes: array<nat>
    var curMin: nat
    var numAtCurMin: nat
    var auxMap: AuxMap?
    /** The stored 4-bit values, and the registers they and the exceptions stand for. */
    ghost var raws: seq<nat>
    ghost var regs: seq<nat>
    ghost var Repr: set<object>

    ghost predicate Owned()
      reads this, Repr
    {
      && this in Repr && bytes in Repr && 4 <= lgConfigK <= 21
      && (auxMap != null ==> auxMap in Repr && auxMap.entries in Repr && auxMap.entries != bytes)
      && (auxMap != null ==> auxMap.Valid() && auxMap.lgConfigK == lgConfigK)
    }

    ghost function AuxPairs(): set<nat>
      requires Owned()
      reads this, Repr
    {
      if auxMap == null then {} else auxMap.Pairs()
    }

    /** Nibbles and exceptions together are the registers. */
    ghost predicate Packed()
      reads this, Repr
    {
      && Owned() && |regs| == Pow2(lgConfigK) && Stores(bytes[..], raws)
      && Nibbles(regs, curMin, raws) && AuxPairs() == Exceptions(regs, curMin)
    }

    /** The minimum is attained, and counted. */
    ghost predicate Valid()
      reads this, Repr
    {
      Packed() && numAtCurMin == CountOf(regs, curMin) && numAtCurMin > 0
    }

    constructor (lgConfigK: nat)
      requires 4 <= lgConfigK <= 21
      ensures Valid() && fresh(Repr) && regs == ZeroRegisters(Pow2(lgConfigK)) && this.lgConfigK == lgConfigK
    {
      this.lgConfigK := lgConfigK;
      bytes := new nat[Pow2(lgConfigK - 1)](_ => 0);
      curMin := 0;
      numAtCurMin := Pow2(lgConfigK);
      auxMap := null;
      raws := ZeroRegisters(Pow2(lgConfigK));
      regs := ZeroRegisters(Pow2(lgConfigK));
      new;
      Repr := {this, bytes};
      CountZero(regs, 0);
      assert Exceptions(regs, 0) == {};
    }

    method GetRaw(slot: nat) returns (raw: nat)
      requires Stores(bytes[..], raws) && slot < |raws|
      ensures raw == raws[slot] <= AUX_TOKEN
    {
      raw := if slot % 2 == 0 then bytes[slot / 2] % 16 else bytes[slot / 2] / 16;
      assert NibbleAt(bytes[..], slot) == raws[slot];
    }

    method PutRaw(slot: nat, value: nat)
      requires Stores(bytes[..], raws) && slot < |raws| && value <= AUX_TOKEN
      modifies this`raws, bytes
      ensures Stores(bytes[..], raws) && raws == old(raws)[slot := value]
    {
      hide Stores;
      ghost var before := bytes[..];
      StoresSize(before, raws);
      PutNibble(before, raws, slot, value);
      bytes[slot / 2] := SetNibble(bytes[slot / 2], slot, value);
      assert bytes[..] == before[slot / 2 := SetNibble(before[slot / 2], slot, value)];
      raws := raws[slot := value];
    }

    lemma Facts()
      requires Packed()
      ensures Owned() && |regs| == |raws| == Pow2(lgConfigK) && Stores(bytes[..], raws) && lgConfigK <= 21
      ensures forall i :: 0 <= i < |regs| ==> curMin <= regs[i] <= 63 && raws[i] == Nibble(regs[i], curMin)
      ensures AuxPairs() == Exceptions(regs, curMin)
    {
    }

    /** The register of a slot; the code's fallback is never taken. */
    method Get(slot: nat) returns (value: nat)
      requires Packed() && slot < |regs|
      ensures value == regs[slot] <= 63
    {
      Facts();
      var raw := GetRaw(slot);
      if raw < AUX_TOKEN {
        return curMin + raw;
      }
      value := GetException(slot);
    }

    /** A slot holding the token is in the exception map. */
    method GetException(slot: nat) returns (value: nat)
      requires Packed() && slot < |regs| && raws[slot] == AUX_TOKEN
      ensures value == regs[slot]
    {
      Facts();
      assert Exceptional(regs, curMin, slot);
      assert Pack(slot, regs[slot]) in Exceptions(regs, curMin);
      assert auxMap != null;
      var found := auxMap.Get(slot);
      ExceptionOf(regs, curMin, slot, found.value, lgConfigK);
      value := found.value;
    }

    /** All registers are zero. */
    predicate IsEmpty()
      requires Valid()
      reads this, Repr
      ensures IsEmpty() <==> forall i :: 0 <= i < |regs| ==> regs[i] == 0
    {
      assert (numAtCurMin == |regs| && curMin == 0) <==> forall i :: 0 <= i < |regs| ==> regs[i] == 0 by {
        EmptyCount(regs, curMin);
      }
      numAtCurMin == Pow2(lgConfigK) && curMin == 0
    }

    /** Keeps the larger of the register and the coupon's value. */
    method Update(coupon: nat)
      requires Valid() && Coupon(coupon)
      modifies Repr
      ensures Valid() && fresh(Repr - old(Repr))
      ensures regs == Raise(old(regs), Register(coupon, lgConfigK), Value(coupon))
    {
      hide Stores, Nibbles, Exceptions, CountOf, Register, Coupon, Value, Pow2, Nibble;
      var slot := Register(coupon, lgConfigK);
      var newValue := Value(coupon);
      CouponRange(coupon);
      AtSlot(slot);
      if newValue <= curMin {
        return;
      }
      var rawStored := GetRaw(slot);
      var lowerBound := rawStored + curMin;
      if newValue <= lowerBound {
        return;
      }
      var oldValue := Get(slot);
      if newValue <= oldValue {
        return;
      }
      CountUpdate(regs, slot, newValue, curMin);
      StoreValue(slot, rawStored, newValue);
      if oldValue == curMin {
        numAtCurMin := numAtCurMin - 1;
        while numAtCurMin == 0
          invariant Packed() && fresh(Repr - old(Repr)) && numAtCurMin == CountOf(regs, curMin)
          invariant regs == old(regs)[slot := newValue]
          decreases 64 - curMin
        {
          MinBelow63();
          ShiftToBiggerCurMin();
        }
      }
    }

    lemma AtSlot(slot: nat)
      requires Packed() && slot < Pow2(lgConfigK)
      ensures |regs| == |raws| == Pow2(lgConfigK) && Stores(bytes[..], raws) && Owned()
      ensures curMin <= regs[slot] <= 63 && raws[slot] == Nibble(regs[slot], curMin) && regs[slot] >= raws[slot] + curMin
    {
      Facts();
    }

    lemma MinBelow63()
      requires Packed() && CountOf(regs, curMin) == 0
      ensures curMin < 63 && curMin !in regs
    {
      Facts();
      CountZero(regs, curMin);
      assert regs[0] in regs;
    }

    /** The four cases of a stored and a new value. */
    method StoreValue(slot: nat, rawStored: nat, newValue: nat)
      requires Packed() && slot < |regs| && rawStored == raws[slot] && regs[slot] < newValue <= 63 && newValue > curMin + rawStored
      modifies Repr
      ensures Packed() && fresh(Repr - old(Repr)) && numAtCurMin == old(numAtCurMin) && curMin == old(curMin)
      ensures regs == old(regs)[slot := newValue]
    {
      hide Stores, Nibbles, Exceptions, CountOf, Pow2, Exceptional, AuxMap.Valid, AuxMap.Pairs, Pack;
      PackedNibbles();
      AtSlot(slot);
      ExceptionsRaise(regs, curMin, slot, newValue, lgConfigK);
      NibblesRaise(regs, curMin, raws, slot, newValue);
      var shiftedNew := newValue - curMin;
      if rawStored == AUX_TOKEN {
        if shiftedNew >= AUX_TOKEN {
          ReplaceException(slot, newValue);
        } else {
          assert false;
        }
      } else if shiftedNew >= AUX_TOKEN {
        PutRaw(slot, AUX_TOKEN);
        InsertException(slot, newValue);
      } else {
        PutRaw(slot, shiftedNew);
      }
      regs := regs[slot := newValue];
    }

    method ReplaceException(slot: nat, newValue: nat)
      requires Owned() && slot < Pow2(lgConfigK) && slot < |regs| && 1 <= regs[slot] && 1 <= newValue <= 63
      requires Pack(slot, regs[slot]) in AuxPairs()
      modifies Repr - {this, bytes}
      ensures Owned() && AuxPairs() == old(AuxPairs()) - {Pack(slot, regs[slot])} + {Pack(slot, newValue)}
    {
      auxMap.Replace(slot, newValue, regs[slot]);
    }

    method InsertException(slot: nat, newValue: nat)
      requires Owned() && slot < Pow2(lgConfigK) && 1 <= newValue <= 63
      requires forall c :: c in AuxPairs() ==> Slot(c) != slot
      modifies this`auxMap, this`Repr, Repr - {this, bytes}
      ensures Owned() && fresh(Repr - old(Repr)) && AuxPairs() == old(AuxPairs()) + {Pack(slot, newValue)}
    {
      if auxMap == null {
        auxMap := new AuxMap(lgConfigK);
        Repr := Repr + {auxMap, auxMap.entries};
      }
      auxMap.Insert(slot, newValue);
      Repr := Repr + {auxMap.entries};
    }

    /** Raises the minimum by one: every stored value drops by one, and exceptions that come into
      * reach move out of the map. */
    method ShiftToBiggerCurMin()
      requires Packed() && curMin !in regs && CountOf(regs, curMin) == 0 && curMin < 63
      modifies Repr
      ensures Packed() && fresh(Repr - old(Repr)) && curMin == old(curMin) + 1
      ensures regs == old(regs) && numAtCurMin == CountOf(regs, curMin)
    {
      hide Stores, Nibbles, Exceptions, CountOf, Moving, Decremented, Pow2;
      ghost var raws0 := raws;
      Facts();
      PackedNibbles();
      var numAtNew := DecrementAll();
      MovingStarts(regs, curMin, raws0, raws);
      if auxMap != null {
        MoveExceptions();
      } else {
        NothingHigh(regs, curMin, raws, lgConfigK);
      }
      curMin := curMin + 1;
      numAtCurMin := numAtNew;
    }

    lemma PackedNibbles()
      requires Packed()
      ensures Nibbles(regs, curMin, raws) && Stores(bytes[..], raws) && |regs| == |raws|
    {
    }

    method DecrementAll() returns (numAtNew: nat)
      requires Stores(bytes[..], raws) && Nibbles(regs, curMin, raws) && curMin !in regs
      modifies this`raws, bytes
      ensures Stores(bytes[..], raws) && Decremented(old(raws), raws, |raws|) && |raws| == |old(raws)|
      ensures numAtNew == CountOf(regs, curMin + 1)
    {
      hide Stores, Nibbles, CountOf, Decremented;
      ghost var raws0 := raws;
      DecrementedNone(raws0);
      NibblesSize(regs, curMin, raws0);
      numAtNew := 0;
      StoresSize(bytes[..], raws);
      CountNone(regs, curMin + 1);
      for slot := 0 to 2 * bytes.Length
        invariant Stores(bytes[..], raws) && |raws| == |raws0| && Decremented(raws0, raws, slot)
        invariant numAtNew == CountOf(regs[..slot], curMin + 1)
      {
        DecrementStep(regs, curMin, raws0, raws, slot);
        var raw := GetRaw(slot);
        if raw < AUX_TOKEN {
          PutRaw(slot, raw - 1);
          if raw - 1 == 0 {
            numAtNew := numAtNew + 1;
          }
        }
      }
      assert regs[..|regs|] == regs;
    }

    method MoveExceptions()
      requires Owned() && auxMap != null && Stores(bytes[..], raws) && Moving(regs, curMin, {}, raws)
      requires |regs| == |raws| == Pow2(lgConfigK) && auxMap.Pairs() == Exceptions(regs, curMin)
      modifies this`raws, this`auxMap, this`Repr, bytes
      ensures Owned() && fresh(Repr - old(Repr)) && Stores(bytes[..], raws)
      ensures Nibbles(regs, curMin + 1, raws) && AuxPairs() == Exceptions(regs, curMin + 1)
    {
      hide Stores, Nibbles, Exceptions, Moving, StillHigh, Pow2;
      var newAux := MoveEntries(auxMap);
      auxMap := newAux;
      if newAux != null {
        Repr := Repr + {newAux, newAux.entries};
      }
      MovingEnds(regs, curMin, raws);
      HighRemain(regs, curMin, lgConfigK);
    }

    /** Lowers the exceptions that came into reach; the others go to a new map. */
    method MoveEntries(oldAux: AuxMap) returns (newAux: AuxMap?)
      requires oldAux.Valid() && oldAux.lgConfigK == lgConfigK && 4 <= lgConfigK <= 21 && oldAux.entries != bytes
      requires Stores(bytes[..], raws) && Moving(regs, curMin, {}, raws)
      requires |regs| == |raws| == Pow2(lgConfigK) && oldAux.Pairs() == Exceptions(regs, curMin)
      modifies this`raws, bytes
      ensures Stores(bytes[..], raws) && Moving(regs, curMin, Exceptions(regs, curMin), raws)
      ensures newAux == null ==> StillHigh(Exceptions(regs, curMin), curMin + 1) == {}
      ensures newAux != null ==> fresh(newAux) && fresh(newAux.entries) && newAux.Valid() && newAux.lgConfigK == lgConfigK
      ensures newAux != null ==> newAux.Pairs() == StillHigh(Exceptions(regs, curMin), curMin + 1)
    {
      hide Stores, Nibbles, Exceptions, Moving, StillHigh, Pow2, Items, Findable, InSlots, Distinct, AuxMap.Valid;
      oldAux.Facts();
      ghost var s := oldAux.entries[..];
      assert s[..|s|] == s;
      NoneMet(s, curMin + 1);
      newAux := null;
      for i := 0 to oldAux.entries.Length
        invariant oldAux.entries[..] == s && Stores(bytes[..], raws) && |raws| == |regs|
        invariant Moving(regs, curMin, Items(s[..i]), raws)
        invariant newAux == null ==> StillHigh(Items(s[..i]), curMin + 1) == {}
        invariant newAux != null ==> fresh(newAux) && fresh(newAux.entries) && newAux.Valid() && newAux.lgConfigK == lgConfigK
        invariant newAux != null ==> newAux.Pairs() == StillHigh(Items(s[..i]), curMin + 1)
      {
        hide *;
        var entry := oldAux.entries[i];
        EntryFacts(regs, curMin, raws, s, i, lgConfigK);
        if entry != EMPTY {
          var slot, value := LowBits(Slot(entry), lgConfigK), Value(entry);
          var newShifted := value - (curMin + 1);
          if newShifted < AUX_TOKEN {
            PutRaw(slot, newShifted);
          } else {
            newAux := WithException(newAux, lgConfigK, slot, value);
          }
        }
      }
    }
  }

  /** Adds to a map, creating it for its first entry. */
  method WithException(aux: AuxMap?, lgConfigK: nat, slot: nat, value: nat) returns (r: AuxMap)
    requires 1 <= lgConfigK <= 26 && slot < Pow2(lgConfigK) && 1 <= value <= 63
    requires aux != null ==> aux.Valid() && aux.lgConfigK == lgConfigK && forall c :: c in aux.Pairs() ==> Slot(c) != slot
    modifies if aux == null then {} else {aux, aux.entries}
    ensures r.Valid() && r.lgConfigK == lgConfigK
    ensures r.Pairs() == (if aux == null then {} else old(aux.Pairs())) + {Pack(slot, value)}
    ensures if aux == null then fresh(r) && fresh(r.entries) else r == aux && (r.entries == old(aux.entries) || fresh(r.entries))
  {
    hide AuxMap.Valid, AuxMap.Pairs;
    if aux == null {
      r := new AuxMap(lgConfigK);
    } else {
      r := aux;
    }
    r.Insert(slot, value);
  }

  lemma EntryFacts(regs: seq<nat>, curMin: nat, raws: seq<nat>, s: seq<nat>, i: nat, lg: nat)
    requires i < |s| && Distinct(BySlot(lg), s) && InSlots(Items(s), lg) && Items(s) == Exceptions(regs, curMin)
    requires Moving(regs, curMin, Items(s[..i]), raws) && |regs| == Pow2(lg) && lg <= 26
    ensures s[i] == EMPTY ==> Items(s[..i + 1]) == Items(s[..i])
    ensures s[i] != EMPTY ==>
      var slot, value, low := LowBits(Slot(s[i]), lg), Value(s[i]), curMin + 1;
      && slot < |regs| == |raws| && 1 <= value <= 63 && value >= low && s[i] == Pack(slot, value)
      && (value - low < AUX_TOKEN ==> Moving(regs, curMin, Items(s[..i + 1]), raws[slot := value - low]))
      && (value - low < AUX_TOKEN ==> StillHigh(Items(s[..i + 1]), low) == StillHigh(Items(s[..i]), low))
      && (value - low >= AUX_TOKEN ==> Moving(regs, curMin, Items(s[..i + 1]), raws))
      && (value - low >= AUX_TOKEN ==> StillHigh(Items(s[..i + 1]), low) == StillHigh(Items(s[..i]), low) + {Pack(slot, value)})
      && (forall c :: c in StillHigh(Items(s[..i]), low) ==> Slot(c) != slot)
  {
    hide Moving, StillHigh, Exceptions, Items, Distinct, InSlots, Pack, Slot, Value, LowBits, Pow2;
    PrefixItems(s, i);
    if s[i] != EMPTY {
      EntryIn(s, i);
      MovingNext(regs, curMin, Items(s[..i]), raws, s[i], lg);
      MovingSize(regs, curMin, Items(s[..i]), raws);
      HighNext(Items(s[..i]), curMin + 1, s[i]);
      KeyIsSlot(s, i, lg, curMin + 1);
    }
  }

  lemma MovingSize(regs: seq<nat>, curMin: nat, met: set<nat>, raws: seq<nat>)
    requires Moving(regs, curMin, met, raws)
    ensures |raws| == |regs|
  {
  }

  lemma NoneMet(s: seq<nat>, curMin: nat)
    ensures Items(s[..0]) == {} && StillHigh({}, curMin) == {}
  {
  }

  lemma EntryIn(s: seq<nat>, i: nat)
    requires i < |s| && s[i] != EMPTY
    ensures s[i] in Items(s)
  {
  }

  lemma HighNext(met: set<nat>, curMin: nat, c: nat)
    ensures StillHigh(met + {c}, curMin) ==
      if Value(c) >= curMin + AUX_TOKEN then StillHigh(met, curMin) + {c} else StillHigh(met, curMin)
  {
  }

  lemma KeyIsSlot(s: seq<nat>, i: nat, lgK: nat, curMin: nat)
    requires i < |s| && s[i] != EMPTY && Distinct(BySlot(lgK), s) && InSlots(Items(s), lgK)
    ensures LowBits(Slot(s[i]), lgK) == Slot(s[i]) < Pow2(lgK) && s[i] == Pack(Slot(s[i]), Value(s[i]))
    ensures forall c :: c in StillHigh(Items(s[..i]), curMin) ==> Slot(c) != Slot(s[i])
  {
    LowBitsBound(Slot(s[i]), lgK);
    KeyOfSlot(s[i], lgK);
    PrefixApart(BySlot(lgK), s, i);
    forall c | c in Items(s[..i]) ensures Slot(c) != Slot(s[i]) {
      KeyOfSlot(c, lgK);
    }
  }

  lemma DecrementedNone(raws: seq<nat>)
    ensures Decremented(raws, raws, 0)
  {
  }

  lemma CountNone(regs: seq<nat>, v: nat)
    ensures CountOf(regs[..0], v) == 0
  {
  }

  lemma NibblesSize(regs: seq<nat>, curMin: nat, raws: seq<nat>)
    requires Nibbles(regs, curMin, raws)
    ensures |regs| == |raws|
  {
  }

  lemma DecrementStep(regs: seq<nat>, curMin: nat, raws0: seq<nat>, raws: seq<nat>, slot: nat)
    requires Nibbles(regs, curMin, raws0) && curMin !in regs && slot < |raws| && Decremented(raws0, raws, slot)
    ensures raws[slot] >= 1 && slot < |regs|
    ensures raws[slot] < AUX_TOKEN ==> Decremented(raws0, raws[slot := raws[slot] - 1], slot + 1)
    ensures raws[slot] >= AUX_TOKEN ==> Decremented(raws0, raws, slot + 1)
    ensures CountOf(regs[..slot + 1], curMin + 1) == CountOf(regs[..slot], curMin + 1) + if raws[slot] == 1 then 1 else 0
  {
    assert regs[slot] in regs;
    assert regs[..slot + 1][..slot] == regs[..slot];
  }

  lemma NothingHigh(regs: seq<nat>, curMin: nat, raws: seq<nat>, lg: nat)
    requires Moving(regs, curMin, {}, raws) && Exceptions(regs, curMin) == {} && |regs| == Pow2(lg) && lg <= 26
    ensures Nibbles(regs, curMin + 1, raws) && Exceptions(regs, curMin + 1) == {}
  {
    MovingEnds(regs, curMin, raws);
    HighRemain(regs, curMin, lg);
  }

  lemma EmptyCount(regs: seq<nat>, curMin: nat)
    requires CountOf(regs, curMin) > 0
    ensures (CountOf(regs, curMin) == |regs| && curMin == 0) <==> forall i :: 0 <= i < |regs| ==> regs[i] == 0
  {
    CountZero(regs, curMin);
  }

  lemma NibblesRaise(regs: seq<nat>, curMin: nat, raws: seq<nat>, slot: nat, value: nat)
    requires Nibbles(regs, curMin, raws) && slot < |regs| && regs[slot] < value <= 63
    ensures Nibbles(regs[slot := value], curMin, raws[slot := Nibble(value, curMin)])
    ensures raws[slot] == AUX_TOKEN <==> regs[slot] >= curMin + AUX_TOKEN
    ensures raws[slot] == AUX_TOKEN ==> raws[slot := Nibble(value, curMin)] == raws
  {
  }

  lemma StoresSize(bytes: seq<nat>, raws: seq<nat>)
    requires Stores(bytes, raws)
    ensures |raws| == 2 * |bytes|
  {
  }
}
