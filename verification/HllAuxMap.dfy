/** The exceptions of a 4-bit array, by slot: `hll/aux_map.rs`. */
module HllAuxMap {
  import opened Powers
  import opened Options
  import opened OpenAddressing
  import opened HllCoupons

  /** The starting size for each lg_config_k. */
  function LgAuxArrInts(lgConfigK: nat): (r: nat)
    requires lgConfigK <= 26
    ensures lgConfigK >= 1 ==> r >= 2
  {
    [0, 2, 2, 2, 2, 2, 2, 3, 3, 3,
     4, 4, 5, 5, 6, 7, 8, 9, 10, 11,
     12, 13, 14, 15, 16, 17, 18][lgConfigK]
  }

  /** Packed coupons of slots below 2^lg. */
  ghost predicate InSlots(items: set<nat>, lg: nat) {
    forall c :: c in items ==> Slot(c) < Pow2(lg) && 1 <= Value(c) <= 63
  }

  lemma KeyOfSlot(c: nat, lg: nat)
    requires Slot(c) < Pow2(lg)
    ensures Key(BySlot(lg), c) == Slot(c) && c == Pack(Slot(c), Value(c))
  {
    LowBitsBound(Slot(c), lg);
    Repack(c);
  }

  lemma KeyOfPack(slot: nat, value: nat, lg: nat)
    requires slot < Pow2(lg) && lg <= 26 && value >= 1
    ensures Slot(Pack(slot, value)) == slot && Value(Pack(slot, value)) == value
    ensures Key(BySlot(lg), Pack(slot, value)) == slot && Pack(slot, value) != EMPTY
  {
    Monotone(lg, 26);
    Unpack(slot, value);
    KeyOfSlot(Pack(slot, value), lg);
  }

  class AuxMap {
    var lgSize: nat
    const lgConfigK: nat
    var entries: array<nat>
    var count: nat

    ghost predicate Shaped()
      reads this, entries
    {
      && lgConfigK <= 26 && lgSize >= 2 && Findable(BySlot(lgConfigK), entries[..], lgSize)
      && count == |Items(entries[..])| && InSlots(Items(entries[..]), lgConfigK)
    }

    /** At most three quarters full. */
    ghost predicate Valid()
      reads this, entries
    {
      Shaped() && 4 * count <= 3 * entries.Length
    }

    /** The packed (slot, value) pairs, one for each slot. */
    ghost function Pairs(): set<nat>
      reads this`entries, entries
    {
      Items(entries[..])
    }

    constructor (lgConfigK: nat)
      requires 1 <= lgConfigK <= 26
      ensures Valid() && fresh(entries) && Pairs() == {} && this.lgConfigK == lgConfigK
    {
      this.lgConfigK := lgConfigK;
      lgSize := LgAuxArrInts(lgConfigK);
      entries := new nat[Pow2(LgAuxArrInts(lgConfigK))](_ => EMPTY);
      count := 0;
      new;
      NoItems(BySlot(lgConfigK), entries[..], lgSize);
    }

    lemma Facts()
      requires Valid()
      ensures entries.Length == Pow2(lgSize) >= 4 && count == |Pairs()| && lgConfigK <= 26
      ensures Findable(BySlot(lgConfigK), entries[..], lgSize) && Distinct(BySlot(lgConfigK), entries[..])
      ensures InSlots(Pairs(), lgConfigK) && 4 * count <= 3 * entries.Length
    {
      Monotone(2, lgSize);
      assert Pow2(2) == 4;
    }

    /** Where the slot is, or would go; a full table cannot be. */
    method FindSlot(slot: nat) returns (index: nat, ghost j: nat)
      requires Valid()
      ensures index < entries.Length == Pow2(lgSize)
      ensures index == Path(BySlot(lgConfigK), slot, lgSize, j) && Stopped(BySlot(lgConfigK), entries[..], slot, lgSize, j)
      ensures entries[index] != EMPTY <==> HasKey(BySlot(lgConfigK), entries[..], slot)
    {
      hide Findable, Stopped, Missed, Path, Items, HasKey, InSlots;
      Facts();
      ghost var kind := BySlot(lgConfigK);
      ghost var e := FreeSlot(kind, entries[..]);
      var found, i, jj := Find(BySlot(lgConfigK), entries, slot, lgSize);
      FreeSlotStops(kind, entries[..], slot, lgSize, e);
      ProbeDecides(kind, entries[..], slot, lgSize, jj);
      index, j := i, jj;
    }

    /** The value of a slot, if it has one. */
    method Get(slot: nat) returns (value: Option<nat>)
      requires Valid()
      ensures value.Some? ==> Pack(slot, value.value) in Pairs() && value.value >= 1
      ensures value.None? ==> forall v :: v >= 1 && slot < Pow2(lgConfigK) ==> Pack(slot, v) !in Pairs()
    {
      var index, j := FindSlot(slot);
      if entries[index] != EMPTY {
        StoppedAt(entries[..], slot, lgConfigK, lgSize, j);
        return Some(Value(entries[index]));
      }
      NoPair(entries[..], slot, lgConfigK);
      return None;
    }

    /** Adds a slot that is not there yet: the code's `unreachable!` is. */
    method Insert(slot: nat, value: nat)
      requires Valid() && slot < Pow2(lgConfigK) && 1 <= value <= 63
      requires forall c :: c in Pairs() ==> Slot(c) != slot
      modifies this, entries
      ensures Valid() && Pairs() == old(Pairs()) + {Pack(slot, value)}
      ensures entries == old(entries) || fresh(entries)
    {
      hide Findable, Stopped, Missed, Path, Items, HasKey, InSlots;
      Facts();
      ghost var s := entries[..];
      KeyOfPack(slot, value, lgConfigK);
      Absent(s, slot, lgConfigK);
      var index, j := FindSlot(slot);
      PutKeeps(BySlot(lgConfigK), s, Pack(slot, value), lgSize, j);
      InSlotsPut(Items(s), Pack(slot, value), lgConfigK);
      entries[index] := Pack(slot, value);
      assert entries[..] == s[index := Pack(slot, value)];
      count := count + 1;
      CheckGrow();
    }

    /** Changes the value of a slot that is there: the code's `unreachable!` is. */
    method Replace(slot: nat, value: nat, ghost oldValue: nat)
      requires Valid() && slot < Pow2(lgConfigK) && 1 <= value <= 63
      requires oldValue >= 1 && Pack(slot, oldValue) in Pairs()
      modifies entries
      ensures Valid() && Pairs() == old(Pairs()) - {Pack(slot, oldValue)} + {Pack(slot, value)}
    {
      hide Findable, Stopped, Missed, Path, Items, HasKey, InSlots, Key, Pack;
      Facts();
      ghost var s := entries[..];
      KeyOfPack(slot, oldValue, lgConfigK);
      Present(s, slot, oldValue, lgConfigK);
      var index, j := FindSlot(slot);
      ReplaceWorks(s, slot, oldValue, value, lgConfigK, lgSize, j);
      entries[index] := Pack(slot, value);
      assert entries[..] == s[index := Pack(slot, value)];
    }

    method CheckGrow()
      requires Shaped() && 4 * (count - 1) <= 3 * entries.Length
      modifies this`lgSize, this`entries
      ensures Valid() && Pairs() == old(Pairs()) && (entries == old(entries) || fresh(entries))
    {
      if 4 * count > 3 * entries.Length {
        Grow();
      }
    }

    /** Rehashes every entry into a table twice as large. */
    method Grow()
      requires Shaped() && 4 * (count - 1) <= 3 * entries.Length
      modifies this`lgSize, this`entries
      ensures Valid() && Pairs() == old(Pairs()) && fresh(entries)
    {
      hide Findable, Items, InSlots, Pow2;
      ShapedFacts();
      var newEntries := Rehashed(lgSize + 1);
      DoubleSize(lgSize);
      entries := newEntries;
      lgSize := lgSize + 1;
    }

    lemma ShapedFacts()
      requires Shaped()
      ensures entries.Length == Pow2(lgSize) && Distinct(BySlot(lgConfigK), entries[..])
    {
    }

    method Rehashed(newLgSize: nat) returns (newEntries: array<nat>)
      requires Shaped() && newLgSize == lgSize + 1
      ensures fresh(newEntries) && Findable(BySlot(lgConfigK), newEntries[..], newLgSize)
      ensures newEntries.Length == Pow2(newLgSize) && Items(newEntries[..]) == Pairs()
    {
      hide Findable, Items, InSlots, HasKey, Key, Pow2;
      ghost var kind, s := BySlot(lgConfigK), entries[..];
      ShapedFacts();
      DoubleSize(lgSize);
      newEntries := new nat[Pow2(newLgSize)](_ => EMPTY);
      NoItems(kind, newEntries[..], newLgSize);
      NoItems(kind, s[..0], newLgSize);
      assert s[..|s|] == s;
      for i := 0 to entries.Length
        invariant Findable(kind, newEntries[..], newLgSize) && Items(newEntries[..]) == Items(s[..i])
        invariant entries[..] == s
      {
        PrefixItems(s, i);
        if entries[i] != EMPTY {
          RehashFits(kind, s, i, newEntries[..]);
          PlaceNew(BySlot(lgConfigK), newEntries, entries[i], newLgSize);
        }
      }
    }
  }

  lemma DoubleSize(lg: nat)
    requires lg >= 2
    ensures Pow2(lg + 1) == 2 * Pow2(lg) && Pow2(lg) >= 4
  {
    Monotone(2, lg);
    assert Pow2(2) == 4;
  }

  lemma ReplaceWorks(s: seq<nat>, slot: nat, oldValue: nat, value: nat, lgK: nat, lg: nat, j: nat)
    requires Findable(BySlot(lgK), s, lg) && Stopped(BySlot(lgK), s, slot, lg, j) && InSlots(Items(s), lgK)
    requires slot < Pow2(lgK) && lgK <= 26 && oldValue >= 1 && 1 <= value <= 63
    requires s[Path(BySlot(lgK), slot, lg, j)] != EMPTY && Pack(slot, oldValue) in Items(s)
    ensures var t := s[Path(BySlot(lgK), slot, lg, j) := Pack(slot, value)];
      && Findable(BySlot(lgK), t, lg) && Items(t) == Items(s) - {Pack(slot, oldValue)} + {Pack(slot, value)}
      && |Items(t)| == |Items(s)| && InSlots(Items(t), lgK)
  {
    hide Findable, Stopped, Path, InSlots, Key, Pack;
    FindableSize(BySlot(lgK), s, lg);
    KeyOfPack(slot, value, lgK);
    KeyOfPack(slot, oldValue, lgK);
    OnlyPair(s, slot, oldValue, lgK, lg, j);
    ReplaceKeeps(BySlot(lgK), s, Path(BySlot(lgK), slot, lg, j), Pack(slot, value), lg);
    InSlotsPut(Items(s), Pack(slot, value), lgK);
    if Pack(slot, value) in Items(s) {
      SamePair(s, slot, oldValue, value, lgK, lg);
    }
    SwapSize(Items(s), Pack(slot, oldValue), Pack(slot, value));
  }

  lemma SamePair(s: seq<nat>, slot: nat, a: nat, b: nat, lgK: nat, lg: nat)
    requires Findable(BySlot(lgK), s, lg) && Pack(slot, a) in Items(s) && Pack(slot, b) in Items(s)
    requires Key(BySlot(lgK), Pack(slot, a)) == Key(BySlot(lgK), Pack(slot, b))
    ensures Pack(slot, a) == Pack(slot, b)
  {
    var i :| 0 <= i < |s| && s[i] == Pack(slot, a);
    var j :| 0 <= j < |s| && s[j] == Pack(slot, b);
  }

  lemma RehashFits(kind: Kind, s: seq<nat>, i: nat, t: seq<nat>)
    requires i < |s| && s[i] != EMPTY && Distinct(kind, s) && Items(t) == Items(s[..i]) && |t| >= |s|
    ensures |Items(t)| < |t| && !HasKey(kind, t, Key(kind, s[i]))
  {
    PrefixSmaller(kind, s, i);
    ItemsBound(kind, s);
    PrefixApart(kind, s, i);
    forall j | 0 <= j < |t| && t[j] != EMPTY ensures Key(kind, t[j]) != Key(kind, s[i]) {
      assert t[j] in Items(t);
    }
  }

  lemma StoppedAt(s: seq<nat>, slot: nat, lgK: nat, lg: nat, j: nat)
    requires |s| == Pow2(lg) && Stopped(BySlot(lgK), s, slot, lg, j) && InSlots(Items(s), lgK)
    requires s[Path(BySlot(lgK), slot, lg, j)] != EMPTY
    ensures var c := s[Path(BySlot(lgK), slot, lg, j)]; c == Pack(slot, Value(c)) && c in Items(s) && Value(c) >= 1
  {
    KeyOfSlot(s[Path(BySlot(lgK), slot, lg, j)], lgK);
  }

  lemma NoPair(s: seq<nat>, slot: nat, lgK: nat)
    requires lgK <= 26 && !HasKey(BySlot(lgK), s, slot)
    ensures forall v :: v >= 1 && slot < Pow2(lgK) ==> Pack(slot, v) !in Items(s)
  {
    forall v | v >= 1 && slot < Pow2(lgK) ensures Pack(slot, v) !in Items(s) {
      KeyOfPack(slot, v, lgK);
    }
  }

  lemma Absent(s: seq<nat>, slot: nat, lgK: nat)
    requires InSlots(Items(s), lgK) && forall c :: c in Items(s) ==> Slot(c) != slot
    ensures !HasKey(BySlot(lgK), s, slot)
  {
    forall i | 0 <= i < |s| && s[i] != EMPTY ensures Key(BySlot(lgK), s[i]) != slot {
      assert s[i] in Items(s);
      KeyOfSlot(s[i], lgK);
    }
  }

  lemma Present(s: seq<nat>, slot: nat, value: nat, lgK: nat)
    requires Pack(slot, value) in Items(s) && Key(BySlot(lgK), Pack(slot, value)) == slot
    ensures HasKey(BySlot(lgK), s, slot)
  {
    var i :| 0 <= i < |s| && s[i] == Pack(slot, value);
  }

  lemma OnlyPair(s: seq<nat>, slot: nat, value: nat, lgK: nat, lg: nat, j: nat)
    requires Findable(BySlot(lgK), s, lg) && Stopped(BySlot(lgK), s, slot, lg, j)
    requires s[Path(BySlot(lgK), slot, lg, j)] != EMPTY
    requires Pack(slot, value) in Items(s) && Key(BySlot(lgK), Pack(slot, value)) == slot
    ensures s[Path(BySlot(lgK), slot, lg, j)] == Pack(slot, value)
  {
    var i :| 0 <= i < |s| && s[i] == Pack(slot, value);
  }

  lemma InSlotsPut(items: set<nat>, c: nat, lgK: nat)
    requires InSlots(items, lgK) && Slot(c) < Pow2(lgK) && 1 <= Value(c) <= 63
    ensures InSlots(items + {c}, lgK) && forall x :: InSlots(items - {x} + {c}, lgK)
  {
  }

  lemma SwapSize(items: set<nat>, a: nat, b: nat)
    requires a in items && (b !in items || b == a)
    ensures |items - {a} + {b}| == |items|
  {
  }
}
