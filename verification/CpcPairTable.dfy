/** The linear-probing table of surprising (row, column) pairs: `cpc/pair_table.rs`. */
module CpcPairTable {
  import opened Powers
  import opened Sets
  import opened Cyclic
  import opened Options

  const EMPTY: nat := 0xFFFF_FFFF

  // ---------------------------------------------------------------- values

  ghost function Items(s: seq<nat>): set<nat> {
    set x | x in s && x != EMPTY
  }

  ghost predicate Distinct(s: seq<nat>) {
    forall i, j :: 0 <= i < j < |s| && s[i] != EMPTY ==> s[i] != s[j]
  }

  /** The high bits of an item select its first slot. */
  function Home(item: nat, shift: nat): nat {
    Shr(item, shift)
  }

  ghost predicate InRange(s: seq<nat>, bits: nat) {
    forall i :: 0 <= i < |s| && s[i] != EMPTY ==> s[i] < Pow2(bits)
  }

  ghost predicate HomesIn(s: seq<nat>, shift: nat) {
    forall i :: 0 <= i < |s| && s[i] != EMPTY ==> Home(s[i], shift) < |s|
  }

  /** Slot j lies on the probe path of the item at slot i, strictly before it. */
  ghost predicate Before(n: nat, home: nat, j: nat, i: nat)
    requires home < n && j < n && i < n
  {
    Dist(n, home, j) < Dist(n, home, i)
  }

  /** An empty slot j on the probe path of the item at slot i. */
  ghost predicate Gap(s: seq<nat>, shift: nat, i: nat, j: nat)
    requires HomesIn(s, shift) && i < |s| && j < |s|
  {
    s[i] != EMPTY && s[j] == EMPTY && Before(|s|, Home(s[i], shift), j, i)
  }

  ghost predicate Chained(s: seq<nat>, shift: nat)
    requires HomesIn(s, shift)
  {
    forall i, j :: 0 <= i < |s| && 0 <= j < |s| ==> !Gap(s, shift, i, j)
  }

  /** What a probe for `item` establishes about the slot p it stops at. */
  ghost predicate Probed(s: seq<nat>, shift: nat, item: nat, p: nat)
    requires Home(item, shift) < |s| && p < |s|
  {
    && (s[p] == item || s[p] == EMPTY)
    && forall j :: 0 <= j < |s| && Before(|s|, Home(item, shift), j, p) ==> s[j] != EMPTY && s[j] != item
  }

  lemma ProbeDecides(s: seq<nat>, shift: nat, item: nat, p: nat)
    requires HomesIn(s, shift) && Chained(s, shift)
    requires item != EMPTY && Home(item, shift) < |s| && p < |s|
    requires Probed(s, shift, item, p)
    ensures s[p] == item <==> item in Items(s)
  {
    if item in s {
      var i :| 0 <= i < |s| && s[i] == item;
      assert !Gap(s, shift, i, p);
    }
  }

  lemma ItemsPut(s: seq<nat>, p: nat, item: nat)
    requires p < |s| && s[p] == EMPTY && item != EMPTY
    ensures Items(s[p := item]) == Items(s) + {item}
  {
    var t := s[p := item];
    forall x | x in Items(s) ensures x in t {
      var i :| 0 <= i < |s| && s[i] == x;
      assert t[i] == x;
    }
    assert t[p] == item;
  }

  lemma ItemsDrop(s: seq<nat>, p: nat)
    requires p < |s| && s[p] != EMPTY && Distinct(s)
    ensures Items(s[p := EMPTY]) == Items(s) - {s[p]}
    ensures Distinct(s[p := EMPTY])
  {
    var t := s[p := EMPTY];
    forall x | x in Items(s) && x != s[p] ensures x in t {
      var i :| 0 <= i < |s| && s[i] == x;
      assert t[i] == x;
    }
  }

  lemma PutKeeps(s: seq<nat>, shift: nat, item: nat, p: nat)
    requires HomesIn(s, shift) && Distinct(s) && item !in Items(s)
    requires item != EMPTY && Home(item, shift) < |s| && p < |s| && s[p] == EMPTY
    requires Probed(s, shift, item, p)
    ensures HomesIn(s[p := item], shift) && Distinct(s[p := item])
    ensures Chained(s, shift) ==> Chained(s[p := item], shift)
    ensures forall bits :: InRange(s, bits) && item < Pow2(bits) ==> InRange(s[p := item], bits)
  {
    var t := s[p := item];
    if Chained(s, shift) {
      forall i, j | 0 <= i < |t| && 0 <= j < |t| ensures !Gap(t, shift, i, j) {
        assert !Gap(s, shift, i, j);
      }
    }
  }

  /** Items never outnumber slots, and fewer items than slots leave a hole. */
  lemma {:induction false} CountBound(s: seq<nat>)
    ensures |Items(s)| <= |s|
    ensures Distinct(s) && EMPTY !in s ==> |Items(s)| == |s|
  {
    if s != [] {
      var n := |s| - 1;
      var t := s[..n];
      assert s == t + [s[n]];
      CountBound(t);
      assert Items(s) == if s[n] == EMPTY then Items(t) else Items(t) + {s[n]};
    }
  }

  lemma HoleExists(s: seq<nat>) returns (e: nat)
    requires Distinct(s) && |Items(s)| < |s|
    ensures e < |s| && s[e] == EMPTY
  {
    CountBound(s);
    e :| 0 <= e < |s| && s[e] == EMPTY;
  }

  // ------------------------------------------------- deletion, on values

  /** While a cluster is being re-inserted, only slots from `probe` on may miss a hole,
    * and the hole they miss lies between the deleted slot `from` and `probe`. */
  ghost predicate Repairing(s: seq<nat>, shift: nat, from: nat, probe: nat)
    requires HomesIn(s, shift) && from < |s| && probe < |s|
  {
    forall i, j :: 0 <= i < |s| && 0 <= j < |s| && Gap(s, shift, i, j) ==>
      Dist(|s|, from, j) < Dist(|s|, from, probe) <= Dist(|s|, from, i)
  }

  lemma RepairStarts(s: seq<nat>, shift: nat, from: nat)
    requires HomesIn(s, shift) && Chained(s, shift) && from < |s| && 1 < |s|
    ensures HomesIn(s[from := EMPTY], shift)
    ensures Repairing(s[from := EMPTY], shift, from, Next(from, |s|))
  {
    var t := s[from := EMPTY];
    forall i, j | 0 <= i < |t| && 0 <= j < |t| && Gap(t, shift, i, j)
      ensures Dist(|s|, from, j) < Dist(|s|, from, Next(from, |s|)) <= Dist(|s|, from, i)
    {
      assert !Gap(s, shift, i, j);
    }
  }

  lemma RepairEnds(s: seq<nat>, shift: nat, from: nat, probe: nat)
    requires HomesIn(s, shift) && from < |s| && probe < |s| && s[probe] == EMPTY
    requires Repairing(s, shift, from, probe)
    ensures Chained(s, shift)
  {
    forall i, j | 0 <= i < |s| && 0 <= j < |s| ensures !Gap(s, shift, i, j) {
      if Gap(s, shift, i, j) {
        assert Gap(s, shift, i, probe);
        assert false;
      }
    }
  }

  /** Re-inserting the item at `probe` at the slot p its probe finds. */
  lemma RepairStep(s: seq<nat>, shift: nat, from: nat, probe: nat, p: nat, hole: nat)
    requires HomesIn(s, shift) && Distinct(s) && from < |s| && probe < |s| && p < |s| && hole < |s|
    requires s[probe] != EMPTY && s[hole] == EMPTY
    requires Dist(|s|, from, probe) < Dist(|s|, from, hole)
    requires Repairing(s, shift, from, probe)
    requires Probed(s[probe := EMPTY], shift, s[probe], p)
    ensures s[probe := EMPTY][p] == EMPTY && p != hole
    ensures var t := s[probe := EMPTY][p := s[probe]];
      && Items(t) == Items(s)
      && HomesIn(t, shift) && Distinct(t)
      && Repairing(t, shift, from, Next(probe, |s|))
  {
    var x := s[probe];
    var u := s[probe := EMPTY];
    ItemsDrop(s, probe);
    assert x !in Items(u);
    assert u[p] != x && u[probe] == EMPTY;
    assert !Before(|s|, Home(x, shift), probe, p);
    assert !Gap(s, shift, probe, hole);
    PutKeeps(u, shift, x, p);
    ItemsPut(u, p, x);
    assert x in Items(s) && Items(s) - {x} + {x} == Items(s);
    var t := u[p := x];
    forall i, j | 0 <= i < |t| && 0 <= j < |t| && Gap(t, shift, i, j)
      ensures Dist(|s|, from, j) < Dist(|s|, from, Next(probe, |s|)) <= Dist(|s|, from, i)
    {
      RepairPair(s, shift, from, probe, p, hole, i, j);
    }
  }

  lemma RepairPair(s: seq<nat>, shift: nat, from: nat, probe: nat, p: nat, hole: nat, i: nat, j: nat)
    requires HomesIn(s, shift) && from < |s| && probe < |s| && p < |s| && hole < |s| && i < |s| && j < |s|
    requires s[probe] != EMPTY && s[hole] == EMPTY
    requires Dist(|s|, from, probe) < Dist(|s|, from, hole)
    requires Repairing(s, shift, from, probe)
    requires Probed(s[probe := EMPTY], shift, s[probe], p)
    requires var t := s[probe := EMPTY][p := s[probe]]; HomesIn(t, shift) && Gap(t, shift, i, j)
    ensures Dist(|s|, from, j) < Dist(|s|, from, Next(probe, |s|)) <= Dist(|s|, from, i)
  {
    var t := s[probe := EMPTY][p := s[probe]];
    if i == p {
      assert false;
    } else {
      assert s[i] == t[i];
      assert i != probe;
      if j == probe {
        assert !Gap(s, shift, i, hole);
      } else {
        assert Gap(s, shift, i, j);
      }
    }
  }

  // ---------------------------------------------------------- the class

  class PairTable {
    const numValidBits: nat
    var lgSize: nat
    var numItems: nat
    var slots: array<nat>

    /** Shape of the buffer: what every probe relies on. */
    ghost predicate Shaped()
      reads this, slots
    {
      && 2 <= lgSize <= 26 && lgSize < numValidBits <= 32
      && slots.Length == Pow2(lgSize)
      && InRange(slots[..], numValidBits)
      && HomesIn(slots[..], Shift())
      && Distinct(slots[..])
    }

    ghost predicate Valid()
      reads this, slots
    {
      && Shaped()
      && Chained(slots[..], Shift())
      && numItems == |Contents()|
      && 4 * numItems <= 3 * slots.Length
    }

    ghost function Contents(): set<nat>
      reads this, slots
    {
      Items(slots[..])
    }

    ghost function Shift(): int
      reads this
    {
      numValidBits - lgSize
    }

    /** The largest table the code allows holds n items without growing again. */
    ghost predicate RoomFor(n: nat) {
      0 < numValidBits && 4 * n <= 3 * Pow2(if numValidBits <= 27 then numValidBits - 1 else 26)
    }

    constructor (lgSize: nat, numValidBits: nat)
      requires 2 <= lgSize <= 26 && lgSize + 1 <= numValidBits <= 32
      ensures Valid() && Contents() == {} && fresh(slots)
      ensures this.lgSize == lgSize && this.numValidBits == numValidBits
    {
      this.lgSize := lgSize;
      this.numValidBits := numValidBits;
      numItems := 0;
      slots := new nat[Pow2(lgSize)](_ => EMPTY);
    }

    /** A copy that shares nothing with the original. */
    method Clone() returns (c: PairTable)
      requires Valid()
      ensures fresh(c) && fresh(c.slots) && c.Valid()
      ensures c.numValidBits == numValidBits && c.Contents() == Contents()
    {
      c := new PairTable(lgSize, numValidBits);
      for i := 0 to slots.Length
        invariant c.lgSize == lgSize && c.slots.Length == slots.Length && fresh(c.slots) && c.slots != slots
        invariant c.slots[..i] == slots[..i]
      {
        c.slots[i] := slots[i];
      }
      assert c.slots[..] == slots[..];
      c.numItems := numItems;
    }

    method Clear()
      requires Valid()
      modifies this`numItems, slots
      ensures Valid() && Contents() == {}
    {
      forall i | 0 <= i < slots.Length {
        slots[i] := EMPTY;
      }
      numItems := 0;
    }

    /** Linear probing from the item's home slot to the item or to the first empty slot. */
    method Lookup(item: nat, ghost hole: nat) returns (probe: nat)
      requires Shaped() && item < Pow2(numValidBits)
      requires hole < slots.Length && slots[hole] == EMPTY
      ensures Home(item, Shift()) < slots.Length && probe < slots.Length
      ensures Probed(slots[..], Shift(), item, probe)
    {
      probe := Home(item, numValidBits - lgSize);
      ShrBounds(item, lgSize, numValidBits - lgSize);
      ghost var home := probe;
      while slots[probe] != item && slots[probe] != EMPTY
        invariant probe < slots.Length
        invariant Dist(slots.Length, home, probe) <= Dist(slots.Length, home, hole)
        invariant forall j :: 0 <= j < slots.Length && Before(slots.Length, home, j, probe) ==> slots[j] != EMPTY && slots[j] != item
        decreases Dist(slots.Length, home, hole) - Dist(slots.Length, home, probe)
      {
        probe := Next(probe, slots.Length);
      }
    }

    method MustInsert(item: nat, ghost hole: nat) returns (ghost p: nat)
      requires Shaped() && item < Pow2(numValidBits) && item != EMPTY && item !in Contents()
      requires hole < slots.Length && slots[hole] == EMPTY
      modifies slots
      ensures Home(item, Shift()) < slots.Length && p < slots.Length && old(slots[p]) == EMPTY
      ensures Probed(old(slots[..]), Shift(), item, p)
      ensures slots[..] == old(slots[..])[p := item]
    {
      var index := Lookup(item, hole);
      assert slots[index] != item;
      slots[index] := item;
      p := index;
    }

    /** Re-inserts an item into a table that has fewer items than slots. */
    method PlaceNew(item: nat)
      requires Shaped() && Chained(slots[..], Shift()) && |Contents()| < slots.Length
      requires item < Pow2(numValidBits) && item != EMPTY && item !in Contents()
      modifies slots
      ensures Shaped() && Chained(slots[..], Shift()) && Contents() == old(Contents()) + {item}
    {
      ghost var s := slots[..];
      ghost var hole := HoleExists(s);
      ShrBounds(item, lgSize, numValidBits - lgSize);
      ghost var p := MustInsert(item, hole);
      PutKeeps(s, Shift(), item, p);
      ItemsPut(s, p, item);
    }

    method Rebuild(newLgSize: nat)
      requires Shaped() && numItems == |Contents()|
      requires 2 <= newLgSize <= 26 && newLgSize + 1 <= numValidBits
      requires Pow2(newLgSize) > numItems
      modifies this`lgSize, this`slots
      ensures Shaped() && Chained(slots[..], Shift()) && fresh(slots)
      ensures lgSize == newLgSize && Contents() == old(Contents())
    {
      var oldSlots := slots;
      ghost var s := slots[..];
      slots := new nat[Pow2(newLgSize)](_ => EMPTY);
      lgSize := newLgSize;
      for i := 0 to oldSlots.Length
        invariant lgSize == newLgSize && fresh(slots) && slots != oldSlots && oldSlots[..] == s
        invariant Shaped() && Chained(slots[..], Shift())
        invariant Contents() == Items(s[..i])
      {
        hide Chained, HomesIn, Items, Distinct, Pow2, Shr;
        var slot := oldSlots[i];
        if slot != EMPTY {
          PrefixGrows(s, i);
          assert slot == s[i];
          PlaceNew(slot);
        } else {
          PrefixSkips(s, i);
        }
      }
      assert s[..|s|] == s;
    }

    /** Inserts an item, reports whether it was new, and grows past three-quarters full. */
    method MaybeInsert(item: nat) returns (novel: bool)
      requires Valid() && item < Pow2(numValidBits) && item != EMPTY
      requires item !in Contents() ==> RoomFor(numItems + 1)
      modifies this, slots
      ensures Valid() && (slots == old(slots) || fresh(slots))
      ensures novel == (item !in old(Contents()))
      ensures Contents() == old(Contents()) + {item}
      ensures lgSize >= old(lgSize) && (lgSize > old(lgSize) ==> 4 * numItems > 3 * Pow2(lgSize - 1))
    {
      hide Chained, HomesIn, Items, Distinct, InRange, RoomFor;
      ghost var s := slots[..];
      ghost var hole := HoleExists(s);
      var index := Lookup(item, hole);
      ProbeDecides(s, Shift(), item, index);
      if slots[index] == item {
        assert Contents() + {item} == Contents();
        return false;
      }
      assert Probed(s, Shift(), item, index);
      slots[index] := item;
      assert slots[..] == s[index := item];
      PutKeeps(s, Shift(), item, index);
      ItemsPut(s, index, item);
      numItems := numItems + 1;
      GrowWhileFull();
      novel := true;
    }

    lemma CanGrow()
      requires Shaped() && numItems <= slots.Length && RoomFor(numItems) && 4 * numItems > 3 * slots.Length
      ensures 2 <= lgSize < 26 && lgSize + 2 <= numValidBits && numItems < Pow2(lgSize + 1)
    {
      hide Distinct, HomesIn, InRange, Items, Pow2;
      GrowthFits(lgSize, numValidBits, numItems);
    }

    /** The loop at the end of an insertion: at most one slot in four stays free. */
    method GrowWhileFull()
      requires Shaped() && Chained(slots[..], Shift()) && numItems == |Contents()|
      requires numItems <= slots.Length && RoomFor(numItems)
      modifies this`lgSize, this`slots
      ensures Valid() && (slots == old(slots) || fresh(slots)) && Contents() == old(Contents())
      ensures lgSize >= old(lgSize) && (lgSize > old(lgSize) ==> 4 * numItems > 3 * Pow2(lgSize - 1))
    {
      hide Chained, Distinct, HomesIn, InRange, Items, Pow2, RoomFor;
      while 4 * numItems > 3 * slots.Length
        invariant Shaped() && Chained(slots[..], Shift()) && numItems == |Contents()|
        invariant slots == old(slots) || fresh(slots)
        invariant Contents() == old(Contents())
        invariant numItems <= slots.Length && RoomFor(numItems)
        invariant lgSize >= old(lgSize) && (lgSize > old(lgSize) ==> 4 * numItems > 3 * Pow2(lgSize - 1))
        decreases 26 - lgSize
      {
        CanGrow();
        Rebuild(lgSize + 1);
      }
    }

    /** Deletes an item, reports whether it was there, re-inserts the rest of its cluster,
      * and shrinks below a quarter full. */
    method MaybeDelete(item: nat) returns (found: bool)
      requires Valid() && item < Pow2(numValidBits) && item != EMPTY
      modifies this, slots
      ensures Valid() && (slots == old(slots) || fresh(slots))
      ensures found == (item in old(Contents()))
      ensures Contents() == old(Contents()) - {item}
      ensures found ==> lgSize == 2 || slots.Length <= 4 * numItems
      ensures lgSize <= old(lgSize) && (lgSize < old(lgSize) ==> found && 4 * numItems < Pow2(lgSize + 1))
    {
      ghost var s := slots[..];
      ghost var hole := HoleExists(s);
      var index := Lookup(item, hole);
      ProbeDecides(s, Shift(), item, index);
      if slots[index] == EMPTY {
        return false;
      }
      slots[index] := EMPTY;
      numItems := numItems - 1;
      assert slots[..] == s[index := EMPTY];
      ItemsDrop(s, index);
      RepairStarts(s, Shift(), index);
      ReinsertCluster(index, hole);
      ShrinkWhileSparse();
      found := true;
    }

    /** The loop at the end of a deletion: at least one slot in four is taken, or four are left. */
    method ShrinkWhileSparse()
      requires Valid()
      modifies this`lgSize, this`slots
      ensures Valid() && (slots == old(slots) || fresh(slots)) && Contents() == old(Contents())
      ensures lgSize == 2 || slots.Length <= 4 * numItems
      ensures lgSize <= old(lgSize) && (lgSize < old(lgSize) ==> 4 * numItems < Pow2(lgSize + 1))
    {
      while 4 * numItems < slots.Length && lgSize > 2
        invariant Valid() && (slots == old(slots) || fresh(slots)) && Contents() == old(Contents())
        invariant lgSize <= old(lgSize) && (lgSize < old(lgSize) ==> 4 * numItems < Pow2(lgSize + 1))
        decreases lgSize
      {
        Rebuild(lgSize - 1);
      }
    }

    method Reinsert(ghost index: nat, probe: nat, ghost hole: nat)
      requires Shaped() && index < slots.Length && probe < slots.Length && hole < slots.Length
      requires slots[probe] != EMPTY && slots[hole] == EMPTY
      requires Dist(slots.Length, index, probe) < Dist(slots.Length, index, hole)
      requires Repairing(slots[..], Shift(), index, probe)
      modifies slots
      ensures Shaped() && Contents() == old(Contents()) && slots[hole] == EMPTY
      ensures Repairing(slots[..], Shift(), index, Next(probe, slots.Length))
    {
      ghost var s := slots[..];
      var fetched := slots[probe];
      slots[probe] := EMPTY;
      assert slots[..] == s[probe := EMPTY];
      ItemsDrop(s, probe);
      ghost var p := MustInsert(fetched, hole);
      RepairStep(s, Shift(), index, probe, p, hole);
    }

    method ReinsertCluster(index: nat, ghost hole: nat)
      requires Shaped() && index < slots.Length && hole < slots.Length
      requires slots[hole] == EMPTY && hole != index
      requires Repairing(slots[..], Shift(), index, Next(index, slots.Length))
      modifies slots
      ensures Shaped() && Chained(slots[..], Shift()) && Contents() == old(Contents())
    {
      var probe := Next(index, slots.Length);
      var fetched := slots[probe];
      hide Chained, Distinct, HomesIn, InRange, Items;
      while fetched != EMPTY
        invariant probe < slots.Length && fetched == slots[probe]
        invariant Shaped() && Contents() == old(Contents()) && slots[hole] == EMPTY
        invariant Dist(slots.Length, index, probe) <= Dist(slots.Length, index, hole)
        invariant Repairing(slots[..], Shift(), index, probe)
        decreases Dist(slots.Length, index, hole) - Dist(slots.Length, index, probe)
      {
        Reinsert(index, probe, hole);
        probe := Next(probe, slots.Length);
        fetched := slots[probe];
      }
      RepairEnds(slots[..], Shift(), index, probe);
    }

    /** Collects the items, moving the probably wrapped ones to the end. The right index never
      * underflows, and the two indices meet exactly (the code's closing assertion). */
    method UnwrappingGetItems() returns (result: array<nat>)
      requires Valid()
      ensures fresh(result) && result.Length == numItems
      ensures ToSet(result[..]) == Contents()
    {
      result := new nat[numItems](_ => 0);
      if numItems == 0 {
        assert Contents() == {};
        return;
      }
      ghost var _ := HoleExists(slots[..]);
      var i, l, r := UnwrapLeadingRun(result);
      while i < slots.Length
        invariant i <= slots.Length && Unwrapped(slots[..i], result[..], l, r)
      {
        if slots[i] != EMPTY {
          PutLeft(result, i, l, r);
          l := l + 1;
        } else {
          PrefixSkips(slots[..], i);
        }
        i := i + 1;
      }
      UnwrapDone(slots[..], result[..], l, r);
      assert l == r + 1;
    }

    /** The slots before the first empty one: high items go right, low items go left. */
    method UnwrapLeadingRun(result: array<nat>) returns (i: nat, l: nat, r: nat)
      requires Valid() && result.Length == numItems > 0 && result != slots
      requires EMPTY in slots[..]
      modifies result
      ensures i <= slots.Length && Unwrapped(slots[..i], result[..], l, r)
    {
      i, l, r := 0, 0, numItems - 1;
      while i < slots.Length && slots[i] != EMPTY
        invariant i <= slots.Length && LeadingRun(i, l)
        invariant Unwrapped(slots[..i], result[..], l, r)
      {
        hide Unwrapped, LeadingRun;
        l, r := UnwrapNext(result, i, l, r);
        i := i + 1;
      }
    }

    /** Slots below i are taken; with nothing on the left yet, all hold high items. */
    ghost predicate LeadingRun(i: nat, l: nat)
      reads this, slots
      requires numValidBits > 0 && i <= slots.Length
    {
      forall j :: 0 <= j < i ==> slots[j] != EMPTY && (l == 0 ==> slots[j] >= Pow2(numValidBits - 1))
    }

    method UnwrapNext(result: array<nat>, i: nat, l0: nat, r0: nat) returns (l: nat, r: nat)
      requires Valid() && result.Length == numItems && result != slots && EMPTY in slots[..]
      requires i < slots.Length && slots[i] != EMPTY && LeadingRun(i, l0)
      requires Unwrapped(slots[..i], result[..], l0, r0)
      modifies result
      ensures LeadingRun(i + 1, l) && Unwrapped(slots[..i + 1], result[..], l, r)
    {
      hide Unwrapped, Chained, HomesIn, InRange, Distinct, Items;
      l, r := l0, r0;
      if slots[i] >= Pow2(numValidBits - 1) {
        PutRight(result, i, l, r);
        r := r - 1;
      } else {
        PutLeft(result, i, l, r);
        l := l + 1;
      }
    }

    method PutLeft(result: array<nat>, i: nat, l: nat, r: nat)
      requires Valid() && result.Length == numItems && result != slots
      requires i < slots.Length && slots[i] != EMPTY && Unwrapped(slots[..i], result[..], l, r)
      modifies result
      ensures Unwrapped(slots[..i + 1], result[..], l + 1, r)
    {
      UnwrapLow(slots[..], i, result[..], l, r);
      ghost var before := result[..];
      result[l] := slots[i];
      assert result[..] == before[l := slots[i]];
    }

    method PutRight(result: array<nat>, i: nat, l: nat, r: nat)
      requires Valid() && result.Length == numItems && result != slots && EMPTY in slots[..]
      requires i < slots.Length && LeadingRun(i + 1, l) && Unwrapped(slots[..i], result[..], l, r)
      modifies result
      ensures r > 0 && Unwrapped(slots[..i + 1], result[..], l, r - 1)
    {
      UnwrapLow(slots[..], i, result[..], l, r);
      RightStays(i, l, r);
      UnwrapHigh(slots[..], i, result[..], l, r);
      ghost var before := result[..];
      result[r] := slots[i];
      assert result[..] == before[r := slots[i]];
    }

    /** One more high item in the leading run still leaves room on the right: a low item was
      * already met, or the run is a wrapped cluster whose beginning sits in the last slot. */
    lemma RightStays(i: nat, l: nat, r: nat)
      requires Valid() && i < slots.Length && LeadingRun(i + 1, l) && EMPTY in slots[..]
      requires numItems > 0 && l + numItems - r == |Items(slots[..i + 1])| && l <= r + 1
      ensures r > 0
    {
      var s := slots[..];
      assert Items(s[..i + 1]) <= Items(s);
      SubsetSize(Items(s[..i + 1]), Items(s));
      if l == 0 {
        var last := |s| - 1;
        HighHome(s[0], lgSize, numValidBits);
        ShrBounds(s[0], lgSize, numValidBits - lgSize);
        assert !Gap(s, Shift(), 0, last);
        assert s[last] != EMPTY;
        assert s[..|s|] == s && last != i;
        assert s[last] !in s[..i + 1];
        assert Items(s[..i + 1]) <= Items(s) - {s[last]};
        SubsetSize(Items(s[..i + 1]), Items(s) - {s[last]});
      }
    }
  }

  /** The smallest table, from 2^2 slots up, that n items leave at most three-quarters full. */
  method TableSizeFor(n: nat) returns (lgSize: Option<nat>)
    ensures lgSize.Some? <==> 4 * n <= 3 * Pow2(26)
    ensures lgSize.Some? ==> 2 <= lgSize.value <= 26 && 4 * n <= 3 * Pow2(lgSize.value)
    ensures lgSize.Some? ==> forall m :: 2 <= m < lgSize.value ==> 4 * n > 3 * Pow2(m)
  {
    hide Pow2;
    var lg := 2;
    while 4 * n > 3 * Pow2(lg)
      invariant 2 <= lg <= 26
      invariant forall m :: 2 <= m < lg ==> 4 * n > 3 * Pow2(m)
      decreases 26 - lg
    {
      if lg == 26 {
        return None;
      }
      lg := lg + 1;
    }
    Monotone(lg, 26);
    return Some(lg);
  }

  lemma SizeBelow(lgK: nat, n: nat, lgSize: nat)
    requires 4 * n <= 3 * Pow2(5 + lgK) && forall m :: 2 <= m < lgSize ==> 4 * n > 3 * Pow2(m)
    ensures 2 <= lgSize ==> lgSize + 1 <= 6 + lgK || lgSize == 2
  {
  }

  /** The table of the first n decoded pairs, or none: too few pairs, too many for the largest
    * table, or a repeated pair. */
  method FromSlots(lgK: nat, n: nat, pairs: seq<nat>) returns (table: Option<PairTable>)
    requires 4 <= lgK <= 26
    requires forall i :: 0 <= i < |pairs| ==> pairs[i] < Pow2(6 + lgK) && pairs[i] != EMPTY
    requires n <= |pairs| && 4 * n <= 3 * Pow2(26) ==> 4 * n <= 3 * Pow2(5 + lgK)
    ensures table.Some? <==> n <= |pairs| && 4 * n <= 3 * Pow2(26) && NoDuplicates(pairs[..n])
    ensures table.Some? ==>
      && fresh(table.value) && fresh(table.value.slots) && table.value.Valid()
      && table.value.numValidBits == 6 + lgK && table.value.Contents() == ToSet(pairs[..n])
  {
    hide *;
    if |pairs| < n {
      return None;
    }
    var lg := TableSizeFor(n);
    if lg.None? {
      return None;
    }
    SizeBelow(lgK, n, lg.value);
    var t := new PairTable(lg.value, 6 + lgK);
    var ok := InsertAll(t, lgK, n, pairs);
    return if ok then Some(t) else None;
  }

  method InsertAll(t: PairTable, lgK: nat, n: nat, pairs: seq<nat>) returns (ok: bool)
    requires t.Valid() && t.Contents() == {} && 4 <= lgK <= 26 && t.numValidBits == 6 + lgK
    requires forall i :: 0 <= i < |pairs| ==> pairs[i] < Pow2(6 + lgK) && pairs[i] != EMPTY
    requires n <= |pairs| && 4 * n <= 3 * Pow2(26) && 4 * n <= 3 * Pow2(5 + lgK)
    modifies t, t.slots
    ensures t.slots == old(t.slots) || fresh(t.slots)
    ensures ok <==> NoDuplicates(pairs[..n])
    ensures ok ==> t.Valid() && t.Contents() == ToSet(pairs[..n])
  {
    for i := 0 to n
      invariant t.Valid() && (t.slots == old(t.slots) || fresh(t.slots))
      invariant NoDuplicates(pairs[..i]) && t.Contents() == ToSet(pairs[..i])
    {
      PrefixNovel(pairs, i, n);
      RoomFromCount(lgK, n, t);
      var novel := t.MaybeInsert(pairs[i]);
      if !novel {
        return false;
      }
    }
    return true;
  }

  lemma PrefixNovel(pairs: seq<nat>, i: nat, n: nat)
    requires i < n <= |pairs| && NoDuplicates(pairs[..i])
    ensures ToSet(pairs[..i + 1]) == ToSet(pairs[..i]) + {pairs[i]}
    ensures |ToSet(pairs[..i])| == i
    ensures pairs[i] !in ToSet(pairs[..i]) ==> NoDuplicates(pairs[..i + 1])
    ensures pairs[i] in ToSet(pairs[..i]) ==> !NoDuplicates(pairs[..n])
  {
    assert pairs[..i + 1] == pairs[..i] + [pairs[i]];
    ToSetSize(pairs[..i]);
    if pairs[i] in pairs[..i] {
      var j :| 0 <= j < i && pairs[..i][j] == pairs[i];
      assert pairs[..n][j] == pairs[..n][i];
    }
  }

  lemma RoomFromCount(lgK: nat, n: nat, t: PairTable)
    requires 4 <= lgK <= 26 && t.numValidBits == 6 + lgK && t.numItems < n
    requires 4 * n <= 3 * Pow2(26) && 4 * n <= 3 * Pow2(5 + lgK)
    ensures t.RoomFor(t.numItems + 1)
  {
  }

  // ------------------------------------------------ sequences and sets

  ghost function Gathered(result: seq<nat>, l: nat, r: nat): set<nat>
    requires l <= r + 1 <= |result|
  {
    ToSet(result[..l]) + ToSet(result[r + 1..])
  }

  /** After a prefix of the slots: its items fill both ends of the result, l on the left. */
  ghost predicate Unwrapped(prefix: seq<nat>, result: seq<nat>, l: nat, r: nat) {
    && l <= r + 1 <= |result|
    && Gathered(result, l, r) == Items(prefix)
    && l + |result| - 1 - r == |Items(prefix)|
  }

  /** The next item fits on the left. */
  lemma UnwrapLow(s: seq<nat>, i: nat, result: seq<nat>, l: nat, r: nat)
    requires Distinct(s) && i < |s| && s[i] != EMPTY && |Items(s)| == |result|
    requires Unwrapped(s[..i], result, l, r)
    ensures l <= r && l + |result| - r == |Items(s[..i + 1])|
    ensures Unwrapped(s[..i + 1], result[l := s[i]], l + 1, r)
  {
    hide ToSet, Items;
    PrefixGrows(s, i);
    assert result[l := s[i]][..l + 1] == result[..l] + [s[i]];
    assert result[l := s[i]][r + 1..] == result[r + 1..];
    ToSetAdd(result[..l], s[i]);
  }

  /** The next item fits on the right, unless it is the last one. */
  lemma UnwrapHigh(s: seq<nat>, i: nat, result: seq<nat>, l: nat, r: nat)
    requires Distinct(s) && i < |s| && s[i] != EMPTY && |Items(s)| == |result|
    requires Unwrapped(s[..i], result, l, r) && r > 0
    ensures l <= r && Unwrapped(s[..i + 1], result[r := s[i]], l, r - 1)
  {
    hide ToSet, Items;
    PrefixGrows(s, i);
    assert result[r := s[i]][..l] == result[..l];
    assert result[r := s[i]][r..] == [s[i]] + result[r + 1..];
    ToSetAdd(result[r + 1..], s[i]);
  }

  lemma ToSetAdd(s: seq<nat>, x: nat)
    ensures ToSet(s + [x]) == ToSet(s) + {x} == ToSet([x] + s)
  {
  }

  lemma UnwrapDone(s: seq<nat>, result: seq<nat>, l: nat, r: nat)
    requires Unwrapped(s[..|s|], result, l, r) && |Items(s)| == |result|
    ensures l == r + 1 && ToSet(result) == Items(s)
  {
    assert s[..|s|] == s;
    assert result == result[..l] + result[r + 1..];
  }

  lemma PrefixGrows(s: seq<nat>, i: nat)
    requires Distinct(s) && i < |s| && s[i] != EMPTY
    ensures Items(s[..i + 1]) == Items(s[..i]) + {s[i]}
    ensures s[i] !in Items(s[..i]) && |Items(s[..i + 1])| == |Items(s[..i])| + 1
    ensures |Items(s[..i + 1])| <= |Items(s)|
  {
    assert s[..i + 1] == s[..i] + [s[i]];
    ItemsPrefix(s, i);
  }

  lemma PrefixSkips(s: seq<nat>, i: nat)
    requires i < |s| && s[i] == EMPTY
    ensures Items(s[..i + 1]) == Items(s[..i])
  {
    assert s[..i + 1] == s[..i] + [s[i]];
  }

  /** An item with its top bit set belongs in the upper half of the table. */
  lemma HighHome(item: nat, lgSize: nat, numValidBits: nat)
    requires 2 <= lgSize < numValidBits && item >= Pow2(numValidBits - 1)
    ensures Home(item, numValidBits - lgSize) > 0
  {
    ShrBounds(item, lgSize - 1, numValidBits - lgSize);
  }

  lemma ItemsPrefix(s: seq<nat>, i: nat)
    requires Distinct(s) && i < |s| && s[i] != EMPTY
    ensures s[i] !in Items(s[..i]) && |Items(s[..i])| < |Items(s)|
  {
    assert s[i] in Items(s) && Items(s[..i]) <= Items(s) - {s[i]};
    SubsetSize(Items(s[..i]), Items(s) - {s[i]});
  }

  lemma GrowthFits(lgSize: nat, numValidBits: nat, n: nat)
    requires 2 <= lgSize <= 26 && lgSize < numValidBits <= 32
    requires 4 * n <= 3 * Pow2(if numValidBits <= 27 then numValidBits - 1 else 26)
    requires 3 * Pow2(lgSize) < 4 * n <= 4 * Pow2(lgSize)
    ensures lgSize + 1 <= 26 && lgSize + 2 <= numValidBits
    ensures n < Pow2(lgSize + 1)
  {
    var m := if numValidBits <= 27 then numValidBits - 1 else 26;
    if m <= lgSize {
      Monotone(m, lgSize);
      assert false;
    }
  }
}
