/** Open addressing with odd strides, as the Theta hash table, the HLL coupon set and the HLL
  * auxiliary map all do it: they differ in what an item's key is and in how the key's higher bits
  * choose the stride. */
module OpenAddressing {
  import opened Powers
  import opened Sets
  import opened OddStride

  /** Items of a hash table, of a coupon set, or coupons looked up by their slot of 2^lgK. */
  datatype Kind = ByHash | ByCoupon | BySlot(lgK: nat)

  /** An empty slot: no hash and no coupon is zero. */
  const EMPTY: nat := 0

  function Key(kind: Kind, item: nat): nat {
    match kind
    case ByHash => item
    case ByCoupon => item
    case BySlot(lgK) => LowBits(LowBits(item, 26), lgK)
  }

  /** `x | 1`. */
  function MakeOdd(x: nat): (r: nat)
    ensures r % 2 == 1 && (r == x || r == x + 1)
  {
    if x % 2 == 0 then x + 1 else x
  }

  function Stride(kind: Kind, key: nat, lg: nat): (r: nat)
    ensures r % 2 == 1
  {
    match kind
    case ByHash => 2 * LowBits(Shr(key, lg), 7) + 1
    case ByCoupon => MakeOdd(Shr(LowBits(key, 26), lg))
    case BySlot(_) => MakeOdd(Shr(key, lg))
  }

  ghost function Items(s: seq<nat>): set<nat> {
    set x | x in s && x != EMPTY
  }

  ghost predicate Distinct(kind: Kind, s: seq<nat>) {
    forall i, j :: 0 <= i < j < |s| && s[i] != EMPTY && s[j] != EMPTY ==> Key(kind, s[i]) != Key(kind, s[j])
  }

  ghost predicate HasKey(kind: Kind, s: seq<nat>, key: nat) {
    exists i :: 0 <= i < |s| && s[i] != EMPTY && Key(kind, s[i]) == key
  }

  /** The slot after j steps of a key's probe path. */
  ghost function Path(kind: Kind, key: nat, lg: nat, j: nat): (r: nat)
    ensures r < Pow2(lg)
  {
    LowBitsBound(key, lg);
    WalkInside(LowBits(key, lg), Stride(kind, key, lg), lg, j);
    Walk(LowBits(key, lg), Stride(kind, key, lg), lg, j)
  }

  /** Hashes step by their next seven bits, doubled and made odd; coupons and slots by the rest of
    * their key, made odd. */
  lemma StrideMeans(kind: Kind, key: nat, lg: nat)
    ensures Stride(kind, key, lg) ==
      if kind == ByHash then 2 * (Above(key, lg) % 128) + 1
      else MakeOdd(Above(if kind == ByCoupon then key % 0x400_0000 else key, lg))
  {
    hide Pow2, LowBits, Shr, MakeOdd;
    match kind
    case ByHash =>
      ShrDivides(key, lg);
      LowSeven(Shr(key, lg));
    case ByCoupon =>
      LowCoupon(key);
      ShrDivides(LowBits(key, 26), lg);
    case BySlot(_) =>
      ShrDivides(key, lg);
  }

  ghost function Above(x: nat, lg: nat): nat {
    hide *;
    ShrDivides(x, lg);
    x / Pow2(lg)
  }

  lemma LowSeven(x: nat)
    ensures LowBits(x, 7) == x % 128
  {
    hide LowBits;
    LowBitsAre(x, 7);
    SevenBits();
  }

  lemma LowCoupon(x: nat)
    ensures LowBits(x, 26) == x % 0x400_0000
  {
    hide LowBits, Pow2;
    LowBitsAre(x, 26);
    LargePowers();
  }

  /** The slots of a path are whole strides apart, modulo the size of the table. */
  lemma PathMeans(kind: Kind, key: nat, lg: nat, j: nat)
    ensures Path(kind, key, lg, j) == (key + j * Stride(kind, key, lg)) % Pow2(lg)
  {
    hide Pow2, Walk, LowBits, Shr, Stride;
    var turns := WalkTurns(LowBits(key, lg), Stride(kind, key, lg), lg, j);
    SplitBits(key, lg);
    SameSlot(key, j * Stride(kind, key, lg), LowBits(key, lg), Shr(key, lg), turns, Path(kind, key, lg, j), Pow2(lg));
  }

  lemma SevenBits()
    ensures Pow2(7) == 128
  {
  }

  lemma SameSlot(key: nat, distance: nat, home: nat, high: nat, turns: int, slot: nat, p: nat)
    requires key == high * p + home && slot == home + distance - turns * p && slot < p
    ensures slot == (key + distance) % p
  {
    MulDistributes(high, turns, p);
    assert key + distance == (high + turns) * p + slot;
    if high + turns < 0 {
      MulLe(high + turns, -1, p);
    }
    RemainderIs(key + distance, p, high + turns, slot);
  }

  lemma PathStep(kind: Kind, key: nat, lg: nat, j: nat)
    ensures Path(kind, key, lg, j + 1) == LowBits(Path(kind, key, lg, j) + Stride(kind, key, lg), lg)
    ensures Path(kind, key, lg, 0) == LowBits(key, lg)
  {
  }

  /** The path comes back to its first slot after exactly as many steps as there are slots. */
  lemma PathReturns(kind: Kind, key: nat, lg: nat, j: nat)
    requires 0 < j <= Pow2(lg)
    ensures Path(kind, key, lg, j) == Path(kind, key, lg, 0) <==> j == Pow2(lg)
  {
    hide LowBits, Stride, Walk, Pow2;
    var home, stride := LowBits(key, lg), Stride(kind, key, lg);
    LowBitsBound(key, lg);
    WalkStarts(home, stride, lg);
    if j < Pow2(lg) {
      WalkDistinct(home, stride, lg, 0, j);
    } else {
      WalkReturns(home, stride, lg);
    }
  }

  lemma PathCovers(kind: Kind, key: nat, lg: nat, p: nat) returns (j: nat)
    requires p < Pow2(lg)
    ensures j < Pow2(lg) && Path(kind, key, lg, j) == p
  {
    LowBitsBound(key, lg);
    j := WalkCovers(LowBits(key, lg), Stride(kind, key, lg), lg, p);
  }

  /** The first j slots of a path are taken. */
  ghost predicate Taken(kind: Kind, s: seq<nat>, key: nat, lg: nat, j: nat)
    requires |s| == Pow2(lg)
  {
    forall i {:trigger Path(kind, key, lg, i)} :: 0 <= i < j ==> s[Path(kind, key, lg, i)] != EMPTY
  }

  ghost predicate Reached(kind: Kind, s: seq<nat>, lg: nat, i: nat)
    requires |s| == Pow2(lg) && i < |s|
  {
    exists j: nat :: Path(kind, Key(kind, s[i]), lg, j) == i && Taken(kind, s, Key(kind, s[i]), lg, j)
  }

  /** Every item can be found by probing for its key. */
  ghost predicate Findable(kind: Kind, s: seq<nat>, lg: nat) {
    && |s| == Pow2(lg) && Distinct(kind, s)
    && forall i :: 0 <= i < |s| && s[i] != EMPTY ==> Reached(kind, s, lg, i)
  }

  /** A probe for a key met only other keys in its first j steps. */
  ghost predicate Missed(kind: Kind, s: seq<nat>, key: nat, lg: nat, j: nat)
    requires |s| == Pow2(lg)
  {
    forall i {:trigger Path(kind, key, lg, i)} :: 0 <= i < j ==>
      s[Path(kind, key, lg, i)] != EMPTY && Key(kind, s[Path(kind, key, lg, i)]) != key
  }

  /** Where a probe stops: at the key or at an empty slot. */
  ghost predicate Stopped(kind: Kind, s: seq<nat>, key: nat, lg: nat, j: nat)
    requires |s| == Pow2(lg)
  {
    && Missed(kind, s, key, lg, j)
    && var p := Path(kind, key, lg, j); s[p] == EMPTY || Key(kind, s[p]) == key
  }

  lemma ProbeDecides(kind: Kind, s: seq<nat>, key: nat, lg: nat, j: nat)
    requires Findable(kind, s, lg) && Stopped(kind, s, key, lg, j)
    ensures s[Path(kind, key, lg, j)] != EMPTY <==> HasKey(kind, s, key)
  {
    if HasKey(kind, s, key) {
      var i :| 0 <= i < |s| && s[i] != EMPTY && Key(kind, s[i]) == key;
      assert Reached(kind, s, lg, i);
      var k: nat :| Path(kind, key, lg, k) == i && Taken(kind, s, key, lg, k);
      assert k >= j;
      if k > j {
        assert s[Path(kind, key, lg, j)] != EMPTY;
      }
    }
  }

  lemma MissedAll(kind: Kind, s: seq<nat>, key: nat, lg: nat)
    requires |s| == Pow2(lg) && Missed(kind, s, key, lg, Pow2(lg))
    ensures forall i :: 0 <= i < |s| ==> s[i] != EMPTY && Key(kind, s[i]) != key
  {
    forall i | 0 <= i < |s| ensures s[i] != EMPTY && Key(kind, s[i]) != key {
      var j := PathCovers(kind, key, lg, i);
      assert Path(kind, key, lg, j) == i;
    }
  }

  /** A table with a free slot never sends a probe all the way round. */
  lemma FreeSlotStops(kind: Kind, s: seq<nat>, key: nat, lg: nat, e: nat)
    requires |s| == Pow2(lg) && e < |s| && s[e] == EMPTY
    ensures !Missed(kind, s, key, lg, Pow2(lg))
  {
    var j := PathCovers(kind, key, lg, e);
    assert Path(kind, key, lg, j) == e;
  }

  lemma PutKeeps(kind: Kind, s: seq<nat>, item: nat, lg: nat, j: nat)
    requires Findable(kind, s, lg) && Stopped(kind, s, Key(kind, item), lg, j) && item != EMPTY
    requires s[Path(kind, Key(kind, item), lg, j)] == EMPTY
    ensures Findable(kind, s[Path(kind, Key(kind, item), lg, j) := item], lg)
    ensures Items(s[Path(kind, Key(kind, item), lg, j) := item]) == Items(s) + {item} && item !in Items(s)
  {
    var key := Key(kind, item);
    var p := Path(kind, key, lg, j);
    var t := s[p := item];
    ProbeDecides(kind, s, key, lg, j);
    forall i | 0 <= i < |t| && t[i] != EMPTY ensures Reached(kind, t, lg, i) {
      if i == p {
        assert Path(kind, key, lg, j) == i && Taken(kind, t, key, lg, j);
      } else {
        assert Reached(kind, s, lg, i);
        var k: nat :| Path(kind, Key(kind, s[i]), lg, k) == i && Taken(kind, s, Key(kind, s[i]), lg, k);
        assert Taken(kind, t, Key(kind, t[i]), lg, k);
      }
    }
    ItemsPut(s, p, item);
  }

  lemma ItemsPut(s: seq<nat>, p: nat, item: nat)
    requires p < |s| && s[p] == EMPTY && item != EMPTY
    ensures Items(s[p := item]) == Items(s) + {item}
  {
    var t := s[p := item];
    forall x | x in Items(s) ensures x in t {
      var i :| 0 <= i < |s| && s[i] == x;
      assert t[i] == x;
    }
    assert t[p] == item;
  }

  /** Replacing an item by another of the same key. */
  lemma ReplaceKeeps(kind: Kind, s: seq<nat>, p: nat, item: nat, lg: nat)
    requires Findable(kind, s, lg) && p < |s| && s[p] != EMPTY && item != EMPTY && Key(kind, s[p]) == Key(kind, item)
    ensures Findable(kind, s[p := item], lg) && Items(s[p := item]) == Items(s) - {s[p]} + {item}
  {
    var t := s[p := item];
    forall i | 0 <= i < |t| && t[i] != EMPTY ensures Reached(kind, t, lg, i) {
      assert Reached(kind, s, lg, i);
      var k: nat :| Path(kind, Key(kind, s[i]), lg, k) == i && Taken(kind, s, Key(kind, s[i]), lg, k);
      assert Taken(kind, t, Key(kind, t[i]), lg, k);
    }
    forall x | x in Items(s) && x != s[p] ensures x in t {
      var i :| 0 <= i < |s| && s[i] == x;
      assert t[i] == x;
    }
    assert t[p] == item;
  }

  // -------------------------------------------------------------- counting

  lemma PrefixItems(s: seq<nat>, i: nat)
    requires i < |s|
    ensures Items(s[..i + 1]) == if s[i] != EMPTY then Items(s[..i]) + {s[i]} else Items(s[..i])
  {
    assert s[..i + 1] == s[..i] + [s[i]];
  }

  lemma PrefixApart(kind: Kind, s: seq<nat>, i: nat)
    requires i < |s| && Distinct(kind, s) && s[i] != EMPTY
    ensures s[i] !in Items(s[..i]) && forall x :: x in Items(s[..i]) ==> Key(kind, x) != Key(kind, s[i])
  {
  }

  lemma {:induction false} ItemsBound(kind: Kind, s: seq<nat>)
    ensures |Items(s)| <= |s| && (Distinct(kind, s) && EMPTY !in s ==> |Items(s)| == |s|)
  {
    if s == [] {
      assert Items(s) == {};
    } else {
      var n := |s| - 1;
      ItemsBound(kind, s[..n]);
      assert s[..n + 1] == s;
      PrefixItems(s, n);
      if Distinct(kind, s) && s[n] != EMPTY {
        PrefixApart(kind, s, n);
      }
    }
  }

  lemma FreeSlot(kind: Kind, s: seq<nat>) returns (e: nat)
    requires Distinct(kind, s) && |Items(s)| < |s|
    ensures e < |s| && s[e] == EMPTY
  {
    ItemsBound(kind, s);
    e :| 0 <= e < |s| && s[e] == EMPTY;
  }

  lemma NoItems(kind: Kind, s: seq<nat>, lg: nat)
    requires forall i :: 0 <= i < |s| ==> s[i] == EMPTY
    ensures Items(s) == {} && Distinct(kind, s) && (|s| == Pow2(lg) ==> Findable(kind, s, lg))
  {
  }

  /** Fewer items were met than there are, while some remain. */
  lemma PrefixSmaller(kind: Kind, s: seq<nat>, i: nat)
    requires i < |s| && Distinct(kind, s) && s[i] != EMPTY
    ensures |Items(s[..i])| < |Items(s)|
  {
    PrefixApart(kind, s, i);
    SubsetSize(Items(s[..i]) + {s[i]}, Items(s));
  }

  // ------------------------------------------------------------ probing

  /** Probes for a key: its slot, or the first free slot of its path. The probe of a table with a
    * free slot never comes back to its start. */
  method Find(kind: Kind, entries: array<nat>, key: nat, lg: nat) returns (found: bool, index: nat, ghost j: nat)
    requires entries.Length == Pow2(lg)
    ensures found ==> index == Path(kind, key, lg, j) && Stopped(kind, entries[..], key, lg, j)
    ensures !found ==> Missed(kind, entries[..], key, lg, Pow2(lg))
  {
    hide Path, Pow2, Stride, LowBits, Key;
    var stride := Stride(kind, key, lg);
    index := LowBits(key, lg);
    PathStep(kind, key, lg, 0);
    var start := index;
    j := 0;
    while true
      invariant index == Path(kind, key, lg, j) && Missed(kind, entries[..], key, lg, j) && j < Pow2(lg)
      decreases Pow2(lg) - j
    {
      if entries[index] == EMPTY || Key(kind, entries[index]) == key {
        return true, index, j;
      }
      PathStep(kind, key, lg, j);
      PathReturns(kind, key, lg, j + 1);
      index := LowBits(index + stride, lg);
      j := j + 1;
      if index == start {
        return false, index, j;
      }
    }
  }

  /** Places a new item in a table with a free slot; the code's `unreachable!` is. */
  method PlaceNew(kind: Kind, entries: array<nat>, item: nat, lg: nat)
    requires Findable(kind, entries[..], lg) && |Items(entries[..])| < entries.Length && item != EMPTY
    requires !HasKey(kind, entries[..], Key(kind, item))
    modifies entries
    ensures Findable(kind, entries[..], lg) && Items(entries[..]) == old(Items(entries[..])) + {item}
    ensures item !in old(Items(entries[..]))
  {
    hide Path, Pow2, Stride, LowBits, Key, Findable, Stopped, Missed, Items, HasKey;
    ghost var s := entries[..];
    FindableSize(kind, s, lg);
    ghost var e := FreeSlot(kind, s);
    var found, index, j := Find(kind, entries, Key(kind, item), lg);
    FreeSlotStops(kind, s, Key(kind, item), lg, e);
    ProbeDecides(kind, s, Key(kind, item), lg, j);
    PutKeeps(kind, s, item, lg, j);
    entries[index] := item;
    assert entries[..] == s[index := item];
  }

  lemma FindableSize(kind: Kind, s: seq<nat>, lg: nat)
    requires Findable(kind, s, lg)
    ensures |s| == Pow2(lg) && Distinct(kind, s)
  {
  }
}
