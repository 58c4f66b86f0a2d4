/** The hash table shared by the Theta-family sketches: `thetafamily/common/hash_table.rs`. */
module ThetaTable {
  import opened Powers
  import opened Sets
  import opened OpenAddressing
  import opened Selection

  const MAX_THETA: nat := 0x7FFF_FFFF_FFFF_FFFF
  const MIN_LG_K: nat := 5

  /** The largest theta is the largest 63-bit number. */
  lemma LargestTheta()
    ensures MAX_THETA == Pow2(63) - 1
  {
    LargePowers();
    Add(32, 31);
    assert Pow2(32) == 2 * Pow2(31);
  }

  /** The hashes below a threshold. */
  ghost function Below(seen: set<nat>, theta: nat): set<nat> {
    set h | h in seen && h < theta
  }

  /** The key of a hash is the hash. */
  lemma HashKey(s: seq<nat>, hash: nat)
    requires hash != EMPTY
    ensures HasKey(ByHash, s, hash) <==> hash in Items(s)
  {
  }

  // -------------------------------------------------- sets of hashes seen

  lemma SeeMore(seen: set<nat>, theta: nat, hash: nat)
    ensures hash !in seen && hash < theta ==> |Below(seen + {hash}, theta)| == |Below(seen, theta)| + 1
    ensures hash >= theta ==> |Below(seen + {hash}, theta)| == |Below(seen, theta)|
    ensures Below(seen + {hash}, theta) == Below(seen, theta) + if hash < theta then {hash} else {}
    ensures |Below(seen + {hash}, theta)| >= |Below(seen, theta)|
  {
    var a, b := Below(seen, theta), Below(seen + {hash}, theta);
    if hash < theta && hash !in a {
      assert b == a + {hash};
    } else {
      assert b == a + if hash < theta then {hash} else {};
      assert b == a;
    }
  }

  ghost predicate AllUnder(seen: set<nat>, theta: nat) {
    forall h :: h in seen ==> h < theta
  }

  /** Theta is where it started, or it is a hash that was seen, with at least k smaller ones. */
  ghost predicate Lowered(seen: set<nat>, initial: nat, k: nat, theta: nat) {
    theta == initial || (theta < initial && theta in seen && |Below(seen, theta)| >= k)
  }

  /** What trimming leaves: at most k hashes, and fewer only if theta never moved. */
  ghost predicate Trimmed(seen: set<nat>, initial: nat, k: nat, theta: nat) {
    Lowered(seen, initial, k, theta) && |Below(seen, theta)| <= k
  }

  /** A trimmed theta depends on the set of hashes seen alone: it is the (k+1)-th smallest below
    * the initial theta, or the initial theta if there are no more than k. */
  lemma TrimDetermines(seen: set<nat>, initial: nat, k: nat, theta: nat)
    requires Trimmed(seen, initial, k, theta)
    ensures theta == initial <==> |Below(seen, initial)| <= k
    ensures theta != initial ==> theta in seen && theta < initial && |Below(seen, theta)| == k
    ensures forall t: nat :: Trimmed(seen, initial, k, t) ==> t == theta
  {
    if theta < initial {
      Between(seen, theta, initial);
    }
    forall t: nat | Trimmed(seen, initial, k, t) ensures t == theta {
      if t < theta {
        Between(seen, t, theta);
      } else if theta < t {
        Between(seen, theta, t);
      }
    }
  }

  lemma Between(seen: set<nat>, a: nat, b: nat)
    requires a < b
    ensures |Below(seen, a)| <= |Below(seen, b)|
    ensures a in seen ==> |Below(seen, a)| < |Below(seen, b)|
  {
    SubsetSize(Below(seen, a), Below(seen, b));
    if a in seen {
      SubsetSize(Below(seen, a) + {a}, Below(seen, b));
    }
  }

  // ------------------------------------------------- the (k+1)-th hash

  /** The items of a table in slot order. */
  function Flatten(s: seq<nat>): seq<nat> {
    if s == [] then []
    else
      var n := |s| - 1;
      if s[n] == EMPTY then Flatten(s[..n]) else Flatten(s[..n]) + [s[n]]
  }

  lemma {:induction false} FlattenItems(kind: Kind, s: seq<nat>)
    requires Distinct(kind, s)
    ensures ToSet(Flatten(s)) == Items(s) && NoDuplicates(Flatten(s))
  {
    if s != [] {
      var n := |s| - 1;
      FlattenItems(kind, s[..n]);
      assert s[..n + 1] == s;
      PrefixItems(s, n);
      if s[n] != EMPTY {
        PrefixApart(kind, s, n);
        assert ToSet(Flatten(s)) == ToSet(Flatten(s[..n])) + {s[n]};
        forall i | 0 <= i < |Flatten(s[..n])| ensures Flatten(s[..n])[i] != s[n] {
          assert Flatten(s[..n])[i] in ToSet(Flatten(s[..n]));
        }
      }
    } else {
      assert Items(s) == {} == ToSet(Flatten(s));
    }
  }

  lemma {:induction false} CountIsSize(s: seq<nat>, x: nat)
    requires NoDuplicates(s)
    ensures CountBelow(s, x) == |Below(ToSet(s), x)|
  {
    if s == [] {
      assert Below(ToSet(s), x) == {};
    } else {
      CountIsSize(s[1..], x);
      FirstApart(s);
      SeeMore(ToSet(s[1..]), x, s[0]);
    }
  }

  lemma FirstApart(s: seq<nat>)
    requires NoDuplicates(s) && s != []
    ensures ToSet(s) == ToSet(s[1..]) + {s[0]} && s[0] !in ToSet(s[1..])
  {
    assert s == [s[0]] + s[1..];
  }

  /** Of distinct hashes, exactly k are smaller than the one selected at position k. */
  lemma NthSplits(s: seq<nat>, k: nat, x: nat)
    requires NoDuplicates(s) && IsNth(s, k, x)
    ensures |Below(ToSet(s), x)| == k && x in ToSet(s)
    ensures ToSet(Lower(s, x)) == Below(ToSet(s), x) && |Lower(s, x)| == k
  {
    CountIsSize(s, x);
    CountIsSize(s, x + 1);
    assert Below(ToSet(s), x + 1) == Below(ToSet(s), x) + {x};
  }

  lemma {:induction false} LowerDistinct(s: seq<nat>, x: nat)
    requires NoDuplicates(s)
    ensures NoDuplicates(Lower(s, x))
  {
    if s != [] {
      LowerDistinct(s[1..], x);
      assert s[0] !in s[1..];
    }
  }

  lemma BelowTwice(seen: set<nat>, theta: nat, kth: nat)
    requires kth <= theta
    ensures Below(Below(seen, theta), kth) == Below(seen, kth)
  {
  }

  /** Rebuilding at the k-th retained hash keeps every hash seen below it. */
  lemma RebuildLowers(seen: set<nat>, initial: nat, k: nat, theta: nat, kth: nat)
    requires Lowered(seen, initial, k, theta)
    requires kth in Below(seen, theta) && |Below(Below(seen, theta), kth)| == k
    ensures Lowered(seen, initial, k, kth) && |Below(seen, kth)| == k
  {
    BelowTwice(seen, theta, kth);
  }

  // --------------------------------------------------------- capacities

  /** Half full while the table can grow, fifteen sixteenths at its largest. */
  function Threshold(lgCur: nat, lgNom: nat, size: nat): nat {
    if lgCur <= lgNom then size / 2 else 15 * size / 16
  }

  lemma ThresholdFits(lgCur: nat, lgNom: nat, lgResize: nat)
    requires 0 < lgCur <= lgNom && lgResize >= 1
    ensures var newLg := Min(lgCur + lgResize, lgNom + 1);
      lgCur < newLg && Threshold(lgCur, lgNom, Pow2(lgCur)) + 1 <= Threshold(newLg, lgNom, Pow2(newLg))
  {
    var newLg := Min(lgCur + lgResize, lgNom + 1);
    Monotone(lgCur + 1, newLg);
    Monotone(1, lgCur);
    assert Pow2(1) == 2;
  }

  /** A full-size table holds more than k hashes when it must be rebuilt, and k fit again. */
  lemma RebuildFits(lgNom: nat)
    ensures Pow2(lgNom) <= Threshold(lgNom + 1, lgNom, Pow2(lgNom + 1)) < Pow2(lgNom + 1)
  {
  }

  lemma ThresholdBelowSize(lgCur: nat, lgNom: nat)
    ensures Threshold(lgCur, lgNom, Pow2(lgCur)) < Pow2(lgCur)
  {
  }

  /** The starting size: a whole number of resize steps below the target. */
  function StartingSubMultiple(lgTarget: nat, lgMin: nat, lgResize: nat): (r: nat)
    requires lgResize <= 3
    ensures lgMin <= lgTarget ==> lgMin <= r <= lgTarget
    ensures lgResize > 0 && lgMin <= lgTarget ==> r < lgMin + lgResize
    ensures lgResize == 0 && lgMin <= lgTarget ==> r == lgTarget
  {
    if lgTarget <= lgMin then lgMin
    else if lgResize == 0 then lgTarget
    else (lgTarget - lgMin) % lgResize + lgMin
  }

  lemma StartingSteps(lgTarget: nat, lgMin: nat, lgResize: nat) returns (n: nat)
    requires lgResize <= 3 && lgMin <= lgTarget
    ensures lgTarget == StartingSubMultiple(lgTarget, lgMin, lgResize) + n * lgResize
  {
    if lgTarget <= lgMin || lgResize == 0 {
      n := 0;
    } else {
      n := (lgTarget - lgMin) / lgResize;
    }
  }

  function LgFloor(n: nat): (r: nat)
    ensures n >= 1 ==> Pow2(r) <= n < 2 * Pow2(r)
  {
    if n < 2 then 0 else 1 + LgFloor(n / 2)
  }

  function LgSizeFromCountForRebuild(count: nat): nat {
    var l := LgFloor(count);
    l + if count > 15 * Pow2(l + 1) / 16 then 2 else 1
  }

  /** The smallest size at which that many hashes need no rebuild. */
  lemma LgSizeIsMinimal(count: nat)
    requires count >= 1
    ensures var lg := LgSizeFromCountForRebuild(count);
      && lg >= 1 && count <= Threshold(lg, lg - 1, Pow2(lg))
      && (lg > 1 ==> count > Threshold(lg - 1, lg - 2, Pow2(lg - 1)))
  {
    var l := LgFloor(count);
    assert Pow2(l + 2) == 2 * Pow2(l + 1) == 4 * Pow2(l);
  }

  // ------------------------------------------------------------ the class

  class SketchHashTable {
    var lgCurSize: nat
    const lgNomSize: nat
    const lgResize: nat
    var isEmpty: bool
    var theta: nat
    var entries: array<nat>
    var numRetained: nat
    /** The non-zero hashes offered. */
    ghost var seen: set<nat>
    ghost var initialTheta: nat

    ghost predicate Shaped()
      reads this`lgCurSize, this`entries, this`numRetained, entries
    {
      && lgCurSize <= lgNomSize + 1 && (lgResize >= 1 || lgCurSize == 0 || lgCurSize == lgNomSize + 1)
      && numRetained == |Items(entries[..])|
      && (if lgCurSize > 0 then Findable(ByHash, entries[..], lgCurSize) else entries.Length == 0)
    }

    /** The table retains exactly the hashes seen below theta, with at most `extra` more than it
      * may keep. */
    ghost predicate Within(extra: nat)
      reads this, entries
    {
      && Shaped() && numRetained <= Threshold(lgCurSize, lgNomSize, entries.Length) + extra
      && Items(entries[..]) == Below(seen, theta) && 0 !in seen
      && Lowered(seen, initialTheta, Pow2(lgNomSize), theta)
      && (lgCurSize <= lgNomSize ==> theta == initialTheta)
    }

    ghost predicate Valid()
      reads this, entries
    {
      Within(0)
    }

    /** What a table does with n hashes in so many slots: past half full it grows by the resize factor
      * up to twice the nominal size, and at that size it keeps, past fifteen sixteenths, as many
      * hashes as its nominal size, with a smaller theta. */
    ghost predicate Settled(lg: nat, size: nat, n: nat, oldTheta: nat)
      reads this
    {
      if lg <= lgNomSize then
        && theta == oldTheta && numRetained == n
        && lgCurSize == if 2 * n > size then Min(lg + lgResize, lgNomSize + 1) else lg
      else
        && lgCurSize == lg
        && if 16 * n > 15 * size then theta < oldTheta && numRetained == Pow2(lgNomSize) else theta == oldTheta && numRetained == n
    }

    /** The retained hashes. */
    ghost function Retained(): set<nat>
      reads this`entries, entries
    {
      Items(entries[..])
    }

    lemma Facts()
      requires Valid()
      ensures Shaped() && numRetained == |Retained()| && 0 !in Retained()
      ensures numRetained <= Threshold(lgCurSize, lgNomSize, entries.Length) && Retained() == Below(seen, theta)
      ensures Lowered(seen, initialTheta, Pow2(lgNomSize), theta)
    {
    }

    /** A table of the given size, from `from_raw_parts`. */
    constructor (lgCurSize: nat, lgNomSize: nat, lgResize: nat, theta: nat, isEmpty: bool)
      requires lgCurSize <= lgNomSize + 1
      requires lgResize >= 1 || lgCurSize == 0 || lgCurSize == lgNomSize + 1
      ensures Valid() && fresh(entries) && seen == {} && Retained() == {} && this.theta == initialTheta == theta
      ensures this.lgCurSize == lgCurSize && this.lgNomSize == lgNomSize && this.lgResize == lgResize
      ensures this.isEmpty == isEmpty
    {
      this.lgCurSize := lgCurSize;
      this.lgNomSize := lgNomSize;
      this.lgResize := lgResize;
      this.isEmpty := isEmpty;
      this.theta := theta;
      initialTheta := theta;
      var size := if lgCurSize > 0 then Pow2(lgCurSize) else 0;
      entries := new nat[size](_ => EMPTY);
      numRetained := 0;
      seen := {};
      new;
      NoItems(ByHash, entries[..], lgCurSize);
      assert Below({}, theta) == {};
    }

    /** A growing table for nominally 2^lgK hashes, as a sketch builds it; `theta` is what the
      * sampling probability leaves of the maximum. */
    constructor New(lgK: nat, lgResize: nat, theta: nat)
      requires 5 <= lgK && lgResize <= 3
      ensures Valid() && fresh(entries) && seen == {} && Retained() == {} && this.theta == initialTheta == theta
      ensures lgNomSize == lgK && this.lgResize == lgResize && isEmpty
      ensures lgCurSize > 0 && lgCurSize == StartingSubMultiple(lgK + 1, 5, lgResize)
    {
      lgCurSize := StartingSubMultiple(lgK + 1, MIN_LG_K, lgResize);
      lgNomSize := lgK;
      this.lgResize := lgResize;
      isEmpty := true;
      this.theta := theta;
      initialTheta := theta;
      entries := new nat[Pow2(StartingSubMultiple(lgK + 1, MIN_LG_K, lgResize))](_ => EMPTY);
      numRetained := 0;
      seen := {};
      new;
      NoItems(ByHash, entries[..], lgCurSize);
      assert Below({}, theta) == {};
    }

    /** The retained hashes in slot order. */
    method Hashes() returns (hashes: seq<nat>)
      requires Shaped()
      ensures ToSet(hashes) == Retained() && NoDuplicates(hashes)
    {
      hashes := Flatten(entries[..]);
      ItemsBound(ByHash, entries[..]);
      FlattenItems(ByHash, entries[..]);
    }

    /** Whether the hash is retained. */
    method Entry(hash: nat) returns (present: bool)
      requires Shaped()
      ensures present <==> hash != 0 && hash in Retained()
    {
      if hash == 0 || entries.Length == 0 {
        ItemsBound(ByHash, entries[..]);
        return false;
      }
      var found, index, j := Find(ByHash, entries, hash, lgCurSize);
      HashKey(entries[..], hash);
      if !found {
        MissedAll(ByHash, entries[..], hash, lgCurSize);
        return false;
      }
      ProbeDecides(ByHash, entries[..], hash, lgCurSize, j);
      present := entries[index] != EMPTY;
    }

    /** Offers a hash. */
    method UpsertEntry(hash: nat) returns (novel: bool)
      requires Valid() && lgCurSize > 0
      modifies this, entries
      ensures Valid() && lgCurSize >= old(lgCurSize) && theta <= old(theta) && (entries == old(entries) || fresh(entries))
      ensures novel <==> hash != 0 && hash < old(theta) && hash !in old(Retained())
      ensures seen == old(seen) + (if hash == 0 then {} else {hash}) && initialTheta == old(initialTheta)
      ensures !novel ==> theta == old(theta) && lgCurSize == old(lgCurSize) && numRetained == old(numRetained)
      ensures novel ==> Settled(old(lgCurSize), old(entries.Length), old(numRetained) + 1, old(theta))
      ensures !isEmpty
    {
      hide Items, Findable, Below, Lowered, Stopped, Threshold;
      isEmpty := false;
      if hash == 0 || hash >= theta {
        SeeMore(seen, theta, hash);
        SeeKeeps(seen, initialTheta, Pow2(lgNomSize), theta, hash);
        seen := seen + if hash == 0 then {} else {hash};
        return false;
      }
      novel := Place(hash);
    }

    method Place(hash: nat) returns (novel: bool)
      requires Valid() && lgCurSize > 0 && 0 < hash < theta
      modifies this`seen, this`lgCurSize, this`theta, this`entries, this`numRetained, entries
      ensures Valid() && lgCurSize >= old(lgCurSize) && theta <= old(theta) && (entries == old(entries) || fresh(entries))
      ensures novel <==> hash !in old(Retained())
      ensures seen == old(seen) + {hash}
      ensures !novel ==> theta == old(theta) && lgCurSize == old(lgCurSize) && numRetained == old(numRetained)
      ensures novel ==> Settled(old(lgCurSize), old(entries.Length), old(numRetained) + 1, old(theta))
    {
      hide Items, Findable, Below, Lowered, Stopped, Threshold, Settled;
      var index, j := Probe(hash);
      if entries[index] != EMPTY {
        SeenAlready(seen, theta, hash);
        return false;
      }
      SeeMore(seen, theta, hash);
      SeeKeeps(seen, initialTheta, Pow2(lgNomSize), theta, hash);
      Store(index, hash, j);
      seen := seen + {hash};
      GrowOrRebuild();
      novel := true;
    }

    /** A table never fills up, so the code's `unreachable!` is. */
    method Probe(hash: nat) returns (index: nat, ghost j: nat)
      requires Valid() && lgCurSize > 0 && hash != 0
      ensures index < entries.Length && Findable(ByHash, entries[..], lgCurSize)
      ensures index == Path(ByHash, hash, lgCurSize, j) && Stopped(ByHash, entries[..], hash, lgCurSize, j)
      ensures entries[index] != EMPTY <==> hash in Retained()
    {
      ghost var s := entries[..];
      ThresholdBelowSize(lgCurSize, lgNomSize);
      ghost var e := FreeSlot(ByHash, s);
      var found, index0, j0 := Find(ByHash, entries, hash, lgCurSize);
      FreeSlotStops(ByHash, s, hash, lgCurSize, e);
      ProbeDecides(ByHash, s, hash, lgCurSize, j0);
      HashKey(s, hash);
      index, j := index0, j0;
    }

    method Store(index: nat, hash: nat, ghost j: nat)
      requires Shaped() && lgCurSize > 0 && Findable(ByHash, entries[..], lgCurSize) && hash != 0
      requires index == Path(ByHash, hash, lgCurSize, j) && Stopped(ByHash, entries[..], hash, lgCurSize, j)
      requires index < entries.Length && entries[index] == EMPTY
      modifies this`numRetained, entries
      ensures Shaped() && Retained() == old(Retained()) + {hash} && numRetained == old(numRetained) + 1
    {
      hide Items, Findable, Stopped, Path;
      ghost var s := entries[..];
      PutKeeps(ByHash, s, hash, lgCurSize, j);
      entries[index] := hash;
      numRetained := numRetained + 1;
      assert entries[..] == s[index := hash];
    }

    /** Past its threshold the table grows, or at its largest size keeps the k smallest hashes. */
    method GrowOrRebuild()
      requires Within(1) && lgCurSize > 0
      modifies this`lgCurSize, this`theta, this`entries, this`numRetained
      ensures Valid() && lgCurSize >= old(lgCurSize) && theta <= old(theta) && (entries == old(entries) || fresh(entries))
      ensures Settled(old(lgCurSize), old(entries.Length), old(numRetained), old(theta))
    {
      if numRetained > Threshold(lgCurSize, lgNomSize, entries.Length) {
        if lgCurSize <= lgNomSize {
          Resize();
        } else {
          RebuildFits(lgNomSize);
          Rebuild();
        }
      }
    }

    method Resize()
      requires Within(1) && 0 < lgCurSize <= lgNomSize
      modifies this`lgCurSize, this`entries
      ensures Valid() && lgCurSize > old(lgCurSize) && fresh(entries) && Retained() == old(Retained())
      ensures numRetained == old(numRetained) && theta == old(theta)
      ensures lgCurSize == Min(old(lgCurSize) + lgResize, lgNomSize + 1)
    {
      ThresholdFits(lgCurSize, lgNomSize, lgResize);
      var newLgSize := Min(lgCurSize + lgResize, lgNomSize + 1);
      ThresholdBelowSize(newLgSize, lgNomSize);
      var hashes := Flatten(entries[..]);
      FlattenItems(ByHash, entries[..]);
      entries := Rehashed(hashes, newLgSize);
      lgCurSize := newLgSize;
    }

    /** A new table holding the given hashes. */
    static method Rehashed(hashes: seq<nat>, lgSize: nat) returns (newEntries: array<nat>)
      requires NoDuplicates(hashes) && |ToSet(hashes)| <= Pow2(lgSize) && 0 !in ToSet(hashes)
      ensures fresh(newEntries) && Findable(ByHash, newEntries[..], lgSize) && Items(newEntries[..]) == ToSet(hashes)
    {
      newEntries := new nat[Pow2(lgSize)](_ => EMPTY);
      NoItems(ByHash, newEntries[..], lgSize);
      assert ToSet(hashes[..0]) == {};
      hide Findable, Items, NoDuplicates, ToSet;
      for i := 0 to |hashes|
        invariant Findable(ByHash, newEntries[..], lgSize) && Items(newEntries[..]) == ToSet(hashes[..i])
      {
        PrefixSets(hashes, i);
        HashKey(newEntries[..], hashes[i]);
        FindableSize(ByHash, newEntries[..], lgSize);
        PlaceNew(ByHash, newEntries, hashes[i], lgSize);
      }
      assert hashes[..|hashes|] == hashes;
    }

    /** Lowers theta to the (k+1)-th smallest retained hash and keeps the k smaller ones. */
    method Rebuild()
      requires Within(1) && lgCurSize == lgNomSize + 1 && numRetained > Pow2(lgNomSize)
      modifies this`theta, this`entries, this`numRetained
      ensures Valid() && fresh(entries) && theta < old(theta) && numRetained == Pow2(lgNomSize)
    {
      ghost var keys := Items(entries[..]);
      var k := Pow2(lgNomSize);
      var retained := Flatten(entries[..]);
      FlattenItems(ByHash, entries[..]);
      ToSetSize(retained);
      var kth := SelectNth(retained, k);
      NthSplits(retained, k, kth);
      LowerDistinct(retained, kth);
      RebuildLowers(seen, initialTheta, k, theta, kth);
      RebuildFits(lgNomSize);
      BelowTwice(seen, theta, kth);
      theta := kth;
      entries := Rehashed(Lower(retained, kth), lgCurSize);
      numRetained := k;
    }

    /** Keeps at most k hashes. */
    method Trim()
      requires Valid()
      modifies this`theta, this`entries, this`numRetained
      ensures Valid() && (entries == old(entries) || fresh(entries))
      ensures Trimmed(seen, initialTheta, Pow2(lgNomSize), theta) && Retained() == Below(seen, theta)
    {
      if numRetained > Pow2(lgNomSize) {
        SmallTablesFit(lgCurSize, lgNomSize);
        Rebuild();
      }
    }

    /** Sets theta; the history restarts with the hashes now retained. */
    method SetTheta(theta: nat)
      requires Shaped() && 1 <= theta <= MAX_THETA
      requires numRetained <= Threshold(lgCurSize, lgNomSize, entries.Length) && 0 !in Retained()
      modifies this`theta, this`seen, this`initialTheta
      ensures this.theta == theta && (AllUnder(Retained(), theta) ==> Valid())
    {
      hide Items, Findable, Below, AllUnder, Threshold;
      this.theta := theta;
      seen := Retained();
      initialTheta := theta;
      AllBelow(seen, theta);
    }
  }

  /** A run of updates followed by a trim: the outcome is fixed by the set of hashes offered, not
    * by their order, repetitions or the table's resizes. */
  method FeedAndTrim(table: SketchHashTable, hashes: seq<nat>)
    requires table.Valid() && table.lgCurSize > 0 && table.seen == {}
    modifies table, table.entries
    ensures table.Valid() && table.initialTheta == old(table.initialTheta)
    ensures var offered := ToSet(hashes) - {0};
      Trimmed(offered, table.initialTheta, Pow2(table.lgNomSize), table.theta) && table.Retained() == Below(offered, table.theta)
  {
    hide Items, Findable, Below, Lowered, Trimmed, ToSet, SketchHashTable.Valid;
    assert hashes[..|hashes|] == hashes;
    OfferedNone(hashes);
    for i := 0 to |hashes|
      invariant table.Valid() && table.lgCurSize > 0 && table.initialTheta == old(table.initialTheta)
      invariant table.entries == old(table.entries) || fresh(table.entries)
      invariant table.seen == ToSet(hashes[..i]) - {0}
    {
      OfferedNext(hashes, i);
      var novel := table.UpsertEntry(hashes[i]);
    }
    table.Trim();
  }

  lemma OfferedNone(hashes: seq<nat>)
    ensures ToSet(hashes[..0]) - {0} == {}
  {
  }

  lemma OfferedNext(hashes: seq<nat>, i: nat)
    requires i < |hashes|
    ensures ToSet(hashes[..i + 1]) - {0} == ToSet(hashes[..i]) - {0} + if hashes[i] == 0 then {} else {hashes[i]}
  {
    assert hashes[..i + 1] == hashes[..i] + [hashes[i]];
  }

  lemma SmallTablesFit(lgCur: nat, lgNom: nat)
    ensures 0 < lgCur <= lgNom ==> Threshold(lgCur, lgNom, Pow2(lgCur)) <= Pow2(lgNom)
    ensures Threshold(0, lgNom, 0) == 0
  {
    if 0 < lgCur <= lgNom {
      Monotone(lgCur, lgNom);
    }
  }

  lemma PrefixSets(s: seq<nat>, i: nat)
    requires i < |s| && NoDuplicates(s)
    ensures ToSet(s[..i + 1]) == ToSet(s[..i]) + {s[i]} && s[i] !in ToSet(s[..i])
    ensures |ToSet(s[..i])| < |ToSet(s)| && s[i] in ToSet(s)
  {
    assert s[..i + 1] == s[..i] + [s[i]];
    assert s[i] in ToSet(s);
    SubsetSize(ToSet(s[..i]) + {s[i]}, ToSet(s));
  }

  lemma SeeKeeps(seen: set<nat>, initial: nat, k: nat, theta: nat, hash: nat)
    requires Lowered(seen, initial, k, theta)
    ensures Lowered(seen + {hash}, initial, k, theta)
  {
    SeeMore(seen, theta, hash);
  }

  lemma AllBelow(seen: set<nat>, theta: nat)
    ensures AllUnder(seen, theta) ==> Below(seen, theta) == seen
  {
  }

  lemma SeenAlready(seen: set<nat>, theta: nat, hash: nat)
    requires hash in Below(seen, theta)
    ensures seen + {hash} == seen
  {
  }
}
