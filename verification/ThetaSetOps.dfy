/** Set operations on Theta-family sketches: `thetafamily/common/intersection.rs`, `a_not_b.rs` and
  * `union.rs`. */
module ThetaSetOps {
  import opened Powers
  import opened Sets
  import opened Options
  import opened Selection
  import opened Sorting
  import opened OpenAddressing
  import opened ThetaTable

  /** A compact sketch: its retained hashes are those of its stream below theta. */
  datatype Sketch = Sketch(seedHash: nat, theta: nat, empty: bool, ordered: bool, hashes: seq<nat>) {
    ghost predicate WellFormed() {
      && 1 <= theta <= MAX_THETA && NoDuplicates(hashes)
      && (forall i :: 0 <= i < |hashes| ==> 0 < hashes[i] < theta)
      && (ordered ==> Ascending(hashes)) && (empty ==> hashes == [])
    }

    ghost function Keys(): set<nat> {
      ToSet(hashes)
    }
  }

  /** The incoming sketch's seed matters only if it holds anything. */
  ghost predicate Compatible(s: Sketch, seedHash: nat) {
    s.empty || s.seedHash == seedHash
  }

  function HashOrder(hash: nat): int {
    hash
  }

  lemma SortKeeps(s: seq<nat>)
    requires NoDuplicates(s)
    ensures var t := Sort(s, HashOrder); ToSet(t) == ToSet(s) && NoDuplicates(t) && Ascending(t)
  {
    var t := Sort(s, HashOrder);
    SortOrders(s, HashOrder);
    SameMembers(s, HashOrder);
    StillDistinct(s, t);
    forall i, j | 0 <= i < j < |t| ensures t[i] <= t[j] {
      assert HashOrder(t[i]) <= HashOrder(t[j]);
    }
  }

  lemma SnocSet(s: seq<nat>, x: nat)
    ensures ToSet(s + [x]) == ToSet(s) + {x}
    ensures NoDuplicates(s) && x !in ToSet(s) ==> NoDuplicates(s + [x])
  {
  }

  // ---------------------------------------------------------- A and not B

  /** A's hashes that B does not have, below both thetas. */
  ghost predicate Difference(a: Sketch, b: Sketch, r: Sketch) {
    var theta := Min(a.theta, b.theta);
    && r.theta == theta && r.Keys() == Below(a.Keys() - b.Keys(), theta)
    && (r.empty <==> r.Keys() == {} && theta == MAX_THETA)
  }

  /** Below theta, all of A's hashes before position i that B lacks are kept, and nothing else. */
  ghost predicate Kept(a: Sketch, i: nat, excluded: set<nat>, theta: nat, kept: seq<nat>)
    requires i <= |a.hashes|
  {
    && ToSet(kept) == Below(ToSet(a.hashes[..i]) - excluded, theta) && NoDuplicates(kept)
    && (a.ordered ==> Ascending(kept))
  }

  lemma KeptNext(a: Sketch, i: nat, excluded: set<nat>, theta: nat, kept: seq<nat>)
    requires a.WellFormed() && i < |a.hashes| && Kept(a, i, excluded, theta, kept)
    ensures var h := a.hashes[i];
      if h < theta && h !in excluded then Kept(a, i + 1, excluded, theta, kept + [h]) else Kept(a, i + 1, excluded, theta, kept)
  {
    var h := a.hashes[i];
    assert a.hashes[..i + 1] == a.hashes[..i] + [h];
    assert h !in ToSet(a.hashes[..i]);
    if h < theta && h !in excluded {
      SnocSet(kept, h);
      if a.ordered {
        forall j | 0 <= j < |kept| ensures kept[j] <= h {
          assert kept[j] in ToSet(kept);
        }
      }
    }
  }

  /** In an ordered sketch, nothing from the first hash at theta on counts. */
  lemma KeptStops(a: Sketch, i: nat, excluded: set<nat>, theta: nat, kept: seq<nat>)
    requires a.WellFormed() && i <= |a.hashes| && Kept(a, i, excluded, theta, kept)
    requires i == |a.hashes| || (a.ordered && a.hashes[i] >= theta)
    ensures ToSet(kept) == Below(a.Keys() - excluded, theta) && NoDuplicates(kept) && (a.ordered ==> Ascending(kept))
  {
    forall h | h in a.Keys() && h < theta ensures h in ToSet(a.hashes[..i]) {
      var j :| 0 <= j < |a.hashes| && a.hashes[j] == h;
      assert a.hashes[..i][j] == h;
    }
  }

  /** Only B's hashes below theta can exclude. */
  lemma OnlyBelow(keys: set<nat>, excluded: set<nat>, theta: nat)
    ensures Below(keys - Below(excluded, theta), theta) == Below(keys - excluded, theta)
  {
  }

  /** B retains nothing: filter A by theta. */
  method FilterA(a: Sketch, theta: nat) returns (kept: seq<nat>)
    requires a.WellFormed()
    ensures ToSet(kept) == Below(a.Keys(), theta) && NoDuplicates(kept) && (a.ordered ==> Ascending(kept))
  {
    kept := [];
    assert Kept(a, 0, {}, theta, kept);
    for i := 0 to |a.hashes|
      invariant Kept(a, i, {}, theta, kept)
    {
      hide Kept;
      KeptNext(a, i, {}, theta, kept);
      if a.hashes[i] < theta {
        kept := kept + [a.hashes[i]];
      }
    }
    KeptStops(a, |a.hashes|, {}, theta, kept);
    assert a.Keys() - {} == a.Keys();
  }

  /** B's hashes before position p are all smaller than any of A's still to come. */
  ghost predicate Passed(b: Sketch, p: nat, h: nat) {
    p <= |b.hashes| && forall j :: 0 <= j < p ==> b.hashes[j] < h
  }

  lemma PeekDecides(b: Sketch, p: nat, h: nat)
    requires b.WellFormed() && b.ordered && Passed(b, p, h)
    requires p < |b.hashes| ==> b.hashes[p] >= h
    ensures h in b.Keys() <==> p < |b.hashes| && b.hashes[p] == h
  {
    if h in b.Keys() {
      var j :| 0 <= j < |b.hashes| && b.hashes[j] == h;
    }
  }

  /** Both ordered: a merge scan. */
  method MergeScan(a: Sketch, b: Sketch, theta: nat) returns (kept: seq<nat>)
    requires a.WellFormed() && b.WellFormed() && a.ordered && b.ordered
    ensures ToSet(kept) == Below(a.Keys() - b.Keys(), theta) && NoDuplicates(kept) && Ascending(kept)
  {
    hide Kept, Below, ToSet;
    kept := [];
    KeptNone(a, b.Keys(), theta);
    var i, p := 0, 0;
    while i < |a.hashes| && a.hashes[i] < theta
      invariant 0 <= i <= |a.hashes| && 0 <= p <= |b.hashes| && Kept(a, i, b.Keys(), theta, kept)
      invariant i < |a.hashes| ==> Passed(b, p, a.hashes[i])
    {
      var hash := a.hashes[i];
      while p < |b.hashes| && b.hashes[p] < hash
        invariant 0 <= p <= |b.hashes| && Passed(b, p, hash)
      {
        p := p + 1;
      }
      PeekDecides(b, p, hash);
      KeptNext(a, i, b.Keys(), theta, kept);
      if !(p < |b.hashes| && b.hashes[p] == hash) {
        kept := kept + [hash];
      }
      i := i + 1;
    }
    KeptStops(a, i, b.Keys(), theta, kept);
  }

  lemma KeptNone(a: Sketch, excluded: set<nat>, theta: nat)
    ensures Kept(a, 0, excluded, theta, [])
  {
    assert ToSet([]) == {} == Below(ToSet(a.hashes[..0]) - excluded, theta);
  }

  /** B's hashes below theta as a set. */
  method CollectB(b: Sketch, theta: nat) returns (keys: set<nat>)
    requires b.WellFormed()
    ensures keys == Below(b.Keys(), theta)
  {
    keys := {};
    var i := 0;
    while i < |b.hashes| && !(b.ordered && b.hashes[i] >= theta)
      invariant 0 <= i <= |b.hashes| && keys == Below(ToSet(b.hashes[..i]), theta)
    {
      assert b.hashes[..i + 1] == b.hashes[..i] + [b.hashes[i]];
      if b.hashes[i] < theta {
        keys := keys + {b.hashes[i]};
      }
      i := i + 1;
    }
    forall h | h in b.Keys() && h < theta ensures h in ToSet(b.hashes[..i]) {
      var j :| 0 <= j < |b.hashes| && b.hashes[j] == h;
      assert b.hashes[..i][j] == h;
    }
  }

  /** Otherwise: look A's hashes up in a set of B's. */
  method HashScan(a: Sketch, b: Sketch, theta: nat) returns (kept: seq<nat>)
    requires a.WellFormed() && b.WellFormed()
    ensures ToSet(kept) == Below(a.Keys() - b.Keys(), theta) && NoDuplicates(kept) && (a.ordered ==> Ascending(kept))
  {
    hide Kept, Below, ToSet;
    var bKeys := CollectB(b, theta);
    kept := [];
    KeptNone(a, bKeys, theta);
    var i := 0;
    while i < |a.hashes| && !(a.ordered && a.hashes[i] >= theta)
      invariant 0 <= i <= |a.hashes| && Kept(a, i, bKeys, theta, kept)
    {
      KeptNext(a, i, bKeys, theta, kept);
      if a.hashes[i] < theta && a.hashes[i] !in bKeys {
        kept := kept + [a.hashes[i]];
      }
      i := i + 1;
    }
    KeptStops(a, i, bKeys, theta, kept);
    OnlyBelow(a.Keys(), b.Keys(), theta);
  }

  /** A copy of a sketch, sorted on request. */
  method PartsFromSketch(s: Sketch, ordered: bool) returns (r: Sketch)
    requires s.WellFormed()
    ensures r.WellFormed() && r.Keys() == s.Keys() && r.theta == s.theta && r.empty == s.empty
    ensures r.ordered == (ordered || s.ordered) && r.seedHash == s.seedHash
  {
    SortKeeps(s.hashes);
    var hashes := if ordered && !s.ordered && |s.hashes| > 1 then Sort(s.hashes, HashOrder) else s.hashes;
    forall i | 0 <= i < |hashes| ensures 0 < hashes[i] < s.theta {
      assert hashes[i] in ToSet(hashes);
    }
    return Sketch(s.seedHash, s.theta, s.empty, ordered || s.ordered, hashes);
  }

  /** A and not B: whichever way it is computed, the hashes of A that B lacks, below both thetas.
    * An empty operand leaves A as it is; a wrong seed is an error. */
  method ANotB(seedHash: nat, a: Sketch, b: Sketch, ordered: bool) returns (r: Option<Sketch>)
    requires a.WellFormed() && b.WellFormed()
    ensures r.None? <==> !Compatible(a, seedHash) || (!a.empty && !Compatible(b, seedHash))
    ensures r.Some? ==> r.value.WellFormed() && r.value.ordered == (ordered || a.ordered)
    ensures r.Some? && (a.empty || b.empty) ==>
      r.value.Keys() == a.Keys() && r.value.theta == a.theta && r.value.empty == a.empty && r.value.seedHash == a.seedHash
    ensures r.Some? && !a.empty && !b.empty ==> Difference(a, b, r.value) && r.value.seedHash == seedHash
  {
    if a.empty {
      var copy := PartsFromSketch(a, ordered);
      return Some(copy);
    }
    if a.seedHash != seedHash {
      return None;
    }
    if b.empty {
      var copy := PartsFromSketch(a, ordered);
      return Some(copy);
    }
    if b.seedHash != seedHash {
      return None;
    }
    var theta := Min(a.theta, b.theta);
    var hashes := Subtract(a, b, theta);
    var result := Finish(seedHash, theta, a.ordered, ordered, hashes);
    r := Some(result);
  }

  method Finish(seedHash: nat, theta: nat, aOrdered: bool, ordered: bool, hashes: seq<nat>) returns (r: Sketch)
    requires 1 <= theta <= MAX_THETA && NoDuplicates(hashes) && (aOrdered ==> Ascending(hashes))
    requires forall h :: h in ToSet(hashes) ==> 0 < h < theta
    ensures r.WellFormed() && r.Keys() == ToSet(hashes) && r.theta == theta && r.ordered == (ordered || aOrdered)
    ensures (r.empty <==> ToSet(hashes) == {} && theta == MAX_THETA) && r.seedHash == seedHash
  {
    hide ToSet, NoDuplicates, Ascending, Sort;
    SortKeeps(hashes);
    ToSetSize(hashes);
    NoMembers(hashes);
    var isEmpty := |hashes| == 0 && theta == MAX_THETA;
    var sorted := if ordered && !aOrdered && |hashes| > 1 then Sort(hashes, HashOrder) else hashes;
    ShortAscends(hashes);
    MembersBetween(sorted, theta);
    return Sketch(seedHash, theta, isEmpty, ordered || aOrdered, sorted);
  }

  lemma NoMembers(hashes: seq<nat>)
    ensures ToSet(hashes) == {} <==> |hashes| == 0
  {
    if |hashes| > 0 {
      assert hashes[0] in ToSet(hashes);
    }
  }

  lemma ShortAscends(hashes: seq<nat>)
    ensures |hashes| <= 1 ==> Ascending(hashes)
  {
  }

  lemma MembersBetween(hashes: seq<nat>, theta: nat)
    requires forall h :: h in ToSet(hashes) ==> 0 < h < theta
    ensures forall i :: 0 <= i < |hashes| ==> 0 < hashes[i] < theta
  {
    forall i | 0 <= i < |hashes| ensures 0 < hashes[i] < theta {
      assert hashes[i] in ToSet(hashes);
    }
  }

  method Subtract(a: Sketch, b: Sketch, theta: nat) returns (hashes: seq<nat>)
    requires a.WellFormed() && b.WellFormed()
    ensures ToSet(hashes) == Below(a.Keys() - b.Keys(), theta) && NoDuplicates(hashes) && (a.ordered ==> Ascending(hashes))
  {
    if |b.hashes| == 0 {
      hashes := FilterA(a, theta);
      assert b.Keys() == {};
      assert a.Keys() - b.Keys() == a.Keys();
    } else if a.ordered && b.ordered {
      hashes := MergeScan(a, b, theta);
    } else {
      hashes := HashScan(a, b, theta);
    }
  }

  // -------------------------------------------------------- intersection

  /** The hashes that every input retains. */
  ghost function Common(inputs: seq<Sketch>): set<nat>
    requires inputs != []
  {
    var n := |inputs| - 1;
    if n == 0 then inputs[0].Keys() else Common(inputs[..n]) * inputs[n].Keys()
  }

  ghost function MinTheta(inputs: seq<Sketch>): nat {
    if inputs == [] then MAX_THETA else Min(MinTheta(inputs[..|inputs| - 1]), inputs[|inputs| - 1].theta)
  }

  /** When an intersection is empty for good: some input is empty, or removed the last hashes from
    * what exact inputs had in common. */
  ghost predicate ExactlyEmpty(inputs: seq<Sketch>) {
    exists n :: 0 < n <= |inputs| && Empties(inputs[..n])
  }

  /** The last of these inputs is the one. */
  ghost predicate Empties(inputs: seq<Sketch>)
    requires inputs != []
  {
    var n := |inputs| - 1;
    || inputs[n].empty
    || (n > 0 && MinTheta(inputs) == MAX_THETA && inputs[n].hashes != [] && Common(inputs[..n]) != {} && Common(inputs) == {})
  }

  /** An intersection holds the hashes common to all inputs below their smallest theta. */
  ghost predicate Intersection(inputs: seq<Sketch>, empty: bool, theta: nat, keys: set<nat>) {
    if inputs == [] then !empty && theta == MAX_THETA && keys == {}
    else
      && (empty <==> ExactlyEmpty(inputs))
      && keys == Below(Common(inputs), MinTheta(inputs)) && (empty ==> Common(inputs) == {})
      && theta == (if empty then MAX_THETA else MinTheta(inputs))
      && forall i :: 0 <= i < |inputs| ==> inputs[i].WellFormed()
  }

  lemma Snoc(inputs: seq<Sketch>, s: Sketch)
    ensures Common(inputs + [s]) == if inputs == [] then s.Keys() else Common(inputs) * s.Keys()
    ensures MinTheta(inputs + [s]) == Min(MinTheta(inputs), s.theta)
  {
    assert (inputs + [s])[..|inputs|] == inputs;
  }

  /** One more input leaves an intersection empty, or is the one that empties it. */
  lemma EmptyWithOneMore(inputs: seq<Sketch>, s: Sketch)
    ensures ExactlyEmpty(inputs + [s]) <==> ExactlyEmpty(inputs) || Empties(inputs + [s])
  {
    var all := inputs + [s];
    assert all[..|all|] == all;
    assert forall n :: 0 < n <= |inputs| ==> all[..n] == inputs[..n];
    if ExactlyEmpty(inputs) {
      var n :| 0 < n <= |inputs| && Empties(inputs[..n]);
      assert Empties(all[..n]);
    }
  }

  /** Where, as in every sketch the library builds, the exact inputs without hashes are the empty
    * ones, an intersection is empty exactly if its first inputs, up to an empty one or all exact,
    * have nothing in common. */
  lemma EmptyIffNothingLeft(inputs: seq<Sketch>)
    requires forall i :: 0 <= i < |inputs| ==> inputs[i].WellFormed()
    requires forall i :: 0 <= i < |inputs| ==> (inputs[i].empty <==> inputs[i].hashes == [] && inputs[i].theta == MAX_THETA)
    ensures ExactlyEmpty(inputs) <==> exists n :: 0 < n <= |inputs| && NothingLeft(inputs[..n])
  {
    if ExactlyEmpty(inputs) {
      var n :| 0 < n <= |inputs| && Empties(inputs[..n]);
      assert NothingLeft(inputs[..n]);
    }
    if n :| 0 < n <= |inputs| && NothingLeft(inputs[..n]) {
      var m := FirstEmptied(inputs, n);
      assert Empties(inputs[..m]);
    }
  }

  ghost predicate NothingLeft(inputs: seq<Sketch>)
    requires inputs != []
  {
    Common(inputs) == {} && (inputs[|inputs| - 1].empty || MinTheta(inputs) == MAX_THETA)
  }

  lemma {:induction false} FirstEmptied(inputs: seq<Sketch>, n: nat) returns (m: nat)
    requires 0 < n <= |inputs| && NothingLeft(inputs[..n]) && forall i :: 0 <= i < |inputs| ==> inputs[i].WellFormed()
    requires forall i :: 0 <= i < |inputs| ==> (inputs[i].empty <==> inputs[i].hashes == [] && inputs[i].theta == MAX_THETA)
    ensures 0 < m <= n && Empties(inputs[..m])
  {
    m := n;
    assert inputs[..n] == inputs[..n - 1] + [inputs[n - 1]];
    Snoc(inputs[..n - 1], inputs[n - 1]);
    NoMembers(inputs[n - 1].hashes);
    if !Empties(inputs[..n]) {
      m := FirstEmptied(inputs, n - 1);
    }
  }

  /** Two exact sketches that share no hash intersect to an empty one. */
  lemma DisjointIsEmpty(a: Sketch, b: Sketch)
    requires a.hashes != [] && b.hashes != [] && a.theta == b.theta == MAX_THETA && a.Keys() * b.Keys() == {}
    ensures ExactlyEmpty([a, b])
  {
    Snoc([], a);
    Snoc([a], b);
    assert [] + [a] == [a] && [a] + [b] == [a, b] && [a, b][..1] == [a] && [a, b][..2] == [a, b];
    assert a.hashes[0] in a.Keys();
    assert Empties([a, b][..2]);
  }

  /** Once empty, always empty. */
  lemma StaysEmpty(inputs: seq<Sketch>, s: Sketch, theta: nat, keys: set<nat>)
    requires Intersection(inputs, true, theta, keys) && s.WellFormed()
    ensures Intersection(inputs + [s], true, theta, keys) && inputs != []
  {
    Snoc(inputs, s);
    EmptyWithOneMore(inputs, s);
  }

  lemma EmptyInput(inputs: seq<Sketch>, s: Sketch, theta: nat, keys: set<nat>)
    requires Intersection(inputs, false, theta, keys) && s.WellFormed() && s.empty
    ensures Intersection(inputs + [s], true, MAX_THETA, {})
  {
    Snoc(inputs, s);
    EmptyWithOneMore(inputs, s);
    assert Empties(inputs + [s]);
    NoMembers(s.hashes);
  }

  /** A later input keeps the running hashes it shares that lie below the new theta. */
  lemma MatchedInput(inputs: seq<Sketch>, s: Sketch, theta: nat, keys: set<nat>)
    requires Intersection(inputs, false, theta, keys) && s.WellFormed() && !s.empty && inputs != []
    ensures var low, matched := Min(theta, s.theta), Below(keys * s.Keys(), Min(theta, s.theta));
      Intersection(inputs + [s], keys != {} && s.hashes != [] && matched == {} && low == MAX_THETA, low, matched)
  {
    Snoc(inputs, s);
    EmptyWithOneMore(inputs, s);
    var low, matched := Min(theta, s.theta), Below(keys * s.Keys(), Min(theta, s.theta));
    assert matched == Below(Common(inputs) * s.Keys(), low);
    assert (inputs + [s])[..|inputs|] == inputs;
    if low == MAX_THETA && theta == MAX_THETA {
      forall h | h in Common(inputs) ensures h in keys {
        CommonBelow(inputs, h);
      }
    }
  }

  /** Every common hash is below the theta of some input: below the largest possible. */
  lemma CommonBelow(inputs: seq<Sketch>, h: nat)
    requires inputs != [] && h in Common(inputs) && forall i :: 0 <= i < |inputs| ==> inputs[i].WellFormed()
    ensures h < MAX_THETA
  {
    assert h in inputs[|inputs| - 1].Keys();
  }

  lemma FirstInput(s: Sketch)
    requires s.WellFormed() && !s.empty
    ensures Intersection([s], false, s.theta, s.Keys())
  {
    assert [s][..0] == [];
    assert Below(s.Keys(), s.theta) == s.Keys();
  }

  /** The running hashes among the incoming ones seen so far. */
  ghost predicate Matching(s: Sketch, i: nat, keys: set<nat>, theta: nat, matched: seq<nat>)
    requires i <= |s.hashes|
  {
    ToSet(matched) == Below(keys * ToSet(s.hashes[..i]), theta) && NoDuplicates(matched)
  }

  lemma MatchingNext(s: Sketch, i: nat, keys: set<nat>, theta: nat, matched: seq<nat>)
    requires s.WellFormed() && i < |s.hashes| && Matching(s, i, keys, theta, matched)
    ensures var h := s.hashes[i];
      if h < theta && h in keys then Matching(s, i + 1, keys, theta, matched + [h]) else Matching(s, i + 1, keys, theta, matched)
    ensures s.hashes[i] < theta && s.hashes[i] in keys ==> |matched| < |keys| && |matched| < |s.hashes|
  {
    var h := s.hashes[i];
    assert s.hashes[..i + 1] == s.hashes[..i] + [h];
    assert h !in ToSet(s.hashes[..i]);
    if h < theta && h in keys {
      SnocSet(matched, h);
      ToSetSize(matched);
      SubsetSize(ToSet(matched) + {h}, keys);
      ToSetSize(s.hashes);
      assert h in s.Keys();
      SubsetSize(ToSet(matched) + {h}, s.Keys());
    }
  }

  lemma MatchingNone(s: Sketch, keys: set<nat>, theta: nat)
    ensures Matching(s, 0, keys, theta, [])
  {
    assert ToSet([]) == {} == Below(keys * ToSet(s.hashes[..0]), theta);
  }

  lemma MatchingStops(s: Sketch, i: nat, keys: set<nat>, theta: nat, matched: seq<nat>)
    requires s.WellFormed() && i <= |s.hashes| && Matching(s, i, keys, theta, matched)
    requires i == |s.hashes| || (s.ordered && s.hashes[i] >= theta)
    ensures ToSet(matched) == Below(keys * s.Keys(), theta) && NoDuplicates(matched)
  {
    forall h | h in s.Keys() && h < theta ensures h in ToSet(s.hashes[..i]) {
      var j :| 0 <= j < |s.hashes| && s.hashes[j] == h;
      assert s.hashes[..i][j] == h;
    }
  }

  /** A table just large enough for the given hashes: filling it never triggers a rebuild. */
  method Filled(hashes: seq<nat>, theta: nat) returns (table: Option<SketchHashTable>)
    requires NoDuplicates(hashes) && |hashes| >= 1 && forall h :: h in ToSet(hashes) ==> 0 < h < theta
    ensures table.Some? && fresh(table.value) && fresh(table.value.entries)
    ensures table.value.Valid() && table.value.Retained() == ToSet(hashes)
    ensures table.value.theta == theta && !table.value.isEmpty
  {
    hide Items, Findable, Below, Lowered, Threshold, ToSet, NoDuplicates;
    var lgSize := LgSizeFromCountForRebuild(|hashes|);
    LgSizeIsMinimal(|hashes|);
    ToSetSize(hashes);
    assert hashes[..|hashes|] == hashes;
    NonePut(hashes);
    var t := new SketchHashTable(lgSize, lgSize - 1, 0, theta, false);
    for i := 0 to |hashes|
      invariant t.Valid() && t.lgCurSize == lgSize && t.lgNomSize == lgSize - 1 && fresh(t) && fresh(t.entries)
      invariant t.theta == theta && t.Retained() == t.seen == ToSet(hashes[..i]) && !t.isEmpty
    {
      PutNext(hashes, i, theta);
      SizeOf(t, lgSize);
      var novel := t.UpsertEntry(hashes[i]);
      RetainedAll(t, hashes, i, theta);
      if !novel {
        return None;
      }
    }
    table := Some(t);
  }

  lemma NonePut(hashes: seq<nat>)
    ensures ToSet(hashes[..0]) == {}
  {
  }

  lemma PutNext(hashes: seq<nat>, i: nat, theta: nat)
    requires NoDuplicates(hashes) && i < |hashes| && forall h :: h in ToSet(hashes) ==> 0 < h < theta
    ensures 0 < hashes[i] < theta && hashes[i] !in ToSet(hashes[..i]) && |ToSet(hashes[..i])| == i
    ensures ToSet(hashes[..i + 1]) == ToSet(hashes[..i]) + {hashes[i]}
  {
    PrefixSets(hashes, i);
    ToSetSize(hashes[..i]);
    assert hashes[i] in ToSet(hashes);
  }

  lemma SizeOf(t: SketchHashTable, lgSize: nat)
    requires t.Valid() && t.lgCurSize == lgSize > 0
    ensures t.entries.Length == Pow2(lgSize) && t.numRetained == |t.Retained()|
  {
  }

  lemma RetainedAll(t: SketchHashTable, hashes: seq<nat>, i: nat, theta: nat)
    requires t.Valid() && i < |hashes| && t.seen == ToSet(hashes[..i + 1]) && t.theta == theta
    requires forall h :: h in ToSet(hashes) ==> 0 < h < theta
    ensures t.Retained() == t.seen
  {
    forall h | h in t.seen ensures h < theta {
      assert h in ToSet(hashes);
    }
    assert Below(t.seen, theta) == t.seen;
  }

  lemma NoHashesLeft(inputs: seq<Sketch>, s: Sketch, theta: nat, keys: set<nat>)
    requires Intersection(inputs, false, theta, keys) && s.WellFormed() && theta <= MAX_THETA
    requires s.hashes == [] || (keys == {} && inputs != [])
    ensures Intersection(inputs + [s], s.empty, if s.empty then MAX_THETA else Min(theta, s.theta), {})
  {
    if s.empty {
      EmptyInput(inputs, s, theta, keys);
    } else if inputs == [] {
      FirstInput(s);
      assert [] + [s] == [s];
    } else {
      MatchedInput(inputs, s, theta, keys);
    }
  }

  lemma CopiedInput(s: Sketch, theta: nat, keys: set<nat>)
    requires Intersection([], false, theta, keys) && s.WellFormed() && !s.empty
    ensures Intersection([] + [s], false, Min(theta, s.theta), s.Keys())
    ensures forall h :: h in s.Keys() ==> 0 < h < Min(theta, s.theta)
  {
    FirstInput(s);
    assert [] + [s] == [s];
  }

  lemma EmptinessKnown(inputs: seq<Sketch>, empty: bool, theta: nat, keys: set<nat>)
    requires Intersection(inputs, empty, theta, keys)
    ensures empty <==> ExactlyEmpty(inputs)
  {
  }

  lemma NothingUnder(theta: nat)
    ensures AllUnder({}, theta)
  {
  }

  /** The running hashes that the incoming sketch has too, below theta; an ordered sketch is read
    * only up to theta. The check for too many matches never fires. */
  method MatchAll(table: SketchHashTable, s: Sketch) returns (matched: Option<seq<nat>>)
    requires table.Shaped() && s.WellFormed()
    ensures matched.Some? && NoDuplicates(matched.value)
    ensures ToSet(matched.value) == Below(table.Retained() * s.Keys(), table.theta)
  {
    hide Matching, ToSet, NoDuplicates, Below, SketchHashTable.Shaped, SketchHashTable.Retained;
    ghost var keys := table.Retained();
    RetainedSize(table);
    var maxMatches := Min(table.numRetained, |s.hashes|);
    var entries: seq<nat> := [];
    MatchingNone(s, keys, table.theta);
    var i := 0;
    while i < |s.hashes| && !(s.ordered && s.hashes[i] >= table.theta)
      invariant 0 <= i <= |s.hashes| && Matching(s, i, keys, table.theta, entries)
    {
      MatchingNext(s, i, keys, table.theta, entries);
      if s.hashes[i] < table.theta {
        var present := table.Entry(s.hashes[i]);
        if present {
          if |entries| == maxMatches {
            return None;
          }
          entries := entries + [s.hashes[i]];
        }
      }
      i := i + 1;
    }
    MatchingStops(s, i, keys, table.theta, entries);
    matched := Some(entries);
  }

  lemma RetainedSize(table: SketchHashTable)
    requires table.Shaped()
    ensures table.numRetained == |table.Retained()|
  {
  }

  class IntersectionState {
    var table: SketchHashTable
    var hasResult: bool
    const seedHash: nat
    /** The sketches accepted so far. */
    ghost var inputs: seq<Sketch>
    ghost var Repr: set<object>

    ghost predicate Holds(ins: seq<Sketch>)
      reads this, Repr
    {
      && this in Repr && table in Repr && table.entries in Repr
      && table.Valid() && 1 <= table.theta <= MAX_THETA
      && (hasResult <==> ins != [])
      && Intersection(ins, table.isEmpty, table.theta, table.Retained())
    }

    ghost predicate Valid()
      reads this, Repr
    {
      Holds(inputs)
    }

    constructor (seedHash: nat)
      ensures Valid() && fresh(Repr) && inputs == [] && this.seedHash == seedHash
    {
      hide Findable, Below, Lowered, Threshold;
      var t := new SketchHashTable(0, 0, 0, MAX_THETA, false);
      table := t;
      hasResult := false;
      this.seedHash := seedHash;
      inputs := [];
      Repr := {this, t, t.entries};
    }

    /** Theta already reflects the incoming sketch, the entries do not. */
    ghost predicate Pending(s: Sketch, theta: nat, keys: set<nat>)
      reads this, Repr
    {
      && this in Repr && table in Repr && table.entries in Repr && s.WellFormed()
      && table.Shaped() && table.Retained() == keys && table.isEmpty == s.empty
      && 1 <= table.theta <= MAX_THETA && 1 <= theta <= MAX_THETA
      && table.theta == (if s.empty then MAX_THETA else Min(theta, s.theta))
      && (hasResult <==> inputs != []) && Intersection(inputs, false, theta, keys)
      && (AllUnder(keys, table.theta) ==> table.Valid())
    }

    /** Every update keeps only the hashes shared with the incoming sketch; a wrong seed is an
      * error, unless the result is already empty for good. */
    method Update(s: Sketch) returns (ok: bool)
      requires Valid() && s.WellFormed()
      modifies Repr
      ensures Valid() && fresh(Repr - old(Repr))
      ensures ok <==> old(table.isEmpty) || Compatible(s, seedHash)
      ensures inputs == if ok then old(inputs) + [s] else old(inputs)
      ensures table.isEmpty <==> ExactlyEmpty(inputs)
    {
      hide ExactlyEmpty, Intersection, SketchHashTable.Valid, SketchHashTable.Retained, Sketch.WellFormed, Findable;
      EmptinessKnown(inputs, table.isEmpty, table.theta, table.Retained());
      if table.isEmpty {
        StaysEmpty(inputs, s, table.theta, table.Retained());
        inputs := inputs + [s];
        EmptinessKnown(inputs, true, table.theta, table.Retained());
        return true;
      }
      if !s.empty && s.seedHash != seedHash {
        return false;
      }
      Incorporate(s);
      EmptinessKnown(inputs, table.isEmpty, table.theta, table.Retained());
      ok := true;
    }

    method Incorporate(s: Sketch)
      requires Valid() && s.WellFormed() && !table.isEmpty
      modifies Repr
      ensures Valid() && fresh(Repr - old(Repr)) && inputs == old(inputs) + [s]
    {
      hide Intersection, Sketch.WellFormed, AllUnder, SketchHashTable.Valid, SketchHashTable.Shaped, SketchHashTable.Retained;
      ghost var theta, keys := table.theta, table.Retained();
      SetTheta(s);
      RetainedSize(table);
      if hasResult && table.numRetained == 0 {
        NothingUnder(table.theta);
        NoHashesLeft(inputs, s, theta, keys);
      } else if |s.hashes| == 0 {
        Renew(s, theta, keys);
      } else if !hasResult {
        CopyFirst(s, theta, keys);
      } else {
        MatchLater(s, theta, keys);
      }
      inputs := inputs + [s];
    }

    method SetTheta(s: Sketch)
      requires Valid() && s.WellFormed() && !table.isEmpty
      modifies table`isEmpty, table`theta, table`seen, table`initialTheta
      ensures Pending(s, old(table.theta), old(table.Retained()))
    {
      hide Intersection, AllUnder, SketchHashTable.Valid, SketchHashTable.Shaped, SketchHashTable.Retained, Below, Lowered;
      table.Facts();
      if s.empty {
        table.isEmpty := true;
      }
      table.SetTheta(if table.isEmpty then MAX_THETA else Min(table.theta, s.theta));
    }

    method Renew(s: Sketch, ghost theta: nat, ghost keys: set<nat>)
      requires Pending(s, theta, keys) && s.hashes == []
      modifies this`table, this`hasResult, this`Repr
      ensures Holds(inputs + [s]) && fresh(Repr - old(Repr)) && inputs == old(inputs)
    {
      hide Intersection, AllUnder, SketchHashTable.Valid, SketchHashTable.Shaped, SketchHashTable.Retained;
      NoHashesLeft(inputs, s, theta, keys);
      hasResult := true;
      var t := new SketchHashTable(0, 0, 0, table.theta, table.isEmpty);
      table := t;
      Repr := Repr + {t, t.entries};
    }

    method CopyFirst(s: Sketch, ghost theta: nat, ghost keys: set<nat>)
      requires Pending(s, theta, keys) && s.hashes != [] && !hasResult
      modifies this`table, this`hasResult, this`Repr
      ensures Holds(inputs + [s]) && fresh(Repr - old(Repr)) && inputs == old(inputs)
    {
      hide Intersection, AllUnder, SketchHashTable.Valid, SketchHashTable.Shaped, SketchHashTable.Retained, ToSet, NoDuplicates;
      CopiedInput(s, theta, keys);
      hasResult := true;
      var t := Filled(s.hashes, table.theta);
      table := t.value;
      Repr := Repr + {t.value, t.value.entries};
    }

    method MatchLater(s: Sketch, ghost theta: nat, ghost keys: set<nat>)
      requires Pending(s, theta, keys) && s.hashes != [] && hasResult && keys != {}
      modifies this`table, this`Repr
      ensures Holds(inputs + [s]) && fresh(Repr - old(Repr)) && inputs == old(inputs)
    {
      hide Intersection, AllUnder, Below, SketchHashTable.Valid, SketchHashTable.Shaped, SketchHashTable.Retained, ToSet, NoDuplicates;
      MatchedInput(inputs, s, theta, keys);
      var matched := MatchAll(table, s);
      ToSetSize(matched.value);
      if |matched.value| == 0 {
        var t := new SketchHashTable(0, 0, 0, table.theta, table.theta == MAX_THETA);
        table := t;
        Repr := Repr + {t, t.entries};
      } else {
        MatchedUnder(s, keys, table.theta, matched.value);
        var t := Filled(matched.value, table.theta);
        table := t.value;
        Repr := Repr + {t.value, t.value.entries};
      }
    }

    /** The result: the hashes common to all inputs, below their smallest theta. */
    method ToCompactParts(ordered: bool) returns (r: Sketch)
      requires Valid()
      ensures r.Keys() == (if inputs == [] then {} else Below(Common(inputs), MinTheta(inputs)))
      ensures NoDuplicates(r.hashes) && (ordered ==> Ascending(r.hashes)) && r.ordered == ordered
      ensures r.empty <==> ExactlyEmpty(inputs)
      ensures r.theta == (if r.empty then MAX_THETA else MinTheta(inputs)) && r.seedHash == seedHash
    {
      var hashes := table.Hashes();
      SortKeeps(hashes);
      r := Sketch(seedHash, table.theta, table.isEmpty, ordered, if ordered then Sort(hashes, HashOrder) else hashes);
    }
  }

  lemma MatchedUnder(s: Sketch, keys: set<nat>, theta: nat, matched: seq<nat>)
    requires s.WellFormed() && ToSet(matched) == Below(keys * s.Keys(), theta)
    ensures forall h :: h in ToSet(matched) ==> 0 < h < theta
  {
  }

  // --------------------------------------------------------------- union

  /** Of all hashes offered, those below both thetas are in the table. */
  ghost predicate Covered(all: set<nat>, seen: set<nat>, bound: nat) {
    seen <= all && Below(all, bound) <= seen
  }

  /** While reading an input: its hashes up to position i are covered. */
  ghost predicate Reading(all: set<nat>, s: Sketch, i: nat, seen: set<nat>, unionTheta: nat, theta: nat)
    requires i <= |s.hashes|
  {
    Covered(all + ToSet(s.hashes[..i]), seen, Min(unionTheta, theta))
  }

  lemma ReadNext(all: set<nat>, s: Sketch, i: nat, seen: set<nat>, more: set<nat>, unionTheta: nat, theta: nat, lower: nat)
    requires i < |s.hashes| && Reading(all, s, i, seen, unionTheta, theta) && lower <= theta
    requires more == seen + {s.hashes[i]} || (more == seen && (s.hashes[i] >= unionTheta || s.hashes[i] >= theta))
    ensures Reading(all, s, i + 1, more, unionTheta, lower)
  {
    assert s.hashes[..i + 1] == s.hashes[..i] + [s.hashes[i]];
  }

  lemma ReadStops(all: set<nat>, s: Sketch, i: nat, seen: set<nat>, unionTheta: nat, theta: nat)
    requires s.WellFormed() && i <= |s.hashes| && Reading(all, s, i, seen, unionTheta, theta)
    requires i == |s.hashes| || (s.ordered && (s.hashes[i] >= unionTheta || s.hashes[i] >= theta))
    ensures Covered(all + s.Keys(), seen, Min(unionTheta, theta))
  {
    forall h | h in s.Keys() && h < Min(unionTheta, theta) ensures h in ToSet(s.hashes[..i]) {
      var j :| 0 <= j < |s.hashes| && s.hashes[j] == h;
      assert s.hashes[..i][j] == h;
    }
  }

  lemma ReadNone(all: set<nat>, s: Sketch, seen: set<nat>, bound: nat, unionTheta: nat, theta: nat)
    requires Covered(all, seen, bound) && unionTheta <= bound
    ensures Reading(all, s, 0, seen, unionTheta, theta)
  {
    assert ToSet(s.hashes[..0]) == {};
  }

  /** Lowering the union's theta to an input's keeps it the input's or a hash with k below it. */
  lemma LowerToInput(all: set<nat>, lowest: nat, k: nat, unionTheta: nat, theta: nat, more: set<nat>)
    requires Lowered(all, lowest, k, unionTheta)
    ensures Lowered(all + more, Min(lowest, theta), k, Min(unionTheta, theta))
  {
    SubsetSize(Below(all, unionTheta), Below(all + more, unionTheta));
  }

  lemma LowerToTable(all: set<nat>, lowest: nat, k: nat, unionTheta: nat, seen: set<nat>, initial: nat, theta: nat)
    requires Lowered(all, lowest, k, unionTheta) && seen <= all && lowest <= initial
    requires Lowered(seen, initial, k, theta)
    ensures Lowered(all, lowest, k, Min(unionTheta, theta))
  {
    SubsetSize(Below(seen, theta), Below(all, theta));
  }

  class UnionState {
    var table: SketchHashTable
    var unionTheta: nat
    const seedHash: nat
    /** All hashes of the non-empty sketches accepted, and the smallest of their thetas. */
    ghost var all: set<nat>
    ghost var lowest: nat
    ghost var Repr: set<object>

    ghost predicate Valid()
      reads this, Repr
    {
      && this in Repr && table in Repr && table.entries in Repr
      && table.Valid() && table.lgCurSize > 0 && 0 !in all && lowest <= table.initialTheta
      && unionTheta <= table.theta && Covered(all, table.seen, unionTheta)
      && Lowered(all, lowest, Pow2(table.lgNomSize), unionTheta)
      && (table.isEmpty ==> all == {})
    }

    constructor (lgK: nat, lgResize: nat, theta: nat, seedHash: nat)
      requires MIN_LG_K <= lgK && lgResize <= 3
      ensures Valid() && fresh(Repr) && all == {} && lowest == theta && table.lgNomSize == lgK && this.seedHash == seedHash
      ensures table.isEmpty
    {
      hide Findable, Items, Threshold, SketchHashTable.Valid;
      var t := new SketchHashTable.New(lgK, lgResize, theta);
      table := t;
      unionTheta := theta;
      this.seedHash := seedHash;
      all := {};
      lowest := theta;
      Repr := {this, t, t.entries};
    }

    method Update(s: Sketch) returns (ok: bool)
      requires Valid() && s.WellFormed()
      modifies Repr
      ensures Valid() && fresh(Repr - old(Repr)) && table == old(table)
      ensures ok <==> Compatible(s, seedHash)
      ensures all == if ok && !s.empty then old(all) + s.Keys() else old(all)
      ensures lowest == if ok && !s.empty then Min(old(lowest), s.theta) else old(lowest)
      ensures table.isEmpty <==> old(table.isEmpty) && (s.empty || !ok)
    {
      if s.empty {
        return true;
      }
      if s.seedHash != seedHash {
        return false;
      }
      table.isEmpty := false;
      Absorb(s);
      ok := true;
    }

    method Absorb(s: Sketch)
      requires Valid() && s.WellFormed() && !table.isEmpty
      modifies Repr
      ensures Valid() && fresh(Repr - old(Repr)) && table == old(table) && !table.isEmpty
      ensures all == old(all) + s.Keys() && lowest == Min(old(lowest), s.theta)
    {
      hide Reading, Covered, Lowered, Below, ToSet, NoDuplicates, SketchHashTable.Valid, SketchHashTable.Retained;
      ghost var bound := unionTheta;
      LowerToInput(all, lowest, Pow2(table.lgNomSize), unionTheta, s.theta, s.Keys());
      KeysPositive(s);
      unionTheta := Min(unionTheta, s.theta);
      ReadNone(all, s, table.seen, bound, unionTheta, table.theta);
      ReadAll(s);
      all := all + s.Keys();
      lowest := Min(lowest, s.theta);
      CoveredWithin(all, table.seen, Min(unionTheta, table.theta));
      table.Facts();
      LowerToTable(all, lowest, Pow2(table.lgNomSize), unionTheta, table.seen, table.initialTheta, table.theta);
      unionTheta := Min(unionTheta, table.theta);
    }

    /** Offers the input's hashes below both thetas; an ordered input is read only up to there. */
    method ReadAll(s: Sketch)
      requires this in Repr && table in Repr && table.entries in Repr && s.WellFormed()
      requires table.Valid() && table.lgCurSize > 0 && !table.isEmpty
      requires Reading(all, s, 0, table.seen, unionTheta, table.theta)
      modifies this`Repr, table, table.entries
      ensures this in Repr && table in Repr && table.entries in Repr && fresh(Repr - old(Repr))
      ensures table.Valid() && table.lgCurSize > 0 && !table.isEmpty && table.initialTheta == old(table.initialTheta)
      ensures Covered(all + s.Keys(), table.seen, Min(unionTheta, table.theta))
    {
      hide Reading, Covered, Lowered, Below, ToSet, NoDuplicates, SketchHashTable.Valid, SketchHashTable.Retained;
      var i := 0;
      while i < |s.hashes| && !(s.ordered && (s.hashes[i] >= unionTheta || s.hashes[i] >= table.theta))
        invariant 0 <= i <= |s.hashes| && this in Repr && table in Repr && table.entries in Repr && fresh(Repr - old(Repr))
        invariant table.entries == old(table.entries) || fresh(table.entries)
        invariant table.Valid() && table.lgCurSize > 0 && !table.isEmpty && table.initialTheta == old(table.initialTheta)
        invariant Reading(all, s, i, table.seen, unionTheta, table.theta)
      {
        ReadOne(s, i);
        i := i + 1;
      }
      ReadStops(all, s, i, table.seen, unionTheta, table.theta);
    }

    method ReadOne(s: Sketch, i: nat)
      requires this in Repr && table in Repr && table.entries in Repr && s.WellFormed() && i < |s.hashes|
      requires table.Valid() && table.lgCurSize > 0 && !table.isEmpty
      requires Reading(all, s, i, table.seen, unionTheta, table.theta)
      modifies this`Repr, table, table.entries
      ensures this in Repr && table in Repr && table.entries in Repr && fresh(Repr - old(Repr))
      ensures table.entries == old(table.entries) || fresh(table.entries)
      ensures table.Valid() && table.lgCurSize > 0 && !table.isEmpty && table.initialTheta == old(table.initialTheta)
      ensures Reading(all, s, i + 1, table.seen, unionTheta, table.theta)
    {
      hide Reading, Covered, Lowered, Below, ToSet, NoDuplicates, SketchHashTable.Valid, SketchHashTable.Retained;
      ghost var seen, theta := table.seen, table.theta;
      var hash := s.hashes[i];
      if hash < unionTheta && hash < table.theta {
        var novel := table.UpsertEntry(hash);
        Repr := Repr + {table.entries};
      }
      ReadNext(all, s, i, seen, table.seen, unionTheta, theta, table.theta);
    }

    /** The result depends on the accepted sketches' hashes and thetas alone: their hashes below
      * theta, where theta is the smallest theta offered, or the (k+1)-th smallest hash below it. */
    method ToCompactParts(ordered: bool) returns (r: Sketch)
      requires Valid()
      ensures r.Keys() == Below(all, r.theta) && Trimmed(all, lowest, Pow2(table.lgNomSize), r.theta)
      ensures NoDuplicates(r.hashes) && (r.ordered ==> Ascending(r.hashes)) && (ordered ==> r.ordered)
      ensures r.empty == table.isEmpty && r.seedHash == seedHash
      ensures r.ordered <==> ordered || r.empty || (|r.hashes| == 1 && r.theta == MAX_THETA)
    {
      if table.isEmpty {
        NothingBelow(unionTheta, lowest, Pow2(table.lgNomSize));
        return Sketch(seedHash, unionTheta, true, true, []);
      }
      var theta, hashes := TrimUnion();
      SortKeeps(hashes);
      var sorted := ordered || (|hashes| == 1 && theta == MAX_THETA);
      r := Sketch(seedHash, theta, false, sorted, if sorted then Sort(hashes, HashOrder) else hashes);
    }

    method TrimUnion() returns (theta: nat, hashes: seq<nat>)
      requires Valid()
      ensures Trimmed(all, lowest, Pow2(table.lgNomSize), theta)
      ensures ToSet(hashes) == Below(all, theta) && NoDuplicates(hashes)
    {
      var retained := table.Hashes();
      theta := Min(unionTheta, table.theta);
      hashes := if unionTheta >= table.theta then retained else Lower(retained, theta);
      LowerDistinct(retained, theta);
      UnionHashes(all, table.seen, unionTheta, table.theta, retained, hashes);
      ToSetSize(hashes);
      var nominal := Pow2(table.lgNomSize);
      if |hashes| > nominal {
        var kth := SelectNth(hashes, nominal);
        NthSplits(hashes, nominal, kth);
        LowerDistinct(hashes, kth);
        RebuildLowers(all, lowest, nominal, theta, kth);
        BelowTwice(all, theta, kth);
        theta, hashes := kth, Lower(hashes, kth);
      }
    }
  }

  lemma KeysPositive(s: Sketch)
    requires s.WellFormed()
    ensures 0 !in s.Keys()
  {
  }

  lemma CoveredWithin(all: set<nat>, seen: set<nat>, bound: nat)
    requires Covered(all, seen, bound)
    ensures seen <= all
  {
  }

  lemma NothingBelow(unionTheta: nat, lowest: nat, k: nat)
    requires Lowered({}, lowest, k, unionTheta)
    ensures Trimmed({}, lowest, k, unionTheta) && ToSet([]) == Below({}, unionTheta)
  {
    assert Below({}, unionTheta) == {};
  }

  lemma UnionHashes(all: set<nat>, seen: set<nat>, unionTheta: nat, theta: nat, retained: seq<nat>, hashes: seq<nat>)
    requires Covered(all, seen, unionTheta) && unionTheta <= theta && ToSet(retained) == Below(seen, theta)
    requires hashes == if unionTheta >= theta then retained else Lower(retained, unionTheta)
    ensures ToSet(hashes) == Below(all, unionTheta)
  {
    forall h ensures h in ToSet(hashes) <==> h in Below(all, unionTheta) {
      assert h in ToSet(retained) <==> h in Below(seen, theta);
    }
  }
}
