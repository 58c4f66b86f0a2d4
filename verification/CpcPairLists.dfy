/** Lists of pairs on their way to and from the compressed image: sorting, the in-place hybrid
  * merge and split, and the column shifts of the pinned and sliding flavors (`cpc/sketch.rs`). */
module CpcPairLists {
  import opened Powers
  import opened CpcWords
  import opened CpcCoupons
  import opened Sets
  import opened CpcPairTable
  import opened CpcFolding

  ghost predicate Ascends(s: seq<nat>) {
    forall i, j :: 0 <= i < j < |s| ==> s[i] < s[j]
  }

  /** The items of a set, each once, in ascending order. */
  ghost predicate Lists(s: seq<nat>, items: set<nat>) {
    Ascends(s) && ToSet(s) == items
  }

  lemma ListSize(s: seq<nat>, items: set<nat>)
    requires Lists(s, items)
    ensures |s| == |items| && NoDuplicates(s)
  {
    ToSetSize(s);
  }

  /** A larger item goes to the end of the list. */
  lemma AppendLists(s: seq<nat>, items: set<nat>, x: nat)
    requires Lists(s, items) && forall y :: y in items ==> y < x
    ensures Lists(s + [x], items + {x})
  {
    forall i | 0 <= i < |s| ensures s[i] < x {
      assert s[i] in ToSet(s);
    }
  }

  /** The library's in-place sort, on duplicate-free items. */
  method SortUnstable(a: array<nat>)
    requires a.Length == |ToSet(a[..])|
    modifies a
    ensures Lists(a[..], ToSet(old(a[..])))
  {
    ghost var s := a[..];
    for i := 0 to a.Length
      invariant SortedTo(a[..], i) && multiset(a[..]) == multiset(s)
    {
      InsertDown(a, i);
    }
    SameSet(a[..], s);
  }

  ghost predicate SortedTo(a: seq<nat>, i: nat) {
    forall p, q :: 0 <= p < q < i <= |a| ==> a[p] <= a[q]
  }

  method InsertDown(a: array<nat>, i: nat)
    requires i < a.Length && SortedTo(a[..], i)
    modifies a
    ensures SortedTo(a[..], i + 1) && multiset(a[..]) == multiset(old(a[..]))
  {
    var j := i;
    while j > 0 && a[j - 1] > a[j]
      invariant 0 <= j <= i
      invariant forall p, q :: 0 <= p < q <= i && q != j ==> a[p] <= a[q]
      invariant multiset(a[..]) == multiset(old(a[..]))
    {
      a[j - 1], a[j] := a[j], a[j - 1];
      j := j - 1;
    }
  }

  lemma SameSet(a: seq<nat>, b: seq<nat>)
    requires multiset(a) == multiset(b) && |b| == |ToSet(b)|
    requires SortedTo(a, |a|)
    ensures Lists(a, ToSet(b))
  {
    forall x: nat ensures x in a <==> x in b {
      assert x in multiset(a) <==> x in multiset(b);
    }
    assert |a| == |multiset(a)| == |b|;
    assert ToSet(a) == ToSet(b);
    ToSetSize(a);
    forall i, j | 0 <= i < j < |a| ensures a[i] < a[j] {
      assert a[i] != a[j];
    }
  }

  // --------------------------------------------------- hybrid merge, split

  /** Writes the window's pairs behind the table's, row by row, lowest column first. */
  method AppendWindowPairs(all: array<nat>, start: nat, window: array<Row>, lgK: nat, ghost coupons: set<nat>)
    requires WindowMatches(window[..], coupons, lgK, 0) && AllCoupons(lgK, coupons)
    requires start + |LowColumns(coupons)| == all.Length
    modifies all
    ensures Lists(all[start..], LowColumns(coupons)) && all[..start] == old(all[..start])
  {
    ghost var prefix := all[..start];
    var index := start;
    assert all[start..index] == [] && RowsBelow(LowColumns(coupons), 0) == {};
    for r := 0 to window.Length
      invariant start <= index <= all.Length && all[..start] == prefix
      invariant Lists(all[start..index], RowsBelow(LowColumns(coupons), r))
    {
      var windowByte := window[r];
      index := AppendRow(all, start, index, r, windowByte, coupons);
    }
    AllBelow(coupons, lgK);
    ListSize(all[start..index], LowColumns(coupons));
    assert all[start..index] == all[start..];
  }

  /** The coupons in the first eight columns. */
  ghost function LowColumns(coupons: set<nat>): set<nat> {
    set rc | rc in coupons && rc % 64 < 8
  }

  lemma AllBelow(coupons: set<nat>, lgK: nat)
    requires AllCoupons(lgK, coupons)
    ensures RowsBelow(LowColumns(coupons), Pow2(lgK)) == LowColumns(coupons)
  {
    forall rc | rc in coupons ensures rc / 64 < Pow2(lgK) {
      assert Coupon(lgK, rc);
    }
  }

  /** The coupons before column c of row r, in row order. */
  ghost function Before(coupons: set<nat>, r: nat, c: nat): set<nat> {
    set rc | rc in coupons && rc < 64 * r + c
  }

  method AppendRow(all: array<nat>, start: nat, index0: nat, r: nat, windowByte: Row, ghost coupons: set<nat>) returns (index: nat)
    requires start <= index0 <= all.Length && start + |LowColumns(coupons)| == all.Length
    requires windowByte == WindowOf(RowOf(coupons, r), 0)
    requires Lists(all[start..index0], RowsBelow(LowColumns(coupons), r))
    modifies all
    ensures start <= index <= all.Length && all[..start] == old(all[..start])
    ensures Lists(all[start..index], RowsBelow(LowColumns(coupons), r + 1))
  {
    ghost var low := LowColumns(coupons);
    ghost var prefix := all[..start];
    index := index0;
    var pattern := windowByte;
    ghost var col := 0;
    RowStart(low, r);
    while pattern != {}
      invariant col <= 8 && pattern == set c | c in windowByte && c >= col
      invariant start <= index <= all.Length && all[..start] == prefix
      invariant Lists(all[start..index], Before(low, r, col))
    {
      var c := TrailingZeros(pattern);
      NextColumn(coupons, r, windowByte, pattern, col, c, all[start..index]);
      ghost var listed := all[start..index];
      all[index] := 64 * r + c;
      assert all[start..index + 1] == listed + [64 * r + c];
      index := index + 1;
      pattern := pattern - {c};
      col := c + 1;
    }
    forall c | c in windowByte ensures c < col {
      assert c in pattern <==> c >= col;
    }
    RowDone(coupons, r, windowByte, col);
  }

  lemma RowStart(low: set<nat>, r: nat)
    ensures Before(low, r, 0) == RowsBelow(low, r)
  {
  }

  lemma NextColumn(coupons: set<nat>, r: nat, windowByte: Row, pattern: Row, col: nat, c: nat, listed: seq<nat>)
    requires windowByte == WindowOf(RowOf(coupons, r), 0) && col <= 8
    requires pattern != {} && pattern == (set x | x in windowByte && x >= col) && c == TrailingZeros(pattern)
    requires Lists(listed, Before(LowColumns(coupons), r, col))
    ensures c < 8 && c in pattern && |listed| < |LowColumns(coupons)|
    ensures Lists(listed + [64 * r + c], Before(LowColumns(coupons), r, c + 1))
    ensures pattern - {c} == set x | x in windowByte && x >= c + 1
  {
    LowestOf(windowByte, pattern, c);
    BeforeNext(coupons, r, windowByte, col, c);
    hide *;
    RoomInList(listed, Before(LowColumns(coupons), r, col), LowColumns(coupons), 64 * r + c);
    BeforeBelow(LowColumns(coupons), r, col, c);
    AppendLists(listed, Before(LowColumns(coupons), r, col), 64 * r + c);
  }

  lemma BeforeBelow(low: set<nat>, r: nat, col: nat, c: nat)
    requires col <= c
    ensures forall y :: y in Before(low, r, col) ==> y < 64 * r + c
  {
  }

  lemma RoomInList(listed: seq<nat>, part: set<nat>, all: set<nat>, x: nat)
    requires Lists(listed, part) && part <= all - {x} && x in all
    ensures |listed| < |all|
  {
    ListSize(listed, part);
    SubsetSize(part, all - {x});
  }

  lemma BeforeNext(coupons: set<nat>, r: nat, windowByte: Row, col: nat, c: nat)
    requires windowByte == WindowOf(RowOf(coupons, r), 0) && c in windowByte && col <= c < 8
    requires forall x :: x in windowByte && x >= col ==> c <= x
    ensures 64 * r + c in LowColumns(coupons)
    ensures Before(LowColumns(coupons), r, col) <= LowColumns(coupons) - {64 * r + c}
    ensures Before(LowColumns(coupons), r, c + 1) == Before(LowColumns(coupons), r, col) + {64 * r + c}
  {
    var low, rc := LowColumns(coupons), 64 * r + c;
    assert Col(c) && rc % 64 == c && rc in low;
    forall x | x in Before(low, r, c + 1) ensures x in Before(low, r, col) + {rc} {
      if x >= 64 * r + col {
        assert Col(x - 64 * r) && x % 64 == x - 64 * r;
        assert x - 64 * r in windowByte;
      }
    }
  }

  lemma LowestOf(windowByte: Row, pattern: Row, c: nat)
    requires pattern != {} && pattern <= windowByte && c == TrailingZeros(pattern)
    requires forall x :: x in windowByte ==> x < 8
    ensures c in pattern && forall x :: x in pattern ==> c <= x
  {
    var x :| x in pattern;
  }

  lemma RowDone(coupons: set<nat>, r: nat, windowByte: Row, col: nat)
    requires windowByte == WindowOf(RowOf(coupons, r), 0) && col <= 8
    requires forall c :: c in windowByte ==> c < col
    ensures Before(LowColumns(coupons), r, col) == RowsBelow(LowColumns(coupons), r + 1)
  {
    var low := LowColumns(coupons);
    forall x | x in RowsBelow(low, r + 1) ensures x in Before(low, r, col) {
      if x >= 64 * r {
        var c := x - 64 * r;
        assert Col(c) && c in windowByte;
        assert c < col;
      }
    }
  }

  /** Merges the sorted table pairs with the sorted window pairs waiting at the end of `all`,
    * overwriting `all` from the front: the write index never passes the window index. */
  method MergeInPlace(tablePairs: array<nat>, all: array<nat>)
    requires tablePairs != all && tablePairs.Length <= all.Length
    requires Ascends(tablePairs[..]) && Ascends(all[tablePairs.Length..])
    requires ToSet(tablePairs[..]) !! ToSet(all[tablePairs.Length..])
    modifies all
    ensures Lists(all[..], ToSet(tablePairs[..]) + ToSet(old(all[tablePairs.Length..])))
  {
    ghost var t := tablePairs[..];
    ghost var w := all[tablePairs.Length..];
    var tableIndex: nat, windowIndex: nat := 0, tablePairs.Length;
    MergeStarts(all[..], t, w);
    for finalIndex := 0 to all.Length
      invariant tablePairs[..] == t && Merging(all[..], t, w, finalIndex, tableIndex, windowIndex)
    {
      hide *;
      tableIndex, windowIndex := MergeOne(tablePairs, all, finalIndex, tableIndex, windowIndex, t, w);
    }
    assert all[..all.Length] == all[..] && t[..|t|] == t && w[..|w|] == w;
  }

  lemma MergeStarts(all: seq<nat>, t: seq<nat>, w: seq<nat>)
    requires |t| <= |all| && w == all[|t|..]
    ensures Merging(all, t, w, 0, 0, |t|)
  {
    assert all[..0] == [] && w[0..] == w;
    assert ToSet(t[..0]) == {} && ToSet(w[..0]) == {};
  }

  method MergeOne(tablePairs: array<nat>, all: array<nat>, finalIndex: nat, tableIndex0: nat, windowIndex0: nat,
                  ghost t: seq<nat>, ghost w: seq<nat>)
    returns (tableIndex: nat, windowIndex: nat)
    requires tablePairs != all && t == tablePairs[..] && Ascends(t) && Ascends(w) && ToSet(t) !! ToSet(w)
    requires finalIndex < all.Length && Merging(all[..], t, w, finalIndex, tableIndex0, windowIndex0)
    modifies all
    ensures Merging(all[..], t, w, finalIndex + 1, tableIndex, windowIndex)
  {
    MergeStep(all[..], t, w, finalIndex, tableIndex0, windowIndex0);
    ghost var before := all[..];
    hide *;
    tableIndex, windowIndex := tableIndex0, windowIndex0;
    if tableIndex < tablePairs.Length && (windowIndex >= all.Length || tablePairs[tableIndex] <= all[windowIndex]) {
      all[finalIndex] := tablePairs[tableIndex];
      tableIndex := tableIndex + 1;
      assert all[..] == before[finalIndex := t[tableIndex0]];
    } else {
      all[finalIndex] := all[windowIndex];
      windowIndex := windowIndex + 1;
      assert all[..] == before[finalIndex := before[windowIndex0]];
    }
  }

  /** The buffer during the merge: the merged front, a gap, and the window pairs still waiting. */
  ghost predicate Merging(all: seq<nat>, t: seq<nat>, w: seq<nat>, f: nat, ti: nat, wi: nat) {
    && |all| == |t| + |w| && ti <= |t| <= wi <= |all| && f == ti + (wi - |t|)
    && all[wi..] == w[wi - |t|..]
    && Merged(all[..f], t, w, ti, wi - |t|)
  }

  lemma MergeStep(all: seq<nat>, t: seq<nat>, w: seq<nat>, f: nat, ti: nat, wi: nat)
    requires Ascends(t) && Ascends(w) && ToSet(t) !! ToSet(w) && f < |all| && Merging(all, t, w, f, ti, wi)
    ensures if ti < |t| && (wi >= |all| || t[ti] <= all[wi]) then Merging(all[f := t[ti]], t, w, f + 1, ti + 1, wi)
      else wi < |all| && Merging(all[f := all[wi]], t, w, f + 1, ti, wi + 1)
  {
    hide Merged, Ascends, ToSet;
    var v := wi - |t|;
    assert wi < |all| ==> all[wi] == all[wi..][0] == w[v];
    if ti < |t| && (wi >= |all| || t[ti] <= all[wi]) {
      MergeLeft(all[..f], t, w, ti, v);
      assert all[f := t[ti]][..f + 1] == all[..f] + [t[ti]];
      assert all[f := t[ti]][wi..] == all[wi..];
    } else {
      MergeRight(all[..f], t, w, ti, v);
      assert all[f := all[wi]][..f + 1] == all[..f] + [w[v]];
      assert all[f := all[wi]][wi + 1..] == all[wi..][1..] == w[v + 1..];
    }
  }

  /** `merged` holds the first t and w items of two ascending lists, all below what is left. */
  ghost predicate Merged(merged: seq<nat>, a: seq<nat>, b: seq<nat>, t: nat, w: nat) {
    && t <= |a| && w <= |b| && Lists(merged, ToSet(a[..t]) + ToSet(b[..w]))
    && (t < |a| ==> forall x :: x in merged ==> x < a[t])
    && (w < |b| ==> forall x :: x in merged ==> x < b[w])
  }

  lemma MergeLeft(merged: seq<nat>, a: seq<nat>, b: seq<nat>, t: nat, w: nat)
    requires Merged(merged, a, b, t, w) && t < |a| && (w < |b| ==> a[t] <= b[w])
    requires Ascends(a) && Ascends(b) && ToSet(a) !! ToSet(b)
    ensures Merged(merged + [a[t]], a, b, t + 1, w)
  {
    assert a[..t + 1] == a[..t] + [a[t]];
    assert a[t] in ToSet(a);
    if w < |b| {
      assert b[w] in ToSet(b);
    }
    MergeSets(merged, a, b, t, w);
    AppendLists(merged, ToSet(a[..t]) + ToSet(b[..w]), a[t]);
    assert ToSet(a[..t]) + ToSet(b[..w]) + {a[t]} == ToSet(a[..t + 1]) + ToSet(b[..w]);
  }

  lemma MergeSets(merged: seq<nat>, a: seq<nat>, b: seq<nat>, t: nat, w: nat)
    requires Merged(merged, a, b, t, w)
    ensures forall x :: x in ToSet(a[..t]) + ToSet(b[..w]) ==> x in merged
  {
    forall x | x in ToSet(a[..t]) + ToSet(b[..w]) ensures x in merged {
      assert x in ToSet(merged);
    }
  }

  lemma MergeRight(merged: seq<nat>, a: seq<nat>, b: seq<nat>, t: nat, w: nat)
    requires Merged(merged, a, b, t, w) && w < |b| && (t < |a| ==> b[w] < a[t])
    requires Ascends(a) && Ascends(b)
    ensures Merged(merged + [b[w]], a, b, t, w + 1)
  {
    assert b[..w + 1] == b[..w] + [b[w]];
    MergeSets(merged, a, b, t, w);
    AppendLists(merged, ToSet(a[..t]) + ToSet(b[..w]), b[w]);
    assert ToSet(a[..t]) + ToSet(b[..w]) + {b[w]} == ToSet(a[..t]) + ToSet(b[..w + 1]);
  }

  /** Splits decoded pairs: low columns into the window, the others compacted to the front. */
  method SplitHybrid(pairs: array<nat>, window: array<Row>, lgK: nat, ghost coupons: set<nat>) returns (next: nat)
    requires Lists(pairs[..], coupons) && AllCoupons(lgK, coupons) && pairs as object != window
    requires WindowMatches(window[..], {}, lgK, 0)
    modifies pairs, window
    ensures next <= pairs.Length && WindowMatches(window[..], coupons, lgK, 0)
    ensures NoDuplicates(pairs[..next]) && ToSet(pairs[..next]) == SurpriseSet(coupons, lgK, 0)
  {
    next := 0;
    ghost var s := pairs[..];
    NothingSplit(s, lgK);
    for index := 0 to pairs.Length
      invariant next <= index && pairs[index..] == s[index..]
      invariant WindowMatches(window[..], ToSet(s[..index]), lgK, 0)
      invariant Ascends(pairs[..next]) && ToSet(pairs[..next]) == SurpriseSet(ToSet(s[..index]), lgK, 0)
    {
      var rowCol := pairs[index];
      assert rowCol == pairs[index..][0] == s[index];
      SplitStep(s, coupons, lgK, index, window[..], pairs[..next]);
      var col, row := rowCol % 64, rowCol / 64;
      ghost var w, p := window[..], pairs[..next];
      hide *;
      if col < 8 {
        window[row] := window[row] + {col};
        assert window[..] == w[row := w[row] + {col}];
      } else {
        pairs[next] := rowCol;
        assert pairs[..next + 1] == p + [rowCol];
        next := next + 1;
      }
      assert pairs[index + 1..] == s[index + 1..];
    }
    assert s[..|s|] == s;
    ToSetSize(pairs[..next]);
  }

  lemma NothingSplit(s: seq<nat>, lgK: nat)
    ensures ToSet(s[..0]) == {} && SurpriseSet({}, lgK, 0) == {}
  {
  }

  lemma SplitStep(s: seq<nat>, coupons: set<nat>, lgK: nat, i: nat, window: seq<Row>, kept: seq<nat>)
    requires Lists(s, coupons) && AllCoupons(lgK, coupons) && i < |s|
    requires WindowMatches(window, ToSet(s[..i]), lgK, 0)
    requires Ascends(kept) && ToSet(kept) == SurpriseSet(ToSet(s[..i]), lgK, 0)
    ensures var col, row := s[i] % 64, s[i] / 64;
      row < |window|
      && if col < 8 then
          && WindowMatches(window[row := window[row] + {col}], ToSet(s[..i + 1]), lgK, 0)
          && ToSet(kept) == SurpriseSet(ToSet(s[..i + 1]), lgK, 0)
        else
          && WindowMatches(window, ToSet(s[..i + 1]), lgK, 0)
          && Ascends(kept + [s[i]]) && ToSet(kept + [s[i]]) == SurpriseSet(ToSet(s[..i + 1]), lgK, 0)
  {
    var done := ToSet(s[..i]);
    assert s[i] in ToSet(s) && Coupon(lgK, s[i]);
    assert s[..i + 1] == s[..i] + [s[i]];
    assert ToSet(s[..i + 1]) == done + {s[i]};
    WindowUpdate(window, done, lgK, 0, s[i]);
    SurpriseUpdate(done, lgK, 0, s[i]);
    assert ToSet(kept + [s[i]]) == ToSet(kept) + {s[i]};
    forall j | 0 <= j < |kept| ensures kept[j] < s[i] {
      assert kept[j] in SurpriseSet(done, lgK, 0);
    }
  }

  // -------------------------------------------------------- column shifts

  ghost function Image(items: set<nat>, f: nat -> nat): set<nat> {
    set x | x in items :: f(x)
  }

  /** f sends the list of a duplicate-free set to a list of its image, given a way back. */
  lemma MapOut(s: seq<nat>, t: seq<nat>, items: set<nat>, f: nat -> nat, back: nat -> nat)
    requires |t| == |s| && forall i :: 0 <= i < |s| ==> t[i] == f(s[i])
    requires ToSet(s) == items && |s| == |items| && forall x :: x in items ==> back(f(x)) == x
    ensures ToSet(t) == Image(items, f) && |t| == |ToSet(t)|
  {
    ToSetSize(s);
    forall x | x in items ensures f(x) in t {
      var i :| 0 <= i < |s| && s[i] == x;
      assert t[i] == f(x);
    }
    forall i, j | 0 <= i < j < |t| ensures t[i] != t[j] {
      assert s[i] in ToSet(s) && s[j] in ToSet(s);
    }
    ToSetSize(t);
  }

  /** ... and the way back sends a list of the image to a duplicate-free list of the set. */
  lemma MapBack(s: seq<nat>, t: seq<nat>, items: set<nat>, f: nat -> nat, back: nat -> nat)
    requires |t| == |s| && forall i :: 0 <= i < |s| ==> t[i] == back(s[i])
    requires ToSet(s) == Image(items, f) && NoDuplicates(s) && forall x :: x in items ==> back(f(x)) == x
    ensures ToSet(t) == items && NoDuplicates(t)
  {
    forall i | 0 <= i < |s| ensures t[i] in items && s[i] == f(t[i]) {
      assert s[i] in ToSet(s);
      var x :| x in items && f(x) == s[i];
    }
    forall x | x in items ensures x in t {
      assert f(x) in ToSet(s);
      var i :| 0 <= i < |s| && s[i] == f(x);
      assert t[i] == x;
    }
  }

  /** Pinned pairs lose the eight window columns; no surprise lies in them. */
  ghost function Down(pair: nat): nat {
    if pair >= 8 then pair - 8 else 0
  }

  ghost function Up(pair: nat): nat {
    pair + 8
  }

  method ShiftDown(pairs: array<nat>)
    requires forall i :: 0 <= i < pairs.Length ==> pairs[i] % 64 >= 8
    modifies pairs
    ensures forall i :: 0 <= i < pairs.Length ==> pairs[i] == Down(old(pairs[i]))
  {
    for i := 0 to pairs.Length
      invariant forall j :: 0 <= j < i ==> pairs[j] == Down(old(pairs[j]))
      invariant forall j :: i <= j < pairs.Length ==> pairs[j] == old(pairs[j])
    {
      assert pairs[i] % 64 >= 8;
      pairs[i] := pairs[i] - 8;
    }
  }

  /** Fails on a column the shift would push out of the row. */
  method ShiftUp(pairs: array<nat>) returns (ok: bool)
    modifies pairs
    ensures ok <==> forall i :: 0 <= i < pairs.Length ==> old(pairs[i]) % 64 < 56
    ensures ok ==> forall i :: 0 <= i < pairs.Length ==> pairs[i] == Up(old(pairs[i]))
  {
    for i := 0 to pairs.Length
      invariant forall j :: 0 <= j < i ==> old(pairs[j]) % 64 < 56 && pairs[j] == Up(old(pairs[j]))
      invariant forall j :: i <= j < pairs.Length ==> pairs[j] == old(pairs[j])
    {
      if pairs[i] % 64 >= 56 {
        assert old(pairs[i]) % 64 >= 56;
        return false;
      }
      pairs[i] := pairs[i] + 8;
    }
    return true;
  }

  /** Sliding pairs: columns are rotated so that the window comes last, then permuted. */
  ghost function Rotated(col: nat, offset: nat): (r: nat)
    requires col < 64 && offset <= 56
    ensures offset + 8 <= col ==> r == col - (offset + 8)
    ensures col < offset ==> r == 56 - offset + col
  {
    (col + 56 - offset) % 64
  }

  ghost function Slide(pair: nat, offset: nat, perm: seq<nat>): nat {
    if offset <= 56 && Rotated(pair % 64, offset) < |perm| then 64 * (pair / 64) + perm[Rotated(pair % 64, offset)] else 0
  }

  ghost function Unslide(pair: nat, offset: nat, perm: seq<nat>): nat {
    if pair % 64 < |perm| then 64 * (pair / 64) + (perm[pair % 64] + offset + 8) % 64 else 0
  }

  ghost function SlideBy(offset: nat, perm: seq<nat>): nat -> nat {
    (p: nat) => Slide(p, offset, perm)
  }

  ghost function UnslideBy(offset: nat, perm: seq<nat>): nat -> nat {
    (p: nat) => Unslide(p, offset, perm)
  }

  ghost predicate Inverse(a: seq<nat>, b: seq<nat>) {
    |a| == |b| == 56 && forall c :: 0 <= c < 56 ==> a[c] < 56 && b[a[c]] == c
  }

  /** Outside the window, the rotation avoids the last eight columns and can be undone. */
  lemma SlideBack(pair: nat, offset: nat, a: seq<nat>, b: seq<nat>)
    requires offset <= 56 && Inverse(a, b) && !(offset <= pair % 64 < offset + 8)
    ensures Rotated(pair % 64, offset) < 56
    ensures Slide(pair, offset, a) % 64 < 56 && Slide(pair, offset, a) / 64 == pair / 64
    ensures Unslide(Slide(pair, offset, a), offset, b) == pair
  {
    var c := Rotated(pair % 64, offset);
    RotatedBack(pair % 64, offset);
    hide Rotated;
    assert a[c] < 56 && b[a[c]] == c;
    RowAndColumn(pair / 64, a[c]);
  }

  lemma RotatedBack(col: nat, offset: nat)
    requires offset <= 56 && col < 64 && !(offset <= col < offset + 8)
    ensures Rotated(col, offset) < 56 && (Rotated(col, offset) + offset + 8) % 64 == col
  {
  }

  lemma RowAndColumn(row: nat, col: nat)
    requires col < 64
    ensures (64 * row + col) / 64 == row && (64 * row + col) % 64 == col
  {
  }

  method SlideAll(pairs: array<nat>, offset: nat, perm: seq<nat>, ghost inverse: seq<nat>)
    requires offset <= 56 && Inverse(perm, inverse)
    requires forall i :: 0 <= i < pairs.Length ==> !(offset <= pairs[i] % 64 < offset + 8)
    modifies pairs
    ensures forall i :: 0 <= i < pairs.Length ==> pairs[i] == Slide(old(pairs[i]), offset, perm)
  {
    for i := 0 to pairs.Length
      invariant forall j :: 0 <= j < i ==> pairs[j] == Slide(old(pairs[j]), offset, perm)
      invariant forall j :: i <= j < pairs.Length ==> pairs[j] == old(pairs[j])
    {
      SlideBack(pairs[i], offset, perm, inverse);
      var row := pairs[i] / 64;
      var col := (pairs[i] % 64 + 56 - offset) % 64;
      assert col < 56;
      pairs[i] := 64 * row + perm[col];
    }
  }

  method UnslideAll(pairs: array<nat>, offset: nat, perm: seq<nat>) returns (ok: bool)
    requires |perm| == 56
    modifies pairs
    ensures ok <==> forall i :: 0 <= i < pairs.Length ==> old(pairs[i]) % 64 < 56
    ensures ok ==> forall i :: 0 <= i < pairs.Length ==> pairs[i] == Unslide(old(pairs[i]), offset, perm)
  {
    for i := 0 to pairs.Length
      invariant forall j :: 0 <= j < i ==> old(pairs[j]) % 64 < 56 && pairs[j] == Unslide(old(pairs[j]), offset, perm)
      invariant forall j :: i <= j < pairs.Length ==> pairs[j] == old(pairs[j])
    {
      var row, col := pairs[i] / 64, pairs[i] % 64;
      if col >= |perm| {
        assert old(pairs[i]) % 64 >= 56;
        return false;
      }
      pairs[i] := 64 * row + (perm[col] + offset + 8) % 64;
    }
    return true;
  }
}
