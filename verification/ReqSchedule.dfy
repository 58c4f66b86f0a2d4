/** The compaction schedule of a REQ level: when its sections double, how many are due, and how many
  * items that leaves: `req/compactor.rs`. */
module ReqSchedule {
  import opened Powers
  import opened ReqLevels

  const MIN_K: nat := 4
  const INITIAL_SECTIONS: nat := 3

  /** The square root of two in single precision. */
  const SQRT_2: real := 11863283.0 / 8388608.0

  // ------------------------------------------- the bits of the counter

  /** Trailing one bits: `(!state).trailing_zeros()`. */
  function TrailingOnes(state: nat): nat {
    if state % 2 == 1 then 1 + TrailingOnes(state / 2) else 0
  }

  function BitOr(a: nat, b: nat): nat {
    if a == 0 && b == 0 then 0
    else 2 * BitOr(a / 2, b / 2) + if a % 2 == 1 || b % 2 == 1 then 1 else 0
  }

  ghost predicate Bit(x: nat, i: nat) {
    x / Pow2(i) % 2 == 1
  }

  /** A bit is a bit of the half, or the parity. */
  lemma BitOfHalf(x: nat, i: nat)
    ensures Bit(x, 0) <==> x % 2 == 1
    ensures Bit(x, i + 1) <==> Bit(x / 2, i)
  {
    ShrDivides(x, i + 1);
    ShrDivides(x / 2, i);
  }

  /** A bit of the united counter is set exactly if it is set in one of the two. */
  lemma {:induction false} OrBits(a: nat, b: nat, i: nat)
    ensures Bit(BitOr(a, b), i) <==> Bit(a, i) || Bit(b, i)
    decreases i
  {
    BitOfHalf(a, if i == 0 then 0 else i - 1);
    BitOfHalf(b, if i == 0 then 0 else i - 1);
    BitOfHalf(BitOr(a, b), if i == 0 then 0 else i - 1);
    assert BitOr(a, b) / 2 == BitOr(a / 2, b / 2);
    if i > 0 {
      OrBits(a / 2, b / 2, i - 1);
    }
  }

  /** Exactly the bits below the first clear one are counted. */
  lemma {:induction false} OnesTrail(state: nat)
    ensures forall i :: 0 <= i < TrailingOnes(state) ==> Bit(state, i)
    ensures !Bit(state, TrailingOnes(state))
  {
    BitOfHalf(state, 0);
    if state % 2 == 1 {
      OnesTrail(state / 2);
      forall i | 0 <= i < TrailingOnes(state) ensures Bit(state, i) {
        if i > 0 {
          BitOfHalf(state, i - 1);
        }
      }
      BitOfHalf(state, TrailingOnes(state / 2));
    }
  }

  /** Merging schedules never overstates the number of compactions. */
  lemma {:induction false} OrBetween(a: nat, b: nat)
    ensures a <= BitOr(a, b) <= a + b && b <= BitOr(a, b)
  {
    if a != 0 || b != 0 {
      OrBetween(a / 2, b / 2);
    }
  }

  // ------------------------------------------------------ the sections

  /** The constant is the single-precision number next to the square root of two. */
  lemma RootOfTwo()
    ensures var half := 1.0 / 16777216.0; (SQRT_2 - half) * (SQRT_2 - half) < 2.0 < (SQRT_2 + half) * (SQRT_2 + half)
  {
  }

  /** What a level keeps over all steps: half its capacity never falls below three times k, and the
    * schedule counts no more compactions than there were. */
  ghost predicate Sound(level: Level, k: nat) {
    level.SectionSize() >= MIN_K && 1 <= level.numSections <= 255 && level.Half() >= 3 * k && level.state <= level.compactions
  }

  ghost function NewLevel(k: nat): Level {
    Level([], 0, 0, k as real, INITIAL_SECTIONS, false)
  }

  lemma NewSound(k: nat)
    requires k % 2 == 0 && k >= MIN_K
    ensures Sound(NewLevel(k), k) && NewLevel(k).SectionSize() == k
  {
    assert k as real == 2.0 * (k / 2) as real;
    assert (k as real / 2.0 + 0.5).Floor == k / 2;
    assert NewLevel(k).Half() == k * 3;
  }

  /** One doubling of the sections, at a smaller size, if the schedule has gone round them. */
  ghost function Doubled(level: Level): Level {
    var raw := level.rawSize / SQRT_2;
    if 1 <= level.numSections <= 64 && 2 * level.numSections <= 255 && level.state >= Pow2(level.numSections - 1) && NearestEven(raw) >= MIN_K
    then level.(rawSize := raw, numSections := 2 * level.numSections)
    else level
  }

  /** Dividing by the square root of two never raises the rounded size and never less than halves it. */
  lemma ShrinkBounds(raw: real)
    requires NearestEven(raw) >= MIN_K
    ensures NearestEven(raw / SQRT_2) <= NearestEven(raw) <= 2 * NearestEven(raw / SQRT_2)
  {
    var q := (raw / 2.0 + 0.5).Floor;
    var x := raw / SQRT_2 / 2.0 + 0.5;
    var p := x.Floor;
    assert q as real <= raw / 2.0 + 0.5 < q as real + 1.0;
    assert p as real <= x < p as real + 1.0;
    if q >= 5 {
    } else if q == 4 {
    } else if q == 3 {
    } else {
      assert q == 2;
    }
  }

  lemma DoubledSound(level: Level, k: nat)
    requires Sound(level, k)
    ensures Sound(Doubled(level), k) && Doubled(level).Half() >= level.Half()
    ensures Doubled(level) != level ==> Doubled(level).numSections == 2 * level.numSections
  {
    ShrinkBounds(level.rawSize);
    var more := Doubled(level);
    if more.numSections != level.numSections {
      MulLe(level.SectionSize(), 2 * more.SectionSize(), level.numSections);
      assert 2 * more.SectionSize() * level.numSections == more.SectionSize() * (2 * level.numSections);
    }
  }

  /** The section size after j doublings, before rounding. */
  ghost function Shrunk(k: nat, j: nat): real {
    if j == 0 then k as real else Shrunk(k, j - 1) / SQRT_2
  }

  /** After j doublings: there are three times 2^j sections of k over the j-th power of root two, and
    * the counter has passed 2^(n - 1) for each number n of sections doubled, with sizes of at least
    * four. */
  ghost predicate DoubledBy(level: Level, k: nat, j: nat) {
    && level.numSections == 3 * Pow2(j) && level.rawSize == Shrunk(k, j) && j <= 5
    && (j > 0 ==> level.state >= Pow2(3 * Pow2(j - 1) - 1)) && level.SectionSize() >= 4
  }

  /** ... and no further doubling is due: the counter is below 2^(n - 1), the next size would be too
    * small, or n is 96. */
  ghost predicate DoublingDone(level: Level, k: nat, j: nat) {
    level.state < Pow2(3 * Pow2(j) - 1) || NearestEven(Shrunk(k, j + 1)) < 4 || j == 5
  }

  /** The sections are those that the schedule counter calls for. */
  ghost predicate Scheduled(level: Level, k: nat) {
    exists j: nat :: DoubledBy(level, k, j) && DoublingDone(level, k, j)
  }

  lemma NewScheduled(k: nat)
    requires k % 2 == 0 && k >= MIN_K
    ensures Scheduled(NewLevel(k), k)
  {
    NewSound(k);
    assert Pow2(0) == 1 && Pow2(2) == 4;
    assert DoubledBy(NewLevel(k), k, 0) && DoublingDone(NewLevel(k), k, 0);
  }

  lemma SmallPowers()
    ensures Pow2(0) == 1 && Pow2(1) == 2 && Pow2(2) == 4 && Pow2(3) == 8 && Pow2(4) == 16 && Pow2(5) == 32
  {
  }

  /** A level doubles exactly if that is not done. */
  lemma DoublesIffDue(level: Level, k: nat, j: nat)
    requires DoubledBy(level, k, j)
    ensures Doubled(level) == level <==> DoublingDone(level, k, j)
    ensures Doubled(level) != level ==> DoubledBy(Doubled(level), k, j + 1)
  {
    hide NearestEven;
    SmallPowers();
    assert j == 0 || j == 1 || j == 2 || j == 3 || j == 4 || j == 5;
    hide Pow2;
    assert Shrunk(k, j + 1) == Shrunk(k, j) / SQRT_2;
  }

  /** One more compaction needs at most one doubling. */
  lemma StepScheduled(level: Level, after: Level, k: nat)
    requires Scheduled(level, k) && after.state == level.state + 1
    requires after.rawSize == level.rawSize && after.numSections == level.numSections
    ensures Scheduled(Doubled(after), k)
  {
    hide NearestEven, Doubled, Shrunk, DoubledBy, DoublingDone, Pow2;
    var j: nat :| DoubledBy(level, k, j) && DoublingDone(level, k, j);
    CountedUp(level, after, k, j);
    DoublesIffDue(after, k, j);
    if Doubled(after) != after {
      JustDoubled(level, after, k, j);
    }
  }

  lemma CountedUp(level: Level, after: Level, k: nat, j: nat)
    requires DoubledBy(level, k, j) && after.state == level.state + 1
    requires after.rawSize == level.rawSize && after.numSections == level.numSections
    ensures DoubledBy(after, k, j)
  {
    hide NearestEven, Shrunk, Pow2;
  }

  /** The counter that calls for a doubling is far below the next threshold. */
  lemma JustDoubled(level: Level, after: Level, k: nat, j: nat)
    requires DoubledBy(after, k, j) && after.state == level.state + 1
    requires DoublingDone(level, k, j) && !DoublingDone(after, k, j)
    ensures DoublingDone(Doubled(after), k, j + 1)
  {
    hide NearestEven, Shrunk, Doubled, Pow2;
    DoublingKeeps(after);
    PowerPositive(j);
    Twice(3 * Pow2(j) - 1);
    Monotone(3 * Pow2(j), 3 * Pow2(j + 1) - 1);
  }

  lemma PowerPositive(j: nat)
    ensures Pow2(j + 1) == 2 * Pow2(j) && Pow2(j) >= 1
  {
  }

  lemma Twice(n: nat)
    ensures Pow2(n + 1) >= Pow2(n) + 1
  {
  }

  lemma DoublingKeeps(level: Level)
    ensures Doubled(level).items == level.items && Doubled(level).state == level.state
    ensures Doubled(level).compactions == level.compactions && Doubled(level).coin == level.coin
  {
  }

  /** Moving or sorting items leaves the schedule alone. */
  lemma ItemsScheduled(level: Level, items: seq<int>, k: nat)
    requires Scheduled(level, k)
    ensures Scheduled(level.(items := items), k)
  {
    hide NearestEven, Shrunk, Pow2;
    var j: nat :| DoubledBy(level, k, j) && DoublingDone(level, k, j);
    assert DoubledBy(level.(items := items), k, j) && DoublingDone(level.(items := items), k, j);
  }

  /** The sections due: one more than the schedule counter has trailing ones. */
  ghost function SectionsDue(level: Level): (secs: nat)
    ensures secs <= level.numSections && (level.numSections >= 1 ==> secs >= 1)
  {
    var ones := TrailingOnes(level.state) + 1;
    if ones <= level.numSections then ones else level.numSections
  }

  /** All bits of the counter below the last section due are set, and the next is clear unless all
    * sections are due. */
  lemma SectionsDueBits(level: Level)
    requires level.numSections >= 1
    ensures forall i :: 0 <= i < SectionsDue(level) - 1 ==> Bit(level.state, i)
    ensures SectionsDue(level) < level.numSections ==> !Bit(level.state, SectionsDue(level) - 1)
  {
    OnesTrail(level.state);
  }

  /** How many of n items a compaction leaves: half the nominal capacity and the sections not due, and
    * one more if an odd number would go. */
  ghost function LeftOf(level: Level, n: nat): (left: nat)
    ensures left <= n && (n - left) % 2 == 0
  {
    MulLe(0, level.numSections - SectionsDue(level), level.SectionSize());
    var kept := level.Half() + (level.numSections - SectionsDue(level)) * level.SectionSize();
    if n < kept then n else kept + (n - kept) % 2
  }

  /** Nothing is taken before two items are to go; then an even number beyond the sections kept. */
  lemma LeftMeans(level: Level, n: nat)
    ensures var kept := (2 * level.numSections - SectionsDue(level)) * level.SectionSize();
      && (n <= kept + 1 ==> LeftOf(level, n) == n)
      && (n >= kept ==> kept <= LeftOf(level, n) <= kept + 1)
  {
    MulLe(0, level.numSections - SectionsDue(level), level.SectionSize());
    MulDistributes(level.numSections, level.numSections - SectionsDue(level), level.SectionSize());
  }

  ghost function Left(level: Level): (left: nat)
    ensures left <= |level.items| && (|level.items| - left) % 2 == 0
  {
    LeftOf(level, |level.items|)
  }

  lemma LeftBounds(level: Level)
    requires level.SectionSize() >= MIN_K && level.numSections >= 1
    ensures Left(level) < |level.items| ==> level.Half() <= Left(level)
    ensures |level.items| >= level.Nominal() ==> Left(level) < level.Nominal()
  {
    var size := level.SectionSize();
    MulLe(level.numSections - SectionsDue(level), level.numSections - 1, size);
    MulLe(0, level.numSections - SectionsDue(level), size);
    assert (level.numSections - 1) * size == level.Half() - size;
  }
}
