/** Numbers as bit sequences, least significant bit first: the order of the compressed stream. */
module BitSequences {
  import opened Powers

  function Bits(value: nat, count: nat): (b: seq<bool>)
    ensures |b| == count
  {
    if count == 0 then [] else [value % 2 == 1] + Bits(value / 2, count - 1)
  }

  function Value(b: seq<bool>): nat {
    if b == [] then 0 else (if b[0] then 1 else 0) + 2 * Value(b[1..])
  }

  ghost function Zeros(count: nat): seq<bool> {
    seq(count, _ => false)
  }

  /** The bits are those of the binary representation, lowest first. */
  lemma {:induction false} BitsAt(value: nat, count: nat, i: nat)
    requires i < count
    ensures Bits(value, count)[i] <==> value / Pow2(i) % 2 == 1
  {
    if i > 0 {
      BitsAt(value / 2, count - 1, i - 1);
      HalfFirst(value, i);
    }
  }

  lemma HalfFirst(value: nat, i: nat)
    requires i > 0
    ensures value / Pow2(i) == value / 2 / Pow2(i - 1)
  {
    ShrDivides(value, i);
    ShrDivides(value / 2, i - 1);
  }

  lemma {:induction false} ValueOfBits(value: nat, count: nat)
    ensures Value(Bits(value, count)) == LowBits(value, count)
  {
    if count != 0 {
      ValueOfBits(value / 2, count - 1);
      assert Bits(value, count)[1..] == Bits(value / 2, count - 1);
    }
  }

  lemma {:induction false} BitsOfValue(b: seq<bool>)
    ensures Value(b) < Pow2(|b|) && Bits(Value(b), |b|) == b
  {
    if b != [] {
      BitsOfValue(b[1..]);
      assert b == [b[0]] + b[1..];
    }
  }

  /** The bits of a number split into its low m and its remaining bits. */
  lemma {:induction false} BitsSplit(value: nat, m: nat, n: nat)
    ensures Bits(value, m + n) == Bits(value, m) + Bits(Shr(value, m), n)
  {
    if m != 0 {
      BitsSplit(value / 2, m - 1, n);
      var b := [value % 2 == 1];
      assert Bits(value, m + n) == b + Bits(value / 2, m - 1 + n) && Bits(value, m) == b + Bits(value / 2, m - 1);
    } else {
      assert Bits(value, 0) + Bits(value, n) == Bits(value, n);
    }
  }

  lemma {:induction false} BitsMasked(value: nat, m: nat)
    ensures Bits(LowBits(value, m), m) == Bits(value, m)
  {
    if m != 0 {
      BitsMasked(value / 2, m - 1);
      assert LowBits(value, m) / 2 == LowBits(value / 2, m - 1);
    }
  }

  /** `low | high << m` for a low part below 2^m: the operands share no bit. */
  function OrAbove(low: nat, high: nat, m: nat): nat {
    low + high * Pow2(m)
  }

  /** Or-ing a value above m buffered bits appends its bits. */
  lemma {:induction false} BitsAppend(low: nat, m: nat, high: nat, n: nat)
    requires low < Pow2(m) && high < Pow2(n)
    ensures OrAbove(low, high, m) < Pow2(m + n)
    ensures Bits(OrAbove(low, high, m), m + n) == Bits(low, m) + Bits(high, n)
  {
    if m == 0 {
      assert Bits(low, 0) + Bits(high, n) == Bits(high, n);
    } else {
      MulDouble(high, Pow2(m - 1));
      var whole := OrAbove(low, high, m);
      assert whole == low + 2 * (high * Pow2(m - 1));
      assert whole / 2 == OrAbove(low / 2, high, m - 1) && whole % 2 == low % 2;
      BitsAppend(low / 2, m - 1, high, n);
      assert Bits(whole, m + n) == [whole % 2 == 1] + Bits(whole / 2, m - 1 + n);
      assert Bits(low, m) == [low % 2 == 1] + Bits(low / 2, m - 1);
      assert [low % 2 == 1] + (Bits(low / 2, m - 1) + Bits(high, n)) == Bits(low, m) + Bits(high, n);
    }
  }

  lemma {:induction false} BitsZero(count: nat)
    ensures Bits(0, count) == Zeros(count)
  {
    if count != 0 {
      BitsZero(count - 1);
    }
  }

  /** A zero-padded number has the same bits, then zeros. */
  lemma BitsPadded(value: nat, m: nat, n: nat)
    requires value < Pow2(m)
    ensures value < Pow2(m + n) && Bits(value, m + n) == Bits(value, m) + Zeros(n)
  {
    BitsAppend(value, m, 0, n);
    BitsZero(n);
  }

  /** 1 << value is value zeros and a one. */
  lemma {:induction false} BitsUnary(value: nat)
    ensures Pow2(value) < Pow2(value + 1)
    ensures Bits(Pow2(value), value + 1) == Zeros(value) + [true]
  {
    if value != 0 {
      BitsUnary(value - 1);
      assert Bits(Pow2(value), value + 1) == [false] + Bits(Pow2(value - 1), value);
      assert [false] + (Zeros(value - 1) + [true]) == Zeros(value) + [true];
    } else {
      assert Bits(1, 1) == [true] + Bits(0, 0);
    }
  }

  /** The low bits of a number depend only on its first bits. */
  lemma {:induction false} LowBitsOfPrefix(b: seq<bool>, n: nat)
    requires n <= |b|
    ensures LowBits(Value(b), n) == Value(b[..n])
  {
    hide Value;
    if n == 0 {
      NoValue(b[..n]);
    } else {
      LowBitsOfPrefix(b[1..], n - 1);
      FirstBit(b);
      FirstBit(b[..n]);
      assert b[..n][1..] == b[1..][..n - 1];
    }
  }

  lemma NoValue(b: seq<bool>)
    requires b == []
    ensures Value(b) == 0
  {
  }

  lemma FirstBit(b: seq<bool>)
    requires b != []
    ensures Value(b) % 2 == (if b[0] then 1 else 0) && Value(b) / 2 == Value(b[1..])
  {
  }
}
