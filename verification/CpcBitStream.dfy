/** The 32-bit-word bit stream of `cpc/compression.rs`: a writer and a reader that undo each other. */
module CpcBitStream {
  import opened Powers
  import opened BitSequences
  import opened Options

  ghost predicate AllWords(words: seq<nat>) {
    forall i :: 0 <= i < |words| ==> words[i] < Pow2(32)
  }

  /** The bits of a sequence of little-endian words. */
  ghost function WordBits(words: seq<nat>): (b: seq<bool>)
    ensures |b| == 32 * |words|
  {
    if words == [] then [] else WordBits(words[..|words| - 1]) + Bits(words[|words| - 1], 32)
  }

  /** Bit i of the stream is bit i modulo 32 of word i / 32, least significant first. */
  lemma {:induction false} StreamBit(words: seq<nat>, i: nat)
    requires i < 32 * |words|
    ensures WordBits(words)[i] <==> words[i / 32] / Pow2(i % 32) % 2 == 1
  {
    hide Bits, Pow2;
    var n := |words| - 1;
    if i < 32 * n {
      StreamBit(words[..n], i);
    } else {
      BitsAt(words[n], 32, i - 32 * n);
    }
  }

  lemma WordBitsAppend(words: seq<nat>, w: nat)
    ensures WordBits(words + [w]) == WordBits(words) + Bits(w, 32)
  {
    assert (words + [w])[..|words|] == words;
  }

  lemma {:induction false} WordBitsConcat(a: seq<nat>, b: seq<nat>)
    ensures WordBits(a + b) == WordBits(a) + WordBits(b)
  {
    hide Bits;
    if b == [] {
      assert a + b == a;
      assert WordBits(a) + WordBits(b) == WordBits(a);
    } else {
      var c, w := b[..|b| - 1], b[|b| - 1];
      assert b == c + [w] && a + b == (a + c) + [w];
      WordBitsConcat(a, c);
      WordBitsAppend(a + c, w);
      WordBitsAppend(c, w);
      assert WordBits(a) + WordBits(c) + Bits(w, 32) == WordBits(a) + (WordBits(c) + Bits(w, 32));
    }
  }

  lemma WordBitsFirst(words: seq<nat>, i: nat)
    requires i < |words|
    ensures WordBits(words[i..]) == Bits(words[i], 32) + WordBits(words[i + 1..])
  {
    assert words[i..] == [words[i]] + words[i + 1..];
    WordBitsConcat([words[i]], words[i + 1..]);
    WordBitsAppend([], words[i]);
    assert [] + [words[i]] == [words[i]];
  }

  class BitWriter {
    /** Whole words written so far. */
    var words: seq<nat>
    var buffer: nat
    var bufferedBits: nat

    ghost predicate Valid()
      reads this
    {
      bufferedBits < 32 && buffer < Pow2(bufferedBits) && AllWords(words)
    }

    /** Everything written, in order. */
    ghost function Stream(): seq<bool>
      reads this
    {
      WordBits(words) + Bits(buffer, bufferedBits)
    }

    constructor ()
      ensures Valid() && Stream() == []
    {
      words, buffer, bufferedBits := [], 0, 0;
    }

    /** Appends the low `count` bits of a value; the u64 buffer never overflows. */
    method Write(value: nat, count: nat)
      requires Valid() && count <= 32 && value < Pow2(count)
      modifies this
      ensures Valid() && Stream() == old(Stream()) + Bits(value, count)
    {
      hide Bits, WordBits, OrAbove, Pow2;
      BitsAppend(buffer, bufferedBits, value, count);
      Monotone(bufferedBits + count, 64);
      buffer := OrAbove(buffer, value, bufferedBits);
      assert buffer < Pow2(64);
      bufferedBits := bufferedBits + count;
      FlushFullWord();
    }

    method FlushFullWord()
      requires bufferedBits < 64 && buffer < Pow2(bufferedBits) && AllWords(words)
      modifies this
      ensures Valid() && Stream() == old(Stream())
    {
      hide Bits, WordBits, Shr, LowBits, Pow2;
      if bufferedBits >= 32 {
        BitsSplit(buffer, 32, bufferedBits - 32);
        BitsMasked(buffer, 32);
        LowBitsBound(buffer, 32);
        ShrBounds(buffer, bufferedBits - 32, 32);
        WordBitsAppend(words, LowBits(buffer, 32));
        words := words + [LowBits(buffer, 32)];
        buffer := Shr(buffer, 32);
        bufferedBits := bufferedBits - 32;
      }
    }

    method Pad(count: nat)
      requires Valid() && count <= 32
      modifies this
      ensures Valid() && Stream() == old(Stream()) + Zeros(count)
    {
      hide Bits, WordBits, Zeros, Pow2;
      BitsPadded(buffer, bufferedBits, count);
      bufferedBits := bufferedBits + count;
      FlushFullWord();
    }

    /** The unary code of a value, in chunks of sixteen zeros. */
    method WriteUnary(value: nat)
      requires Valid()
      modifies this
      ensures Valid() && Stream() == old(Stream()) + Zeros(value) + [true]
    {
      hide Bits, WordBits, Pow2;
      var remaining: nat := value;
      assert old(Stream()) + Zeros(0) == old(Stream());
      while remaining >= 16
        invariant remaining <= value
        invariant Valid() && Stream() == old(Stream()) + Zeros(value - remaining)
      {
        Pad(16);
        remaining := remaining - 16;
        assert Zeros(value - remaining - 16) + Zeros(16) == Zeros(value - remaining);
      }
      BitsUnary(remaining);
      Write(Pow2(remaining), remaining + 1);
      assert Zeros(value - remaining) + (Zeros(remaining) + [true]) == Zeros(value) + [true];
    }

    /** Flushes the last word, padded with zeros. */
    method Finish() returns (count: nat)
      requires Valid()
      modifies this
      ensures count == |words| && AllWords(words)
      ensures exists n :: 0 <= n < 32 && WordBits(words) == old(Stream()) + Zeros(n)
    {
      hide Bits, WordBits, Pow2, LowBits;
      ghost var n := 0;
      if bufferedBits > 0 {
        n := 32 - bufferedBits;
        BitsPadded(buffer, bufferedBits, n);
        LowBitsBound(buffer, 32);
        WordBitsAppend(words, LowBits(buffer, 32));
        words := words + [LowBits(buffer, 32)];
      }
      assert WordBits(words) == old(Stream()) + Zeros(n);
      count := |words|;
    }
  }

  class BitReader {
    const words: seq<nat>
    var nextWord: nat
    var buffer: nat
    var bufferedBits: nat

    ghost predicate Valid()
      reads this
    {
      && nextWord <= |words| && bufferedBits < 64 && buffer < Pow2(bufferedBits)
      && AllWords(words)
    }

    /** Everything not yet consumed. */
    ghost function Rest(): seq<bool>
      reads this
    {
      Bits(buffer, bufferedBits) + if nextWord <= |words| then WordBits(words[nextWord..]) else []
    }

    constructor (words: seq<nat>)
      requires AllWords(words)
      ensures Valid() && Rest() == WordBits(words) && this.words == words
    {
      this.words := words;
      nextWord, buffer, bufferedBits := 0, 0, 0;
      new;
      assert words[0..] == words;
      assert [] + WordBits(words) == WordBits(words);
    }

    /** Makes `needed` bits available, or fails when the stream is truncated. */
    method Fill(needed: nat) returns (ok: bool)
      requires Valid() && needed <= 32
      modifies this
      ensures Valid() && Rest() == old(Rest())
      ensures ok <==> needed <= |Rest()|
      ensures ok ==> needed <= bufferedBits
    {
      hide Bits, OrAbove, Pow2;
      if bufferedBits < needed {
        if nextWord >= |words| {
          assert words[nextWord..] == [];
          return false;
        }
        hide WordBits;
        var word := words[nextWord];
        WordBitsFirst(words, nextWord);
        BitsAppend(buffer, bufferedBits, word, 32);
        assert Bits(buffer, bufferedBits) + (Bits(word, 32) + WordBits(words[nextWord + 1..]))
            == Bits(buffer, bufferedBits) + Bits(word, 32) + WordBits(words[nextWord + 1..]);
        buffer := OrAbove(buffer, word, bufferedBits);
        nextWord := nextWord + 1;
        bufferedBits := bufferedBits + 32;
      }
      ok := true;
    }

    /** The value of the next `count` bits, which stay in the stream. */
    method Peek(count: nat) returns (value: Option<nat>)
      requires Valid() && count <= 32
      modifies this
      ensures Valid() && Rest() == old(Rest())
      ensures value.Some? <==> count <= |Rest()|
      ensures value.Some? ==> count <= bufferedBits && value.value == Value(Rest()[..count])
    {
      var ok := Fill(count);
      if !ok {
        return None;
      }
      ValueOfBits(buffer, count);
      BitsSplit(buffer, count, bufferedBits - count);
      assert Rest()[..count] == Bits(buffer, count);
      return Some(LowBits(buffer, count));
    }

    method Consume(count: nat)
      requires Valid() && count <= bufferedBits
      modifies this
      ensures Valid() && count <= |old(Rest())| && Rest() == old(Rest())[count..]
    {
      hide Bits, Shr, Pow2, WordBits, AllWords;
      BitsSplit(buffer, count, bufferedBits - count);
      ShrBounds(buffer, bufferedBits - count, count);
      buffer := Shr(buffer, count);
      bufferedBits := bufferedBits - count;
      assert Rest() == old(Rest())[count..];
    }

    method Read(count: nat) returns (value: Option<nat>)
      requires Valid() && count <= 32
      modifies this
      ensures Valid() && (value.Some? <==> count <= |old(Rest())|)
      ensures value.Some? ==> value.value == Value(old(Rest())[..count]) && Rest() == old(Rest())[count..]
    {
      if count == 0 {
        return Some(0);
      }
      value := Peek(count);
      if value.Some? {
        Consume(count);
      }
    }

    /** Reads a unary code byte by byte. It may fail only when fewer than seven bits follow the
      * code; a value it returns is the length of the leading run of zeros. */
    method ReadUnary() returns (value: Option<nat>)
      requires Valid()
      modifies this
      ensures Valid()
      ensures value.Some? ==> Unary(old(Rest()), value.value) && Rest() == old(Rest())[value.value + 1..]
      ensures forall n: nat :: n + 8 <= |old(Rest())| && Unary(old(Rest()), n) ==> value == Some(n)
    {
      ghost var stream := Rest();
      var v := 0;
      while true
        invariant Valid() && v <= |stream| && Rest() == stream[v..]
        invariant forall i :: 0 <= i < v ==> !stream[i]
        decreases |stream| - v
      {
        hide *;
        var zeros := ReadUnaryByte(stream, v);
        if zeros.None? {
          NoneBefore(stream, v);
          return None;
        }
        if zeros.value < 8 {
          UnaryUnique(stream, v + zeros.value);
          return Some(v + zeros.value);
        }
        v := v + 8;
      }
    }

    /** Drops the zeros at the front of the next byte and the one behind them, if it has one. */
    method ReadUnaryByte(ghost stream: seq<bool>, ghost v: nat) returns (zeros: Option<nat>)
      requires Valid() && v <= |stream| && Rest() == stream[v..] && forall i :: 0 <= i < v ==> !stream[i]
      modifies this
      ensures Valid() && (zeros.None? <==> |stream| < v + 8)
      ensures zeros.Some? ==> zeros.value <= 8 && forall i :: 0 <= i < v + zeros.value ==> !stream[i]
      ensures zeros.Some? && zeros.value < 8 ==> Unary(stream, v + zeros.value) && Rest() == stream[v + zeros.value + 1..]
      ensures zeros == Some(8) ==> Rest() == stream[v + 8..]
    {
      hide *;
      var byte := Peek(8);
      if byte.None? {
        return None;
      }
      var n := TrailingZeros8(byte.value, Rest()[..8]);
      UnaryByte(stream, v, n);
      Consume(if n < 8 then n + 1 else 8);
      zeros := Some(n);
    }
  }

  /** n zeros and a one at the front of a stream. */
  ghost predicate Unary(stream: seq<bool>, n: nat) {
    n < |stream| && stream[n] && forall i :: 0 <= i < n ==> !stream[i]
  }

  /** `trailing_zeros` of a byte, at most 8. */
  method TrailingZeros8(byte: nat, ghost b: seq<bool>) returns (zeros: nat)
    requires |b| == 8 && byte == Value(b)
    ensures zeros <= 8 && (forall i :: 0 <= i < zeros ==> !b[i]) && (zeros < 8 ==> b[zeros])
  {
    hide Value;
    var x := byte;
    zeros := 0;
    assert b[0..] == b;
    while zeros < 8 && x % 2 == 0
      invariant zeros <= 8 && x == Value(b[zeros..])
      invariant forall i :: 0 <= i < zeros ==> !b[i]
    {
      FirstBit(b[zeros..]);
      assert b[zeros..][1..] == b[zeros + 1..];
      x := x / 2;
      zeros := zeros + 1;
    }
    if zeros < 8 {
      FirstBit(b[zeros..]);
    }
  }

  lemma UnaryByte(stream: seq<bool>, v: nat, zeros: nat)
    requires v + 8 <= |stream| && zeros <= 8 && forall i :: 0 <= i < v ==> !stream[i]
    requires (forall i :: 0 <= i < zeros ==> !stream[v..][..8][i]) && (zeros < 8 ==> stream[v..][..8][zeros])
    ensures forall i :: 0 <= i < v + zeros ==> !stream[i]
    ensures zeros < 8 ==> Unary(stream, v + zeros)
  {
    forall i | 0 <= i < v + zeros ensures !stream[i] {
      if v <= i {
        assert stream[v..][..8][i - v] == stream[i];
      }
    }
  }

  lemma NoneBefore(stream: seq<bool>, v: nat)
    requires v <= |stream| < v + 8 && forall i :: 0 <= i < v ==> !stream[i]
    ensures forall n: nat :: n + 8 <= |stream| ==> !Unary(stream, n)
  {
  }

  lemma UnaryUnique(stream: seq<bool>, m: nat)
    requires Unary(stream, m)
    ensures forall n: nat :: Unary(stream, n) ==> n == m
  {
  }

  lemma UnaryFront(n: nat, rest: seq<bool>)
    ensures Unary(Zeros(n) + [true] + rest, n)
  {
  }
}
