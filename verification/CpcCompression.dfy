/** Golomb and length-limited-unary coding of pairs, and byte coding of the window:
  * `cpc/compression.rs`. */
module CpcCompression {
  import opened Powers
  import opened Options
  import opened BitSequences
  import opened CpcBitStream
  import opened Sets
  import opened CpcPairTable

  /** A codeword: its bits as a number, and how many there are. */
  datatype Code = Code(value: nat, length: nat)

  /** A decoding entry: the length of the codeword at the front of a 12-bit window, its symbol. */
  datatype Symbol = Symbol(length: nat, symbol: nat)

  /** Codewords of 1 to 12 bits, and a table that recognises each at the front of any 12 bits. */
  ghost predicate PrefixCode(enc: seq<Code>, dec: seq<Symbol>) {
    && |dec| == 4096
    && (forall w :: 0 <= w < 4096 ==> dec[w].length <= 12)
    && forall x :: 0 <= x < |enc| ==> Recognised(enc[x], dec, x)
  }

  ghost predicate Recognised(code: Code, dec: seq<Symbol>, x: nat)
    requires |dec| == 4096
  {
    && 1 <= code.length <= 12 && code.value < Pow2(code.length)
    && forall w :: 0 <= w < 4096 && LowBits(w, code.length) == code.value ==> dec[w] == Symbol(code.length, x)
  }

  // ------------------------------------------------------ Golomb parameter

  ghost function FloorLog2(x: nat): nat {
    if x < 2 then 0 else 1 + FloorLog2(x / 2)
  }

  lemma {:induction false} FloorLog2Bounds(x: nat)
    requires x > 0
    ensures Pow2(FloorLog2(x)) <= x < Pow2(FloorLog2(x) + 1)
  {
    if x >= 2 {
      FloorLog2Bounds(x / 2);
    }
  }

  lemma Log2Unique(x: nat, p: nat, q: nat)
    requires Pow2(p) <= x < Pow2(p + 1) && Pow2(q) <= x < Pow2(q + 1)
    ensures p == q
  {
    if p < q { Monotone(p + 1, q); }
    if q < p { Monotone(q + 1, p); }
  }

  method FloorLog2OfLong(x: nat) returns (p: nat)
    requires x > 0
    ensures Pow2(p) <= x < Pow2(p + 1) && p == FloorLog2(x)
  {
    p := 0;
    var y := 1;
    while y < x
      invariant y == Pow2(p) && (p > 0 ==> Pow2(p - 1) < x)
      decreases x - y
    {
      p := p + 1;
      y := 2 * y;
    }
    if y > x {
      p := p - 1;
    }
    FloorLog2Bounds(x);
    Log2Unique(x, p, FloorLog2(x));
  }

  /** The number of low bits of a row delta stored verbatim, for n pairs at K = 2^lgK. */
  ghost function BaseBits(lgK: nat, n: nat): nat
    requires n > 0
  {
    var quotient := Pow2(lgK) / n;
    if quotient == 0 then 0 else FloorLog2(quotient)
  }

  /** 2^base is the largest power of two not above the average row delta K / n, or 1. */
  ghost predicate FitsAverage(k: nat, n: nat, base: nat) {
    if n <= k then Pow2(base) * n <= k < Pow2(base + 1) * n else base == 0
  }

  lemma AverageUnique(k: nat, n: nat, a: nat, b: nat)
    requires n > 0 && FitsAverage(k, n, a) && FitsAverage(k, n, b)
    ensures a == b
  {
    if n <= k && a < b {
      Monotone(a + 1, b);
      MulLe(Pow2(a + 1), Pow2(b), n);
    } else if n <= k && b < a {
      Monotone(b + 1, a);
      MulLe(Pow2(b + 1), Pow2(a), n);
    }
  }

  lemma DivisionBounds(x: nat, n: nat)
    requires n > 0
    ensures x / n * n <= x < (x / n + 1) * n && (x / n == 0 <==> x < n)
  {
    MulDistributes(x / n, 1, n);
    if x / n == 0 {
      assert x < n;
    } else {
      MulLe(1, x / n, n);
    }
  }

  lemma LogFitsAverage(k: nat, n: nat, base: nat)
    requires n > 0 && base == if k / n == 0 then 0 else FloorLog2(k / n)
    ensures FitsAverage(k, n, base)
  {
    DivisionBounds(k, n);
    if k / n > 0 {
      FloorLog2Bounds(k / n);
      MulLe(Pow2(base), k / n, n);
      MulLe(k / n + 1, Pow2(base + 1), n);
    }
  }

  lemma BaseBitsBound(lgK: nat, n: nat)
    requires n > 0
    ensures BaseBits(lgK, n) <= lgK
  {
    var base := BaseBits(lgK, n);
    LogFitsAverage(Pow2(lgK), n, base);
    if base > lgK {
      Monotone(lgK + 1, base);
      MulLe(Pow2(lgK + 1), Pow2(base), n);
      MulLe(1, n, Pow2(lgK + 1));
    }
  }

  /** The Golomb parameter, for `count` pairs among k - count rows. */
  method GolombChooseNumberOfBaseBits(k: nat, count: nat) returns (base: nat)
    requires 0 < count <= k
    ensures FitsAverage(k - count, count, base)
  {
    var quotient := (k - count) / count;
    if quotient == 0 {
      base := 0;
    } else {
      base := FloorLog2OfLong(quotient);
    }
    LogFitsAverage(k - count, count, base);
  }

  method ChooseBaseBits(lgK: nat, n: nat) returns (base: nat)
    requires n > 0
    ensures FitsAverage(Pow2(lgK), n, base) && base == BaseBits(lgK, n)
  {
    base := GolombChooseNumberOfBaseBits(Pow2(lgK) + n, n);
    LogFitsAverage(Pow2(lgK), n, BaseBits(lgK, n));
    AverageUnique(Pow2(lgK), n, base, BaseBits(lgK, n));
  }

  // ------------------------------------------------------------- pairs

  /** The prediction before pair i: the row of the last pair, and the column after it in that row. */
  ghost function PredictedRow(pairs: seq<nat>, i: nat): nat
    requires i <= |pairs|
  {
    if i == 0 then 0 else pairs[i - 1] / 64
  }

  ghost function PredictedCol(pairs: seq<nat>, i: nat): nat
    requires i < |pairs|
  {
    if i == 0 || pairs[i] / 64 != pairs[i - 1] / 64 then 0 else pairs[i - 1] % 64 + 1
  }

  /** Pairs the encoder accepts: rows and columns never fall behind their predictions. */
  ghost predicate Encodable(pairs: seq<nat>, lgK: nat) {
    forall i :: 0 <= i < |pairs| ==>
      pairs[i] < 64 * Pow2(lgK) && pairs[i] != EMPTY && (i > 0 ==> pairs[i - 1] < pairs[i])
  }

  ghost function ColDelta(pairs: seq<nat>, i: nat): int
    requires i < |pairs|
  {
    pairs[i] % 64 - PredictedCol(pairs, i)
  }

  ghost function RowDelta(pairs: seq<nat>, i: nat): int
    requires i < |pairs|
  {
    pairs[i] / 64 - PredictedRow(pairs, i)
  }

  lemma DeltasInRange(pairs: seq<nat>, lgK: nat, i: nat)
    requires Encodable(pairs, lgK) && i < |pairs|
    ensures 0 <= ColDelta(pairs, i) < 64 && 0 <= RowDelta(pairs, i) < Pow2(lgK)
  {
    if i > 0 {
      assert pairs[i - 1] < pairs[i];
    }
  }

  /** The code of one pair: column delta, high row delta in unary, low row delta verbatim. */
  ghost function PairCode(enc: seq<Code>, base: nat, x: nat, y: nat): seq<bool>
    requires x < |enc|
  {
    Bits(enc[x].value, enc[x].length) + (Zeros(Shr(y, base)) + [true]) + Bits(LowBits(y, base), base)
  }

  /** Every delta has a code. */
  ghost predicate Coded(enc: seq<Code>, pairs: seq<nat>) {
    forall j :: 0 <= j < |pairs| ==> 0 <= ColDelta(pairs, j) < |enc| && 0 <= RowDelta(pairs, j)
  }

  /** The codes of the pairs from i on. */
  ghost function CodesFrom(enc: seq<Code>, base: nat, pairs: seq<nat>, i: nat): seq<bool>
    requires i <= |pairs| && Coded(enc, pairs)
    decreases |pairs| - i
  {
    if i == |pairs| then [] else
      PairCode(enc, base, ColDelta(pairs, i), RowDelta(pairs, i)) + CodesFrom(enc, base, pairs, i + 1)
  }

  /** The padding that lets every 12-bit and 8-bit peek succeed. */
  function PadBits(base: nat): nat {
    if base < 10 then 10 - base else 0
  }

  method EncodePairs(pairs: seq<nat>, lgK: nat, enc: seq<Code>, ghost dec: seq<Symbol>) returns (words: seq<nat>)
    requires lgK <= 26 && Encodable(pairs, lgK) && pairs != []
    requires |enc| == 65 && PrefixCode(enc, dec)
    ensures Coded(enc, pairs) && Encoded(words, enc, lgK, pairs) && PairsWritten(words, enc, lgK, pairs)
  {
    var base := ChooseBaseBits(lgK, |pairs|);
    BaseBitsBound(lgK, |pairs|);
    assert Coded(enc, pairs) by {
      forall j | 0 <= j < |pairs| ensures 0 <= ColDelta(pairs, j) < |enc| && 0 <= RowDelta(pairs, j) {
        DeltasInRange(pairs, lgK, j);
      }
    }
    hide *;
    var bits := new BitWriter();
    WriteAll(bits, pairs, lgK, enc, dec, base);
    ghost var stream := bits.Stream();
    var count := bits.Finish();
    words := bits.words;
    CodedStream(words, stream, enc, lgK, pairs);
  }

  /** The words are the codes of the pairs, padded with zeros for the decoder's peeks and then to a
    * whole word. */
  ghost predicate PairsWritten(words: seq<nat>, enc: seq<Code>, lgK: nat, pairs: seq<nat>)
    requires Coded(enc, pairs)
  {
    exists base: nat, rest :: FitsAverage(Pow2(lgK), |pairs|, base) && Padding(rest, if base < 10 then 10 - base else 0)
      && WordBits(words) == CodesFrom(enc, base, pairs, 0) + rest
  }

  /** As many zeros as the decoder needs, and fewer than 32 more. */
  ghost predicate Padding(rest: seq<bool>, needed: nat) {
    needed <= |rest| < needed + 32 && forall i :: 0 <= i < |rest| ==> !rest[i]
  }

  lemma CodedStream(words: seq<nat>, stream: seq<bool>, enc: seq<Code>, lgK: nat, pairs: seq<nat>)
    requires Coded(enc, pairs) && pairs != [] && AllWords(words)
    requires stream == CodesFrom(enc, BaseBits(lgK, |pairs|), pairs, 0) + Zeros(PadBits(BaseBits(lgK, |pairs|)))
    requires exists n :: 0 <= n < 32 && WordBits(words) == stream + Zeros(n)
    ensures Encoded(words, enc, lgK, pairs) && PairsWritten(words, enc, lgK, pairs)
  {
    hide WordBits, CodesFrom, PairCode, BaseBits, FitsAverage, Coded;
    var n: nat :| 0 <= n < 32 && WordBits(words) == stream + Zeros(n);
    var base := BaseBits(lgK, |pairs|);
    var codes := CodesFrom(enc, base, pairs, 0);
    assert codes + Zeros(PadBits(base)) + Zeros(n) == codes + (Zeros(PadBits(base)) + Zeros(n));
    assert Padding(Zeros(PadBits(base)) + Zeros(n), if base < 10 then 10 - base else 0);
    BaseFits(lgK, |pairs|);
  }

  lemma BaseFits(lgK: nat, n: nat)
    requires n > 0
    ensures FitsAverage(Pow2(lgK), n, BaseBits(lgK, n))
  {
    LogFitsAverage(Pow2(lgK), n, BaseBits(lgK, n));
  }

  method WriteAll(bits: BitWriter, pairs: seq<nat>, lgK: nat, enc: seq<Code>, ghost dec: seq<Symbol>, base: nat)
    requires bits.Valid() && bits.Stream() == [] && base <= 26
    requires Encodable(pairs, lgK) && Coded(enc, pairs) && PrefixCode(enc, dec)
    modifies bits
    ensures bits.Valid() && bits.Stream() == CodesFrom(enc, base, pairs, 0) + Zeros(PadBits(base))
  {
    hide PrefixCode, PairCode, WordBits, Bits, Zeros, LowBits, Shr, Pow2, BitWriter.Stream, BitWriter.Valid;
    ghost var whole := CodesFrom(enc, base, pairs, 0);
    var predictedRow, predictedCol := 0, 0;
    for i := 0 to |pairs|
      invariant bits.Valid() && bits.Stream() + CodesFrom(enc, base, pairs, i) == whole
      invariant predictedRow == PredictedRow(pairs, i)
      invariant predictedCol == if i == 0 then 0 else pairs[i - 1] % 64 + 1
    {
      var row, col := pairs[i] / 64, pairs[i] % 64;
      if row != predictedRow {
        predictedCol := 0;
      }
      DeltasInRange(pairs, lgK, i);
      assert row >= predictedRow && col >= predictedCol;
      WriteNext(bits, pairs, enc, dec, base, i, col - predictedCol, row - predictedRow);
      predictedRow, predictedCol := row, col + 1;
    }
    bits.Pad(PadBits(base));
  }

  method WriteNext(bits: BitWriter, ghost pairs: seq<nat>, enc: seq<Code>, ghost dec: seq<Symbol>, base: nat, ghost i: nat, x: nat, y: nat)
    requires bits.Valid() && base <= 26 && i < |pairs| && Coded(enc, pairs) && PrefixCode(enc, dec)
    requires x == ColDelta(pairs, i) && y == RowDelta(pairs, i)
    modifies bits
    ensures bits.Valid()
    ensures bits.Stream() + CodesFrom(enc, base, pairs, i + 1) == old(bits.Stream()) + CodesFrom(enc, base, pairs, i)
  {
    hide PrefixCode, PairCode, WordBits, Bits, Zeros, LowBits, Shr, Pow2, BitWriter.Stream, BitWriter.Valid;
    WritePair(bits, enc, dec, base, x, y);
    var before, code, after := old(bits.Stream()), PairCode(enc, base, x, y), CodesFrom(enc, base, pairs, i + 1);
    assert before + code + after == before + (code + after);
  }

  method WritePair(bits: BitWriter, enc: seq<Code>, ghost dec: seq<Symbol>, base: nat, x: nat, y: nat)
    requires bits.Valid() && PrefixCode(enc, dec) && x < |enc| && base <= 32
    modifies bits
    ensures bits.Valid() && bits.Stream() == old(bits.Stream()) + PairCode(enc, base, x, y)
  {
    hide *;
    CodeFits(enc, dec, base, x, y);
    bits.Write(enc[x].value, enc[x].length);
    bits.WriteUnary(Shr(y, base));
    bits.Write(LowBits(y, base), base);
    CodeSpelled(old(bits.Stream()), enc, base, x, y);
  }

  lemma CodeFits(enc: seq<Code>, dec: seq<Symbol>, base: nat, x: nat, y: nat)
    requires PrefixCode(enc, dec) && x < |enc|
    ensures 1 <= enc[x].length <= 12 && enc[x].value < Pow2(enc[x].length) && LowBits(y, base) < Pow2(base)
  {
    hide Pow2, LowBits;
    assert Recognised(enc[x], dec, x);
    LowBitsBound(y, base);
  }

  lemma CodeSpelled(s: seq<bool>, enc: seq<Code>, base: nat, x: nat, y: nat)
    requires x < |enc|
    ensures s + Bits(enc[x].value, enc[x].length) + Zeros(Shr(y, base)) + [true] + Bits(LowBits(y, base), base)
         == s + PairCode(enc, base, x, y)
  {
    hide Bits, Zeros, Shr, LowBits;
    var a, z, b := Bits(enc[x].value, enc[x].length), Zeros(Shr(y, base)), Bits(LowBits(y, base), base);
    assert s + a + z + [true] + b == s + (a + (z + [true]) + b);
  }

  /** A stream that starts with the padded codes of the pairs. */
  ghost predicate Encoded(words: seq<nat>, enc: seq<Code>, lgK: nat, pairs: seq<nat>)
    requires Coded(enc, pairs)
  {
    && pairs != []
    && AllWords(words)
    && exists tail :: WordBits(words) == CodesFrom(enc, BaseBits(lgK, |pairs|), pairs, 0) + tail
         && |tail| >= PadBits(BaseBits(lgK, |pairs|))
  }

  /** Decodes n pairs, or fails on a stream that is truncated or names a pair out of range. A
    * stream that starts with the padded codes of `pairs` gives back those pairs. */
  method DecodePairs(words: seq<nat>, n: nat, lgK: nat, enc: seq<Code>, dec: seq<Symbol>, ghost pairs: seq<nat>)
    returns (result: Option<seq<nat>>)
    requires lgK <= 26 && AllWords(words) && |enc| == 65 && PrefixCode(enc, dec)
    ensures result.Some? ==> |result.value| == n
    ensures result.Some? ==> InSpace(result.value, lgK)
    ensures n == |pairs| && Encodable(pairs, lgK) && Coded(enc, pairs) && Encoded(words, enc, lgK, pairs) ==> result == Some(pairs)
  {
    if n == 0 {
      return Some([]);
    }
    var base := ChooseBaseBits(lgK, n);
    BaseBitsBound(lgK, n);
    var bits := new BitReader(words);
    ghost var wanted := n == |pairs| && Encodable(pairs, lgK) && Coded(enc, pairs) && Encoded(words, enc, lgK, pairs);
    ghost var tail: seq<bool> := [];
    if wanted {
      tail :| WordBits(words) == CodesFrom(enc, base, pairs, 0) + tail && |tail| >= PadBits(base);
    }
    result := DecodeAll(bits, n, lgK, enc, dec, base, wanted, pairs, tail);
    assert wanted ==> pairs[..n] == pairs;
  }

  method DecodeAll(bits: BitReader, n: nat, lgK: nat, ghost enc: seq<Code>, dec: seq<Symbol>, base: nat,
                   ghost wanted: bool, ghost pairs: seq<nat>, ghost tail: seq<bool>)
    returns (result: Option<seq<nat>>)
    requires bits.Valid() && lgK <= 26 && base <= 26 && PrefixCode(enc, dec)
    requires wanted ==> n == |pairs| && Encodable(pairs, lgK) && Coded(enc, pairs) && |tail| >= PadBits(base)
    requires wanted ==> bits.Rest() == CodesFrom(enc, base, pairs, 0) + tail
    modifies bits
    ensures result.Some? ==> |result.value| == n && InSpace(result.value, lgK)
    ensures wanted ==> result == Some(pairs[..n])
  {
    hide CodesFrom, PrefixCode, Coded, Encodable, BitReader.Valid, BitReader.Rest, InSpace, ColDelta, RowDelta;
    var decoded: seq<nat> := [];
    var predictedRow, predictedCol := 0, 0;
    NothingDecoded(lgK);
    while |decoded| < n
      invariant bits.Valid() && |decoded| <= n && InSpace(decoded, lgK)
      invariant predictedRow == PredictedRow(decoded, |decoded|)
      invariant predictedCol == if decoded == [] then 0 else decoded[|decoded| - 1] % 64 + 1
      invariant wanted ==> decoded == pairs[..|decoded|] && bits.Rest() == CodesFrom(enc, base, pairs, |decoded|) + tail
    {
      ghost var i := |decoded|;
      var delta := ReadPair(bits, enc, dec, base, lgK, wanted, pairs, i, tail);
      if delta.None? {
        return None;
      }
      var (x, y) := delta.value;
      var col := (if y > 0 then 0 else predictedCol) + x;
      var row := predictedRow + y;
      if wanted {
        PairRestored(pairs, lgK, i, predictedRow, predictedCol, x, y);
      }
      if row >= Pow2(lgK) || col >= 64 || 64 * row + col == EMPTY {
        return None;
      }
      SpaceGrows(decoded, lgK, row, col);
      decoded := decoded + [64 * row + col];
      predictedRow, predictedCol := row, col + 1;
    }
    return Some(decoded);
  }

  /** Pairs within the coupon space. */
  ghost predicate InSpace(pairs: seq<nat>, lgK: nat) {
    forall i :: 0 <= i < |pairs| ==> pairs[i] < 64 * Pow2(lgK) && pairs[i] != EMPTY
  }

  lemma NothingDecoded(lgK: nat)
    ensures InSpace([], lgK)
  {
  }

  lemma SpaceGrows(pairs: seq<nat>, lgK: nat, row: nat, col: nat)
    requires InSpace(pairs, lgK) && row < Pow2(lgK) && col < 64 && 64 * row + col != EMPTY
    ensures InSpace(pairs + [64 * row + col], lgK)
  {
  }

  /** The deltas of a pair, on top of its predictions, give back the pair. */
  lemma PairRestored(pairs: seq<nat>, lgK: nat, i: nat, predictedRow: nat, predictedCol: nat, x: nat, y: nat)
    requires Encodable(pairs, lgK) && i < |pairs|
    requires predictedRow == PredictedRow(pairs[..i], i)
    requires predictedCol == if i == 0 then 0 else pairs[i - 1] % 64 + 1
    requires x == ColDelta(pairs, i) && y == RowDelta(pairs, i)
    ensures var col := (if y > 0 then 0 else predictedCol) + x;
      var row := predictedRow + y;
      && row < Pow2(lgK) && col < 64 && 64 * row + col == pairs[i] && pairs[i] != EMPTY
      && pairs[..i] + [pairs[i]] == pairs[..i + 1]
  {
    DeltasInRange(pairs, lgK, i);
  }

  /** Reads the column and row deltas of one pair. */
  method ReadPair(bits: BitReader, ghost enc: seq<Code>, dec: seq<Symbol>, base: nat, ghost lgK: nat,
                  ghost wanted: bool, ghost pairs: seq<nat>, ghost i: nat, ghost tail: seq<bool>)
    returns (delta: Option<(nat, nat)>)
    requires bits.Valid() && base <= 26 && PrefixCode(enc, dec)
    requires wanted ==> i < |pairs| && lgK <= 26 && Encodable(pairs, lgK) && Coded(enc, pairs) && |tail| >= PadBits(base)
    requires wanted ==> bits.Rest() == CodesFrom(enc, base, pairs, i) + tail
    modifies bits
    ensures bits.Valid()
    ensures wanted ==>
      delta == Some((ColDelta(pairs, i), RowDelta(pairs, i))) && bits.Rest() == CodesFrom(enc, base, pairs, i + 1) + tail
  {
    assert forall w :: 0 <= w < 4096 ==> dec[w].length <= 12;
    hide *;
    ghost var x: nat, y: nat, after := 0, 0, [];
    if wanted {
      x, y, after := PairAhead(enc, dec, base, lgK, pairs, i, tail);
    }
    var col := ReadSymbol(bits, dec, wanted, if wanted then enc[x].length else 0, x);
    if col.None? {
      return None;
    }
    var row := ReadRowDelta(bits, base, wanted, Shr(y, base), y, after);
    return if row.Some? then Some((col.value, row.value)) else None;
  }

  method ReadSymbol(bits: BitReader, dec: seq<Symbol>, ghost wanted: bool, ghost len: nat, ghost x: nat)
    returns (symbol: Option<nat>)
    requires bits.Valid() && |dec| == 4096 && forall w :: 0 <= w < 4096 ==> dec[w].length <= 12
    requires wanted ==> len <= 12 <= |bits.Rest()|
    requires wanted ==> var w := Value(bits.Rest()[..12]); w < 4096 && dec[w] == Symbol(len, x)
    modifies bits
    ensures bits.Valid()
    ensures wanted ==> symbol == Some(x) && bits.Rest() == old(bits.Rest())[len..]
  {
    hide *;
    var peek12 := bits.Peek(12);
    if peek12.None? {
      return None;
    }
    PeekInTable(bits.Rest());
    var lookup := dec[peek12.value];
    bits.Consume(lookup.length);
    return Some(lookup.symbol);
  }

  method ReadRowDelta(bits: BitReader, base: nat, ghost wanted: bool, ghost h: nat, ghost y: nat, ghost after: seq<bool>)
    returns (delta: Option<nat>)
    requires bits.Valid() && base <= 26
    requires wanted ==> Unary(bits.Rest(), h) && h + 8 <= |bits.Rest()| && base <= |bits.Rest()[h + 1..]|
    requires wanted ==> var rest := bits.Rest()[h + 1..];
      OrAbove(Value(rest[..base]), h, base) == y < Pow2(32) && rest[base..] == after
    modifies bits
    ensures bits.Valid()
    ensures wanted ==> delta == Some(y) && bits.Rest() == after
  {
    hide *;
    var high := bits.ReadUnary();
    if high.None? {
      return None;
    }
    var low := bits.Read(base);
    if low.None? {
      return None;
    }
    var rowDelta := OrAbove(low.value, high.value, base);
    return if rowDelta < Pow2(32) then Some(rowDelta) else None;
  }

  lemma PairAhead(enc: seq<Code>, dec: seq<Symbol>, base: nat, lgK: nat, pairs: seq<nat>, i: nat, tail: seq<bool>)
    returns (x: nat, y: nat, after: seq<bool>)
    requires PrefixCode(enc, dec) && i < |pairs| && lgK <= 26 && base <= 26 && Encodable(pairs, lgK) && Coded(enc, pairs)
    requires |tail| >= PadBits(base)
    ensures x == ColDelta(pairs, i) && y == RowDelta(pairs, i) && x < |enc| && y < Pow2(32)
    ensures after == CodesFrom(enc, base, pairs, i + 1) + tail
    ensures var rest, len, h := CodesFrom(enc, base, pairs, i) + tail, enc[x].length, Shr(y, base);
      && len <= 12 <= |rest| && Value(rest[..12]) < 4096 && dec[Value(rest[..12])] == Symbol(len, x)
      && Unary(rest[len..], h) && h + 8 <= |rest[len..]|
      && base <= |rest[len..][h + 1..]| && OrAbove(Value(rest[len..][h + 1..][..base]), h, base) == y
      && rest[len..][h + 1..][base..] == after
  {
    DeltasInRange(pairs, lgK, i);
    Monotone(lgK, 32);
    x, y, after := ColDelta(pairs, i), RowDelta(pairs, i), CodesFrom(enc, base, pairs, i + 1) + tail;
    assert CodesFrom(enc, base, pairs, i) + tail == PairCode(enc, base, x, y) + after;
    hide PairCode, Bits, Zeros, Unary, Encodable, Coded;
    PairFront(enc, dec, base, x, y, after);
  }

  /** What each of the three reads of a pair finds at the front of its code. */
  lemma PairFront(enc: seq<Code>, dec: seq<Symbol>, base: nat, x: nat, y: nat, after: seq<bool>)
    requires PrefixCode(enc, dec) && x < |enc| && base <= 26 && |after| >= PadBits(base)
    ensures var rest, len, h := PairCode(enc, base, x, y) + after, enc[x].length, Shr(y, base);
      && len <= 12 <= |rest| && Value(rest[..12]) < 4096 && dec[Value(rest[..12])] == Symbol(len, x)
      && Unary(rest[len..], h) && h + 8 <= |rest[len..]|
      && base <= |rest[len..][h + 1..]| && Value(rest[len..][h + 1..][..base]) == LowBits(y, base)
      && rest[len..][h + 1..][base..] == after
    ensures OrAbove(LowBits(y, base), Shr(y, base), base) == y
  {
    assert Recognised(enc[x], dec, x);
    var rest, len, h := PairCode(enc, base, x, y) + after, enc[x].length, Shr(y, base);
    var code, low := Bits(enc[x].value, len), Bits(LowBits(y, base), base);
    assert rest[len..] == Zeros(h) + [true] + (low + after);
    assert rest[len..][h + 1..] == low + after;
    assert (low + after)[..base] == low && (low + after)[base..] == after;
    UnaryFront(h, low + after);
    SplitBits(y, base);
    BitsMasked(y, base);
    ValueOfBits(y, base);
    FrontSymbol(enc, dec, x, rest);
  }

  lemma FrontSymbol(enc: seq<Code>, dec: seq<Symbol>, x: nat, rest: seq<bool>)
    requires PrefixCode(enc, dec) && x < |enc| && 12 <= |rest| && enc[x].length <= |rest|
    requires rest[..enc[x].length] == Bits(enc[x].value, enc[x].length)
    ensures Value(rest[..12]) < 4096 && dec[Value(rest[..12])] == Symbol(enc[x].length, x)
  {
    var len, w := enc[x].length, Value(rest[..12]);
    assert Recognised(enc[x], dec, x);
    PeekInTable(rest);
    LowBitsOfPrefix(rest[..12], len);
    assert rest[..12][..len] == rest[..len];
    ValueOfBits(enc[x].value, len);
    LowBitsBound(enc[x].value, len);
  }

  lemma PeekInTable(rest: seq<bool>)
    requires 12 <= |rest|
    ensures Value(rest[..12]) < 4096
  {
    BitsOfValue(rest[..12]);
    assert Pow2(12) == 4096 by { Add(8, 4); assert Pow2(8) == 256 && Pow2(4) == 16; }
  }

  /** Decoding undoes encoding. */
  method RoundTrip(pairs: seq<nat>, lgK: nat, enc: seq<Code>, dec: seq<Symbol>) returns (result: Option<seq<nat>>)
    requires lgK <= 26 && Encodable(pairs, lgK) && pairs != []
    requires |enc| == 65 && PrefixCode(enc, dec)
    ensures result == Some(pairs)
  {
    var words := EncodePairs(pairs, lgK, enc, dec);
    hide *;
    EncodedWords(words, enc, lgK, pairs);
    result := DecodePairs(words, |pairs|, lgK, enc, dec, pairs);
  }

  lemma EncodedWords(words: seq<nat>, enc: seq<Code>, lgK: nat, pairs: seq<nat>)
    requires Coded(enc, pairs) && Encoded(words, enc, lgK, pairs)
    ensures AllWords(words)
  {
  }

  // ------------------------------------------------------------- window

  /** Which code table and permutation belong to c coupons: below 2.275 K the mid-range table of the
    * thresholds passed, up to 2.375 K table 6, and from there the whole sixteenths of K in c, less
    * whole multiples of K. */
  ghost predicate PhaseOf(lgK: nat, c: nat, phase: nat) {
    var k := Pow2(lgK);
    if 1000 * c < 2275 * k then phase == 16 + Reached(3 * k, 4 * c) + Reached(11 * k, 10 * c) + Reached(132 * k, 100 * c)
                                            + Reached(5 * k, 3 * c) + Reached(1965 * k, 1000 * c)
    else if 1000 * c < 2375 * k then phase == 6
    else phase == 16 * c / k % 16
  }

  ghost function Reached(threshold: nat, x: nat): nat {
    if x >= threshold then 1 else 0
  }

  lemma PhaseIs(lgK: nat, c: nat, phase: nat)
    requires 4 <= lgK
    ensures phase == DeterminePseudoPhase(lgK, c) <==> PhaseOf(lgK, c, phase)
  {
    Sixteenths(lgK, c);
    hide Pow2, Shr, LowBits;
  }

  lemma Sixteenths(lgK: nat, c: nat)
    requires 4 <= lgK
    ensures LowBits(Shr(c, lgK - 4), 4) == 16 * c / Pow2(lgK) % 16
  {
    hide Pow2, Shr, LowBits;
    var x := Shr(c, lgK - 4);
    ShrIsDivision(c, lgK - 4);
    Add(4, lgK - 4);
    SixteenIs();
    ScaledUp(c, Pow2(lgK - 4), x);
    QuotientIs(16 * c, Pow2(lgK), x);
    SplitBits(x, 4);
    LowBitsBound(x, 4);
    Remainder16(x, Shr(x, 4), LowBits(x, 4));
  }

  lemma SixteenIs()
    ensures Pow2(4) == 16
  {
  }

  lemma ScaledUp(c: nat, p: nat, x: nat)
    requires x * p <= c < (x + 1) * p
    ensures x * (16 * p) <= 16 * c < (x + 1) * (16 * p)
  {
    assert x * (16 * p) == 16 * (x * p) && (x + 1) * (16 * p) == 16 * ((x + 1) * p);
  }

  lemma Remainder16(x: nat, q: nat, r: nat)
    requires x == q * 16 + r && r < 16
    ensures x % 16 == r
  {
  }

  /** The table selector: a mid-range pseudo-phase, or the true phase in steady state. */
  function DeterminePseudoPhase(lgK: nat, c: nat): (phase: nat)
    requires 4 <= lgK
    ensures phase < 22
    ensures 8 * c >= 27 * Pow2(lgK) ==> phase < 16
  {
    var k := Pow2(lgK);
    LowBitsBound(Shr(c, lgK - 4), 4);
    assert Pow2(4) == 16;
    if 1000 * c < 2375 * k then
      if 4 * c < 3 * k then 16
      else if 10 * c < 11 * k then 17
      else if 100 * c < 132 * k then 18
      else if 3 * c < 5 * k then 19
      else if 1000 * c < 1965 * k then 20
      else if 1000 * c < 2275 * k then 21
      else 6
    else
      LowBits(Shr(c, lgK - 4), 4)
  }

  /** The codes of the window bytes from i on. */
  ghost function BytesFrom(enc: seq<Code>, window: seq<nat>, i: nat): seq<bool>
    requires i <= |window| && forall j :: 0 <= j < |window| ==> window[j] < |enc|
    decreases |window| - i
  {
    if i == |window| then [] else
      Bits(enc[window[i]].value, enc[window[i]].length) + BytesFrom(enc, window, i + 1)
  }

  ghost predicate WindowEncoded(words: seq<nat>, enc: seq<Code>, window: seq<nat>) {
    && (forall j :: 0 <= j < |window| ==> window[j] < |enc|)
    && AllWords(words)
    && exists tail :: WordBits(words) == BytesFrom(enc, window, 0) + tail && |tail| >= 11
  }

  /** The words are the codes of the window bytes and eleven zeros, padded to a whole word. */
  ghost predicate WindowWritten(words: seq<nat>, enc: seq<Code>, window: seq<nat>) {
    && (forall j :: 0 <= j < |window| ==> window[j] < |enc|)
    && exists rest :: Padding(rest, 11) && WordBits(words) == BytesFrom(enc, window, 0) + rest
  }

  method EncodeWindow(window: seq<nat>, enc: seq<Code>, ghost dec: seq<Symbol>) returns (words: seq<nat>)
    requires PrefixCode(enc, dec) && forall j :: 0 <= j < |window| ==> window[j] < |enc|
    ensures WindowEncoded(words, enc, window) && WindowWritten(words, enc, window)
  {
    var bits := new BitWriter();
    hide BitWriter.Stream, BitWriter.Valid, Bits, WordBits, Zeros;
    for i := 0 to |window|
      invariant fresh(bits) && bits.Valid()
      invariant bits.Stream() + BytesFrom(enc, window, i) == BytesFrom(enc, window, 0)
    {
      var code := enc[window[i]];
      assert Recognised(code, dec, window[i]);
      Monotone(code.length, 32);
      var before, rest := bits.Stream(), BytesFrom(enc, window, i + 1);
      assert before + (Bits(code.value, code.length) + rest) == before + Bits(code.value, code.length) + rest;
      bits.Write(code.value, code.length);
    }
    bits.Pad(11);
    ghost var stream := bits.Stream();
    var count := bits.Finish();
    words := bits.words;
    WindowStream(words, stream, enc, window);
  }

  lemma WindowStream(words: seq<nat>, stream: seq<bool>, enc: seq<Code>, window: seq<nat>)
    requires (forall j :: 0 <= j < |window| ==> window[j] < |enc|) && AllWords(words)
    requires stream == BytesFrom(enc, window, 0) + Zeros(11)
    requires exists n :: 0 <= n < 32 && WordBits(words) == stream + Zeros(n)
    ensures WindowEncoded(words, enc, window) && WindowWritten(words, enc, window)
  {
    hide WordBits, BytesFrom;
    var n: nat :| 0 <= n < 32 && WordBits(words) == stream + Zeros(n);
    assert BytesFrom(enc, window, 0) + Zeros(11) + Zeros(n) == BytesFrom(enc, window, 0) + (Zeros(11) + Zeros(n));
    assert Padding(Zeros(11) + Zeros(n), 11);
  }

  /** Decodes n window bytes; a stream that starts with the padded codes of `window` gives it back. */
  method DecodeWindow(words: seq<nat>, n: nat, dec: seq<Symbol>, ghost enc: seq<Code>, ghost window: seq<nat>)
    returns (result: Option<seq<nat>>)
    requires PrefixCode(enc, dec) && AllWords(words)
    ensures result.Some? ==> |result.value| == n
    ensures n == |window| && WindowEncoded(words, enc, window) ==> result == Some(window)
  {
    var bits := new BitReader(words);
    ghost var wanted := n == |window| && WindowEncoded(words, enc, window);
    ghost var tail: seq<bool> := [];
    if wanted {
      tail :| WordBits(words) == BytesFrom(enc, window, 0) + tail && |tail| >= 11;
    }
    assert forall w :: 0 <= w < 4096 ==> dec[w].length <= 12;
    var decoded: seq<nat> := [];
    while |decoded| < n
      invariant fresh(bits) && bits.Valid() && |decoded| <= n
      invariant wanted ==> decoded == window[..|decoded|] && bits.Rest() == BytesFrom(enc, window, |decoded|) + tail
    {
      ghost var i := |decoded|;
      if wanted {
        ByteAhead(enc, dec, window, i, tail);
      }
      hide *;
      var byte := ReadSymbol(bits, dec, wanted, if wanted then enc[window[i]].length else 0, if wanted then window[i] else 0);
      if byte.None? {
        return None;
      }
      decoded := decoded + [byte.value];
    }
    assert wanted ==> window[..n] == window;
    return Some(decoded);
  }

  lemma Regroup(a: seq<bool>, b: seq<bool>, c: seq<bool>)
    ensures a + b + c == a + (b + c)
    ensures (a + b + c)[..|a|] == a && (a + b + c)[|a|..] == b + c
  {
  }

  lemma ByteAhead(enc: seq<Code>, dec: seq<Symbol>, window: seq<nat>, i: nat, tail: seq<bool>)
    requires PrefixCode(enc, dec) && i < |window| && forall j :: 0 <= j < |window| ==> window[j] < |enc|
    requires |tail| >= 11
    ensures var rest, x := BytesFrom(enc, window, i) + tail, window[i];
      && enc[x].length <= 12 <= |rest| && Value(rest[..12]) < 4096 && dec[Value(rest[..12])] == Symbol(enc[x].length, x)
      && rest[enc[x].length..] == BytesFrom(enc, window, i + 1) + tail
    ensures window[..i] + [window[i]] == window[..i + 1]
  {
    hide *;
    var rest, x := BytesFrom(enc, window, i) + tail, window[i];
    var code, after := Bits(enc[x].value, enc[x].length), BytesFrom(enc, window, i + 1);
    CodeFits(enc, dec, 0, x, 0);
    FirstByte(enc, window, i);
    Regroup(code, after, tail);
    FrontSymbol(enc, dec, x, rest);
  }

  lemma FirstByte(enc: seq<Code>, window: seq<nat>, i: nat)
    requires i < |window| && forall j :: 0 <= j < |window| ==> window[j] < |enc|
    ensures BytesFrom(enc, window, i) == Bits(enc[window[i]].value, enc[window[i]].length) + BytesFrom(enc, window, i + 1)
  {
    hide Bits;
  }
}
