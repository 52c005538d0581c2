/** The packing loop of the two conversion routines (`convertStringToBin`
    and `convertTextToBin` in main.go).

    The per-character step and the final padding are defined once, as
    `Feed` and `Finish`; each conversion keeps its own way of walking the
    input (a range over the string, or `ReadRune` until end of file). The
    output file is the returned byte sequence, appended to wherever main.go
    calls `Write`. */
module Packer {
  import opened Bytes
  import opened BitString
  import opened PackSpec

  /** The 8-bit register and the number of bits it holds. */
  datatype Accumulator = Accumulator(currentByte: byte, bitCount: nat) {
    /** At every rest point at most seven bits are held, and the register
        holds nothing above them, so the next left shift loses nothing. */
    predicate Valid() {
      bitCount <= 7 && currentByte < Pow2(bitCount)
    }
  }

  const Empty := Accumulator(0, 0)

  /** Shift the register left by one and OR in the character's bit, as
      main.go does on a Go byte. While the register is below 128 nothing is
      pushed out of the top. */
  function ShiftIn(currentByte: byte, c: char): (r: byte)
    ensures currentByte < 128 ==> r == 2 * currentByte + BitOf(c)
  {
    assert Pow2(7) == 128;
    var shifted := Shl(currentByte, 1);
    if c == '1' then OrOne(shifted) else shifted
  }

  /** One character of input: skip it unless it is a bit; otherwise shift it
      in at the bottom and, once eight bits are held, emit the byte and start
      over. */
  function Feed(acc: Accumulator, c: char): (r: (Accumulator, seq<byte>))
    requires acc.Valid()
    ensures r.0.Valid()
    ensures !IsBit(c) ==> r == (acc, [])
    ensures IsBit(c) && acc.bitCount < 7 ==>
              r == (Accumulator(2 * acc.currentByte + BitOf(c), acc.bitCount + 1), [])
    ensures IsBit(c) && acc.bitCount == 7 ==>
              r == (Empty, [2 * acc.currentByte + BitOf(c)])
  {
    if !IsBit(c) then (acc, [])
    else
      HeldBelow128(acc);
      var cur := ShiftIn(acc.currentByte, c);
      var count := acc.bitCount + 1;
      if count == 8 then (Empty, [cur]) else (Accumulator(cur, count), [])
  }

  lemma HeldBelow128(acc: Accumulator)
    requires acc.Valid()
    ensures acc.currentByte < 128
    ensures 2 * acc.currentByte + 1 < Pow2(acc.bitCount + 1)
  {
    Pow2Monotone(acc.bitCount, 7);
    assert Pow2(7) == 128;
  }

  /** After the input ends: if one to seven bits are held, shift them to the
      top of the byte, emit it, and report how many zero bits were added;
      otherwise emit nothing and report no padding. */
  function Finish(acc: Accumulator): (r: (seq<byte>, nat))
    requires acc.Valid()
    ensures acc.bitCount == 0 ==> r == ([], 0)
    ensures acc.bitCount > 0 ==>
              && 1 <= r.1 <= 7
              && r.1 + acc.bitCount == 8
              && r.0 == [ShiftUp(acc.currentByte, r.1)]
  {
    if acc.bitCount > 0 then
      var paddingNeeded := 8 - acc.bitCount;
      ([Shl(acc.currentByte, paddingNeeded)], paddingNeeded)
    else
      ([], 0)
  }

  /** The loop's state after consuming meaningful bits `bits`: every whole
      group of eight has been emitted, and the register holds the rest. */
  ghost predicate Represents(acc: Accumulator, out: seq<byte>, bits: seq<Bit>) {
    && acc.Valid()
    && 8 * |out| + acc.bitCount == |bits|
    && out == PackBits(bits[..8 * |out|])
    && acc.currentByte == Value(bits[8 * |out|..])
  }

  lemma EmptyRepresents()
    ensures Represents(Empty, [], [])
  {
  }

  /** Feeding a character keeps the representation, with that character's
      bits appended. */
  lemma FeedPreserves(acc: Accumulator, out: seq<byte>, bits: seq<Bit>, c: char, bits': seq<Bit>)
    requires Represents(acc, out, bits) && bits' == bits + Bits([c])
    ensures Represents(Feed(acc, c).0, out + Feed(acc, c).1, bits')
  {
    if !IsBit(c) {
      FeedSkips(acc, out, bits, c, bits');
    } else if acc.bitCount < 7 {
      FeedHolds(acc, out, bits, c, bits');
    } else {
      FeedFlushes(acc, out, bits, c, bits');
    }
  }

  lemma BitsOfOne(c: char)
    ensures Bits([c]) == if IsBit(c) then [BitOf(c)] else []
  {
    assert [c][..0] == [];
  }

  /** A character that is not a bit leaves everything as it was. */
  lemma FeedSkips(acc: Accumulator, out: seq<byte>, bits: seq<Bit>, c: char, bits': seq<Bit>)
    requires Represents(acc, out, bits) && !IsBit(c) && bits' == bits + Bits([c])
    ensures Represents(Feed(acc, c).0, out + Feed(acc, c).1, bits')
  {
    BitsOfOne(c);
    assert bits' == bits;
    assert out + Feed(acc, c).1 == out;
  }

  /** A bit that does not complete a byte stays in the register. */
  lemma FeedHolds(acc: Accumulator, out: seq<byte>, bits: seq<Bit>, c: char, bits': seq<Bit>)
    requires Represents(acc, out, bits) && IsBit(c) && acc.bitCount < 7 && bits' == bits + Bits([c])
    ensures Represents(Feed(acc, c).0, out + Feed(acc, c).1, bits')
  {
    var b := BitOf(c);
    var start := 8 * |out|;
    assert bits' == bits + [b] by {
      BitsOfOne(c);
    }
    assert out + Feed(acc, c).1 == out;
    assert bits'[..start] == bits[..start];
    assert bits'[start..] == bits[start..] + [b];
    ValueSnoc(bits[start..], b);
  }

  /** The bit that completes a byte empties the register into the output. */
  lemma FeedFlushes(acc: Accumulator, out: seq<byte>, bits: seq<Bit>, c: char, bits': seq<Bit>)
    requires Represents(acc, out, bits) && IsBit(c) && acc.bitCount == 7 && bits' == bits + Bits([c])
    ensures Represents(Feed(acc, c).0, out + Feed(acc, c).1, bits')
  {
    var b := BitOf(c);
    var start := 8 * |out|;
    var x := 2 * acc.currentByte + b;
    assert Feed(acc, c) == (Empty, [x]);
    assert bits' == bits + [b] by {
      BitsOfOne(c);
    }
    assert out == PackBits(bits'[..start]) by {
      assert bits'[..start] == bits[..start];
    }
    assert x == Value(bits'[start..]) by {
      assert bits'[start..] == bits[start..] + [b];
      ValueSnoc(bits[start..], b);
    }
    ByteCompleted(out, bits', x);
  }

  /** Eight held bits whose value is x: emitting x leaves nothing held. */
  lemma ByteCompleted(out: seq<byte>, bits: seq<Bit>, x: byte)
    requires |bits| == 8 * |out| + 8
    requires out == PackBits(bits[..8 * |out|])
    requires x == Value(bits[8 * |out|..])
    ensures Represents(Empty, out + [x], bits)
  {
    var start := 8 * |out|;
    var chunk := bits[start..];
    assert PackBits(bits) == out + [x] by {
      assert bits[..start] + chunk == bits;
      PackBitsAppend(bits[..start], chunk, |out|);
      PackFullChunk(chunk);
    }
    assert bits[..8 * (|out| + 1)] == bits;
    assert bits[8 * (|out| + 1)..] == [];
  }

  /** Finishing emits exactly the bytes still owed. */
  lemma FinishCompletes(acc: Accumulator, out: seq<byte>, bits: seq<Bit>)
    requires Represents(acc, out, bits)
    ensures out + Finish(acc).0 == PackBits(bits)
    ensures Finish(acc).1 == Padding(|bits|)
  {
    var start := 8 * |out|;
    var tail := bits[start..];
    assert PackBits(bits) == out + PackBits(tail) by {
      assert bits == bits[..start] + tail;
      PackBitsAppend(bits[..start], tail, |out|);
    }
    FinishTail(acc, tail);
    FinishPadding(acc, |bits|, |out|);
  }

  /** The final byte is the held bits packed on their own. The proof is
      direct; automatic induction on `tail` is switched off because its
      extra hypotheses only slow the solver down here. */
  lemma {:induction false} FinishTail(acc: Accumulator, tail: seq<Bit>)
    requires acc.Valid() && |tail| == acc.bitCount && acc.currentByte == Value(tail)
    ensures Finish(acc).0 == PackBits(tail)
  {
    if acc.bitCount > 0 {
      var p := 8 - acc.bitCount;
      assert Finish(acc).0 == [ShiftUp(acc.currentByte, p)];
      assert PackBits(tail) == [ShiftUp(acc.currentByte, p)] by {
        PackPartialChunk(tail);
      }
    }
  }

  /** The reported padding is the number of zero bits that complete the
      last byte. */
  lemma FinishPadding(acc: Accumulator, n: nat, q: nat)
    requires acc.Valid() && n == 8 * q + acc.bitCount
    ensures Finish(acc).1 == Padding(n)
  {
    PaddingBlocks(q, acc.bitCount);
  }

  /** One turn of either loop: consuming character i of `s`. */
  lemma StepPreserves(acc: Accumulator, out: seq<byte>, s: seq<char>, i: nat)
    requires i < |s| && Represents(acc, out, Bits(s[..i]))
    ensures Represents(Feed(acc, s[i]).0, out + Feed(acc, s[i]).1, Bits(s[..i + 1]))
  {
    BitsSnoc(s, i);
    FeedPreserves(acc, out, Bits(s[..i]), s[i], Bits(s[..i + 1]));
  }

  /** `convertStringToBin`: range over the string, then pad. Returns the
      bytes written, `totalBytesWritten`, and the padding count reported
      (zero when no padding byte was needed). */
  method ConvertString(bitString: seq<char>)
    returns (out: seq<byte>, totalBytesWritten: nat, paddingNeeded: nat)
    ensures out == Pack(bitString)
    ensures totalBytesWritten == |out|
    ensures paddingNeeded == Padding(|Bits(bitString)|)
    ensures 8 * totalBytesWritten == |Bits(bitString)| + paddingNeeded
  {
    var acc := Empty;
    out, totalBytesWritten := [], 0;
    EmptyRepresents();
    for i := 0 to |bitString|
      invariant Represents(acc, out, Bits(bitString[..i]))
      invariant totalBytesWritten == |out|
    {
      StepPreserves(acc, out, bitString, i);
      var (next, written) := Feed(acc, bitString[i]);
      acc, out := next, out + written;
      totalBytesWritten := totalBytesWritten + |written|;
    }
    assert bitString[..|bitString|] == bitString;
    FinishCompletes(acc, out, Bits(bitString));
    PackLength(Bits(bitString));
    var (last, padding) := Finish(acc);
    out := out + last;
    totalBytesWritten := totalBytesWritten + |last|;
    paddingNeeded := padding;
  }

  /** The two conversions agree: the same characters give the same bytes,
      byte count and padding whether they arrive as an argument or as the
      contents of a file. */
  method BothPathsAgree(s: seq<char>)
    returns (fromString: seq<byte>, fromText: seq<byte>, totalString: nat, totalText: nat,
             paddingString: nat, paddingText: nat)
    ensures fromString == fromText
    ensures totalString == totalText
    ensures paddingString == paddingText
  {
    fromString, totalString, paddingString := ConvertString(s);
    fromText, totalText, paddingText := ConvertText(s);
  }

  /** A buffered reader over the contents of the input file. */
  datatype Reader = Reader(text: seq<char>, pos: nat)

  datatype ReadResult = Eof | Rune(r: char, rest: Reader)

  /** `ReadRune`: the next character and the advanced reader, or end of
      file. */
  function ReadRune(rd: Reader): ReadResult {
    if rd.pos < |rd.text| then Rune(rd.text[rd.pos], Reader(rd.text, rd.pos + 1)) else Eof
  }

  /** Everything a reader yields from its position on, calling `ReadRune`
      until end of file. */
  function ReadAll(rd: Reader): seq<char>
    requires rd.pos <= |rd.text|
    decreases |rd.text| - rd.pos
  {
    match ReadRune(rd)
    case Eof => []
    case Rune(r, rest) => [r] + ReadAll(rest)
  }

  /** Reading until end of file yields every remaining character exactly
      once, in order, and nothing else. */
  lemma {:induction false} ReadAllRest(rd: Reader)
    requires rd.pos <= |rd.text|
    ensures ReadAll(rd) == rd.text[rd.pos..]
    decreases |rd.text| - rd.pos
  {
    if rd.pos < |rd.text| {
      ReadAllRest(Reader(rd.text, rd.pos + 1));
      assert rd.text[rd.pos..] == [rd.text[rd.pos]] + rd.text[rd.pos + 1..];
    }
  }

  /** `convertTextToBin`: read characters until end of file, then pad. */
  method ConvertText(contents: seq<char>)
    returns (out: seq<byte>, totalBytesWritten: nat, paddingNeeded: nat)
    ensures out == Pack(contents)
    ensures totalBytesWritten == |out|
    ensures paddingNeeded == Padding(|Bits(contents)|)
    ensures 8 * totalBytesWritten == |Bits(contents)| + paddingNeeded
  {
    var reader := Reader(contents, 0);
    var acc := Empty;
    out, totalBytesWritten := [], 0;
    EmptyRepresents();
    while true
      invariant reader.text == contents && reader.pos <= |contents|
      invariant Represents(acc, out, Bits(contents[..reader.pos]))
      invariant totalBytesWritten == |out|
      decreases |contents| - reader.pos
    {
      var res := ReadRune(reader);
      if res.Eof? {
        break;
      }
      StepPreserves(acc, out, contents, reader.pos);
      var (next, written) := Feed(acc, res.r);
      acc, out := next, out + written;
      totalBytesWritten := totalBytesWritten + |written|;
      reader := res.rest;
    }
    assert contents[..reader.pos] == contents;
    FinishCompletes(acc, out, Bits(contents));
    PackLength(Bits(contents));
    var (last, padding) := Finish(acc);
    out := out + last;
    totalBytesWritten := totalBytesWritten + |last|;
    paddingNeeded := padding;
  }
}
