/** The functional meaning of packing: split the meaningful bits into chunks
    of eight, read each chunk most significant bit first, and fill the low
    positions of a short last chunk with zeros. Alongside it, the inverse
    direction (a byte back to its eight bits) and the closed form of each
    output byte, both used to pin the packing down. */
module PackSpec {
  import opened Bytes
  import opened BitString

  /** The number a bit sequence spells, most significant bit first. */
  function Value(c: seq<Bit>): (v: nat)
    ensures v < Pow2(|c|)
  {
    if |c| == 0 then 0 else 2 * Value(c[..|c| - 1]) + c[|c| - 1]
  }

  /** The byte a chunk of at most eight bits becomes: the chunk followed by
      8 - |c| zero bits, read most significant bit first. */
  function ChunkByte(c: seq<Bit>): (b: byte)
    requires |c| <= 8
    ensures b == Value(c + Zeros(8 - |c|))
  {
    ChunkFits(c);
    ValueZeros(c, 8 - |c|);
    ShiftUp(Value(c), 8 - |c|)
  }

  lemma ChunkFits(c: seq<Bit>)
    requires |c| <= 8
    ensures ShiftUp(Value(c), 8 - |c|) < 256
  {
    ShiftUpFits(Value(c), 8 - |c|);
  }

  /** Zero bits added to complete the last byte: none when the bit count is
      a multiple of eight, otherwise eight minus the bits left over after
      the whole bytes. */
  function Padding(n: nat): (p: nat)
    ensures p < 8
    decreases n
  {
    if n >= 8 then Padding(n - 8) else if n == 0 then 0 else 8 - n
  }

  /** The padding completes a whole number of bytes, and is zero exactly
      when no partial byte is left. */
  lemma {:induction false} PaddingCompletes(n: nat)
    ensures (n + Padding(n)) % 8 == 0
    ensures Padding(n) == 0 <==> n % 8 == 0
    decreases n
  {
    if n >= 8 {
      PaddingCompletes(n - 8);
      DivModEight(n, n / 8, n % 8);
      DivModEight(n - 8, n / 8 - 1, n % 8);
    } else {
      DivModEight(n, 0, n);
    }
  }

  /** Whole bytes in front do not change the padding. */
  lemma {:induction false} PaddingBlocks(q: nat, r: nat)
    ensures Padding(8 * q + r) == Padding(r)
    decreases q
  {
    if q > 0 {
      PaddingBlocks(q - 1, r);
    }
  }

  lemma PaddingShort(n: nat)
    requires 0 < n < 8
    ensures Padding(n) == 8 - n
  {
  }

  lemma PaddingSkip(n: nat)
    requires n >= 8
    ensures Padding(n - 8) == Padding(n)
  {
  }

  /** The packed bytes of a bit sequence, one per chunk of eight. */
  function PackBits(bits: seq<Bit>): (out: seq<byte>)
    ensures |bits| <= 8 * |out| < |bits| + 8
    decreases |bits|
  {
    if |bits| == 0 then []
    else
      var k := if |bits| < 8 then |bits| else 8;
      [ChunkByte(bits[..k])] + PackBits(bits[k..])
  }

  /** Packing the meaningful bits of a character sequence. */
  function Pack(s: seq<char>): seq<byte> {
    PackBits(Bits(s))
  }

  /** One byte per started group of eight bits: the byte count is the bit
      count rounded up to a multiple of eight, divided by eight, and the
      padding is exactly the round-up. */
  lemma {:induction false} PackLength(bits: seq<Bit>)
    ensures 8 * |PackBits(bits)| == |bits| + Padding(|bits|)
    ensures |PackBits(bits)| == (|bits| + 7) / 8
  {
    var n, q := |bits|, |PackBits(bits)|;
    if n == 8 * q {
      PaddingBlocks(q, 0);
      DivModEight(n + 7, q, 7);
    } else {
      var r := n - 8 * (q - 1);
      PaddingBlocks(q - 1, r);
      DivModEight(n + 7, q, r - 1);
    }
  }

  /** Division by eight, stated for the quotient and remainder at hand. */
  lemma DivModEight(n: nat, q: nat, r: nat)
    requires n == 8 * q + r && r < 8
    ensures n / 8 == q && n % 8 == r
  {
  }

  /** Packing distributes over a split after q whole bytes. */
  lemma {:induction false} PackBitsAppend(a: seq<Bit>, b: seq<Bit>, q: nat)
    requires |a| == 8 * q
    ensures PackBits(a + b) == PackBits(a) + PackBits(b)
    decreases q
  {
    if q == 0 {
      assert a + b == b;
    } else {
      assert (a + b)[..8] == a[..8];
      assert (a + b)[8..] == a[8..] + b;
      PackBitsAppend(a[8..], b, q - 1);
    }
  }

  /** Shifting one more bit in at the bottom doubles the value and adds the
      bit. */
  lemma ValueSnoc(c: seq<Bit>, b: Bit)
    ensures Value(c + [b]) == 2 * Value(c) + b
  {
    assert (c + [b])[..|c|] == c;
  }

  /** A sequence of eight or more bits starts with the byte of its first
      eight. */
  lemma PackBitsFirst(bits: seq<Bit>)
    requires |bits| >= 8
    ensures PackBits(bits) == [ChunkByte(bits[..8])] + PackBits(bits[8..])
  {
  }

  /** Eight bits make exactly one byte, their value. */
  lemma PackFullChunk(c: seq<Bit>)
    requires |c| == 8
    ensures PackBits(c) == [Value(c)]
  {
    assert c[..8] == c;
    assert c[8..] == [];
  }

  /** One to seven bits make exactly one byte, their value shifted into the
      high positions. */
  lemma {:induction false} PackPartialChunk(c: seq<Bit>)
    requires 0 < |c| < 8
    ensures PackBits(c) == [ChunkByte(c)]
    ensures PackBits(c) == [ShiftUp(Value(c), 8 - |c|)]
  {
    assert c[..|c|] == c;
    assert c[|c|..] == [];
  }

  // ---------------------------------------------------------------------
  // Closed form of each output byte

  /** Bit i of the sequence, or a padding zero past its end. */
  function PaddedBit(bits: seq<Bit>, i: nat): Bit {
    if i < |bits| then bits[i] else 0
  }

  /** The sum over j < m of bit[base + j] * 2^(7 - j). */
  function WeightedSum(bits: seq<Bit>, base: nat, m: nat): nat
    requires m <= 8
  {
    if m == 0 then 0
    else WeightedSum(bits, base, m - 1) + ShiftUp(PaddedBit(bits, base + m - 1), 8 - m)
  }

  /** Byte k packs bits 8k .. 8k+7 most significant first, reading zero past
      the last meaningful bit. */
  lemma ClosedForm(bits: seq<Bit>, k: nat)
    requires k < |PackBits(bits)|
    ensures PackBits(bits)[k] == WeightedSum(bits, 8 * k, 8)
  {
    var c := ChunkAt(bits, k);
    PackBitsChunk(bits, k);
    WeightedSumPrefix(bits, 8 * k, c, 8);
    assert (if 8 < |c| then 8 else |c|) == |c|;
    assert c[..|c|] == c;
  }

  /** The bits of chunk k: at most eight, starting at 8k. */
  function ChunkAt(bits: seq<Bit>, k: nat): (c: seq<Bit>)
    requires 8 * k < |bits|
    ensures 0 < |c| <= 8
  {
    if |bits| - 8 * k < 8 then bits[8 * k..] else bits[8 * k..8 * k + 8]
  }

  lemma {:induction false} PackBitsChunk(bits: seq<Bit>, k: nat)
    requires k < |PackBits(bits)|
    ensures 8 * k < |bits|
    ensures PackBits(bits)[k] == ChunkByte(ChunkAt(bits, k))
    decreases k
  {
    if |bits| < 8 {
      assert k == 0 && ChunkAt(bits, 0) == bits;
      PackPartialChunk(bits);
    } else if k == 0 {
      assert ChunkAt(bits, 0) == bits[..8];
      PackBitsFirst(bits);
    } else {
      var rest := bits[8..];
      PackBitsSkipChunk(bits, k);
      assert PackBits(rest)[k - 1] == ChunkByte(ChunkAt(rest, k - 1)) by {
        PackBitsChunk(rest, k - 1);
      }
      ChunkAtSkip(bits, k);
    }
  }

  lemma PackBitsSkipChunk(bits: seq<Bit>, k: nat)
    requires |bits| >= 8 && 0 < k < |PackBits(bits)|
    ensures k - 1 < |PackBits(bits[8..])|
    ensures PackBits(bits)[k] == PackBits(bits[8..])[k - 1]
  {
  }

  lemma ChunkAtSkip(bits: seq<Bit>, k: nat)
    requires |bits| >= 8 && 0 < k && 8 * k < |bits|
    ensures ChunkAt(bits[8..], k - 1) == ChunkAt(bits, k)
  {
    assert 8 * (k - 1) + 8 == 8 * k;
  }

  /** The first m terms of the weighted sum spell the first m bits of the
      chunk, shifted up to the top of the byte. */
  lemma {:induction false} WeightedSumPrefix(bits: seq<Bit>, base: nat, c: seq<Bit>, m: nat)
    requires m <= 8 && |c| <= 8
    requires base + |c| <= |bits|
    requires |c| == 8 || base + |c| == |bits|
    requires c == bits[base..base + |c|]
    ensures var q := if m < |c| then m else |c|;
            WeightedSum(bits, base, m) == ShiftUp(Value(c[..q]), 8 - q)
    decreases m
  {
    if m == 0 {
      assert c[..0] == [];
      ShiftUpZero(8);
    } else {
      WeightedSumPrefix(bits, base, c, m - 1);
      if m <= |c| {
        WeightedSumBit(bits, base, c, m);
      } else {
        assert PaddedBit(bits, base + m - 1) == 0;
        ShiftUpZero(8 - m);
      }
    }
  }

  lemma WeightedSumBit(bits: seq<Bit>, base: nat, c: seq<Bit>, m: nat)
    requires 0 < m <= |c| <= 8
    requires base + |c| <= |bits|
    requires c == bits[base..base + |c|]
    requires WeightedSum(bits, base, m - 1) == ShiftUp(Value(c[..m - 1]), 9 - m)
    ensures WeightedSum(bits, base, m) == ShiftUp(Value(c[..m]), 8 - m)
  {
    var q := m - 1;
    assert c[..m][..q] == c[..q];
    assert PaddedBit(bits, base + q) == c[q];
    ShiftUpAdd(Value(c[..q]), Value(c[..q]), 8 - m);
    ShiftUpAdd(2 * Value(c[..q]), c[q], 8 - m);
  }

  /** Read back bit by bit, byte k is chunk k followed by its padding. */
  lemma ByteHoldsChunk(bits: seq<Bit>, k: nat)
    requires k < |PackBits(bits)|
    ensures 8 * k < |bits|
    ensures ByteBits(PackBits(bits)[k]) == ChunkAt(bits, k) + Zeros(8 - |ChunkAt(bits, k)|)
  {
    PackBitsChunk(bits, k);
    ChunkRoundTrip(ChunkAt(bits, k));
  }

  /** When the bit count is 8q + r with r in 1..7, there are q + 1 bytes and
      the last one holds the last r bits in its high positions and zeros in
      the 8 - r below them. */
  lemma LastBytePadded(bits: seq<Bit>, q: nat, r: nat)
    requires |bits| == 8 * q + r && 0 < r < 8
    ensures |PackBits(bits)| == q + 1
    ensures ByteBits(PackBits(bits)[q]) == bits[8 * q..] + Zeros(8 - r)
  {
    var out := PackBits(bits);
    assert |out| == q + 1 by {
      assert 8 * q + r <= 8 * |out| < 8 * q + r + 8;
    }
    ByteHoldsChunk(bits, q);
    assert ChunkAt(bits, q) == bits[8 * q..];
  }

  /** When the bit count is 8q with q > 0, there are q bytes and the last
      one is the last eight bits, with no padding. */
  lemma LastByteFull(bits: seq<Bit>, q: nat)
    requires |bits| == 8 * q && q > 0
    ensures |PackBits(bits)| == q
    ensures ByteBits(PackBits(bits)[q - 1]) == bits[8 * q - 8..]
  {
    ByteHoldsChunk(bits, q - 1);
    assert ChunkAt(bits, q - 1) == bits[8 * q - 8..];
    assert bits[8 * q - 8..] + Zeros(0) == bits[8 * q - 8..];
  }

  // ---------------------------------------------------------------------
  // The inverse direction: bytes back to bits

  /** The w low bits of v, most significant first. */
  function BitsOfValue(v: nat, w: nat): (c: seq<Bit>)
    requires v < Pow2(w)
    ensures |c| == w && Value(c) == v
  {
    if w == 0 then []
    else
      HalveBelow(v, w);
      var c := BitsOfValue(v / 2, w - 1) + [v % 2];
      ValueSnoc(BitsOfValue(v / 2, w - 1), v % 2);
      c
  }

  lemma HalveBelow(v: nat, w: nat)
    requires w > 0 && v < Pow2(w)
    ensures v / 2 < Pow2(w - 1)
    ensures 2 * (v / 2) + v % 2 == v
  {
  }

  /** The eight bits of a byte, most significant first. */
  function ByteBits(b: byte): (c: seq<Bit>)
    ensures |c| == 8 && Value(c) == b
  {
    assert Pow2(8) == 256;
    BitsOfValue(b, 8)
  }

  /** Every byte's bits, in order. */
  function Unpack(bytes: seq<byte>): (bits: seq<Bit>)
    ensures |bits| == 8 * |bytes|
  {
    if |bytes| == 0 then [] else ByteBits(bytes[0]) + Unpack(bytes[1..])
  }

  /** A bit sequence is determined by its length and its value. */
  lemma {:induction false} ValueInjective(c: seq<Bit>)
    ensures BitsOfValue(Value(c), |c|) == c
    decreases |c|
  {
    if |c| > 0 {
      var p := c[..|c| - 1];
      ValueInjective(p);
      assert Value(c) / 2 == Value(p);
      assert Value(c) % 2 == c[|c| - 1];
    }
  }

  /** m zero bits. */
  function Zeros(m: nat): (z: seq<Bit>)
    ensures |z| == m
  {
    if m == 0 then [] else Zeros(m - 1) + [0]
  }

  /** Appending m zero bits multiplies the value by 2^m. */
  lemma {:induction false} ValueZeros(c: seq<Bit>, m: nat)
    ensures Value(c + Zeros(m)) == ShiftUp(Value(c), m)
    decreases m
  {
    if m == 0 {
      assert c + Zeros(0) == c;
    } else {
      ValueZeros(c, m - 1);
      var d := c + Zeros(m);
      assert d == (c + Zeros(m - 1)) + [0];
      assert d[..|d| - 1] == c + Zeros(m - 1);
      assert Value(d) == 2 * Value(c + Zeros(m - 1));
    }
  }

  /** Decoding a chunk's byte gives the chunk back followed by its padding. */
  lemma {:induction false} ChunkRoundTrip(c: seq<Bit>)
    requires |c| <= 8
    ensures ByteBits(ChunkByte(c)) == c + Zeros(8 - |c|)
  {
    ValueZeros(c, 8 - |c|);
    ValueInjective(c + Zeros(8 - |c|));
  }

  lemma FullChunkRoundTrip(c: seq<Bit>)
    requires |c| == 8
    ensures ByteBits(ChunkByte(c)) == c
  {
    ChunkRoundTrip(c);
    assert c + Zeros(0) == c;
  }

  /** Unpacking the packed bytes returns the bits followed by exactly the
      padding zeros. */
  lemma {:induction false} UnpackPack(bits: seq<Bit>)
    ensures Unpack(PackBits(bits)) == bits + Zeros(Padding(|bits|))
    decreases |bits|
  {
    if |bits| == 0 {
      assert bits + Zeros(0) == [];
    } else if |bits| < 8 {
      UnpackPackLast(bits);
    } else {
      UnpackPack(bits[8..]);
      UnpackPackFirst(bits);
    }
  }

  lemma {:induction false} UnpackPackLast(bits: seq<Bit>)
    requires 0 < |bits| < 8
    ensures Unpack(PackBits(bits)) == bits + Zeros(Padding(|bits|))
  {
    var b := ChunkByte(bits);
    assert PackBits(bits) == [b] by {
      PackPartialChunk(bits);
    }
    assert Unpack([b]) == ByteBits(b) by {
      UnpackCons(b, []);
      assert ByteBits(b) + [] == ByteBits(b);
    }
    assert ByteBits(b) == bits + Zeros(8 - |bits|) by {
      ChunkRoundTrip(bits);
    }
    PaddingShort(|bits|);
  }

  lemma {:induction false} UnpackPackFirst(bits: seq<Bit>)
    requires |bits| >= 8
    requires Unpack(PackBits(bits[8..])) == bits[8..] + Zeros(Padding(|bits| - 8))
    ensures Unpack(PackBits(bits)) == bits + Zeros(Padding(|bits|))
  {
    var c, rest := bits[..8], bits[8..];
    var b, z := ChunkByte(c), Zeros(Padding(|bits|));
    calc {
      Unpack(PackBits(bits));
      { PackBitsFirst(bits); }
      Unpack([b] + PackBits(rest));
      { UnpackCons(b, PackBits(rest)); }
      ByteBits(b) + Unpack(PackBits(rest));
      { FullChunkRoundTrip(c); PaddingSkip(|bits|); }
      c + (rest + z);
      { SplitAppend(bits, 8, z); }
      bits + z;
    }
  }

  lemma SplitAppend(bits: seq<Bit>, k: nat, z: seq<Bit>)
    requires k <= |bits|
    ensures bits[..k] + (bits[k..] + z) == bits + z
  {
    assert bits[..k] + bits[k..] == bits;
  }

  lemma UnpackCons(b: byte, bytes: seq<byte>)
    ensures Unpack([b] + bytes) == ByteBits(b) + Unpack(bytes)
  {
    assert ([b] + bytes)[1..] == bytes;
  }

  /** Packing the bits of a byte sequence returns the bytes. */
  lemma {:induction false} PackUnpack(bytes: seq<byte>)
    ensures PackBits(Unpack(bytes)) == bytes
    decreases |bytes|
  {
    if |bytes| > 0 {
      var u := Unpack(bytes);
      PackUnpack(bytes[1..]);
      assert u[..8] == ByteBits(bytes[0]);
      assert u[8..] == Unpack(bytes[1..]);
      PackFullChunk(ByteBits(bytes[0]));
    }
  }
}
