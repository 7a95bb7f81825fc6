/** `bits::pack_bits` and `bits::unpack_bits` of `crates/core/src/issuance.rs`: eight
    bits a byte, most significant bit first. */
module BitCodec {
  import opened Machine

  /** `1 << n`. */
  function Pow2(n: nat): nat {
    if n == 0 then 1 else 2 * Pow2(n - 1)
  }

  /** `byte >> n`. */
  function ShiftRight(byte: nat, n: nat): nat {
    if n == 0 then byte else ShiftRight(byte, n - 1) / 2
  }

  /** `byte & (1 << (7 - i)) != 0`. */
  predicate BitOf(byte: nat, i: nat)
    requires i < 8
  {
    ShiftRight(byte, 7 - i) % 2 == 1
  }

  /** `byte | (1 << (7 - i))`. */
  function SetBit(byte: nat, i: nat): nat
    requires i < 8
  {
    if BitOf(byte, i) then byte else byte + Pow2(7 - i)
  }

  function Digit(bits: seq<bool>, i: nat): nat {
    if i < |bits| && bits[i] then 1 else 0
  }

  /** The value of the first `n` bits, the first one heaviest, missing bits zero. */
  function Value(bits: seq<bool>, n: nat): nat {
    if n == 0 then 0 else 2 * Value(bits, n - 1) + Digit(bits, n - 1)
  }

  lemma {:induction false} ValueFits(bits: seq<bool>, n: nat)
    ensures Value(bits, n) < Pow2(n)
  {
    if n > 0 {
      ValueFits(bits, n - 1);
    }
  }

  function ByteOf(bits: seq<bool>): u8 {
    ValueFits(bits, 8);
    assert Pow2(8) == 256 by { assert Pow2(4) == 16; }
    Value(bits, 8)
  }

  lemma {:induction false} ShiftValue(bits: seq<bool>, k: nat)
    requires k <= 8
    ensures ShiftRight(Value(bits, 8), k) == Value(bits, 8 - k)
  {
    if k > 0 {
      ShiftValue(bits, k - 1);
      assert Value(bits, 8 - (k - 1)) == 2 * Value(bits, 8 - k) + Digit(bits, 8 - k);
    }
  }

  /** The byte shows the bits it was made of, and zero where there was none. */
  lemma BitsOfByteOf(bits: seq<bool>, i: nat)
    requires i < 8
    ensures BitOf(ByteOf(bits), i) <==> Digit(bits, i) == 1
  {
    ShiftValue(bits, 7 - i);
    assert Value(bits, i + 1) == 2 * Value(bits, i) + Digit(bits, i);
  }

  lemma {:induction false} ShiftOut(byte: nat, n: nat)
    requires byte < Pow2(n)
    ensures ShiftRight(byte, n) == 0
  {
    if n > 0 {
      ShiftHalf(byte, n - 1);
      ShiftOut(byte / 2, n - 1);
    }
  }

  lemma {:induction false} ShiftHalf(byte: nat, n: nat)
    ensures ShiftRight(byte / 2, n) == ShiftRight(byte, n + 1)
  {
    if n > 0 {
      ShiftHalf(byte, n - 1);
    }
  }

  lemma {:induction false} ValueOfBits(byte: u8, bits: seq<bool>, n: nat)
    requires n <= 8 == |bits| && forall i :: 0 <= i < 8 ==> bits[i] == BitOf(byte, i)
    ensures Value(bits, n) == ShiftRight(byte, 8 - n)
  {
    if n == 0 {
      assert Pow2(8) == 256 by { assert Pow2(4) == 16; }
      ShiftOut(byte, 8);
    } else {
      ValueOfBits(byte, bits, n - 1);
      assert bits[n - 1] == BitOf(byte, n - 1);
    }
  }

  /** The byte made of its own bits is the byte. */
  lemma ByteOfItsBits(byte: u8, bits: seq<bool>)
    requires |bits| == 8 && forall i :: 0 <= i < 8 ==> bits[i] == BitOf(byte, i)
    ensures ByteOf(bits) == byte
  {
    ValueOfBits(byte, bits, 8);
  }

  /** One more bit adds its weight. */
  lemma {:induction false} ValueGrows(chunk: seq<bool>, i: nat, n: nat)
    requires i < |chunk|
    ensures Value(chunk[..i + 1], n)
            == Value(chunk[..i], n) + if chunk[i] && i < n then Pow2(n - i - 1) else 0
  {
    if n > 0 {
      ValueGrows(chunk, i, n - 1);
      if i < n - 1 {
        assert Pow2(n - i - 1) == 2 * Pow2(n - i - 2);
      }
    }
  }

  /** The inner loop of packing: or-ing in the next bit extends the byte by it. */
  lemma AddBit(chunk: seq<bool>, i: nat)
    requires i < |chunk| <= 8
    ensures ByteOf(chunk[..i + 1]) == if chunk[i] then SetBit(ByteOf(chunk[..i]), i) else ByteOf(chunk[..i])
  {
    BitsOfByteOf(chunk[..i], i);
    ValueGrows(chunk, i, 8);
  }

  function PackedLength(n: nat): nat {
    (n + 7) / 8
  }

  function Chunk(bits: seq<bool>, j: nat): seq<bool>
    requires j < PackedLength(|bits|)
  {
    if 8 * j + 8 <= |bits| then bits[8 * j..8 * j + 8] else bits[8 * j..]
  }

  function Packed(bits: seq<bool>): Bytes {
    seq(PackedLength(|bits|), j requires 0 <= j < PackedLength(|bits|) => ByteOf(Chunk(bits, j)))
  }

  function UnpackedLength(bytes: Bytes, bitCount: nat): nat {
    if bitCount <= 8 * |bytes| then bitCount else 8 * |bytes|
  }

  function Unpacked(bytes: Bytes, bitCount: nat): seq<bool> {
    seq(UnpackedLength(bytes, bitCount),
        k requires 0 <= k < UnpackedLength(bytes, bitCount) => BitOf(bytes[k / 8], k % 8))
  }

  method PackBits(bits: seq<bool>) returns (bytes: Bytes)
    ensures bytes == Packed(bits)
  {
    bytes := [];
    while |bytes| < PackedLength(|bits|)
      invariant |bytes| <= PackedLength(|bits|)
      invariant bytes == Packed(bits)[..|bytes|]
    {
      var chunk := Chunk(bits, |bytes|);
      var byte: u8 := 0;
      for i := 0 to |chunk|
        invariant byte == ByteOf(chunk[..i])
      {
        AddBit(chunk, i);
        if chunk[i] {
          byte := SetBit(byte, i);
        }
      }
      assert chunk[..|chunk|] == chunk;
      bytes := bytes + [byte];
    }
  }

  method UnpackBits(bytes: Bytes, bitCount: nat) returns (bits: seq<bool>)
    ensures bits == Unpacked(bytes, bitCount)
  {
    bits := [];
    for j := 0 to |bytes|
      invariant |bits| == UnpackedLength(bytes[..j], bitCount)
      invariant forall k :: 0 <= k < |bits| ==> bits[k] == BitOf(bytes[k / 8], k % 8)
    {
      var i := 0;
      while i < 8 && |bits| < bitCount
        invariant 0 <= i <= 8
        invariant |bits| == if 8 * j + i <= bitCount then 8 * j + i else bitCount
        invariant forall k :: 0 <= k < |bits| ==> bits[k] == BitOf(bytes[k / 8], k % 8)
      {
        bits := bits + [BitOf(bytes[j], i)];
        i := i + 1;
      }
    }
    assert bytes[..|bytes|] == bytes;
  }

  /** Unpacking what was packed gives the bits back, for every length. */
  lemma UnpackUndoesPack(bits: seq<bool>)
    ensures Unpacked(Packed(bits), |bits|) == bits
    ensures |Packed(bits)| == PackedLength(|bits|)
  {
    forall k | 0 <= k < |bits| ensures Unpacked(Packed(bits), |bits|)[k] == bits[k] {
      BitsOfByteOf(Chunk(bits, k / 8), k % 8);
    }
  }

  /** The bits that fill up the last byte are zero. */
  lemma PaddingIsZero(bits: seq<bool>, k: nat)
    requires |bits| <= k < 8 * |Packed(bits)|
    ensures !BitOf(Packed(bits)[k / 8], k % 8)
  {
    BitsOfByteOf(Chunk(bits, k / 8), k % 8);
  }

  /** Packing all bits of some bytes gives the bytes back. */
  lemma PackUndoesUnpack(bytes: Bytes)
    ensures Packed(Unpacked(bytes, 8 * |bytes|)) == bytes
  {
    var bits := Unpacked(bytes, 8 * |bytes|);
    forall j | 0 <= j < |bytes| ensures Packed(bits)[j] == bytes[j] {
      ByteOfItsBits(bytes[j], Chunk(bits, j));
    }
  }
}
