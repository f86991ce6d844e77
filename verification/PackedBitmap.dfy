/**
 The bitmap part of `build_packed_filter_result`: 32-bit words written byte by byte, lowest byte
 first, into a buffer whose length must fit Python's signed size type.
 */
module PackedBitmap {

  const MAX_SIZE: nat := 0x7fff_ffff_ffff_ffff

  /** Byte `k` of a word, lowest first. */
  function Byte(w: bv32, k: nat): bv8
    requires k < 4
  {
    if k == 0 then (w & 0xff) as bv8
    else if k == 1 then ((w >> 8) & 0xff) as bv8
    else if k == 2 then ((w >> 16) & 0xff) as bv8
    else ((w >> 24) & 0xff) as bv8
  }

  function WordOf(b0: bv8, b1: bv8, b2: bv8, b3: bv8): bv32 {
    (b0 as bv32) | ((b1 as bv32) << 8) | ((b2 as bv32) << 16) | ((b3 as bv32) << 24)
  }

  lemma WordOfBytes(w: bv32)
    ensures WordOf(Byte(w, 0), Byte(w, 1), Byte(w, 2), Byte(w, 3)) == w
  {
  }

  /** What a reader of little-endian words makes of the bytes. */
  function Unpack(bytes: seq<bv8>): (words: seq<bv32>)
    requires |bytes| % 4 == 0
    ensures |words| == |bytes| / 4
  {
    if bytes == [] then [] else [WordOf(bytes[0], bytes[1], bytes[2], bytes[3])] + Unpack(bytes[4..])
  }

  predicate Bit(w: bv32, n: nat)
    requires n < 32
  {
    (w >> n) & 1 == 1
  }

  predicate BitOfByte(b: bv8, n: nat)
    requires n < 8
  {
    (b >> n) & 1 == 1
  }

  lemma ByteBit0(w: bv32, j: nat)
    requires j < 8
    ensures BitOfByte(Byte(w, 0), j) == Bit(w, j)
  {
    if j == 0 {} else if j == 1 {} else if j == 2 {} else if j == 3 {}
    else if j == 4 {} else if j == 5 {} else if j == 6 {} else {}
  }

  lemma ByteBit1(w: bv32, j: nat)
    requires j < 8
    ensures BitOfByte(Byte(w, 1), j) == Bit(w, 8 + j)
  {
    if j == 0 {} else if j == 1 {} else if j == 2 {} else if j == 3 {}
    else if j == 4 {} else if j == 5 {} else if j == 6 {} else {}
  }

  lemma ByteBit2(w: bv32, j: nat)
    requires j < 8
    ensures BitOfByte(Byte(w, 2), j) == Bit(w, 16 + j)
  {
    if j == 0 {} else if j == 1 {} else if j == 2 {} else if j == 3 {}
    else if j == 4 {} else if j == 5 {} else if j == 6 {} else {}
  }

  lemma ByteBit3(w: bv32, j: nat)
    requires j < 8
    ensures BitOfByte(Byte(w, 3), j) == Bit(w, 24 + j)
  {
    if j == 0 {} else if j == 1 {} else if j == 2 {} else if j == 3 {}
    else if j == 4 {} else if j == 5 {} else if j == 6 {} else {}
  }

  /** The bytes of the words, lowest byte of each first. */
  ghost predicate Packs(bytes: seq<bv8>, words: seq<bv32>) {
    && |bytes| == 4 * |words|
    && forall i, k | 0 <= i < |words| && 0 <= k < 4 :: bytes[4 * i + k] == Byte(words[i], k)
  }

  datatype Packed = Overflow | Bytes(bytes: array<bv8>)

  /** Refuses a bitmap whose byte length would not fit, and packs every other one. */
  method PackWords(words: seq<bv32>) returns (packed: Packed)
    ensures packed.Overflow? <==> |words| > MAX_SIZE / 4
    ensures packed.Bytes? ==> fresh(packed.bytes) && packed.bytes.Length <= MAX_SIZE && Packs(packed.bytes[..], words)
  {
    if |words| > MAX_SIZE / 4 { return Overflow; }
    var bytes := new bv8[4 * |words|];
    for index := 0 to |words|
      invariant forall i, k | 0 <= i < index && 0 <= k < 4 :: bytes[4 * i + k] == Byte(words[i], k)
    {
      var word := words[index];
      var offset := index * 4;
      bytes[offset] := (word & 0xff) as bv8;
      bytes[offset + 1] := ((word >> 8) & 0xff) as bv8;
      bytes[offset + 2] := ((word >> 16) & 0xff) as bv8;
      bytes[offset + 3] := ((word >> 24) & 0xff) as bv8;
    }
    packed := Bytes(bytes);
  }

  /** Round trip: unpacking the packed bytes gives the words back. */
  lemma {:induction false} UnpackPacked(bytes: seq<bv8>, words: seq<bv32>)
    requires Packs(bytes, words)
    ensures |bytes| % 4 == 0 && Unpack(bytes) == words
    decreases |words|
  {
    if words != [] {
      var w := words[0];
      assert forall k | 0 <= k < 4 :: bytes[4 * 0 + k] == Byte(w, k);
      assert bytes[0] == Byte(w, 0) && bytes[1] == Byte(w, 1) && bytes[2] == Byte(w, 2) && bytes[3] == Byte(w, 3);
      WordOfBytes(w);
      forall i, k | 0 <= i < |words| - 1 && 0 <= k < 4 ensures bytes[4..][4 * i + k] == Byte(words[1..][i], k) {
        assert bytes[4..][4 * i + k] == bytes[4 * (i + 1) + k];
      }
      UnpackPacked(bytes[4..], words[1..]);
    }
  }

  /** Bit n of the byte stream is bit n of the word bitmap. */
  lemma PackedBit(bytes: seq<bv8>, words: seq<bv32>, n: nat)
    requires Packs(bytes, words) && n < 32 * |words|
    ensures BitOfByte(bytes[n / 8], n % 8) == Bit(words[n / 32], n % 32)
  {
    var i, k, j := n / 32, n % 32 / 8, n % 8;
    assert n / 8 == 4 * i + k && n % 32 == 8 * k + j;
    assert bytes[4 * i + k] == Byte(words[i], k);
    if k == 0 { ByteBit0(words[i], j); }
    else if k == 1 { ByteBit1(words[i], j); }
    else if k == 2 { ByteBit2(words[i], j); }
    else { ByteBit3(words[i], j); }
  }
}
