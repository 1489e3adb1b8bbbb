/** boot/kernel/bitmap.c: a bitmap over bytes, and its view as a sequence of bits. */
module Bitmaps {

  // Bit k of a byte is set.
  predicate Bit(b: bv8, k: nat)
    requires k < 8
  {
    b & (1 << k) != 0
  }

  // The byte with bit k set or cleared.
  function WithBit(b: bv8, k: nat, v: bool): bv8
    requires k < 8
  {
    if v then b | (1 << k) else b & !(1 << k)
  }

  lemma WithBitBit(b: bv8, k: nat, v: bool, j: nat)
    requires k < 8 && j < 8
    ensures Bit(WithBit(b, k, v), j) == if j == k then v else Bit(b, j)
  {
    MasksApart(k, j);
    MaskedBit(b, 1 << k, 1 << j, v);
  }

  lemma MasksApart(k: nat, j: nat)
    requires k < 8 && j < 8
    ensures (1 as bv8) << k != 0 && (if j == k then true else ((1 as bv8) << k) & (1 << j) == 0)
  {
  }

  lemma MaskedBit(b: bv8, m: bv8, n: bv8, v: bool)
    requires m != 0 && (m == n || m & n == 0)
    ensures ((if v then b | m else b & !m) & n != 0) == if m == n then v else b & n != 0
  {
  }

  // The first n bits stored in the bytes.
  function BitsOf(bytes: seq<bv8>, n: nat): (bits: seq<bool>)
    requires n <= |bytes| * 8
    ensures |bits| == n
    ensures forall i :: 0 <= i < n ==> bits[i] == Bit(bytes[i / 8], i % 8)
  {
    seq(n, i requires 0 <= i < n => Bit(bytes[i / 8], i % 8))
  }

  lemma BitsOfUpdate(bytes: seq<bv8>, n: nat, index: nat, v: bool)
    requires index < n <= |bytes| * 8
    ensures var b := bytes[index / 8];
            BitsOf(bytes[index / 8 := WithBit(b, index % 8, v)], n) == BitsOf(bytes, n)[index := v]
  {
    var bytes' := bytes[index / 8 := WithBit(bytes[index / 8], index % 8, v)];
    forall i | 0 <= i < n
      ensures BitsOf(bytes', n)[i] == BitsOf(bytes, n)[index := v][i]
    {
      BitOfUpdate(bytes, index, v, i);
    }
  }

  lemma BitOfUpdate(bytes: seq<bv8>, index: nat, v: bool, i: nat)
    requires index / 8 < |bytes| && i / 8 < |bytes|
    ensures var bytes' := bytes[index / 8 := WithBit(bytes[index / 8], index % 8, v)];
            Bit(bytes'[i / 8], i % 8) == if i == index then v else Bit(bytes[i / 8], i % 8)
  {
    SameByte(i, index);
    if i / 8 == index / 8 {
      WithBitBit(bytes[index / 8], index % 8, v, i % 8);
    }
  }

  lemma SameByte(i: nat, j: nat)
    ensures i / 8 == j / 8 && i % 8 == j % 8 <==> i == j
  {
    assert i == i / 8 * 8 + i % 8 && j == j / 8 * 8 + j % 8;
  }

  /** The BITMAP structure. `size` bytes belong to the bitmap, and `buffer` holds them and the byte
      behind them: both bound checks are written with `>`, so index size * 8 passes them and reaches
      buffer[size]. That these are all the bytes there are says that no other byte is reached. */
  class Bitmap {
    var buffer: array<bv8>
    var size: nat

    constructor ()
      ensures Valid() && size == 0 && fresh(buffer)
    {
      buffer := new bv8[1](_ => 0);
      size := 0;
    }

    ghost predicate Valid()
      reads this
    {
      buffer.Length == size + 1
    }

    // Every bit that get_bitmap can see, including bit size * 8.
    ghost function Bits(): (bits: seq<bool>)
      requires Valid()
      reads this, buffer
      ensures |bits| == size * 8 + 1
    {
      BitsOf(buffer[..], size * 8 + 1)
    }

    method Get(index: nat) returns (r: bool)
      requires Valid()
      ensures r == (index < |Bits()| && Bits()[index])
    {
      if index > size * 8 {
        return false;
      }
      var byteIndex, bitIndex := index / 8, index % 8;
      r := Bit(buffer[byteIndex], bitIndex);
    }

    method Set(index: nat, value: bool) returns (ok: bool)
      requires Valid()
      modifies buffer
      ensures ok == (index < |Bits()|)
      ensures Bits() == if ok then old(Bits())[index := value] else old(Bits())
      ensures buffer[..] == SetBytes(old(buffer[..]), size, index, value)
    {
      if index > size * 8 {
        return false;
      }
      var byteIndex, bitIndex := index / 8, index % 8;
      BitsOfUpdate(buffer[..], size * 8 + 1, index, value);
      ghost var before := buffer[..];
      buffer[byteIndex] := WithBit(buffer[byteIndex], bitIndex, value);
      assert buffer[..] == before[byteIndex := buffer[byteIndex]];
      return true;
    }
  }

  // What set_bitmap does to the memory that starts at the bitmap, as a value.
  function SetBytes(bytes: seq<bv8>, size: nat, index: nat, v: bool): (r: seq<bv8>)
    requires size < |bytes|
    ensures |r| == |bytes|
  {
    if index > size * 8 then bytes
    else bytes[index / 8 := WithBit(bytes[index / 8], index % 8, v)]
  }

  // The bytes that belong to the bitmap are the only ones written, except when the index is
  // exactly size * 8 and the requested value differs from the bit already there.
  lemma SetStaysInside(bytes: seq<bv8>, size: nat, index: nat, v: bool)
    requires size < |bytes|
    ensures SetBytes(bytes, size, index, v)[size..] == bytes[size..]
            <==> (index != size * 8 || Bit(bytes[size], 0) == v)
  {
    if index == size * 8 {
      WithBitBit(bytes[size], 0, v, 0);
      SameWhenBitIs(bytes[size], v);
    }
  }

  lemma SameWhenBitIs(b: bv8, v: bool)
    ensures Bit(b, 0) == v ==> WithBit(b, 0, v) == b
  {
  }

  // A bitmap of one byte: bit 8 is set in the byte behind it.
  lemma ByteBehindWritten()
    ensures SetBytes([0, 0], 1, 8, true) == [0, 1]
  {
  }
}
