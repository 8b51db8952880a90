/** The packed bitmap of src/include/bitmap.h: bit i lives in byte i / 8 under mask 1 << (i % 8). */
module Bitmap {

  function Mask(bit: nat): bv8 {
    (1 as bv8) << (bit % 8)
  }

  predicate Bit(b: bv8, i: nat) {
    b & Mask(i) != 0
  }

  function SetBit(b: bv8, i: nat): bv8 {
    b | Mask(i)
  }

  function ClearBit(b: bv8, i: nat): bv8 {
    b & !Mask(i)
  }

  /** bitmap_test as an expression over the bytes. */
  predicate Test(bytes: seq<bv8>, bit: nat)
    requires bit < 8 * |bytes|
  {
    Bit(bytes[bit / 8], bit)
  }

  /** The sequence of booleans a packed bitmap stands for. */
  function Bits(bytes: seq<bv8>): (bits: seq<bool>)
    ensures |bits| == 8 * |bytes|
    ensures forall i :: 0 <= i < |bits| ==> bits[i] == Test(bytes, i)
  {
    seq(8 * |bytes|, i requires 0 <= i < 8 * |bytes| => Test(bytes, i))
  }

  /** The eight masks by value; the shift is evaluated here and nowhere else. */
  lemma MaskValue(bit: nat)
    ensures Mask(bit) == (match bit % 8
                          case 0 => 1 case 1 => 2 case 2 => 4 case 3 => 8
                          case 4 => 16 case 5 => 32 case 6 => 64 case _ => 128)
  {
  }

  predicate OneBit(m: bv8) {
    m == 1 || m == 2 || m == 4 || m == 8 || m == 16 || m == 32 || m == 64 || m == 128
  }

  lemma MasksDiffer(i: nat, j: nat)
    ensures OneBit(Mask(i)) && OneBit(Mask(j)) && (Mask(i) == Mask(j) <==> i % 8 == j % 8)
  {
    hide Mask;
    MaskValue(i);
    MaskValue(j);
  }

  lemma OnOneBit(b: bv8, m: bv8, n: bv8)
    requires OneBit(m) && OneBit(n)
    ensures ((b | m) & n != 0) == (m == n || b & n != 0)
  {
  }

  lemma OffOneBit(b: bv8, m: bv8, n: bv8)
    requires OneBit(m) && OneBit(n)
    ensures ((b & !m) & n != 0) == (m != n && b & n != 0)
  {
  }

  /** Setting or clearing one bit of a byte moves that bit and none of its seven neighbours. */
  lemma ByteUpdate(b: bv8, i: nat, j: nat)
    ensures Bit(SetBit(b, i), j) == (i % 8 == j % 8 || Bit(b, j))
    ensures Bit(ClearBit(b, i), j) == (i % 8 != j % 8 && Bit(b, j))
  {
    hide Bit, SetBit, ClearBit;
    SetBitMoves(b, i, j);
    ClearBitMoves(b, i, j);
  }

  lemma SetBitMoves(b: bv8, i: nat, j: nat)
    ensures Bit(SetBit(b, i), j) == (i % 8 == j % 8 || Bit(b, j))
  {
    MasksDiffer(i, j);
    OnOneBit(b, Mask(i), Mask(j));
  }

  lemma ClearBitMoves(b: bv8, i: nat, j: nat)
    ensures Bit(ClearBit(b, i), j) == (i % 8 != j % 8 && Bit(b, j))
  {
    MasksDiffer(i, j);
    OffOneBit(b, Mask(i), Mask(j));
  }

  function ByteOn(bytes: seq<bv8>, bit: nat): (r: seq<bv8>)
    requires bit < 8 * |bytes|
    ensures |r| == |bytes|
  {
    bytes[bit / 8 := SetBit(bytes[bit / 8], bit)]
  }

  function ByteOff(bytes: seq<bv8>, bit: nat): (r: seq<bv8>)
    requires bit < 8 * |bytes|
    ensures |r| == |bytes|
  {
    bytes[bit / 8 := ClearBit(bytes[bit / 8], bit)]
  }

  lemma TestAfterUpdate(bytes: seq<bv8>, bit: nat, j: nat)
    requires bit < 8 * |bytes| && j < 8 * |bytes|
    ensures Test(ByteOn(bytes, bit), j) == (j == bit || Test(bytes, j))
    ensures Test(ByteOff(bytes, bit), j) == (j != bit && Test(bytes, j))
  {
    hide Bit, SetBit, ClearBit;
    if j / 8 == bit / 8 {
      ByteUpdate(bytes[bit / 8], bit, j);
      SameByte(bit, j);
    }
  }

  lemma SameByte(i: nat, j: nat)
    requires i / 8 == j / 8
    ensures i % 8 == j % 8 <==> i == j
  {
  }

  /** On the whole bitmap: |= and &= ~ move the named bit only. */
  lemma BitsAfterUpdate(bytes: seq<bv8>, bit: nat)
    requires bit < 8 * |bytes|
    ensures Bits(ByteOn(bytes, bit)) == Bits(bytes)[bit := true]
    ensures Bits(ByteOff(bytes, bit)) == Bits(bytes)[bit := false]
  {
    hide Test, ByteOn, ByteOff;
    forall j | 0 <= j < 8 * |bytes|
      ensures Test(ByteOn(bytes, bit), j) == Bits(bytes)[bit := true][j]
      ensures Test(ByteOff(bytes, bit), j) == Bits(bytes)[bit := false][j]
    {
      TestAfterUpdate(bytes, bit, j);
    }
  }

  method BitmapTest(a: array<bv8>, bit: nat) returns (on: bool)
    requires bit < 8 * a.Length
    ensures on == Bits(a[..])[bit]
  {
    var byteIndex := bit / 8;
    var bitMask := (1 as bv8) << (bit % 8);
    on := a[byteIndex] & bitMask != 0;
  }

  method BitmapOn(a: array<bv8>, bit: nat)
    requires bit < 8 * a.Length
    modifies a
    ensures Bits(a[..]) == old(Bits(a[..]))[bit := true]
  {
    hide Test, Bits, SetBit, ClearBit;
    BitsAfterUpdate(a[..], bit);
    a[bit / 8] := SetBit(a[bit / 8], bit);
    assert a[..] == ByteOn(old(a[..]), bit);
  }

  method BitmapOff(a: array<bv8>, bit: nat)
    requires bit < 8 * a.Length
    modifies a
    ensures Bits(a[..]) == old(Bits(a[..]))[bit := false]
  {
    hide Test, Bits, SetBit, ClearBit;
    BitsAfterUpdate(a[..], bit);
    a[bit / 8] := ClearBit(a[bit / 8], bit);
    assert a[..] == ByteOff(old(a[..]), bit);
  }
}
