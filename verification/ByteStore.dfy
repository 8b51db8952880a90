/** Byte-addressed memory with 64-bit little-endian words at any address, aligned or not. */
module ByteStore {
  import opened Machine

  /** The k bytes of v, least significant first. */
  function Encode(v: nat, k: nat): (r: seq<byte>)
    ensures |r| == k
  {
    if k == 0 then [] else [v % 256] + Encode(v / 256, k - 1)
  }

  function Decode(bytes: seq<byte>): nat {
    if bytes == [] then 0 else bytes[0] + 256 * Decode(bytes[1..])
  }

  function Power256(k: nat): nat {
    if k == 0 then 1 else 256 * Power256(k - 1)
  }

  lemma {:induction false} DecodeEncode(v: nat, k: nat)
    requires v < Power256(k)
    ensures Decode(Encode(v, k)) == v
  {
    if k > 0 {
      DecodeEncode(v / 256, k - 1);
      assert Encode(v, k)[1..] == Encode(v / 256, k - 1);
    }
  }

  lemma {:induction false} DecodeBound(bytes: seq<byte>)
    ensures Decode(bytes) < Power256(|bytes|)
  {
    if bytes != [] {
      DecodeBound(bytes[1..]);
    }
  }

  lemma WordSize()
    ensures Power256(8) == TWO64
  {
  }

  function Load64(m: seq<byte>, a: nat): u64
    requires a + 8 <= |m|
  {
    WordSize();
    DecodeBound(m[a..a + 8]);
    Decode(m[a..a + 8])
  }

  function Store64(m: seq<byte>, a: nat, v: u64): (r: seq<byte>)
    requires a + 8 <= |m|
    ensures |r| == |m|
  {
    m[..a] + Encode(v, 8) + m[a + 8..]
  }

  lemma LoadAfterStore(m: seq<byte>, a: nat, v: u64)
    requires a + 8 <= |m|
    ensures Load64(Store64(m, a, v), a) == v
  {
    WordSize();
    DecodeEncode(v, 8);
    assert Store64(m, a, v)[a..a + 8] == Encode(v, 8);
  }

  /** A word is its eight bytes. */
  lemma LoadUnchanged(m: seq<byte>, m': seq<byte>, a: nat)
    requires a + 8 <= |m| == |m'|
    requires forall i :: a <= i < a + 8 ==> m[i] == m'[i]
    ensures Load64(m, a) == Load64(m', a)
  {
    assert m[a..a + 8] == m'[a..a + 8];
  }

  lemma LoadElsewhere(m: seq<byte>, a: nat, v: u64, b: nat)
    requires a + 8 <= |m| && b + 8 <= |m| && Disjoint(a, 8, b, 8)
    ensures Load64(Store64(m, a, v), b) == Load64(m, b)
  {
    LoadUnchanged(m, Store64(m, a, v), b);
  }

  method Read64(mem: array<byte>, a: nat) returns (v: u64)
    requires a + 8 <= mem.Length
    ensures v == Load64(mem[..], a)
  {
    v := Load64(mem[..], a);
  }

  method Write64(mem: array<byte>, a: nat, v: u64)
    requires a + 8 <= mem.Length
    modifies mem
    ensures mem[..] == Store64(old(mem[..]), a, v)
  {
    var bytes := Encode(v, 8);
    for k := 0 to 8
      invariant forall i :: 0 <= i < mem.Length ==> mem[i] == if a <= i < a + k then bytes[i - a] else old(mem[i])
    {
      mem[a + k] := bytes[k];
    }
  }

  /** memset (src/mem.c:109-119) */
  method Fill(mem: array<byte>, a: nat, v: byte, n: nat)
    requires a + n <= mem.Length
    modifies mem
    ensures forall i :: 0 <= i < mem.Length ==> mem[i] == if a <= i < a + n then v else old(mem[i])
  {
    for k := 0 to n
      invariant forall i :: 0 <= i < mem.Length ==> mem[i] == if a <= i < a + k then v else old(mem[i])
    {
      mem[a + k] := v;
    }
  }
}
