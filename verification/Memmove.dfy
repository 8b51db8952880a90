/** memmove (src/mem.c:121-142) inside one buffer. */
module Memmove {
  import opened Machine

  /** m with the n bytes at src put at dest, all read before any is written. */
  function Moved(m: seq<byte>, dest: nat, src: nat, n: nat): (r: seq<byte>)
    requires dest + n <= |m| && src + n <= |m|
    ensures |r| == |m|
  {
    m[..dest] + m[src..src + n] + m[dest + n..]
  }

  /** Copying upwards: one byte more, when the destination lies below the source. */
  lemma MovedUp(m: seq<byte>, dest: nat, src: nat, i: nat)
    requires dest <= src && src + i < |m|
    ensures var before := Moved(m, dest, src, i);
            Moved(m, dest, src, i + 1) == before[dest + i := before[src + i]]
  {
  }

  /** Copying downwards: one byte more, when the destination lies above the source. */
  lemma MovedDown(m: seq<byte>, dest: nat, src: nat, i: nat, n: nat)
    requires src <= dest && i < n && dest + n <= |m|
    ensures var before := Moved(m, dest + i + 1, src + i + 1, n - i - 1);
            Moved(m, dest + i, src + i, n - i) == before[dest + i := before[src + i]]
  {
  }

  /** The byte-by-byte copies, in the direction that reads every byte before it is overwritten. */
  method MoveBytes(m: array<byte>, dest: nat, src: nat, n: nat)
    requires dest + n <= m.Length && src + n <= m.Length
    modifies m
    ensures m[..] == Moved(old(m[..]), dest, src, n)
  {
    if src > dest {
      for i := 0 to n
        invariant m[..] == Moved(old(m[..]), dest, src, i)
      {
        MovedUp(old(m[..]), dest, src, i);
        m[dest + i] := m[src + i];
      }
    } else if src < dest {
      for i := n downto 0
        invariant m[..] == Moved(old(m[..]), dest + i, src + i, n - i)
      {
        MovedDown(old(m[..]), dest, src, i, n);
        m[dest + i] := m[src + i];
      }
    }
  }

  /** What the first loop alone would do, whatever the overlap. */
  function Forward(m: seq<byte>, dest: nat, src: nat, n: nat): (r: seq<byte>)
    requires dest + n <= |m| && src + n <= |m|
    ensures |r| == |m|
  {
    if n == 0 then m
    else var before := Forward(m, dest, src, n - 1); before[dest + n - 1 := before[src + n - 1]]
  }

  /** Towards lower addresses, and without overlap, copying forward moves. */
  lemma {:induction false} ForwardMoves(m: seq<byte>, dest: nat, src: nat, n: nat)
    requires dest + n <= |m| && src + n <= |m|
    requires dest <= src || src + n <= dest
    ensures Forward(m, dest, src, n) == Moved(m, dest, src, n)
  {
    if n > 0 {
      ForwardMoves(m, dest, src, n - 1);
    }
  }

  /** From at on, n bytes each repeat the byte gap places before; nothing else differs from m. */
  predicate Smeared(m: seq<byte>, f: seq<byte>, at: nat, gap: nat, n: nat) {
    && |f| == |m| && gap <= at
    && (forall j :: at <= j < at + n && j < |f| ==> f[j] == f[j - gap])
    && (forall j :: 0 <= j < |f| && !(at <= j < at + n) ==> f[j] == m[j])
  }

  /** Towards higher addresses it smears: the destination repeats what lies before it.  That is why
      memmove has its second loop. */
  lemma {:induction false} ForwardSmears(m: seq<byte>, dest: nat, src: nat, n: nat)
    requires dest + n <= |m| && src < dest
    ensures Smeared(m, Forward(m, dest, src, n), dest, dest - src, n)
  {
    if n > 0 {
      ForwardSmears(m, dest, src, n - 1);
      var before, f, last := Forward(m, dest, src, n - 1), Forward(m, dest, src, n), dest + n - 1;
      assert f == before[last := before[src + n - 1]];
      forall j | dest <= j < dest + n ensures f[j] == f[j - (dest - src)] {
        if j < last {
          assert before[j] == before[j - (dest - src)];
        }
      }
    }
  }

  /** Moving there and back restores the source, for every overlap. */
  lemma MoveBack(m: seq<byte>, dest: nat, src: nat, n: nat)
    requires dest + n <= |m| && src + n <= |m|
    ensures Moved(Moved(m, dest, src, n), src, dest, n)[src..src + n] == m[src..src + n]
  {
  }
}
