/** How a SLOB heap sits in memory: list nodes and headers as 64-bit words among the very bytes they
    describe (src/alloc/slob.c:26-34). */
module SlobMemory {
  import opened Machine
  import opened ByteStore
  import opened SlobHeap

  /** struct SlobEntry at n.at: next pointer, base, length. */
  predicate NodeAt(m: seq<byte>, n: FreeNode, next: int) {
    && n.at + NODE <= |m|
    && Load64(m, n.at) == next && Load64(m, n.at + 8) == n.base && Load64(m, n.at + 16) == n.len
  }

  predicate HeaderAt(m: seq<byte>, b: nat, total: nat) {
    b + HEADER <= |m| && Load64(m, b) == total
  }

  /** The virtual address of node k of the list, 0 past the end. */
  function Ptr(nodes: seq<FreeNode>, k: nat, hhdm: u64): int {
    if k < |nodes| then nodes[k].at + hhdm else 0
  }

  /** Node k of the list is in memory, pointing on to node k + 1. */
  predicate NodeStored(m: seq<byte>, hhdm: u64, nodes: seq<FreeNode>, k: int) {
    0 <= k < |nodes| && NodeAt(m, nodes[k], Ptr(nodes, k + 1, hhdm))
  }

  /** Following pHead through memory yields the list, and every block starts with its length. */
  ghost predicate Stores(m: seq<byte>, hhdm: u64, head: int, h: Heap) {
    && head == Ptr(h.nodes, 0, hhdm)
    && (forall k :: 0 <= k < |h.nodes| ==> NodeStored(m, hhdm, h.nodes, k))
    && (forall b :: b in h.blocks ==> HeaderAt(m, b, h.blocks[b]))
  }

  /** The n bytes from a on are the same in both. */
  predicate Same(m: seq<byte>, m': seq<byte>, a: int, n: nat) {
    |m| == |m'| && forall i :: a <= i < a + n && 0 <= i < |m| ==> m[i] == m'[i]
  }

  /** What the search loop reads of the node that the pointer p is at. */
  lemma ReadsOfNode(m: seq<byte>, hhdm: u64, head: int, h: Heap, k: nat, p: int)
    requires Stores(m, hhdm, head, h) && k <= |h.nodes| && p == Ptr(h.nodes, k, hhdm) != 0
    ensures k < |h.nodes| && p - hhdm == h.nodes[k].at && h.nodes[k].at + NODE <= |m|
    ensures Load64(m, h.nodes[k].at + 16) == h.nodes[k].len
    ensures Load64(m, h.nodes[k].at) == Ptr(h.nodes, k + 1, hhdm)
  {
    assert NodeStored(m, hhdm, h.nodes, k);
  }

  /** Only the n bytes from a on may differ. */
  predicate ChangedOnly(m: seq<byte>, m': seq<byte>, a: int, n: nat) {
    |m| == |m'| && forall i :: 0 <= i < |m| && !(a <= i < a + n) ==> m[i] == m'[i]
  }

  lemma NodeUnchanged(m: seq<byte>, m': seq<byte>, n: FreeNode, next: int)
    requires NodeAt(m, n, next) && Same(m, m', n.at, NODE)
    ensures NodeAt(m', n, next)
  {
    LoadUnchanged(m, m', n.at);
    LoadUnchanged(m, m', n.at + 8);
    LoadUnchanged(m, m', n.at + 16);
  }

  lemma HeaderUnchanged(m: seq<byte>, m': seq<byte>, b: nat, total: nat)
    requires HeaderAt(m, b, total) && Same(m, m', b, HEADER)
    ensures HeaderAt(m', b, total)
  {
    LoadUnchanged(m, m', b);
  }

  // ---------- The writes, as updates of memory ----------

  /** pHeader->length = total */
  lemma HeaderWritten(m: seq<byte>, b: nat, total: u64)
    requires b + HEADER <= |m|
    ensures ChangedOnly(m, Store64(m, b, total), b, HEADER) && HeaderAt(Store64(m, b, total), b, total)
  {
    LoadAfterStore(m, b, total);
  }

  /** A whole node, length first. */
  lemma NodeWritten(m: seq<byte>, at: nat, next: u64, base: u64, length: u64)
    requires at + NODE <= |m|
    ensures var m' := Store64(Store64(Store64(m, at + 16, length), at + 8, base), at, next);
            ChangedOnly(m, m', at, NODE) && NodeAt(m', FreeNode(at, base, length), next)
  {
    var m1 := Store64(m, at + 16, length);
    var m2 := Store64(m1, at + 8, base);
    LoadAfterStore(m, at + 16, length);
    LoadAfterStore(m1, at + 8, base);
    LoadElsewhere(m1, at + 8, base, at + 16);
    LoadAfterStore(m2, at, next);
    LoadElsewhere(m2, at, next, at + 8);
    LoadElsewhere(m2, at, next, at + 16);
  }

  /** One field of a node rewritten. */
  lemma BaseWritten(m: seq<byte>, n: FreeNode, next: int, base: u64)
    requires NodeAt(m, n, next)
    ensures ChangedOnly(m, Store64(m, n.at + 8, base), n.at, NODE)
    ensures NodeAt(Store64(m, n.at + 8, base), n.(base := base), next)
  {
    LoadAfterStore(m, n.at + 8, base);
    LoadElsewhere(m, n.at + 8, base, n.at);
    LoadElsewhere(m, n.at + 8, base, n.at + 16);
  }

  lemma LengthWritten(m: seq<byte>, n: FreeNode, next: int, len: u64)
    requires NodeAt(m, n, next)
    ensures ChangedOnly(m, Store64(m, n.at + 16, len), n.at, NODE)
    ensures NodeAt(Store64(m, n.at + 16, len), n.(len := len), next)
  {
    LoadAfterStore(m, n.at + 16, len);
    LoadElsewhere(m, n.at + 16, len, n.at);
    LoadElsewhere(m, n.at + 16, len, n.at + 8);
  }

  lemma ChangedTwice(m: seq<byte>, m1: seq<byte>, m2: seq<byte>, a: int, n: nat)
    requires ChangedOnly(m, m1, a, n) && ChangedOnly(m1, m2, a, n)
    ensures ChangedOnly(m, m2, a, n)
  {
  }

  // ---------- Separation ----------

  /** A stretch of bytes that meets no list node and no header. */
  ghost predicate Private(h: Heap, a: nat, n: nat) {
    && (forall k :: 0 <= k < |h.nodes| ==> Disjoint(h.nodes[k].at, NODE, a, n))
    && (forall b :: b in h.blocks ==> Disjoint(b, HEADER, a, n))
  }

  /** Writing there leaves list and headers alone. */
  lemma PrivateWrite(m: seq<byte>, m': seq<byte>, hhdm: u64, head: int, h: Heap, a: nat, n: nat)
    requires Stores(m, hhdm, head, h) && Private(h, a, n) && ChangedOnly(m, m', a, n)
    ensures Stores(m', hhdm, head, h)
  {
    forall k | 0 <= k < |h.nodes| ensures NodeStored(m', hhdm, h.nodes, k) {
      assert NodeStored(m, hhdm, h.nodes, k);
      assert Disjoint(h.nodes[k].at, NODE, a, n);
      NodeUnchanged(m, m', h.nodes[k], Ptr(h.nodes, k + 1, hhdm));
    }
    forall b | b in h.blocks ensures HeaderAt(m', b, h.blocks[b]) {
      HeaderUnchanged(m, m', b, h.blocks[b]);
    }
  }

  /** The free regions are such stretches, for all that the nodes are stored in blocks cut from them. */
  lemma FreeRegionIsPrivate(h: Heap, initial: seq<FreeNode>, table: Table, k: nat)
    requires Inv(h, initial, table) && k < |h.nodes|
    ensures Private(h, h.nodes[k].base, h.nodes[k].len)
  {
  }

  /** So is what a caller may use of its block. */
  lemma PayloadIsPrivate(h: Heap, initial: seq<FreeNode>, table: Table, b: nat)
    requires Inv(h, initial, table) && Live(h, b)
    ensures Private(h, b + HEADER, h.blocks[b] - HEADER)
  {
  }

  /** A node shares no byte with any other node or with any header. */
  lemma NodeIsApart(h: Heap, initial: seq<FreeNode>, table: Table, k: nat)
    requires Inv(h, initial, table) && k < |h.nodes|
    ensures forall i :: 0 <= i < |h.nodes| && i != k ==> Disjoint(h.nodes[i].at, NODE, h.nodes[k].at, NODE)
    ensures forall b :: b in h.blocks ==> Disjoint(b, HEADER, h.nodes[k].at, NODE)
  {
  }

  // ---------- What callers have stored ----------

  /** Every block a caller holds in h is the same in both, header and contents. */
  ghost predicate BlocksKept(m: seq<byte>, m': seq<byte>, h: Heap) {
    |m| == |m'| && forall b: nat :: Live(h, b) ==> Same(m, m', b, h.blocks[b])
  }

  lemma BlocksKeptTwice(m: seq<byte>, m1: seq<byte>, m2: seq<byte>, h: Heap, h1: Heap)
    requires BlocksKept(m, m1, h) && BlocksKept(m1, m2, h1)
    requires forall b: nat :: Live(h, b) ==> Live(h1, b) && h1.blocks[b] == h.blocks[b]
    ensures BlocksKept(m, m2, h)
  {
    forall b: nat | Live(h, b) ensures Same(m, m2, b, h.blocks[b]) {
      assert Same(m, m1, b, h.blocks[b]) && Same(m1, m2, b, h1.blocks[b]);
    }
  }

  /** A write that meets no caller's block keeps them. */
  lemma ElsewhereKeepsBlocks(m: seq<byte>, m': seq<byte>, h: Heap, a: nat, n: nat)
    requires ChangedOnly(m, m', a, n)
    requires forall b: nat :: Live(h, b) ==> Disjoint(a, n, b, h.blocks[b])
    ensures BlocksKept(m, m', h)
  {
  }

  /** No list node is in a caller's block. */
  lemma NodeMissesLive(h: Heap, initial: seq<FreeNode>, table: Table, k: nat)
    requires Inv(h, initial, table) && k < |h.nodes|
    ensures forall b: nat :: Live(h, b) ==> Disjoint(h.nodes[k].at, NODE, b, h.blocks[b])
  {
    var at := h.nodes[k].at;
    assert Housed(h, table, at);
    forall b: nat | Live(h, b) ensures Disjoint(at, NODE, b, h.blocks[b]) {
      assert at >= HEADER && at - HEADER in h.cells ==> Disjoint(at - HEADER, h.blocks[at - HEADER], b, h.blocks[b]);
    }
  }

  /** The two writes of slob_malloc keep every block there was. */
  lemma SplitKeepsBlocks(m: seq<byte>, m1: seq<byte>, m2: seq<byte>, h: Heap, initial: seq<FreeNode>, table: Table, k: nat)
    requires Inv(h, initial, table) && k < |h.nodes| && HEADER <= h.nodes[k].len
    requires ChangedOnly(m, m1, h.nodes[k].base, HEADER) && ChangedOnly(m1, m2, h.nodes[k].at, NODE)
    ensures BlocksKept(m, m2, h)
  {
    hide ChangedOnly, Same;
    NodeMissesLive(h, initial, table, k);
    ElsewhereKeepsBlocks(m, m1, h, h.nodes[k].base, HEADER);
    ElsewhereKeepsBlocks(m1, m2, h, h.nodes[k].at, NODE);
    BlocksKeptTwice(m, m1, m2, h, h);
  }

  /** And so does the node slob_free writes into its cell, but for the cell. */
  lemma RelistKeepsBlocks(m: seq<byte>, m': seq<byte>, h: Heap, initial: seq<FreeNode>, table: Table, c: nat)
    requires Inv(h, initial, table) && Live(h, c) && h.blocks[c] == CELL
    requires ChangedOnly(m, m', c + HEADER, NODE)
    ensures BlocksKept(m, m', h.(cells := h.cells + {c}))
  {
    ElsewhereKeepsBlocks(m, m', h.(cells := h.cells + {c}), c + HEADER, NODE);
  }

  // ---------- The writes of slob_malloc ----------

  /** First the header, at the front of free region k. */
  lemma HeaderIsStored(m: seq<byte>, m1: seq<byte>, hhdm: u64, head: int,
                       h: Heap, initial: seq<FreeNode>, table: Table, k: nat)
    requires Inv(h, initial, table) && Stores(m, hhdm, head, h)
    requires k < |h.nodes| && HEADER <= h.nodes[k].len
    requires ChangedOnly(m, m1, h.nodes[k].base, HEADER)
    ensures Stores(m1, hhdm, head, h)
    ensures Disjoint(h.nodes[k].at, NODE, h.nodes[k].base, HEADER)
  {
    FreeRegionIsPrivate(h, initial, table, k);
    assert Private(h, h.nodes[k].base, HEADER);
    PrivateWrite(m, m1, hhdm, head, h, h.nodes[k].base, HEADER);
  }

  /** Then the node: memory now stores the split heap. */
  lemma SplitIsStored(m1: seq<byte>, m2: seq<byte>, hhdm: u64, head: int, h: Heap, k: nat, total: nat)
    requires Stores(m1, hhdm, head, h) && k < |h.nodes| && total <= h.nodes[k].len
    requires HeaderAt(m1, h.nodes[k].base, total)
    requires ChangedOnly(m1, m2, h.nodes[k].at, NODE)
    requires var n := h.nodes[k];
             NodeAt(m2, FreeNode(n.at, n.base + total, n.len - total), Ptr(h.nodes, k + 1, hhdm))
    requires forall i :: 0 <= i < |h.nodes| && i != k ==> Disjoint(h.nodes[i].at, NODE, h.nodes[k].at, NODE)
    requires forall b :: b in h.blocks || b == h.nodes[k].base ==> Disjoint(b, HEADER, h.nodes[k].at, NODE)
    ensures Stores(m2, hhdm, head, Split(h, k, total))
  {
    var t := Split(h, k, total);
    forall i | 0 <= i < |t.nodes| ensures NodeStored(m2, hhdm, t.nodes, i) {
      assert Ptr(t.nodes, i + 1, hhdm) == Ptr(h.nodes, i + 1, hhdm);
      if i != k {
        assert NodeStored(m1, hhdm, h.nodes, i);
        NodeUnchanged(m1, m2, h.nodes[i], Ptr(h.nodes, i + 1, hhdm));
      }
    }
    forall b | b in t.blocks ensures HeaderAt(m2, b, t.blocks[b]) {
      HeaderUnchanged(m1, m2, b, t.blocks[b]);
    }
  }

  /** Memory holds the heap, and the heap partitions the initial memory. */
  ghost predicate Sound(m: seq<byte>, hhdm: u64, head: int, h: Heap, initial: seq<FreeNode>, table: Table) {
    && |m| + hhdm < TWO64
    && Inv(h, initial, table) && Below(h, |m|) && Stores(m, hhdm, head, h)
  }

  /** What the code reads of a sound heap: a header, inside memory with its whole block. */
  lemma HeaderOf(m: seq<byte>, hhdm: u64, head: int, h: Heap, initial: seq<FreeNode>, table: Table, b: nat)
    requires Sound(m, hhdm, head, h, initial, table) && b in h.blocks
    ensures HEADER <= h.blocks[b] && b + h.blocks[b] <= |m| < TWO64 - hhdm && Load64(m, b) == h.blocks[b]
  {
  }

  /** And a node, with its region inside memory. */
  lemma NodeOf(m: seq<byte>, hhdm: u64, head: int, h: Heap, initial: seq<FreeNode>, table: Table, k: nat)
    requires Sound(m, hhdm, head, h, initial, table) && k < |h.nodes|
    ensures h.nodes[k].base + h.nodes[k].len <= |m| < TWO64 - hhdm
    ensures NodeAt(m, h.nodes[k], Ptr(h.nodes, k + 1, hhdm))
  {
    assert NodeStored(m, hhdm, h.nodes, k);
  }

  /** Both writes together: what slob_malloc leaves is sound. */
  lemma SplitIsSound(m: seq<byte>, m1: seq<byte>, m2: seq<byte>, hhdm: u64, head: int,
                     h: Heap, initial: seq<FreeNode>, table: Table, k: nat, total: nat)
    requires Sound(m, hhdm, head, h, initial, table)
    requires k < |h.nodes| && HEADER <= total <= h.nodes[k].len
    requires ChangedOnly(m, m1, h.nodes[k].base, HEADER) && HeaderAt(m1, h.nodes[k].base, total)
    requires ChangedOnly(m1, m2, h.nodes[k].at, NODE)
    requires var n := h.nodes[k];
             NodeAt(m2, FreeNode(n.at, n.base + total, n.len - total), Ptr(h.nodes, k + 1, hhdm))
    ensures Sound(m2, hhdm, head, Split(h, k, total), initial, table)
  {
    HeaderIsStored(m, m1, hhdm, head, h, initial, table, k);
    NodeIsApart(h, initial, table, k);
    SplitIsStored(m1, m2, hhdm, head, h, k, total);
    SplitKeepsInv(h, initial, table, k, total);
  }

  /** After the node of a freed block is written into its cell, memory stores the relisted heap. */
  lemma RelistIsStored(m: seq<byte>, m': seq<byte>, hhdm: u64, head: int, h: Heap, b: nat, c: nat)
    requires Stores(m, hhdm, head, h) && Private(h, c + HEADER, NODE)
    requires b in h.blocks
    requires ChangedOnly(m, m', c + HEADER, NODE)
    requires NodeAt(m', FreeNode(c + HEADER, b, h.blocks[b]), head)
    ensures Stores(m', hhdm, c + HEADER + hhdm, Relist(h, b, c))
  {
    var t := Relist(h, b, c);
    PrivateWrite(m, m', hhdm, head, h, c + HEADER, NODE);
    forall i | 0 <= i < |t.nodes| ensures NodeStored(m', hhdm, t.nodes, i) {
      assert Ptr(t.nodes, i + 1, hhdm) == Ptr(h.nodes, i, hhdm);
      if i > 0 {
        assert t.nodes[i] == h.nodes[i - 1];
        assert NodeStored(m', hhdm, h.nodes, i - 1);
      }
    }
  }

  /** What slob_free does after its slob_malloc has returned the cell at c. */
  lemma RelistIsSound(m: seq<byte>, m': seq<byte>, hhdm: u64, head: int,
                      h: Heap, initial: seq<FreeNode>, table: Table, b: nat, c: nat)
    requires Sound(m, hhdm, head, h, initial, table)
    requires Live(h, b) && Live(h, c) && b != c && h.blocks[c] == CELL
    requires ChangedOnly(m, m', c + HEADER, NODE)
    requires NodeAt(m', FreeNode(c + HEADER, b, h.blocks[b]), head)
    ensures Sound(m', hhdm, c + HEADER + hhdm, Relist(h, b, c), initial, table)
  {
    hide Inv, Stores, NodeAt;
    PayloadIsPrivate(h, initial, table, c);
    RelistIsStored(m, m', hhdm, head, h, b, c);
    RelistKeepsInv(h, initial, table, b, c);
  }

  /** Following the next pointers from pHead visits every node once and then stops at 0. */
  lemma ListIsAcyclic(m: seq<byte>, hhdm: u64, head: int, h: Heap, initial: seq<FreeNode>, table: Table, k: nat)
    requires Sound(m, hhdm, head, h, initial, table) && k < |h.nodes|
    ensures h.nodes[k].at + NODE <= |m|
    ensures Load64(m, h.nodes[k].at) == Ptr(h.nodes, k + 1, hhdm)
    ensures Ptr(h.nodes, k, hhdm) != 0 && forall j :: 0 <= j < |h.nodes| && j != k ==> Ptr(h.nodes, j, hhdm) != Ptr(h.nodes, k, hhdm)
  {
    assert NodeStored(m, hhdm, h.nodes, k);
    assert Housed(h, table, h.nodes[k].at);
    forall j | 0 <= j < |h.nodes| && j != k ensures Ptr(h.nodes, j, hhdm) != Ptr(h.nodes, k, hhdm) {
      assert Disjoint(h.nodes[j].at, NODE, h.nodes[k].at, NODE);
    }
  }
}
