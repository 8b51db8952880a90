/** The SLOB allocator (src/alloc/slob.c:78-139) as a layout of memory: a list of free regions, and
    blocks cut from their fronts.  A list node made by free lives inside a block of its own. */
module SlobHeap {
  import opened Machine

  const HEADER: nat := 8   // sizeof(struct SlobHeader)
  const NODE: nat := 24    // sizeof(struct SlobEntry)
  const CELL: nat := 32    // a block that holds a node

  /** A struct SlobEntry at physical address at, describing the free bytes [base, base + len). */
  datatype FreeNode = FreeNode(at: nat, base: nat, len: nat)

  /** blocks maps the address of each header to the length stored in it; cells are the blocks that hold
      list nodes, the others belong to callers. */
  datatype Heap = Heap(nodes: seq<FreeNode>, blocks: map<nat, nat>, cells: set<nat>)

  /** A block some caller holds. */
  predicate Live(h: Heap, b: nat) {
    b in h.blocks && b !in h.cells
  }

  // ---------- The operations ----------

  function FirstFit(nodes: seq<FreeNode>, total: nat, i: nat := 0): (r: Option<nat>)
    requires i <= |nodes|
    ensures r.Some? ==> i <= r.value < |nodes| && nodes[r.value].len >= total
    ensures forall k :: i <= k < (if r.Some? then r.value else |nodes|) ==> nodes[k].len < total
    decreases |nodes| - i
  {
    if i == |nodes| then None
    else if total <= nodes[i].len then Some(i)
    else FirstFit(nodes, total, i + 1)
  }

  /** Cut total bytes off the front of free region k. */
  function Split(h: Heap, k: nat, total: nat): Heap
    requires k < |h.nodes| && total <= h.nodes[k].len
  {
    var n := h.nodes[k];
    h.(nodes := h.nodes[k := FreeNode(n.at, n.base + total, n.len - total)], blocks := h.blocks[n.base := total])
  }

  /** slob_malloc: the heap after, and the address of the new header.  The addition wraps. */
  function Malloc(h: Heap, size: u64): (Heap, Option<nat>) {
    var k := FirstFit(h.nodes, Wrap64(size + HEADER));
    if k == None then (h, None) else (Split(h, k.value, Wrap64(size + HEADER)), Some(h.nodes[k.value].base))
  }

  /** The block at b goes to the front of the list, under a node in the cell at c. */
  function Relist(h: Heap, b: nat, c: nat): Heap
    requires b in h.blocks
  {
    Heap([FreeNode(c + HEADER, b, h.blocks[b])] + h.nodes, h.blocks - {b}, h.cells + {c})
  }

  /** slob_free of the block whose header is at b; None when there is no room for the node, where the
      code goes on to write through a null pointer. */
  function Free(h: Heap, b: nat): Option<Heap>
    requires Live(h, b)
  {
    var (h1, c) := Malloc(h, NODE);
    if c == None || b !in h1.blocks then None else Some(Relist(h1, b, c.value))
  }

  // ---------- The partition ----------

  /** The table of initial nodes, [at, at + len), lies outside the memory being managed. */
  datatype Table = Table(at: nat, len: nat)

  predicate InNodes(nodes: seq<FreeNode>, x: int) {
    exists k :: 0 <= k < |nodes| && nodes[k].base <= x < nodes[k].base + nodes[k].len
  }

  predicate InBlocks(blocks: map<nat, nat>, x: int) {
    exists b :: b in blocks && b <= x < b + blocks[b]
  }

  ghost predicate RegionsApart(h: Heap, table: Table) {
    && (forall i, j :: 0 <= i < j < |h.nodes| ==> Disjoint(h.nodes[i].base, h.nodes[i].len, h.nodes[j].base, h.nodes[j].len))
    && (forall i, b :: 0 <= i < |h.nodes| && b in h.blocks ==> Disjoint(h.nodes[i].base, h.nodes[i].len, b, h.blocks[b]))
    && (forall b, c :: b in h.blocks && c in h.blocks && b != c ==> Disjoint(b, h.blocks[b], c, h.blocks[c]))
    && (forall i :: 0 <= i < |h.nodes| ==> Disjoint(table.at, table.len, h.nodes[i].base, h.nodes[i].len))
    && (forall b :: b in h.blocks ==> Disjoint(table.at, table.len, b, h.blocks[b]))
  }

  /** The free regions and the blocks make up exactly the initial regions. */
  ghost predicate Covers(h: Heap, initial: seq<FreeNode>) {
    forall x: int :: InNodes(initial, x) <==> InNodes(h.nodes, x) || InBlocks(h.blocks, x)
  }

  /** Every node sits in the table or fills a cell behind its header, and no two share a byte. */
  predicate Housed(h: Heap, table: Table, at: nat) {
    (0 < table.at <= at && at + NODE <= table.at + table.len) || (at >= HEADER && at - HEADER in h.cells)
  }

  ghost predicate NodesHoused(h: Heap, table: Table) {
    && (forall i :: 0 <= i < |h.nodes| ==> Housed(h, table, h.nodes[i].at))
    && (forall i, j :: 0 <= i < j < |h.nodes| ==> Disjoint(h.nodes[i].at, NODE, h.nodes[j].at, NODE))
  }

  ghost predicate Inv(h: Heap, initial: seq<FreeNode>, table: Table) {
    && RegionsApart(h, table)
    && Covers(h, initial)
    && NodesHoused(h, table)
    && h.cells <= h.blocks.Keys
    && (forall b :: b in h.blocks ==> h.blocks[b] >= HEADER)
    && (forall c :: c in h.cells ==> h.blocks[c] == CELL)
  }

  // ---------- Splitting keeps the partition ----------

  lemma SplitIsNew(h: Heap, table: Table, k: nat, total: nat)
    requires RegionsApart(h, table) && k < |h.nodes| && HEADER <= total <= h.nodes[k].len
    requires forall b :: b in h.blocks ==> h.blocks[b] >= HEADER
    ensures h.nodes[k].base !in h.blocks
  {
  }

  lemma SplitKeepsRegionsApart(h: Heap, table: Table, k: nat, total: nat)
    requires RegionsApart(h, table) && k < |h.nodes| && total <= h.nodes[k].len
    requires h.nodes[k].base !in h.blocks
    ensures RegionsApart(Split(h, k, total), table)
  {
  }

  lemma SplitKeepsCover(h: Heap, initial: seq<FreeNode>, k: nat, total: nat)
    requires Covers(h, initial) && k < |h.nodes| && total <= h.nodes[k].len
    requires h.nodes[k].base !in h.blocks
    ensures Covers(Split(h, k, total), initial)
  {
    var t := Split(h, k, total);
    var n := h.nodes[k];
    forall x: int
      ensures InNodes(h.nodes, x) || InBlocks(h.blocks, x) <==> InNodes(t.nodes, x) || InBlocks(t.blocks, x)
    {
      if i :| 0 <= i < |h.nodes| && h.nodes[i].base <= x < h.nodes[i].base + h.nodes[i].len {
        if i == k && x < n.base + total {
          assert n.base in t.blocks && n.base <= x < n.base + t.blocks[n.base];
        } else {
          assert t.nodes[i].base <= x < t.nodes[i].base + t.nodes[i].len;
        }
      }
      if b :| b in h.blocks && b <= x < b + h.blocks[b] {
        assert b in t.blocks && t.blocks[b] == h.blocks[b];
      }
      if i :| 0 <= i < |t.nodes| && t.nodes[i].base <= x < t.nodes[i].base + t.nodes[i].len {
        assert h.nodes[i].base <= x < h.nodes[i].base + h.nodes[i].len;
      }
      if b :| b in t.blocks && b <= x < b + t.blocks[b] {
        if b == n.base {
          assert h.nodes[k].base <= x < h.nodes[k].base + h.nodes[k].len;
        } else {
          assert b in h.blocks;
        }
      }
    }
  }

  lemma SplitKeepsHoused(h: Heap, table: Table, k: nat, total: nat)
    requires NodesHoused(h, table) && k < |h.nodes| && total <= h.nodes[k].len
    ensures NodesHoused(Split(h, k, total), table)
  {
  }

  lemma SplitKeepsInv(h: Heap, initial: seq<FreeNode>, table: Table, k: nat, total: nat)
    requires Inv(h, initial, table) && k < |h.nodes| && HEADER <= total <= h.nodes[k].len
    ensures h.nodes[k].base !in h.blocks
    ensures Inv(Split(h, k, total), initial, table)
  {
    SplitIsNew(h, table, k, total);
    SplitKeepsRegionsApart(h, table, k, total);
    SplitKeepsCover(h, initial, k, total);
    SplitKeepsHoused(h, table, k, total);
  }

  /** The size leaves room for its header, or no region has the few bytes the sum wraps to. */
  predicate SafeSize(h: Heap, size: u64) {
    size + HEADER < TWO64 || forall k :: 0 <= k < |h.nodes| ==> h.nodes[k].len < size + HEADER - TWO64
  }

  /** A safe size that wraps is refused. */
  lemma SafeOrRefused(h: Heap, size: u64)
    requires SafeSize(h, size)
    ensures size + HEADER >= TWO64 ==> Malloc(h, size) == (h, None)
  {
  }

  /** slob_malloc keeps the partition exactly for the safe sizes: a size within 8 of 2^64 wraps to a block
      shorter than the header written into it. */
  lemma MallocKeepsInv(h: Heap, initial: seq<FreeNode>, table: Table, size: u64)
    requires Inv(h, initial, table)
    ensures Inv(Malloc(h, size).0, initial, table) <==> SafeSize(h, size)
  {
    hide RegionsApart, Covers, NodesHoused;
    var total := Wrap64(size + HEADER);
    var k := FirstFit(h.nodes, total);
    if k.Some? && total >= HEADER {
      SplitKeepsInv(h, initial, table, k.value, total);
    } else if k.Some? {
      var t, b := Malloc(h, size).0, h.nodes[k.value].base;
      assert b in t.blocks && t.blocks[b] < HEADER;
    }
  }

  /** Such a request: 2^64 - 1 bytes are served with a block of 7, header included. */
  lemma WrappedRequestIsServed(h: Heap)
    requires h.nodes != [] && h.nodes[0].len >= 7
    ensures Malloc(h, TWO64 - 1).1 == Some(h.nodes[0].base) && Malloc(h, TWO64 - 1).0.blocks[h.nodes[0].base] == 7
  {
  }

  /** First fit, for the sum as it wraps: slob_malloc takes from the first node with room, and fails only if no node has room. */
  lemma MallocIsFirstFit(h: Heap, initial: seq<FreeNode>, table: Table, size: u64)
    requires Inv(h, initial, table)
    ensures var (t, c) := Malloc(h, size);
            var total := Wrap64(size + HEADER);
            if c.None? then t == h && forall k :: 0 <= k < |h.nodes| ==> h.nodes[k].len < total
            else exists k :: 0 <= k < |h.nodes|
                  && c.value == h.nodes[k].base && (total >= HEADER ==> c.value !in h.blocks) && h.nodes[k].len >= total
                  && (forall j :: 0 <= j < k ==> h.nodes[j].len < total)
                  && t.blocks == h.blocks[c.value := total] && t.cells == h.cells
                  && t.nodes == h.nodes[k := FreeNode(h.nodes[k].at, c.value + total, h.nodes[k].len - total)]
  {
  }

  // ---------- Relisting keeps the partition ----------

  lemma RelistKeepsCover(h: Heap, initial: seq<FreeNode>, b: nat, c: nat)
    requires Covers(h, initial) && b in h.blocks
    ensures Covers(Relist(h, b, c), initial)
  {
    var t := Relist(h, b, c);
    forall x: int
      ensures InNodes(h.nodes, x) || InBlocks(h.blocks, x) <==> InNodes(t.nodes, x) || InBlocks(t.blocks, x)
    {
      if i :| 0 <= i < |h.nodes| && h.nodes[i].base <= x < h.nodes[i].base + h.nodes[i].len {
        assert t.nodes[i + 1].base <= x < t.nodes[i + 1].base + t.nodes[i + 1].len;
      }
      if d :| d in h.blocks && d <= x < d + h.blocks[d] {
        if d == b {
          assert t.nodes[0].base <= x < t.nodes[0].base + t.nodes[0].len;
        } else {
          assert d in t.blocks && t.blocks[d] == h.blocks[d];
        }
      }
      if i :| 0 <= i < |t.nodes| && t.nodes[i].base <= x < t.nodes[i].base + t.nodes[i].len {
        if i > 0 {
          assert t.nodes[i] == h.nodes[i - 1];
        } else {
          assert b <= x < b + h.blocks[b];
        }
      }
      if d :| d in t.blocks && d <= x < d + t.blocks[d] {
        assert d in h.blocks && t.blocks[d] == h.blocks[d];
      }
    }
  }

  lemma RelistKeepsRegionsApart(h: Heap, table: Table, b: nat, c: nat)
    requires RegionsApart(h, table) && b in h.blocks
    ensures RegionsApart(Relist(h, b, c), table)
  {
  }

  /** A node in a fresh cell shares no byte with the nodes there are. */
  lemma RelistKeepsHoused(h: Heap, initial: seq<FreeNode>, table: Table, b: nat, c: nat)
    requires Inv(h, initial, table) && Live(h, b)
    requires c in h.blocks && c !in h.cells && c != b && h.blocks[c] == CELL
    ensures NodesHoused(Relist(h, b, c), table)
  {
    var t := Relist(h, b, c);
    forall i | 0 <= i < |h.nodes|
      ensures Disjoint(c + HEADER, NODE, h.nodes[i].at, NODE)
    {
      var at := h.nodes[i].at;
      assert Housed(h, table, at);
      if at >= HEADER && at - HEADER in h.cells {
        assert Disjoint(at - HEADER, h.blocks[at - HEADER], c, h.blocks[c]);
      }
    }
    forall i | 0 <= i < |t.nodes|
      ensures Housed(t, table, t.nodes[i].at)
    {
      if i > 0 {
        assert Housed(h, table, h.nodes[i - 1].at);
      }
    }
  }

  /** The cell a free gets is a block of its own until the node goes in. */
  lemma FreeWithCell(h: Heap, initial: seq<FreeNode>, table: Table, b: nat, h1: Heap, c: nat)
    requires Inv(h, initial, table) && Live(h, b)
    requires Malloc(h, NODE) == (h1, Some(c))
    ensures Live(h1, b) && Live(h1, c) && b != c && h1.blocks[c] == CELL
    ensures Free(h, b) == Some(Relist(h1, b, c))
  {
  }

  lemma RelistKeepsInv(h: Heap, initial: seq<FreeNode>, table: Table, b: nat, c: nat)
    requires Inv(h, initial, table) && Live(h, b)
    requires c in h.blocks && c !in h.cells && c != b && h.blocks[c] == CELL
    ensures Inv(Relist(h, b, c), initial, table)
  {
    RelistKeepsCover(h, initial, b, c);
    RelistKeepsRegionsApart(h, table, b, c);
    RelistKeepsHoused(h, initial, table, b, c);
  }

  /** slob_free keeps the partition, and has room for its node exactly when some free region has 32
      bytes; it costs those 32 bytes for good. */
  lemma FreeKeepsInv(h: Heap, initial: seq<FreeNode>, table: Table, b: nat)
    requires Inv(h, initial, table) && Live(h, b)
    ensures Free(h, b).Some? <==> exists k :: 0 <= k < |h.nodes| && h.nodes[k].len >= CELL
    ensures Free(h, b).Some? ==> Inv(Free(h, b).value, initial, table)
  {
    var (h1, c) := Malloc(h, NODE);
    MallocKeepsInv(h, initial, table, NODE);
    if c.Some? {
      FreeWithCell(h, initial, table, b, h1, c.value);
      RelistKeepsInv(h1, initial, table, b, c.value);
    }
  }

  /** What slob_free leaves: the block as it was, header included, is the first region of the list; the
      others are those slob_malloc of a node leaves; and no other caller's block has changed. */
  lemma FreeGivesBack(h: Heap, initial: seq<FreeNode>, table: Table, b: nat)
    requires Inv(h, initial, table) && Live(h, b) && Free(h, b).Some?
    ensures var t := Free(h, b).value;
            && t.nodes != [] && t.nodes[0].base == b && t.nodes[0].len == h.blocks[b]
            && t.nodes[1..] == Malloc(h, NODE).0.nodes
            && b !in t.blocks && forall c: nat :: c != b ==> (Live(t, c) <==> Live(h, c)) && (Live(h, c) ==> t.blocks[c] == h.blocks[c])
  {
    var (h1, c) := Malloc(h, NODE);
    FreeWithCell(h, initial, table, b, h1, c.value);
    MallocIsFirstFit(h, initial, table, NODE);
  }

  // ---------- Runs ----------

  datatype Op = AllocOp(size: u64) | FreeOp(b: nat)

  /** One call; frees must be of live blocks.  None once a free found no room for its node. */
  function Step(h: Heap, op: Op): Option<Heap>
    requires op.FreeOp? ==> Live(h, op.b)
  {
    match op
    case AllocOp(size) => Some(Malloc(h, size).0)
    case FreeOp(b) => Free(h, b)
  }

  /** The heap after a run; None if the run frees something that is not live or has no room to free. */
  function Exec(h: Heap, ops: seq<Op>): Option<Heap> {
    if ops == [] then Some(h)
    else
      var before := Exec(h, ops[..|ops| - 1]);
      var op := ops[|ops| - 1];
      if before.None? || (op.FreeOp? && !Live(before.value, op.b)) then None else Step(before.value, op)
  }

  /** Every size of the run is safe when it is asked for. */
  predicate SafeOps(h: Heap, ops: seq<Op>) {
    ops != [] ==>
      var last := |ops| - 1;
      && SafeOps(h, ops[..last])
      && (ops[last].AllocOp? && Exec(h, ops[..last]).Some? ==> SafeSize(Exec(h, ops[..last]).value, ops[last].size))
  }

  lemma ExecAppend(h: Heap, ops: seq<Op>, op: Op)
    requires Exec(h, ops).Some? && (op.FreeOp? ==> Live(Exec(h, ops).value, op.b))
    ensures Exec(h, ops + [op]) == Step(Exec(h, ops).value, op)
    ensures SafeOps(h, ops) && (op.AllocOp? ==> SafeSize(Exec(h, ops).value, op.size)) ==> SafeOps(h, ops + [op])
  {
    assert (ops + [op])[..|ops|] == ops;
  }

  /** After any run the free regions, the callers' blocks and the cells partition the initial memory. */
  lemma {:induction false} RunKeepsInv(h: Heap, initial: seq<FreeNode>, table: Table, ops: seq<Op>)
    requires Inv(h, initial, table) && SafeOps(h, ops)
    ensures Exec(h, ops).Some? ==> Inv(Exec(h, ops).value, initial, table)
  {
    if ops != [] {
      var last := |ops| - 1;
      RunKeepsInv(h, initial, table, ops[..last]);
      var before := Exec(h, ops[..last]);
      if before.Some? {
        match ops[last]
        case AllocOp(size) => MallocKeepsInv(before.value, initial, table, size);
        case FreeOp(b) =>
          if Live(before.value, b) {
            FreeKeepsInv(before.value, initial, table, b);
          }
      }
    }
  }

  lemma StepKeepsOtherBlocks(h: Heap, initial: seq<FreeNode>, table: Table, op: Op, b: nat)
    requires Inv(h, initial, table) && Live(h, b)
    requires if op.FreeOp? then Live(h, op.b) && op.b != b else SafeSize(h, op.size)
    requires Step(h, op).Some?
    ensures Live(Step(h, op).value, b) && Step(h, op).value.blocks[b] == h.blocks[b]
  {
    match op
    case AllocOp(size) =>
      SafeOrRefused(h, size);
      if size + HEADER < TWO64 {
        MallocIsFirstFit(h, initial, table, size);
      }
    case FreeOp(f) =>
      var (h1, c) := Malloc(h, NODE);
      FreeWithCell(h, initial, table, f, h1, c.value);
      FreeWithCell(h, initial, table, b, h1, c.value);
  }

  /** A block that a run does not free is still there at its end with the length it had, so the free that
      comes in the end reads back the length that was allocated. */
  lemma {:induction false} LiveBlockKeepsItsLength(h: Heap, initial: seq<FreeNode>, table: Table, ops: seq<Op>, b: nat)
    requires Inv(h, initial, table) && SafeOps(h, ops) && Exec(h, ops).Some?
    requires Live(h, b) && FreeOp(b) !in ops
    ensures Live(Exec(h, ops).value, b) && Exec(h, ops).value.blocks[b] == h.blocks[b]
  {
    if ops != [] {
      var last := |ops| - 1;
      RunKeepsInv(h, initial, table, ops[..last]);
      LiveBlockKeepsItsLength(h, initial, table, ops[..last], b);
      StepKeepsOtherBlocks(Exec(h, ops[..last]).value, initial, table, ops[last], b);
    }
  }

  /** Over a run, byte by byte: a byte of the initial memory lies in exactly one free region or exactly
      one block, and no other byte lies in any. */
  lemma EachByteHasOneOwner(h: Heap, initial: seq<FreeNode>, table: Table, ops: seq<Op>, x: int)
    requires Inv(h, initial, table) && SafeOps(h, ops) && Exec(h, ops).Some?
    ensures var t := Exec(h, ops).value;
            && (InNodes(initial, x) <==> InNodes(t.nodes, x) || InBlocks(t.blocks, x))
            && !(InNodes(t.nodes, x) && InBlocks(t.blocks, x))
            && (forall i, j :: 0 <= i < j < |t.nodes| ==>
                  !(t.nodes[i].base <= x < t.nodes[i].base + t.nodes[i].len && t.nodes[j].base <= x < t.nodes[j].base + t.nodes[j].len))
            && (forall b, c :: b in t.blocks && c in t.blocks && b != c ==>
                  !(b <= x < b + t.blocks[b] && c <= x < c + t.blocks[c]))
  {
    hide Exec, SafeOps;
    RunKeepsInv(h, initial, table, ops);
  }

  // ---------- Accounting ----------

  function FreeBytes(nodes: seq<FreeNode>): nat {
    if nodes == [] then 0 else nodes[0].len + FreeBytes(nodes[1..])
  }

  lemma {:induction false} FreeBytesUpdate(nodes: seq<FreeNode>, k: nat, n: FreeNode)
    requires k < |nodes|
    ensures FreeBytes(nodes[k := n]) == FreeBytes(nodes) - nodes[k].len + n.len
  {
    if k > 0 {
      FreeBytesUpdate(nodes[1..], k - 1, n);
      assert nodes[k := n][1..] == nodes[1..][k - 1 := n];
    } else {
      assert nodes[k := n][1..] == nodes[1..];
    }
  }

  /** The bytes of the caller's block at b, header included. */
  function LiveSize(h: Heap, b: nat): nat {
    if Live(h, b) then h.blocks[b] else 0
  }

  /** The bytes of the callers' blocks with headers below limit. */
  function LiveBytes(h: Heap, limit: nat): nat {
    if limit == 0 then 0 else LiveBytes(h, limit - 1) + LiveSize(h, limit - 1)
  }

  lemma {:induction false} LiveBytesChange(h: Heap, h': Heap, b: nat, limit: nat)
    requires forall x :: x != b ==> LiveSize(h', x) == LiveSize(h, x)
    ensures LiveBytes(h', limit) == LiveBytes(h, limit) + if b < limit then LiveSize(h', b) as int - LiveSize(h, b) else 0
  {
    if limit > 0 {
      LiveBytesChange(h, h', b, limit - 1);
    }
  }

  /** Free bytes, callers' bytes and 32 per cell. */
  function Account(h: Heap, limit: nat): nat {
    FreeBytes(h.nodes) + LiveBytes(h, limit) + CELL * |h.cells|
  }

  /** Everything lies below limit. */
  predicate Below(h: Heap, limit: nat) {
    && (forall i :: 0 <= i < |h.nodes| ==> h.nodes[i].base + h.nodes[i].len <= limit)
    && (forall b :: b in h.blocks ==> b + h.blocks[b] <= limit)
  }

  /** slob_malloc moves bytes from the free list to the caller, or to a cell. */
  lemma MallocAccounts(h: Heap, initial: seq<FreeNode>, table: Table, size: u64, limit: nat)
    requires Inv(h, initial, table) && Below(h, limit) && size + HEADER < TWO64
    ensures var (t, c) := Malloc(h, size);
            && Below(t, limit) && |t.nodes| == |h.nodes| && t.cells == h.cells
            && FreeBytes(t.nodes) == FreeBytes(h.nodes) - (if c.Some? then size + HEADER else 0)
            && LiveBytes(t, limit) == LiveBytes(h, limit) + (if c.Some? then size + HEADER else 0)
  {
    hide Covers, NodesHoused, FreeBytes, LiveBytes;
    var k := FirstFit(h.nodes, size + HEADER);
    if k.Some? {
      var t := Malloc(h, size).0;
      var b := h.nodes[k.value].base;
      SplitIsNew(h, table, k.value, size + HEADER);
      FreeBytesUpdate(h.nodes, k.value, t.nodes[k.value]);
      LiveBytesChange(h, t, b, limit);
    }
  }

  lemma RelistAccounts(h: Heap, b: nat, c: nat, limit: nat)
    requires Below(h, limit) && Live(h, b) && Live(h, c) && c != b && 0 < h.blocks[b] && 0 < h.blocks[c]
    ensures var t := Relist(h, b, c);
            && Below(t, limit) && |t.nodes| == |h.nodes| + 1 && |t.cells| == |h.cells| + 1
            && FreeBytes(t.nodes) == FreeBytes(h.nodes) + h.blocks[b]
            && LiveBytes(t, limit) == LiveBytes(h, limit) - h.blocks[b] - h.blocks[c]
  {
    var t := Relist(h, b, c);
    assert t.nodes[1..] == h.nodes;
    var mid := h.(cells := h.cells + {c});
    LiveBytesChange(h, mid, c, limit);
    LiveBytesChange(mid, t, b, limit);
  }

  lemma StepAccounts(h: Heap, initial: seq<FreeNode>, table: Table, op: Op, limit: nat)
    requires Inv(h, initial, table) && Below(h, limit)
    requires if op.FreeOp? then Live(h, op.b) else SafeSize(h, op.size)
    requires Step(h, op).Some?
    ensures var t := Step(h, op).value;
            && Below(t, limit) && Account(t, limit) == Account(h, limit)
            && |t.cells| == |h.cells| + (if op.FreeOp? then 1 else 0)
            && |t.nodes| == |h.nodes| + (if op.FreeOp? then 1 else 0)
  {
    match op
    case AllocOp(size) =>
      SafeOrRefused(h, size);
      if size + HEADER < TWO64 {
        MallocAccounts(h, initial, table, size, limit);
      }
    case FreeOp(b) =>
      var (h1, c) := Malloc(h, NODE);
      FreeWithCell(h, initial, table, b, h1, c.value);
      MallocAccounts(h, initial, table, NODE, limit);
      RelistAccounts(h1, b, c.value, limit);
  }

  /** The completed frees of a run. */
  function Frees(ops: seq<Op>): nat {
    if ops == [] then 0 else Frees(ops[..|ops| - 1]) + if ops[|ops| - 1].FreeOp? then 1 else 0
  }

  /** Over any run the free bytes, the callers' bytes and 32 bytes per free add up to the same sum;
      the list grows by one node per free. */
  lemma {:induction false} RunAccounts(h: Heap, initial: seq<FreeNode>, table: Table, ops: seq<Op>, limit: nat)
    requires Inv(h, initial, table) && Below(h, limit) && SafeOps(h, ops) && Exec(h, ops).Some?
    ensures var t := Exec(h, ops).value;
            && Below(t, limit)
            && FreeBytes(t.nodes) + LiveBytes(t, limit) + CELL * Frees(ops) == FreeBytes(h.nodes) + LiveBytes(h, limit)
            && |t.nodes| == |h.nodes| + Frees(ops)
            && |t.cells| == |h.cells| + Frees(ops)
  {
    if ops != [] {
      var last := |ops| - 1;
      RunAccounts(h, initial, table, ops[..last], limit);
      RunKeepsInv(h, initial, table, ops[..last]);
      StepAccounts(Exec(h, ops[..last]).value, initial, table, ops[last], limit);
    }
  }

  // ---------- When free has no room ----------

  /** The first node that fits is the one FirstFit names. */
  lemma {:induction false} FirstFitIs(nodes: seq<FreeNode>, total: nat, k: nat, i: nat := 0)
    requires i <= k < |nodes| && nodes[k].len >= total
    requires forall j :: i <= j < k ==> nodes[j].len < total
    ensures FirstFit(nodes, total, i) == Some(k)
    decreases k - i
  {
    if i < k {
      FirstFitIs(nodes, total, k, i + 1);
    }
  }

  /** Any heap can be filled up: some number of further mallocs leaves no 32 bytes in one piece, and then
      the free of a block that has been live all along would write its node through a null pointer. */
  lemma {:induction false} FreeCanFail(h: Heap, initial: seq<FreeNode>, table: Table, ops: seq<Op>, b: nat, limit: nat)
    returns (more: seq<Op>)
    requires Inv(h, initial, table) && SafeOps(h, ops) && Exec(h, ops).Some?
    requires Below(Exec(h, ops).value, limit) && limit < TWO64 && Live(Exec(h, ops).value, b)
    ensures forall i :: 0 <= i < |more| ==> more[i].AllocOp?
    ensures SafeOps(h, ops + more) && Exec(h, ops + more).Some?
    ensures var t := Exec(h, ops + more).value; Inv(t, initial, table) && Live(t, b) && Free(t, b) == None
    decreases FreeBytes(Exec(h, ops).value.nodes)
  {
    hide Exec, SafeOps, RegionsApart, Covers, NodesHoused;
    var t := Exec(h, ops).value;
    RunKeepsInv(h, initial, table, ops);
    FreeKeepsInv(t, initial, table, b);
    var k := FirstFit(t.nodes, CELL);
    if k.None? {
      more := [];
      assert ops + more == ops;
    } else {
      var op := AllocOp(t.nodes[k.value].len - HEADER);
      ExecAppend(h, ops, op);
      FirstFitIs(t.nodes, t.nodes[k.value].len, k.value);
      StepKeepsOtherBlocks(t, initial, table, op, b);
      MallocAccounts(t, initial, table, op.size, limit);
      var rest := FreeCanFail(h, initial, table, ops + [op], b, limit);
      more := [op] + rest;
      assert ops + more == ops + [op] + rest;
    }
  }

  // ---------- Free regions are not merged ----------

  /** No free region and no block is longer than m. */
  predicate AtMost(h: Heap, m: nat) {
    && (forall k :: 0 <= k < |h.nodes| ==> h.nodes[k].len <= m)
    && (forall b :: b in h.blocks ==> h.blocks[b] <= m)
  }

  lemma StepKeepsAtMost(h: Heap, op: Op, m: nat)
    requires AtMost(h, m) && (op.FreeOp? ==> Live(h, op.b)) && Step(h, op).Some?
    ensures AtMost(Step(h, op).value, m)
  {
  }

  /** Pieces only ever get smaller: whatever is freed, a request for more than the longest piece there was
      at the start of a run is refused at its end. */
  lemma {:induction false} PiecesNeverGrow(h: Heap, ops: seq<Op>, m: nat, size: u64)
    requires AtMost(h, m) && Exec(h, ops).Some?
    ensures AtMost(Exec(h, ops).value, m)
    ensures m < size + HEADER < TWO64 ==> Malloc(Exec(h, ops).value, size).1 == None
  {
    if ops != [] {
      var last := |ops| - 1;
      PiecesNeverGrow(h, ops[..last], m, size);
      StepKeepsAtMost(Exec(h, ops[..last]).value, ops[last], m);
    }
  }

  /** Two blocks side by side, both freed: their bytes are free and adjacent, but a request that only both
      together could serve is refused. */
  lemma NeighboursAreNotMerged(h: Heap, a: nat, b: nat, size: u64)
    requires |h.nodes| == 1 && h.blocks == map[] && h.cells == {} && h.nodes[0].len < TWO64
    requires a >= CELL && b >= HEADER && a + b + 2 * CELL <= h.nodes[0].len
    requires a - CELL < size + HEADER && b < size + HEADER && h.nodes[0].len - a - b - CELL < size + HEADER < TWO64
    ensures var base := h.nodes[0].base;
            var t := Exec(h, [AllocOp(a - HEADER), AllocOp(b - HEADER), FreeOp(base), FreeOp(base + a)]);
            && t.Some? && |t.value.nodes| == 3
            && t.value.nodes[1].base + t.value.nodes[1].len == t.value.nodes[0].base == base + a
            && t.value.nodes[1].len == a - CELL && t.value.nodes[0].len == b
            && Malloc(t.value, size).1 == None
  {
    hide Exec, Step;
    var n := h.nodes[0];
    var a1, a2, f1, f2 := AllocOp(a - HEADER), AllocOp(b - HEADER), FreeOp(n.base), FreeOp(n.base + a);
    var h1 := Heap([FreeNode(n.at, n.base + a, n.len - a)], map[n.base := a], {});
    var h2 := Heap([FreeNode(n.at, n.base + a + b, n.len - a - b)], map[n.base := a, n.base + a := b], {});
    TwoMallocs(h, h1, h2, a, b);
    var h3 := FirstFree(h2, n.base, n.at, n.len, a, b);
    var h4 := SecondFree(h3, n.base, n.len, a, b);
    EmptyExec(h);
    ExecAppend(h, [], a1);
    assert [] + [a1] == [a1] && [a1] + [a2] == [a1, a2] && [a1, a2] + [f1] == [a1, a2, f1];
    ExecAppend(h, [a1], a2);
    ExecAppend(h, [a1, a2], f1);
    ExecAppend(h, [a1, a2, f1], f2);
    assert [a1, a2, f1] + [f2] == [a1, a2, f1, f2];
  }

  lemma TwoMallocs(h: Heap, h1: Heap, h2: Heap, a: nat, b: nat)
    requires |h.nodes| == 1 && h.blocks == map[] && h.cells == {} && h.nodes[0].len < TWO64
    requires a >= CELL && b >= HEADER && a + b + 2 * CELL <= h.nodes[0].len
    requires var n := h.nodes[0];
             && h1 == Heap([FreeNode(n.at, n.base + a, n.len - a)], map[n.base := a], {})
             && h2 == Heap([FreeNode(n.at, n.base + a + b, n.len - a - b)], map[n.base := a, n.base + a := b], {})
    ensures Step(h, AllocOp(a - HEADER)) == Some(h1) && Step(h1, AllocOp(b - HEADER)) == Some(h2)
  {
    FirstFitIs(h.nodes, a, 0);
    assert Split(h, 0, a) == h1;
    FirstFitIs(h1.nodes, b, 0);
    assert Split(h1, 0, b) == h2;
  }

  lemma FirstFree(h: Heap, base: nat, at: nat, len: nat, a: nat, b: nat) returns (t: Heap)
    requires a >= CELL && b >= HEADER && a + b + 2 * CELL <= len < TWO64
    requires h == Heap([FreeNode(at, base + a + b, len - a - b)], map[base := a, base + a := b], {})
    ensures Step(h, FreeOp(base)) == Some(t) && Live(t, base + a) && t.blocks[base + a] == b
    ensures |t.nodes| == 2 && t.nodes[0].base == base && t.nodes[0].len == a && t.nodes[1].len == len - a - b - CELL
  {
    FirstFitIs(h.nodes, CELL, 0);
    t := Step(h, FreeOp(base)).value;
  }

  lemma SecondFree(h: Heap, base: nat, len: nat, a: nat, b: nat) returns (t: Heap)
    requires a >= CELL && b >= HEADER && Live(h, base + a) && h.blocks[base + a] == b
    requires |h.nodes| == 2 && h.nodes[0].base == base && h.nodes[0].len == a && h.nodes[1].len == len - a - b - CELL
    ensures Step(h, FreeOp(base + a)) == Some(t) && |t.nodes| == 3
    ensures t.nodes[0].base == base + a && t.nodes[0].len == b && t.nodes[2].len == len - a - b - CELL
    ensures t.nodes[1].base == base + CELL && t.nodes[1].len == a - CELL
  {
    FirstFitIs(h.nodes, CELL, 0);
    t := Step(h, FreeOp(base + a)).value;
  }

  lemma EmptyExec(h: Heap)
    ensures Exec(h, []) == Some(h)
  {
  }
}
