/**
 The memory pool: a list of chunks, of which only the head serves allocations, and the
 blocks handed out so far. Addresses are numbers; what the base allocator answers is an
 argument, constrained only as any allocator is: a fresh, aligned stretch of memory.
 */
module Pool {
  import opened Bytes
  import opened Json

  const ALIGNMENT: nat := 8
  const CHUNK_HEADER: nat := 24
  const SHARED_DATA: nat := 32

  function Align(size: nat): (a: nat)
    ensures Aligned(a) && size <= a < size + ALIGNMENT
    ensures Aligned(size) ==> a == size
  {
    (size + 7) / 8 * 8
  }

  predicate Aligned(n: nat) {
    n % 8 == 0
  }

  /** `addr` is where the chunk's buffer begins; the header lies below it. */
  datatype Chunk = Chunk(addr: nat, capacity: nat, size: nat)

  datatype Block = Block(addr: nat, size: nat)

  datatype State = State(chunkCapacity: nat, chunks: seq<Chunk>, blocks: seq<Block>)

  // ---------- the operations ----------

  /** What the base allocator may answer to a request for a chunk: a stretch apart from all others. */
  predicate Apart(c: Chunk, d: Chunk) {
    c.addr + c.capacity + CHUNK_HEADER <= d.addr || d.addr + d.capacity + CHUNK_HEADER <= c.addr
  }

  predicate Grantable(s: State, capacity: nat, addr: nat) {
    && Aligned(addr) && CHUNK_HEADER <= addr
    && forall i :: 0 <= i < |s.chunks| ==> Apart(s.chunks[i], Chunk(addr, capacity, 0))
  }

  function ChunkFor(s: State, size: nat): nat {
    if s.chunkCapacity > size then s.chunkCapacity else size
  }

  /** The answer, if there is one, is a proper one for the chunk that an allocation of that size may need. */
  predicate ProperAnswer(s: State, size: nat, answer: Option<nat>) {
    answer.Some? ==> Grantable(s, ChunkFor(s, Align(size)), answer.value)
  }

  function Take(s: State, size: nat): (State, Option<nat>)
    requires s.chunks != []
  {
    var head := s.chunks[0];
    var addr := head.addr + head.size;
    (s.(chunks := s.chunks[0 := head.(size := head.size + size)], blocks := s.blocks + [Block(addr, size)]), Some(addr))
  }

  function Allocated(s: State, size: nat, answer: Option<nat>): (State, Option<nat>)
    requires s.chunks != []
  {
    if size == 0 then (s, None)
    else
      var a := Align(size);
      if s.chunks[0].size + a <= s.chunks[0].capacity then Take(s, a)
      else if answer.None? then (s, None)
      else Take(s.(chunks := [Chunk(answer.value, ChunkFor(s, a), 0)] + s.chunks), a)
  }

  /** The block at an address, if that address was handed out. */
  function BlockAt(s: State, addr: nat): (i: Option<nat>)
    ensures i.Some? ==> i.value < |s.blocks| && s.blocks[i.value].addr == addr
    ensures i.None? ==> forall k :: 0 <= k < |s.blocks| ==> s.blocks[k].addr != addr
  {
    FindBlock(s.blocks, addr)
  }

  function FindBlock(blocks: seq<Block>, addr: nat): (i: Option<nat>)
    ensures i.Some? ==> i.value < |blocks| && blocks[i.value].addr == addr
    ensures i.None? ==> forall k :: 0 <= k < |blocks| ==> blocks[k].addr != addr
  {
    if blocks == [] then None
    else if blocks[0].addr == addr then Some(0)
    else
      var i := FindBlock(blocks[1..], addr);
      if i.None? then None else assert blocks[1..][i.value] == blocks[i.value + 1]; Some(i.value + 1)
  }

  /** The block may be grown where it lies: it ends the head chunk and there is room. */
  predicate Extensible(s: State, ptr: nat, original: nat, size: nat)
    requires s.chunks != []
  {
    var head := s.chunks[0];
    original < size && ptr + original == head.addr + head.size && head.size + (size - original) <= head.capacity
  }

  function Extend(s: State, ptr: nat, original: nat, size: nat): State
    requires s.chunks != [] && BlockAt(s, ptr).Some? && original <= size
  {
    var i := BlockAt(s, ptr).value;
    s.(chunks := s.chunks[0 := s.chunks[0].(size := s.chunks[0].size + (size - original))],
       blocks := s.blocks[i := Block(ptr, size)])
  }

  function Reallocated(s: State, ptr: Option<nat>, originalSize: nat, newSize: nat, answer: Option<nat>)
    : (State, Option<nat>)
    requires s.chunks != [] && (ptr.Some? ==> BlockAt(s, ptr.value).Some?)
  {
    if ptr.None? then Allocated(s, newSize, answer)
    else if newSize == 0 then (s, None)
    else
      var original, size := Align(originalSize), Align(newSize);
      if original >= size then (s, ptr)
      else if Extensible(s, ptr.value, original, size) then (Extend(s, ptr.value, original, size), ptr)
      else Allocated(s, size, answer)
  }

  function Cleared(s: State): State
    requires s.chunks != []
  {
    s.(chunks := [s.chunks[|s.chunks| - 1].(size := 0)], blocks := [])
  }

  function TotalSize(chunks: seq<Chunk>): nat {
    if chunks == [] then 0 else chunks[0].size + TotalSize(chunks[1..])
  }

  function TotalCapacity(chunks: seq<Chunk>): nat {
    if chunks == [] then 0 else chunks[0].capacity + TotalCapacity(chunks[1..])
  }

  // ---------- the invariant ----------

  predicate GoodChunk(c: Chunk) {
    Aligned(c.addr) && Aligned(c.size) && CHUNK_HEADER <= c.addr && c.size <= c.capacity
  }

  predicate GoodChunks(chunks: seq<Chunk>) {
    && chunks != []
    && (forall i :: 0 <= i < |chunks| ==> GoodChunk(chunks[i]))
    && (forall i, j :: 0 <= i < j < |chunks| ==> Apart(chunks[i], chunks[j]))
  }

  /** The block lies in the used part of the chunk. */
  predicate Inside(b: Block, c: Chunk) {
    c.addr <= b.addr && b.addr + b.size <= c.addr + c.size
  }

  predicate Placed(b: Block, chunks: seq<Chunk>) {
    exists i :: 0 <= i < |chunks| && Inside(b, chunks[i])
  }

  predicate GoodBlock(b: Block, chunks: seq<Chunk>) {
    Aligned(b.addr) && Aligned(b.size) && 0 < b.size && Placed(b, chunks)
  }

  predicate Disjoint(b: Block, c: Block) {
    b.addr + b.size <= c.addr || c.addr + c.size <= b.addr
  }

  predicate GoodBlocks(s: State) {
    && (forall i :: 0 <= i < |s.blocks| ==> GoodBlock(s.blocks[i], s.chunks))
    && (forall i, j :: 0 <= i < j < |s.blocks| ==> Disjoint(s.blocks[i], s.blocks[j]))
  }

  /** Every block handed out is aligned, lies in the used part of one chunk, and shares no byte with another. */
  predicate Invariant(s: State) {
    GoodChunks(s.chunks) && GoodBlocks(s)
  }

  lemma AddChunkKeeps(s: State, capacity: nat, addr: nat)
    requires Invariant(s) && Grantable(s, capacity, addr)
    ensures Invariant(s.(chunks := [Chunk(addr, capacity, 0)] + s.chunks))
  {
    var chunks := [Chunk(addr, capacity, 0)] + s.chunks;
    assert forall i :: 0 < i < |chunks| ==> chunks[i] == s.chunks[i - 1];
    forall k | 0 <= k < |s.blocks| ensures Placed(s.blocks[k], chunks) {
      assert GoodBlock(s.blocks[k], s.chunks);
      var i :| 0 <= i < |s.chunks| && Inside(s.blocks[k], s.chunks[i]);
      assert Inside(s.blocks[k], chunks[i + 1]);
    }
  }

  /** A block that lies in some chunk lies below the free part of the head, or in a chunk apart from it. */
  lemma BelowFree(s: State, b: Block)
    requires GoodChunks(s.chunks) && Placed(b, s.chunks) && 0 < b.size
    ensures var head := s.chunks[0];
            b.addr + b.size <= head.addr + head.size || head.addr + head.capacity <= b.addr
    ensures var head := s.chunks[0];
            b.addr + b.size == head.addr + head.size ==> Inside(b, head)
  {
    var i :| 0 <= i < |s.chunks| && Inside(b, s.chunks[i]);
    assert GoodChunk(s.chunks[i]) && GoodChunk(s.chunks[0]);
    if i > 0 {
      assert Apart(s.chunks[0], s.chunks[i]);
    }
  }

  lemma GrowHead(s: State, more: nat)
    requires Invariant(s) && Aligned(more) && s.chunks[0].size + more <= s.chunks[0].capacity
    ensures var chunks := s.chunks[0 := s.chunks[0].(size := s.chunks[0].size + more)];
            GoodChunks(chunks) && forall b :: GoodBlock(b, s.chunks) ==> GoodBlock(b, chunks)
  {
    var chunks := s.chunks[0 := s.chunks[0].(size := s.chunks[0].size + more)];
    assert forall i :: 0 < i < |chunks| ==> chunks[i] == s.chunks[i];
    assert GoodChunk(s.chunks[0]);
    forall j | 0 < j < |chunks| ensures Apart(chunks[0], chunks[j]) {
      assert Apart(s.chunks[0], s.chunks[j]);
    }
    forall b | GoodBlock(b, s.chunks) ensures GoodBlock(b, chunks) {
      var i :| 0 <= i < |s.chunks| && Inside(b, s.chunks[i]);
      assert Inside(b, chunks[i]);
    }
  }

  lemma TakeKeeps(s: State, size: nat)
    requires Invariant(s) && Aligned(size) && 0 < size && s.chunks[0].size + size <= s.chunks[0].capacity
    ensures Invariant(Take(s, size).0)
  {
    hide Placed, Apart;
    var head := s.chunks[0];
    var chunks, b := s.chunks[0 := head.(size := head.size + size)], Block(head.addr + head.size, size);
    assert GoodChunk(head);
    GrowHead(s, size);
    InsideIsPlaced(b, chunks);
    forall i | 0 <= i < |s.blocks| ensures Disjoint(s.blocks[i], b) && GoodBlock(s.blocks[i], chunks) {
      assert GoodBlock(s.blocks[i], s.chunks);
      BelowFree(s, s.blocks[i]);
    }
    AppendKeeps(s, chunks, b);
  }

  lemma AppendKeeps(s: State, chunks: seq<Chunk>, b: Block)
    requires GoodBlocks(s) && GoodChunks(chunks) && GoodBlock(b, chunks)
    requires forall i :: 0 <= i < |s.blocks| ==> Disjoint(s.blocks[i], b) && GoodBlock(s.blocks[i], chunks)
    ensures Invariant(s.(chunks := chunks, blocks := s.blocks + [b]))
  {
    hide GoodBlock, Disjoint, GoodChunks;
    var blocks := s.blocks + [b];
    assert forall i :: 0 <= i < |s.blocks| ==> blocks[i] == s.blocks[i];
  }

  lemma MallocKeeps(s: State, size: nat, answer: Option<nat>)
    requires Invariant(s) && ProperAnswer(s, size, answer)
    ensures var (t, ptr) := Allocated(s, size, answer);
            && Invariant(t)
            && (ptr.None? ==> t == s && (size == 0 || answer.None?))
            && (ptr.Some? ==> size > 0 && Holds(t, ptr.value, size)
                              && |t.blocks| == |s.blocks| + 1 && t.blocks[..|s.blocks|] == s.blocks
                              && t.blocks[|s.blocks|] == Block(ptr.value, Align(size)))
  {
    assert s.chunks != [];
    hide Invariant, Align;
    var a := Align(size);
    if size > 0 && s.chunks[0].size + a <= s.chunks[0].capacity {
      TakeKeeps(s, a);
    } else if size > 0 && answer.Some? {
      AddChunkKeeps(s, ChunkFor(s, a), answer.value);
      TakeKeeps(s.(chunks := [Chunk(answer.value, ChunkFor(s, a), 0)] + s.chunks), a);
    }
    var (t, ptr) := Allocated(s, size, answer);
    if ptr.Some? {
      assert t.blocks[|s.blocks|] == Block(ptr.value, a);
    }
  }

  /** Callers pass the size they last asked for, which the block is never smaller than. */
  predicate Owned(s: State, ptr: Option<nat>, originalSize: nat) {
    ptr.Some? ==> BlockAt(s, ptr.value).Some? && Align(originalSize) <= s.blocks[BlockAt(s, ptr.value).value].size
  }

  /**
   The test for the last block is exact: only a block that really ends the head chunk passes it, with
   its true size.
   */
  lemma ExtensibleIsLast(s: State, ptr: nat, original: nat, size: nat)
    requires Invariant(s) && BlockAt(s, ptr).Some? && original <= s.blocks[BlockAt(s, ptr).value].size
    requires Extensible(s, ptr, original, size)
    ensures s.blocks[BlockAt(s, ptr).value] == Block(ptr, original) && Inside(Block(ptr, original), s.chunks[0])
  {
    var b := s.blocks[BlockAt(s, ptr).value];
    assert GoodBlock(b, s.chunks);
    BelowFree(s, b);
    assert GoodChunk(s.chunks[0]);
  }

  lemma ExtendKeeps(s: State, ptr: nat, original: nat, size: nat)
    requires Invariant(s) && BlockAt(s, ptr).Some? && original <= s.blocks[BlockAt(s, ptr).value].size
    requires Aligned(original) && Aligned(size) && Extensible(s, ptr, original, size)
    ensures Invariant(Extend(s, ptr, original, size))
  {
    hide BlockAt, Placed;
    ExtensibleIsLast(s, ptr, original, size);
    var t := Extend(s, ptr, original, size);
    var i := BlockAt(s, ptr).value;
    var b := Block(ptr, size);
    GrowHead(s, size - original);
    InsideIsPlaced(b, t.chunks);
    assert GoodBlock(s.blocks[i], s.chunks);
    assert forall k :: 0 <= k < |t.blocks| && k != i ==> t.blocks[k] == s.blocks[k];
    forall k | 0 <= k < |s.blocks| && k != i ensures Disjoint(s.blocks[k], b) && Disjoint(b, s.blocks[k]) {
      ApartFromExtended(s, k, i, b);
    }
  }

  lemma InsideIsPlaced(b: Block, chunks: seq<Chunk>)
    requires chunks != [] && Inside(b, chunks[0])
    ensures Placed(b, chunks)
  {
  }

  /** A block that grows into the free part of the head meets no other block. */
  lemma ApartFromExtended(s: State, k: nat, i: nat, b: Block)
    requires Invariant(s) && k < |s.blocks| && i < |s.blocks| && k != i
    requires s.blocks[i].addr == b.addr && s.blocks[i].size < b.size
    requires s.blocks[i].addr + s.blocks[i].size == s.chunks[0].addr + s.chunks[0].size
    requires b.addr + b.size <= s.chunks[0].addr + s.chunks[0].capacity
    ensures Disjoint(s.blocks[k], b) && Disjoint(b, s.blocks[k])
  {
    assert GoodBlock(s.blocks[k], s.chunks);
    BelowFree(s, s.blocks[k]);
    assert if k < i then Disjoint(s.blocks[k], s.blocks[i]) else Disjoint(s.blocks[i], s.blocks[k]);
  }

  /** The blocks handed out before are still there, but for the one at the address, which may have grown. */
  predicate KeepsBlocks(s: State, t: State, grown: Option<nat>) {
    && |s.blocks| <= |t.blocks|
    && forall i :: 0 <= i < |s.blocks| ==>
                     t.blocks[i] == s.blocks[i] || (grown.Some? && s.blocks[i].addr == grown.value)
  }

  lemma ReallocKeeps(s: State, ptr: Option<nat>, originalSize: nat, newSize: nat, answer: Option<nat>)
    requires Invariant(s) && Owned(s, ptr, originalSize) && ProperAnswer(s, newSize, answer)
    ensures var (t, r) := Reallocated(s, ptr, originalSize, newSize, answer);
            && Invariant(t)
            && (r.Some? ==> newSize > 0 && Holds(t, r.value, newSize))
            && (r.None? ==> t == s && (newSize == 0 || answer.None?))
            && (ptr.Some? && 0 < newSize <= originalSize ==> (t, r) == (s, ptr))
            && KeepsBlocks(s, t, if r == ptr then ptr else None)
  {
    assert s.chunks != [];
    hide Invariant, Align, Extend, Allocated, Holds, ProperAnswer, BlockAt, FindBlock;
    if ptr.None? {
      MallocMakes(s, newSize, answer);
    } else if newSize > 0 {
      if Align(originalSize) < Align(newSize) {
        if newSize <= originalSize {
          AlignIsMonotone(newSize, originalSize);
        }
        GrowingKeeps(s, ptr.value, originalSize, newSize, answer);
      } else {
        HoldsOwn(s, ptr.value, originalSize, newSize);
      }
    }
  }

  lemma AlignIsMonotone(a: nat, b: nat)
    requires a <= b
    ensures Align(a) <= Align(b)
  {
  }

  lemma HoldsOwn(s: State, addr: nat, originalSize: nat, newSize: nat)
    requires Owned(s, Some(addr), originalSize) && Align(newSize) <= Align(originalSize)
    ensures Holds(s, addr, newSize)
  {
    hide FindBlock;
    var i := BlockAt(s, addr).value;
    assert s.blocks[i].addr == addr && newSize <= s.blocks[i].size;
  }

  lemma MallocMakes(s: State, size: nat, answer: Option<nat>)
    requires Invariant(s) && ProperAnswer(s, size, answer)
    ensures var (t, r) := Allocated(s, size, answer);
            && Invariant(t) && KeepsBlocks(s, t, None)
            && (r.Some? ==> size > 0 && Holds(t, r.value, size))
            && (r.None? ==> t == s && (size == 0 || answer.None?))
  {
    MallocKeeps(s, size, answer);
    hide Invariant, Align, Allocated, Holds, ProperAnswer;
    var t := Allocated(s, size, answer).0;
    assert forall i :: 0 <= i < |s.blocks| ==> t.blocks[..|s.blocks|][i] == t.blocks[i];
  }

  lemma GrowingKeeps(s: State, ptr: nat, originalSize: nat, newSize: nat, answer: Option<nat>)
    requires Invariant(s) && Owned(s, Some(ptr), originalSize) && ProperAnswer(s, newSize, answer)
    requires 0 < newSize && Align(originalSize) < Align(newSize)
    ensures var (t, r) := Reallocated(s, Some(ptr), originalSize, newSize, answer);
            && Invariant(t)
            && (r.Some? ==> Holds(t, r.value, newSize))
            && (r.None? ==> t == s && answer.None?)
            && KeepsBlocks(s, t, if r == Some(ptr) then r else None)
  {
    assert s.chunks != [];
    hide Invariant, Extend, Allocated, BlockAt, FindBlock;
    var original, size := Align(originalSize), Align(newSize);
    assert newSize <= size && Align(size) == size;
    hide Align;
    if Extensible(s, ptr, original, size) {
      ExtendKeeps(s, ptr, original, size);
      ExtendedBlock(s, ptr, original, size);
    } else {
      MallocMakes(s, size, answer);
    }
  }

  /** A block of at least that size has been handed out at the address. */
  ghost predicate Holds(s: State, addr: nat, size: nat) {
    exists i :: 0 <= i < |s.blocks| && s.blocks[i].addr == addr && size <= s.blocks[i].size
  }

  lemma ExtendedBlock(s: State, ptr: nat, original: nat, size: nat)
    requires s.chunks != [] && BlockAt(s, ptr).Some? && original <= size
    ensures var t := Extend(s, ptr, original, size);
            && Holds(t, ptr, size) && |t.blocks| == |s.blocks|
            && forall i :: 0 <= i < |s.blocks| ==> t.blocks[i] == s.blocks[i] || s.blocks[i].addr == ptr
  {
    hide FindBlock;
    var i := BlockAt(s, ptr).value;
    assert Extend(s, ptr, original, size).blocks[i] == Block(ptr, size);
  }

  lemma ClearKeeps(s: State)
    requires Invariant(s)
    ensures Invariant(Cleared(s))
  {
    assert GoodChunk(s.chunks[|s.chunks| - 1]);
  }

  // ---------- whole runs ----------

  datatype Call =
    | DoMalloc(size: nat, answer: Option<nat>)
    | DoRealloc(ptr: Option<nat>, originalSize: nat, newSize: nat, answer: Option<nat>)
    | DoClear

  predicate Allowed(s: State, c: Call) {
    match c
    case DoMalloc(size, answer) => ProperAnswer(s, size, answer)
    case DoRealloc(ptr, originalSize, newSize, answer) =>
      Owned(s, ptr, originalSize) && ProperAnswer(s, newSize, answer)
    case DoClear => true
  }

  /** The state after a run of calls, if each was allowed where it was made. */
  function After(s: State, calls: seq<Call>): Option<State>
    requires s.chunks != []
    decreases |calls|
  {
    if calls == [] then Some(s)
    else
      var n := |calls| - 1;
      var t := After(s, calls[..n]);
      if t.None? || t.value.chunks == [] || !Allowed(t.value, calls[n]) then None
      else
        match calls[n]
        case DoMalloc(size, answer) => Some(Allocated(t.value, size, answer).0)
        case DoRealloc(ptr, originalSize, newSize, answer) =>
          Some(Reallocated(t.value, ptr, originalSize, newSize, answer).0)
        case DoClear => Some(Cleared(t.value))
  }

  /** Main result: over every run the blocks stay aligned, in place and apart, and no more is used than there is. */
  lemma {:induction false} RunsKeepInvariant(s: State, calls: seq<Call>)
    requires Invariant(s) && After(s, calls).Some?
    ensures Invariant(After(s, calls).value)
    ensures TotalSize(After(s, calls).value.chunks) <= TotalCapacity(After(s, calls).value.chunks)
    decreases |calls|
  {
    hide GoodBlocks, Allocated, Reallocated, Cleared, ProperAnswer, Owned;
    if calls != [] {
      var n := |calls| - 1;
      RunsKeepInvariant(s, calls[..n]);
      var t := After(s, calls[..n]).value;
      match calls[n] {
        case DoMalloc(size, answer) => MallocKeeps(t, size, answer);
        case DoRealloc(ptr, originalSize, newSize, answer) => ReallocKeeps(t, ptr, originalSize, newSize, answer);
        case DoClear => ClearKeeps(t);
      }
    }
    SizeWithinCapacity(After(s, calls).value.chunks);
  }

  // ---------- nothing is lost ----------

  /** The bytes of all blocks together. */
  function BlockBytes(blocks: seq<Block>): nat {
    if blocks == [] then 0 else BlockBytes(blocks[..|blocks| - 1]) + blocks[|blocks| - 1].size
  }

  /** What counts as used is what was handed out, each block with the size it has grown to. */
  predicate Counted(s: State) {
    TotalSize(s.chunks) == BlockBytes(s.blocks)
  }

  lemma {:induction false} BlockBytesUpdate(blocks: seq<Block>, i: nat, b: Block)
    requires i < |blocks|
    ensures BlockBytes(blocks[i := b]) == BlockBytes(blocks) - blocks[i].size + b.size
  {
    var n := |blocks| - 1;
    if i < n {
      assert blocks[i := b][..n] == blocks[..n][i := b];
      BlockBytesUpdate(blocks[..n], i, b);
    } else {
      assert blocks[i := b][..n] == blocks[..n];
    }
  }

  lemma TakeCounts(s: State, size: nat)
    requires s.chunks != [] && Counted(s)
    ensures Counted(Take(s, size).0)
  {
    var t, addr := Take(s, size).0, s.chunks[0].addr + s.chunks[0].size;
    assert t.chunks[1..] == s.chunks[1..];
    assert t.blocks[..|s.blocks|] == s.blocks && t.blocks[|s.blocks|] == Block(addr, size);
  }

  lemma MallocCounts(s: State, size: nat, answer: Option<nat>)
    requires s.chunks != [] && Counted(s)
    ensures Counted(Allocated(s, size, answer).0)
  {
    hide Take, BlockBytes, Align;
    var a := Align(size);
    if size > 0 && s.chunks[0].size + a <= s.chunks[0].capacity {
      TakeCounts(s, a);
    } else if size > 0 && answer.Some? {
      var chunks := [Chunk(answer.value, ChunkFor(s, a), 0)] + s.chunks;
      assert chunks[1..] == s.chunks;
      TakeCounts(s.(chunks := chunks), a);
    }
  }

  lemma ExtendCounts(s: State, ptr: nat, original: nat, size: nat)
    requires Invariant(s) && Counted(s) && BlockAt(s, ptr).Some?
    requires original <= s.blocks[BlockAt(s, ptr).value].size && Extensible(s, ptr, original, size)
    ensures Counted(Extend(s, ptr, original, size))
  {
    ExtensibleIsLast(s, ptr, original, size);
    hide Invariant, BlockAt, Inside;
    var t := Extend(s, ptr, original, size);
    BlockBytesUpdate(s.blocks, BlockAt(s, ptr).value, Block(ptr, size));
    assert t.chunks[1..] == s.chunks[1..];
  }

  lemma ReallocCounts(s: State, ptr: Option<nat>, originalSize: nat, newSize: nat, answer: Option<nat>)
    requires Invariant(s) && Counted(s) && Owned(s, ptr, originalSize)
    ensures Counted(Reallocated(s, ptr, originalSize, newSize, answer).0)
  {
    assert s.chunks != [];
    var original, size := Align(originalSize), Align(newSize);
    hide Invariant, Align, Extend, Allocated, BlockAt, Counted;
    if ptr.None? {
      MallocCounts(s, newSize, answer);
    } else if newSize > 0 && original < size {
      if Extensible(s, ptr.value, original, size) {
        ExtendCounts(s, ptr.value, original, size);
      } else {
        MallocCounts(s, size, answer);
      }
    }
  }

  /** Main result: over every run Size() is the sum of the blocks handed out, at the sizes they have grown to. */
  lemma {:induction false} RunsCountBlocks(s: State, calls: seq<Call>)
    requires Invariant(s) && Counted(s) && After(s, calls).Some?
    ensures TotalSize(After(s, calls).value.chunks) == BlockBytes(After(s, calls).value.blocks)
    decreases |calls|
  {
    hide GoodBlocks, TotalSize, BlockBytes, Allocated, Reallocated, ProperAnswer, Owned;
    if calls != [] {
      var n := |calls| - 1;
      RunsCountBlocks(s, calls[..n]);
      RunsKeepInvariant(s, calls[..n]);
      var t := After(s, calls[..n]).value;
      match calls[n] {
        case DoMalloc(size, answer) => MallocCounts(t, size, answer);
        case DoRealloc(ptr, originalSize, newSize, answer) => ReallocCounts(t, ptr, originalSize, newSize, answer);
        case DoClear => ClearedCounts(t);
      }
    }
  }

  lemma ClearedCounts(s: State)
    requires s.chunks != []
    ensures Counted(Cleared(s))
  {
    assert Cleared(s).chunks[1..] == [];
  }

  lemma {:induction false} SizeWithinCapacity(chunks: seq<Chunk>)
    requires forall i :: 0 <= i < |chunks| ==> GoodChunk(chunks[i])
    ensures TotalSize(chunks) <= TotalCapacity(chunks)
  {
    if chunks != [] {
      SizeWithinCapacity(chunks[1..]);
      assert GoodChunk(chunks[0]);
    }
  }

  // ---------- the allocator itself ----------

  /**
   The chunk list is a sequence, head first; `blocks` records what has been handed out and is not part
   of the program.
   */
  class MemoryPoolAllocator {
    const chunkCapacity: nat
    const memory: array<byte>
    var chunks: seq<Chunk>
    ghost var blocks: seq<Block>

    ghost function Snapshot(): State
      reads this
    {
      State(chunkCapacity, chunks, blocks)
    }

    /** Every chunk's buffer is part of the memory. */
    ghost predicate Valid()
      reads this
    {
      Invariant(Snapshot()) && forall i :: 0 <= i < |chunks| ==> chunks[i].addr + chunks[i].capacity <= memory.Length
    }

    /** Over a buffer the caller supplies: aligned first, then the shared data, a header and the first chunk. */
    constructor (memory: array<byte>, buffer: nat, size: nat, chunkCapacity: nat)
      requires buffer + size <= memory.Length && Align(buffer) - buffer + SHARED_DATA + CHUNK_HEADER <= size
      ensures Valid() && this.memory == memory && this.chunkCapacity == chunkCapacity && blocks == []
      ensures var start := Align(buffer) + SHARED_DATA + CHUNK_HEADER;
              chunks == [Chunk(start, buffer + size - start, 0)]
    {
      this.memory := memory;
      this.chunkCapacity := chunkCapacity;
      var start := Align(buffer);
      var rest := size - (start - buffer);
      chunks := [Chunk(start + SHARED_DATA + CHUNK_HEADER, rest - SHARED_DATA - CHUNK_HEADER, 0)];
      blocks := [];
    }

    /** Without a buffer: the base allocator gives the shared data and the header of a first chunk that has no room. */
    constructor Owning(memory: array<byte>, shared: nat, chunkCapacity: nat)
      requires Aligned(shared) && shared + SHARED_DATA + CHUNK_HEADER <= memory.Length
      ensures Valid() && this.memory == memory && this.chunkCapacity == chunkCapacity && blocks == []
      ensures chunks == [Chunk(shared + SHARED_DATA + CHUNK_HEADER, 0, 0)]
    {
      this.memory := memory;
      this.chunkCapacity := chunkCapacity;
      chunks := [Chunk(shared + SHARED_DATA + CHUNK_HEADER, 0, 0)];
      blocks := [];
    }

    /** Puts a new head chunk in front, if the base allocator answers. */
    method AddChunk(capacity: nat, answer: Option<nat>) returns (ok: bool)
      requires Valid()
      requires answer.Some? ==>
                 Grantable(Snapshot(), capacity, answer.value) && answer.value + capacity <= memory.Length
      modifies this
      ensures Valid() && ok == answer.Some? && blocks == old(blocks)
      ensures chunks == if ok then [Chunk(answer.value, capacity, 0)] + old(chunks) else old(chunks)
    {
      if answer.None? {
        return false;
      }
      AddChunkKeeps(Snapshot(), capacity, answer.value);
      ghost var before := chunks;
      chunks := [Chunk(answer.value, capacity, 0)] + chunks;
      assert forall i :: 0 < i < |chunks| ==> chunks[i] == before[i - 1];
      ok := true;
    }

    method Malloc(size: nat, answer: Option<nat>) returns (ptr: Option<nat>)
      requires Valid() && ProperAnswer(Snapshot(), size, answer)
      requires answer.Some? ==> answer.value + ChunkFor(Snapshot(), Align(size)) <= memory.Length
      modifies this
      ensures Valid() && (Snapshot(), ptr) == Allocated(old(Snapshot()), size, answer)
    {
      hide Invariant, Align, Grantable;
      HasHead(Snapshot());
      if size == 0 {
        return None;
      }
      MallocKeeps(Snapshot(), size, answer);
      var a := Align(size);
      if chunks[0].size + a > chunks[0].capacity {
        var ok := AddChunk(if chunkCapacity > a then chunkCapacity else a, answer);
        if !ok {
          return None;
        }
      }
      var buffer := chunks[0].addr + chunks[0].size;
      chunks := chunks[0 := chunks[0].(size := chunks[0].size + a)];
      blocks := blocks + [Block(buffer, a)];
      ptr := Some(buffer);
    }

    /** Grows a block in place or copies it; the bytes the caller owns are kept, and no other block's bytes change. */
    method Realloc(originalPtr: Option<nat>, originalSize: nat, newSize: nat, answer: Option<nat>)
      returns (ptr: Option<nat>)
      requires Valid() && Owned(Snapshot(), originalPtr, originalSize) && ProperAnswer(Snapshot(), newSize, answer)
      requires answer.Some? ==> answer.value + ChunkFor(Snapshot(), Align(newSize)) <= memory.Length
      modifies this, memory
      ensures Valid() && (Snapshot(), ptr) == Reallocated(old(Snapshot()), originalPtr, originalSize, newSize, answer)
      ensures originalPtr.Some? && ptr.Some? ==>
                && originalPtr.value + Align(originalSize) <= memory.Length
                && ptr.value + Align(originalSize) <= memory.Length
                && memory[ptr.value..ptr.value + Align(originalSize)]
                   == old(memory[originalPtr.value..originalPtr.value + Align(originalSize)])
      ensures forall b <- old(blocks) :: b.addr + b.size <= memory.Length
                                         && memory[b.addr..b.addr + b.size] == old(memory[b.addr..b.addr + b.size])
    {
      hide Invariant, Align, BlockAt, Allocated, Extend;
      ghost var s := Snapshot();
      HasHead(s);
      BlocksInMemory(s, memory.Length);
      assert originalPtr.Some? ==> s.blocks[BlockAt(s, originalPtr.value).value] in s.blocks;
      if originalPtr.None? {
        ptr := Malloc(newSize, answer);
        return;
      }
      if newSize == 0 {
        return None;
      }
      var original, size := Align(originalSize), Align(newSize);
      if original >= size {
        return originalPtr;
      }
      if originalPtr.value + original == chunks[0].addr + chunks[0].size {
        var increment := size - original;
        if chunks[0].size + increment <= chunks[0].capacity {
          GrowInPlace(originalPtr.value, original, size);
          return originalPtr;
        }
      }
      ptr := MoveBlock(originalPtr.value, original, size, answer);
    }

    method GrowInPlace(from: nat, original: nat, size: nat)
      requires Valid() && chunks != [] && BlockAt(Snapshot(), from).Some?
      requires original <= blocks[BlockAt(Snapshot(), from).value].size && Aligned(original) && Aligned(size)
      requires Extensible(Snapshot(), from, original, size)
      modifies this
      ensures Valid() && Snapshot() == Extend(old(Snapshot()), from, original, size)
    {
      hide Invariant, BlockAt;
      ghost var s := Snapshot();
      ExtendKeeps(s, from, original, size);
      chunks := chunks[0 := chunks[0].(size := chunks[0].size + (size - original))];
      blocks := Extend(s, from, original, size).blocks;
    }

    /** The last resort of `Realloc`: a new block, and the old one's bytes copied into it. */
    method MoveBlock(from: nat, original: nat, size: nat, answer: Option<nat>) returns (ptr: Option<nat>)
      requires Valid() && Aligned(size) && original < size
      requires BlockAt(Snapshot(), from).Some? && original <= blocks[BlockAt(Snapshot(), from).value].size
      requires ProperAnswer(Snapshot(), size, answer)
      requires answer.Some? ==> answer.value + ChunkFor(Snapshot(), size) <= memory.Length
      modifies this, memory
      ensures Valid() && (Snapshot(), ptr) == Allocated(old(Snapshot()), size, answer)
      ensures from + original <= memory.Length
      ensures ptr.Some? ==> ptr.value + original <= memory.Length
                            && memory[ptr.value..ptr.value + original] == old(memory[from..from + original])
      ensures forall b <- old(blocks) :: b.addr + b.size <= memory.Length
                                         && memory[b.addr..b.addr + b.size] == old(memory[b.addr..b.addr + b.size])
    {
      hide Invariant, Align, BlockAt, Allocated, ProperAnswer;
      ghost var s := Snapshot();
      BlocksInMemory(s, memory.Length);
      ghost var source := s.blocks[BlockAt(s, from).value];
      assert source in s.blocks && source.addr == from;
      AlignedIsKept(size);
      MallocKeeps(s, size, answer);
      ptr := Malloc(size, answer);
      if ptr.Some? {
        BlocksInMemory(Snapshot(), memory.Length);
        NewBlockApart(Snapshot(), |s.blocks|);
        assert blocks[|s.blocks|] in blocks;
        assert Disjoint(source, Block(ptr.value, size));
        Copy(from, ptr.value, original, s.blocks, size);
      }
    }

    /** `memcpy` to a block that shares no byte with the others. */
    method Copy(from: nat, to: nat, count: nat, ghost others: seq<Block>, ghost size: nat)
      requires to + size <= memory.Length && count <= size && from + count <= memory.Length
      requires Disjoint(Block(from, count), Block(to, size))
      requires forall b <- others :: b.addr + b.size <= memory.Length && Disjoint(b, Block(to, size))
      modifies memory
      ensures memory[to..to + count] == old(memory[from..from + count])
      ensures forall b <- others :: memory[b.addr..b.addr + b.size] == old(memory[b.addr..b.addr + b.size])
    {
      ghost var before := memory[..];
      var i := 0;
      while i < count
        invariant 0 <= i <= count
        invariant Outside(before, memory[..], to, size)
        invariant memory[to..to + i] == before[from..from + i]
      {
        ghost var now := memory[..];
        SameByte(before, now, to, size, from, count, i);
        memory[to + i] := memory[from + i];
        OutsideKept(before, now, to, size, i, before[from + i]);
        assert memory[..] == now[to + i := before[from + i]];
        assert memory[to..to + i + 1] == now[to..to + i] + [before[from + i]];
        assert before[from..from + i + 1] == before[from..from + i] + [before[from + i]];
        i := i + 1;
      }
      forall b | b in others ensures memory[b.addr..b.addr + b.size] == old(memory[b.addr..b.addr + b.size]) {
        KeptOutside(before, memory[..], to, size, b);
        assert memory[b.addr..b.addr + b.size] == memory[..][b.addr..b.addr + b.size];
      }
    }

    /** Gives back all chunks but the first and makes that one empty. */
    method Clear()
      requires Valid()
      modifies this
      ensures Valid() && Snapshot() == Cleared(old(Snapshot()))
    {
      ClearKeeps(Snapshot());
      ghost var before := chunks;
      while |chunks| > 1
        invariant 1 <= |chunks| <= |before| && chunks == before[|before| - |chunks|..]
      {
        chunks := chunks[1..];
      }
      chunks := [chunks[0].(size := 0)];
      blocks := [];
    }

    method Capacity() returns (capacity: nat)
      ensures capacity == TotalCapacity(chunks)
      ensures Valid() ==> TotalSize(chunks) <= capacity
    {
      capacity := 0;
      var c := 0;
      while c != |chunks|
        invariant 0 <= c <= |chunks|
        invariant capacity + TotalCapacity(chunks[c..]) == TotalCapacity(chunks)
      {
        assert chunks[c..][1..] == chunks[c + 1..];
        capacity := capacity + chunks[c].capacity;
        c := c + 1;
      }
      if Valid() {
        SizeWithinCapacity(chunks);
      }
    }

    method Size() returns (size: nat)
      ensures size == TotalSize(chunks)
      ensures Valid() ==> size <= TotalCapacity(chunks)
    {
      size := 0;
      var c := 0;
      while c != |chunks|
        invariant 0 <= c <= |chunks|
        invariant size + TotalSize(chunks[c..]) == TotalSize(chunks)
      {
        assert chunks[c..][1..] == chunks[c + 1..];
        size := size + chunks[c].size;
        c := c + 1;
      }
      if Valid() {
        SizeWithinCapacity(chunks);
      }
    }
  }

  lemma AlignedIsKept(size: nat)
    requires Aligned(size)
    ensures Align(size) == size
  {
  }

  /** Two contents of the memory that agree outside a stretch. */
  predicate Outside(m: bytes, n: bytes, to: nat, size: nat) {
    |m| == |n| && forall k :: 0 <= k < |m| && !(to <= k < to + size) ==> m[k] == n[k]
  }

  lemma OutsideKept(m: bytes, n: bytes, to: nat, size: nat, i: nat, c: byte)
    requires Outside(m, n, to, size) && i < size && to + size <= |m|
    ensures Outside(m, n[to + i := c], to, size)
  {
  }

  lemma SameByte(m: bytes, n: bytes, to: nat, size: nat, from: nat, count: nat, i: nat)
    requires Outside(m, n, to, size) && i < count && from + count <= |m|
    requires Disjoint(Block(from, count), Block(to, size))
    ensures n[from + i] == m[from + i]
  {
  }

  lemma KeptOutside(m: bytes, n: bytes, to: nat, size: nat, b: Block)
    requires Outside(m, n, to, size) && b.addr + b.size <= |m| && Disjoint(b, Block(to, size))
    ensures n[b.addr..b.addr + b.size] == m[b.addr..b.addr + b.size]
  {
  }

  lemma HasHead(s: State)
    requires Invariant(s)
    ensures s.chunks != []
  {
  }

  lemma BlocksInMemory(s: State, length: nat)
    requires Invariant(s) && forall i :: 0 <= i < |s.chunks| ==> s.chunks[i].addr + s.chunks[i].capacity <= length
    ensures forall b <- s.blocks :: b.addr + b.size <= length
  {
    forall b | b in s.blocks ensures b.addr + b.size <= length {
      var k :| 0 <= k < |s.blocks| && s.blocks[k] == b;
      assert GoodBlock(s.blocks[k], s.chunks);
      var i :| 0 <= i < |s.chunks| && Inside(b, s.chunks[i]);
      assert GoodChunk(s.chunks[i]);
    }
  }

  lemma NewBlockApart(s: State, k: nat)
    requires Invariant(s) && k < |s.blocks|
    ensures forall b <- s.blocks[..k] :: Disjoint(b, s.blocks[k])
  {
  }
}
