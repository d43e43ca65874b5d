/** The layout of MemoryPoolAllocator (rapidjson/allocators.h): chunks, and the blocks handed out of
    them, over every sequence of Malloc, Realloc and Clear. size_t has 64 bits. */
module Pool {
  import opened Json

  const TWO_64: int := 0x1_0000_0000_0000_0000

  /** The largest object that fits an address space of 64 bits (PTRDIFF_MAX). */
  const MAX_SIZE: int := 0x7FFF_FFFF_FFFF_FFFF

  /** RAPIDJSON_ALIGN(sizeof(ChunkHeader)). */
  const HEADER: nat := 24

  function Wrap(x: nat): nat { x % TWO_64 }

  /** RAPIDJSON_ALIGN on size_t. */
  function Align(x: nat): nat { Wrap(x + 7) / 8 * 8 }

  /** The least multiple of 8 that is not below x. */
  predicate IsRounded(x: nat, r: nat) { r % 8 == 0 && x <= r < x + 8 }

  /** Aligning rounds up exactly for sizes up to 2^64 - 8. */
  lemma AlignExactly(x: nat)
    requires x < TWO_64
    ensures Align(x) % 8 == 0
    ensures IsRounded(x, Align(x)) <==> x <= TWO_64 - 8
  {
  }

  /** Malloc's test for room in a chunk. */
  predicate HasRoom(used: nat, capacity: nat, size: nat) { !(Wrap(used + size) > capacity) }

  /** The test is right for every capacity exactly when used + size does not wrap around. */
  lemma HasRoomExactly(used: nat, size: nat)
    requires used < TWO_64 && size < TWO_64
    ensures (forall capacity: nat :: used <= capacity < TWO_64 ==>
             (HasRoom(used, capacity, size) <==> used + size <= capacity))
            <==> used + size < TWO_64
  {
    if used + size >= TWO_64 {
      assert HasRoom(used, TWO_64 - 1, size);
    }
  }

  datatype Chunk = Chunk(capacity: nat, size: nat)

  /** A block: its chunk, counted from the oldest, its offset behind the header, its rounded size. */
  datatype Block = Block(chunk: nat, offset: nat, size: nat)

  datatype Address = Address(chunk: nat, offset: nat)

  /** The chunks, the oldest first, so that the last is chunkHead_; the first may be a user buffer.
      blocks are all blocks handed out and not cleared: what Realloc moves away from is not freed. */
  datatype State = State(chunks: seq<Chunk>, blocks: seq<Block>, chunkCapacity: nat, userBuffer: bool)

  function Init(chunkCapacity: nat): State { State([], [], chunkCapacity, false) }

  /** The constructor with a user buffer, which must have room for more than a header. */
  function InitBuffer(size: nat, chunkCapacity: nat): State
    requires size > HEADER
  {
    State([Chunk(size - HEADER, 0)], [], chunkCapacity, true)
  }

  /** AddChunk; granted says whether the base allocator could serve the request. */
  function AddChunk(s: State, capacity: nat, granted: bool): Option<State> {
    if granted && Wrap(HEADER + capacity) <= MAX_SIZE then Some(s.(chunks := s.chunks + [Chunk(capacity, 0)])) else None
  }

  function Malloc(s: State, size: nat, granted: bool): (State, Option<Address>) {
    if size == 0 then (s, None)
    else
      var aligned := Align(size);
      var n := |s.chunks|;
      if n > 0 && HasRoom(s.chunks[n - 1].size, s.chunks[n - 1].capacity, aligned) then Carve(s, aligned)
      else match AddChunk(s, if s.chunkCapacity > aligned then s.chunkCapacity else aligned, granted)
        case None => (s, None)
        case Some(s') => Carve(s', aligned)
  }

  /** Takes a block from the head chunk. */
  function Carve(s: State, aligned: nat): (State, Option<Address>)
    requires s.chunks != []
  {
    var h := |s.chunks| - 1;
    var c := s.chunks[h];
    (s.(chunks := s.chunks[h := c.(size := Wrap(c.size + aligned))], blocks := s.blocks + [Block(h, c.size, aligned)]),
     Some(Address(h, c.size)))
  }

  /** The position of a block in the list. */
  function IndexOf(blocks: seq<Block>, b: Block): (k: nat)
    ensures k <= |blocks|
    ensures k < |blocks| ==> blocks[k] == b
    ensures k == |blocks| <==> b !in blocks
  {
    if blocks == [] || blocks[0] == b then 0 else 1 + IndexOf(blocks[1..], b)
  }

  function BlockAt(p: Address, originalSize: nat): Block { Block(p.chunk, p.offset, Align(originalSize)) }

  /** The block ends where the head chunk's used part ends. */
  predicate IsLast(s: State, b: Block) {
    s.chunks != [] && b.chunk == |s.chunks| - 1 && b.offset + b.size == s.chunks[b.chunk].size
  }

  predicate GrowsInPlace(s: State, b: Block, newSize: nat) {
    && b in s.blocks && IsLast(s, b) && newSize >= b.size
    && HasRoom(s.chunks[b.chunk].size, s.chunks[b.chunk].capacity, newSize - b.size)
  }

  /** What a caller says of its block: it begins at p and has at least this size. Where Realloc was asked
      for less, the block has kept its size. */
  ghost predicate IsHeld(s: State, p: Address, originalSize: nat) { HasBlock(s.blocks, p, Align(originalSize)) }

  ghost predicate HasBlock(blocks: seq<Block>, p: Address, size: nat) {
    exists b :: b in blocks && Address(b.chunk, b.offset) == p && size <= b.size
  }

  /** Realloc of a block, or of a null pointer. */
  function Realloc(s: State, p: Option<Address>, originalSize: nat, newSize: nat,
                   granted: bool): (State, Option<Address>) {
    if p.None? then Malloc(s, newSize, granted)
    else if newSize == 0 then (s, None)
    else
      var b, aligned := BlockAt(p.value, originalSize), Align(newSize);
      if b.size >= aligned then (s, p)
      else if GrowsInPlace(s, b, aligned) then (Grow(s, b, aligned), p)
      else Malloc(s, aligned, granted)
  }

  function Grow(s: State, b: Block, aligned: nat): State
    requires b in s.blocks && IsLast(s, b) && b.size <= aligned
  {
    var c := s.chunks[b.chunk];
    s.(chunks := s.chunks[b.chunk := c.(size := Wrap(c.size + (aligned - b.size)))],
       blocks := s.blocks[IndexOf(s.blocks, b) := b.(size := aligned)])
  }

  /** Clear: only an emptied user buffer stays. */
  function Clear(s: State): State {
    if s.userBuffer && s.chunks != [] then s.(chunks := [s.chunks[0].(size := 0)], blocks := [])
    else s.(chunks := [], blocks := [])
  }

  /** Size and Capacity. */
  function Size(chunks: seq<Chunk>): nat {
    if chunks == [] then 0 else Size(chunks[..|chunks| - 1]) + chunks[|chunks| - 1].size
  }

  function Capacity(chunks: seq<Chunk>): nat {
    if chunks == [] then 0 else Capacity(chunks[..|chunks| - 1]) + chunks[|chunks| - 1].capacity
  }

  function Total(blocks: seq<Block>): nat {
    if blocks == [] then 0 else Total(blocks[..|blocks| - 1]) + blocks[|blocks| - 1].size
  }

  // ----- the invariant -----

  predicate ChunkFits(c: Chunk) { c.size <= c.capacity <= MAX_SIZE && c.size % 8 == 0 }

  predicate BlockFits(s: State, b: Block) {
    && b.chunk < |s.chunks| && b.size > 0 && b.size % 8 == 0 && b.offset % 8 == 0
    && b.offset + b.size <= s.chunks[b.chunk].size
  }

  predicate Disjoint(a: Block, b: Block) {
    a.chunk != b.chunk || a.offset + a.size <= b.offset || b.offset + b.size <= a.offset
  }

  /** Chunks are used within their capacities; blocks are rounded, inside the used part of their
      chunk, pairwise disjoint, and together as large as what is used. */
  ghost predicate Valid(s: State) {
    HEADER + s.chunkCapacity < TWO_64 && ChunksFit(s) && BlocksFit(s) && AllDisjoint(s.blocks) &&
    Total(s.blocks) == Size(s.chunks)
  }

  ghost predicate ChunksFit(s: State) { forall i :: 0 <= i < |s.chunks| ==> ChunkFits(s.chunks[i]) }
  ghost predicate BlocksFit(s: State) { forall i :: 0 <= i < |s.blocks| ==> BlockFits(s, s.blocks[i]) }

  ghost predicate AllDisjoint(blocks: seq<Block>) {
    forall i, j :: 0 <= i < j < |blocks| ==> Disjoint(blocks[i], blocks[j])
  }

  // ----- every operation keeps it -----

  lemma {:induction false} SizeUpdate(chunks: seq<Chunk>, i: nat, c: Chunk)
    requires i < |chunks|
    ensures Size(chunks[i := c]) == Size(chunks) - chunks[i].size + c.size
  {
    var n, after := |chunks| - 1, chunks[i := c];
    if i == n {
      assert after[..n] == chunks[..n];
    } else {
      assert after[..n] == chunks[..n][i := c];
      SizeUpdate(chunks[..n], i, c);
    }
  }

  lemma {:induction false} TotalUpdate(blocks: seq<Block>, i: nat, b: Block)
    requires i < |blocks|
    ensures Total(blocks[i := b]) == Total(blocks) - blocks[i].size + b.size
  {
    var n, after := |blocks| - 1, blocks[i := b];
    if i == n {
      assert after[..n] == blocks[..n];
    } else {
      assert after[..n] == blocks[..n][i := b];
      TotalUpdate(blocks[..n], i, b);
    }
  }

  lemma SizeAppend(chunks: seq<Chunk>, c: Chunk)
    ensures Size(chunks + [c]) == Size(chunks) + c.size
    ensures Capacity(chunks + [c]) == Capacity(chunks) + c.capacity
  {
    assert (chunks + [c])[..|chunks|] == chunks;
  }

  lemma TotalAppend(blocks: seq<Block>, b: Block)
    ensures Total(blocks + [b]) == Total(blocks) + b.size
  {
    assert (blocks + [b])[..|blocks|] == blocks;
  }

  lemma {:induction false} SizeWithinCapacity(chunks: seq<Chunk>)
    requires forall i :: 0 <= i < |chunks| ==> ChunkFits(chunks[i])
    ensures Size(chunks) <= Capacity(chunks)
  {
    if chunks != [] { SizeWithinCapacity(chunks[..|chunks| - 1]); }
  }

  lemma DisjointAppend(blocks: seq<Block>, b: Block)
    requires AllDisjoint(blocks) && forall i :: 0 <= i < |blocks| ==> Disjoint(blocks[i], b)
    ensures AllDisjoint(blocks + [b])
  {
    hide Disjoint;
  }

  lemma DisjointUpdate(blocks: seq<Block>, k: nat, b: Block)
    requires AllDisjoint(blocks) && k < |blocks|
    requires forall i :: 0 <= i < |blocks| && i != k ==> Disjoint(blocks[i], b) && Disjoint(b, blocks[i])
    ensures AllDisjoint(blocks[k := b])
  {
    hide Disjoint;
  }

  /** Growing the used part of a chunk keeps the blocks inside. */
  lemma BlocksStillFit(s: State, h: nat, size: nat)
    requires BlocksFit(s) && h < |s.chunks| && s.chunks[h].size <= size
    ensures forall i :: 0 <= i < |s.blocks| ==>
              BlockFits(s.(chunks := s.chunks[h := s.chunks[h].(size := size)]), s.blocks[i])
  {
  }

  /** A block behind everything used so far is disjoint from all blocks. */
  lemma BehindAll(s: State, b: Block)
    requires BlocksFit(s) && b.chunk < |s.chunks| && b.offset == s.chunks[b.chunk].size
    ensures forall i :: 0 <= i < |s.blocks| ==> Disjoint(s.blocks[i], b)
  {
    assert forall i :: 0 <= i < |s.blocks| ==> BlockFits(s, s.blocks[i]);
  }

  lemma CarveKeepsValid(s: State, aligned: nat)
    requires Valid(s) && s.chunks != [] && 0 < aligned && aligned % 8 == 0
    requires var c := s.chunks[|s.chunks| - 1]; c.size + aligned <= c.capacity
    ensures Valid(Carve(s, aligned).0)
  {
    hide Size, Total, Disjoint, BlockFits, AllDisjoint;
    var h := |s.chunks| - 1;
    var c, r := s.chunks[h], Carve(s, aligned).0;
    assert ChunkFits(c);
    var b := Block(h, c.size, aligned);
    SizeUpdate(s.chunks, h, c.(size := c.size + aligned));
    TotalAppend(s.blocks, b);
    BehindAll(s, b);
    DisjointAppend(s.blocks, b);
    BlocksStillFit(s, h, c.size + aligned);
    NewFits(r, b);
    SameChunks(s.(chunks := r.chunks), r);
  }

  lemma NewFits(r: State, b: Block)
    requires b.chunk < |r.chunks| && ChunkFits(r.chunks[b.chunk]) && b.size > 0 && b.size % 8 == 0
    requires b.offset + b.size == r.chunks[b.chunk].size
    ensures BlockFits(r, b)
  {
  }

  /** Whether a block fits depends on the chunks only. */
  lemma SameChunks(s: State, r: State)
    requires s.chunks == r.chunks
    ensures forall b :: BlockFits(s, b) == BlockFits(r, b)
  {
  }

  lemma AddChunkKeepsValid(s: State, capacity: nat)
    requires Valid(s) && capacity <= MAX_SIZE
    ensures Valid(s.(chunks := s.chunks + [Chunk(capacity, 0)]))
  {
    var r := s.(chunks := s.chunks + [Chunk(capacity, 0)]);
    SizeAppend(s.chunks, Chunk(capacity, 0));
    hide Size, Total;
    forall i | 0 <= i < |s.blocks|
      ensures BlockFits(r, s.blocks[i])
    {
      assert BlockFits(s, s.blocks[i]);
    }
  }

  /** Where Malloc carves: from the head chunk if it has room, or else from a new one. */
  lemma NewChunkKeepsValid(s: State, aligned: nat, capacity: nat)
    requires Valid(s) && 0 < aligned <= capacity <= MAX_SIZE && aligned % 8 == 0
    ensures Valid(Carve(s.(chunks := s.chunks + [Chunk(capacity, 0)]), aligned).0)
  {
    hide Valid, Carve;
    AddChunkKeepsValid(s, capacity);
    CarveKeepsValid(s.(chunks := s.chunks + [Chunk(capacity, 0)]), aligned);
  }

  lemma HeadFits(s: State)
    requires Valid(s) && s.chunks != []
    ensures ChunkFits(s.chunks[|s.chunks| - 1]) && HEADER + s.chunkCapacity < TWO_64
  {
  }

  /** No sum of the sizes wraps around: rounding, adding to what is used, adding the header. */
  predicate Fits(s: State, size: nat) {
    size == 0 ||
      (size <= TWO_64 - 8
       && (s.chunks != [] ==> s.chunks[|s.chunks| - 1].size + Align(size) < TWO_64)
       && HEADER + Align(size) < TWO_64)
  }

  /** So it is for the sizes of objects. */
  lemma ObjectsFit(s: State, size: nat)
    requires Valid(s) && size <= MAX_SIZE
    ensures Fits(s, size)
  {
    if s.chunks != [] { HeadFits(s); }
  }

  lemma MallocKeepsValid(s: State, size: nat, granted: bool)
    requires Valid(s) && Fits(s, size)
    ensures Valid(Malloc(s, size, granted).0)
  {
    if size > 0 {
      assert HEADER + s.chunkCapacity < TWO_64;
      hide Valid, Carve;
      var aligned := Align(size);
      AlignExactly(size);
      var n := |s.chunks|;
      if n > 0 && HasRoom(s.chunks[n - 1].size, s.chunks[n - 1].capacity, aligned) {
        HeadFits(s);
        CarveKeepsValid(s, aligned);
      } else {
        var capacity := if s.chunkCapacity > aligned then s.chunkCapacity else aligned;
        if AddChunk(s, capacity, granted).Some? { NewChunkKeepsValid(s, aligned, capacity); }
      }
    }
  }

  /** A fresh block lies behind everything used in its chunk, and inside the capacity. */
  lemma MallocPlace(s: State, size: nat, granted: bool)
    requires Valid(s) && Fits(s, size) && Malloc(s, size, granted).1.Some?
    ensures var r, a := Malloc(s, size, granted).0, Malloc(s, size, granted).1.value;
            && a.chunk < |r.chunks| && size <= Align(size) && a.offset + Align(size) <= r.chunks[a.chunk].capacity
            && a.offset == if a.chunk < |s.chunks| then s.chunks[a.chunk].size else 0
  {
    AlignExactly(size);
    if s.chunks != [] { assert ChunkFits(s.chunks[|s.chunks| - 1]); }
  }

  /** The other blocks of the chunk end where its last block begins, or before. */
  lemma AroundLast(s: State, k: nat, size: nat)
    requires BlocksFit(s) && AllDisjoint(s.blocks) && k < |s.blocks| && IsLast(s, s.blocks[k]) && size > 0
    ensures var b := s.blocks[k].(size := size);
            forall i :: 0 <= i < |s.blocks| && i != k ==> Disjoint(s.blocks[i], b) && Disjoint(b, s.blocks[i])
  {
    var b := s.blocks[k].(size := size);
    assert BlockFits(s, s.blocks[k]);
    forall i | 0 <= i < |s.blocks| && i != k
      ensures Disjoint(s.blocks[i], b) && Disjoint(b, s.blocks[i])
    {
      assert BlockFits(s, s.blocks[i]);
      assert Disjoint(s.blocks[i], s.blocks[k]) || Disjoint(s.blocks[k], s.blocks[i]);
    }
  }

  lemma GrowKeepsValid(s: State, b: Block, aligned: nat)
    requires Valid(s) && b in s.blocks && aligned % 8 == 0 && b.size < aligned
    requires IsLast(s, b) && s.chunks[b.chunk].size + (aligned - b.size) <= s.chunks[b.chunk].capacity
    ensures Valid(Grow(s, b, aligned))
  {
    hide Size, Total, Disjoint, BlockFits, AllDisjoint, IndexOf;
    var k, c, r := IndexOf(s.blocks, b), s.chunks[b.chunk], Grow(s, b, aligned);
    assert ChunkFits(c);
    var size := c.size + (aligned - b.size);
    assert BlockFits(s, s.blocks[k]);
    Multiples(s, b, aligned);
    SizeUpdate(s.chunks, b.chunk, c.(size := size));
    TotalUpdate(s.blocks, k, b.(size := aligned));
    AroundLast(s, k, aligned);
    DisjointUpdate(s.blocks, k, b.(size := aligned));
    BlocksStillFit(s, b.chunk, size);
    NewFits(r, b.(size := aligned));
    SameChunks(s.(chunks := r.chunks), r);
  }

  lemma Multiples(s: State, b: Block, aligned: nat)
    requires BlockFits(s, b) && aligned % 8 == 0 && b.size <= aligned
    ensures (aligned - b.size) % 8 == 0
  {
  }

  /** No sum wraps around in a Realloc: neither in growing in place nor in the Malloc it may end in. */
  predicate ReallocFits(s: State, p: Option<Address>, originalSize: nat, newSize: nat) {
    if p.None? || newSize == 0 then Fits(s, newSize)
    else
      var b, aligned := BlockAt(p.value, originalSize), Align(newSize);
      newSize <= TWO_64 - 8 &&
      (b.size < aligned ==>
         (b in s.blocks && IsLast(s, b) ==> s.chunks[b.chunk].size + (aligned - b.size) < TWO_64)
         && (GrowsInPlace(s, b, aligned) || Fits(s, aligned)))
  }

  lemma ReallocKeepsValid(s: State, p: Option<Address>, originalSize: nat, newSize: nat, granted: bool)
    requires Valid(s) && ReallocFits(s, p, originalSize, newSize)
    ensures Valid(Realloc(s, p, originalSize, newSize, granted).0)
  {
    if p.None? {
      MallocKeepsValid(s, newSize, granted);
    } else if newSize > 0 {
      var b, aligned := BlockAt(p.value, originalSize), Align(newSize);
      AlignExactly(newSize);
      if b.size < aligned {
        if GrowsInPlace(s, b, aligned) {
          assert ChunkFits(s.chunks[b.chunk]);
          GrowKeepsValid(s, b, aligned);
        } else {
          MallocKeepsValid(s, aligned, granted);
        }
      }
    }
  }

  lemma ClearKeepsValid(s: State)
    requires Valid(s)
    ensures Valid(Clear(s)) && Size(Clear(s).chunks) == 0
  {
    if s.userBuffer && s.chunks != [] {
      var c := s.chunks[0];
      assert ChunkFits(c);
      assert [c.(size := 0)][..0] == [];
    }
  }

  // ----- runs -----

  datatype Step =
    | DoMalloc(size: nat, granted: bool)
    | DoRealloc(p: Option<Address>, originalSize: nat, newSize: nat, granted: bool)
    | DoClear

  /** What callers may ask for: sizes that do not wrap around, and blocks that they hold. */
  ghost predicate Allowed(s: State, t: Step) {
    match t
    case DoMalloc(size, _) => Fits(s, size)
    case DoRealloc(p, originalSize, newSize, _) =>
      ReallocFits(s, p, originalSize, newSize) && (p.Some? ==> IsHeld(s, p.value, originalSize))
    case DoClear => true
  }

  function Apply(s: State, t: Step): State {
    match t
    case DoMalloc(size, granted) => Malloc(s, size, granted).0
    case DoRealloc(p, originalSize, newSize, granted) => Realloc(s, p, originalSize, newSize, granted).0
    case DoClear => Clear(s)
  }

  ghost predicate IsRun(s: State, steps: seq<Step>)
    decreases |steps|
  {
    steps == [] || (Allowed(s, steps[0]) && IsRun(Apply(s, steps[0]), steps[1..]))
  }

  ghost function After(s: State, steps: seq<Step>): State
    requires IsRun(s, steps)
    decreases |steps|
  {
    if steps == [] then s else After(Apply(s, steps[0]), steps[1..])
  }

  lemma StepKeepsValid(s: State, t: Step)
    requires Valid(s) && Allowed(s, t)
    ensures Valid(Apply(s, t))
  {
    hide Valid, Malloc, Realloc, Clear;
    match t
    case DoMalloc(size, granted) => MallocKeepsValid(s, size, granted);
    case DoRealloc(p, originalSize, newSize, granted) => ReallocKeepsValid(s, p, originalSize, newSize, granted);
    case DoClear => ClearKeepsValid(s);
  }

  lemma {:induction false} RunKeepsValid(s: State, steps: seq<Step>)
    requires Valid(s) && IsRun(s, steps)
    ensures Valid(After(s, steps))
    decreases |steps|
  {
    hide Valid, Apply, Allowed;
    if steps != [] {
      StepKeepsValid(s, steps[0]);
      RunKeepsValid(Apply(s, steps[0]), steps[1..]);
    }
  }

  lemma InitsAreValid(chunkCapacity: nat, bufferSize: nat)
    requires HEADER + chunkCapacity < TWO_64 && HEADER < bufferSize <= MAX_SIZE
    ensures Valid(Init(chunkCapacity)) && Valid(InitBuffer(bufferSize, chunkCapacity))
  {
    assert [Chunk(bufferSize - HEADER, 0)][..0] == [];
  }

  /** After every run blocks are disjoint, rounded and inside the used part of a chunk, and Size is
      the sum of the rounded allocations, never above Capacity. */
  lemma EveryRunIsSafe(chunkCapacity: nat, bufferSize: Option<nat>, steps: seq<Step>)
    requires HEADER + chunkCapacity < TWO_64 && (bufferSize.Some? ==> HEADER < bufferSize.value <= MAX_SIZE)
    requires IsRun(if bufferSize.Some? then InitBuffer(bufferSize.value, chunkCapacity) else Init(chunkCapacity), steps)
    ensures var s :=
            After(if bufferSize.Some? then InitBuffer(bufferSize.value, chunkCapacity) else Init(chunkCapacity), steps);
            && (forall i, j :: 0 <= i < j < |s.blocks| ==> Disjoint(s.blocks[i], s.blocks[j]))
            && (forall i :: 0 <= i < |s.blocks| ==> BlockFits(s, s.blocks[i]))
            && Size(s.chunks) == Total(s.blocks) <= Capacity(s.chunks)
  {
    var s := if bufferSize.Some? then InitBuffer(bufferSize.value, chunkCapacity) else Init(chunkCapacity);
    InitsAreValid(chunkCapacity, if bufferSize.Some? then bufferSize.value else HEADER + 1);
    RunKeepsValid(s, steps);
    hide Capacity, Size, Total, BlockFits, Disjoint;
    SizeWithinCapacity(After(s, steps).chunks);
  }

  /** Realloc leaves every other block where it is; it returns the same address exactly when the
      block need not grow or can grow as the last one, and a moved block overlaps none. */
  lemma ReallocMovesExactly(s: State, p: Address, originalSize: nat, newSize: nat, granted: bool)
    requires Valid(s) && IsHeld(s, p, originalSize) && newSize > 0 && ReallocFits(s, Some(p), originalSize, newSize)
    ensures var b := BlockAt(p, originalSize);
            var r := Realloc(s, Some(p), originalSize, newSize, granted);
            && (r.1 == Some(p) <==> Align(newSize) <= b.size || GrowsInPlace(s, b, Align(newSize)))
            && (forall i :: 0 <= i < |s.blocks| && s.blocks[i] != b ==> s.blocks[i] in r.0.blocks)
            && (r.1.Some? && r.1 != Some(p) ==>
                s.blocks <= r.0.blocks && BlockAt(r.1.value, newSize) == r.0.blocks[|r.0.blocks| - 1])
  {
    var b, aligned := BlockAt(p, originalSize), Align(newSize);
    AlignExactly(newSize);
    assert Align(aligned) == aligned;
    if b.size < aligned {
      if GrowsInPlace(s, b, aligned) {
        hide Valid;
        OthersStay(s, b, aligned);
      } else {
        HeldIsElsewhere(s, p, originalSize, aligned, granted);
        hide Valid, Malloc, IsHeld;
      }
    }
  }

  lemma HeldIsElsewhere(s: State, p: Address, originalSize: nat, size: nat, granted: bool)
    requires Valid(s) && IsHeld(s, p, originalSize) && 0 < size && Fits(s, size)
    ensures var r := Malloc(s, size, granted);
            && s.blocks <= r.0.blocks
            && (r.1.Some? ==>
                r.1.value != p && |r.0.blocks| > 0 && r.0.blocks[|r.0.blocks| - 1] == BlockAt(r.1.value, size))
  {
    var held :| held in s.blocks && Address(held.chunk, held.offset) == p && Align(originalSize) <= held.size;
    assert BlockFits(s, s.blocks[IndexOf(s.blocks, held)]);
    MallocIsElsewhere(s, size, granted, held);
    hide Valid, Malloc;
  }

  lemma OthersStay(s: State, b: Block, aligned: nat)
    requires b in s.blocks && IsLast(s, b) && b.size <= aligned
    ensures forall i :: 0 <= i < |s.blocks| && s.blocks[i] != b ==> s.blocks[i] in Grow(s, b, aligned).blocks
  {
    var r := Grow(s, b, aligned);
    forall i | 0 <= i < |s.blocks| && s.blocks[i] != b
      ensures s.blocks[i] in r.blocks
    {
      assert r.blocks[i] == s.blocks[i];
    }
  }

  /** A fresh block is not at the address of an existing one. */
  lemma MallocIsElsewhere(s: State, size: nat, granted: bool, b: Block)
    requires Valid(s) && 0 < size && Fits(s, size) && BlockFits(s, b)
    ensures var r := Malloc(s, size, granted);
            && s.blocks <= r.0.blocks
            && (r.1.Some? ==>
                r.1.value != Address(b.chunk, b.offset) && |r.0.blocks| > 0 &&
                r.0.blocks[|r.0.blocks| - 1] == BlockAt(r.1.value, size))
  {
  }

  // ----- exactly when the arithmetic is safe -----

  /** The layout stays valid, and an address that is returned has a block of at least this size. */
  ghost predicate Safe(r: (State, Option<Address>), size: nat) {
    Valid(r.0) && (size > 0 && r.1.Some? ==> HasBlock(r.0.blocks, r.1.value, size))
  }

  lemma MallocIsSafe(s: State, size: nat, granted: bool)
    requires Valid(s) && Fits(s, size)
    ensures Safe(Malloc(s, size, granted), size)
  {
    MallocKeepsValid(s, size, granted);
    hide Valid, Malloc, Align;
    var r := Malloc(s, size, granted);
    if size > 0 && r.1.Some? {
      MallocIsLast(s, size, granted);
      AlignExactly(size);
      var b := BlockAt(r.1.value, size);
      assert b == r.0.blocks[|r.0.blocks| - 1];
      assert b in r.0.blocks && Address(b.chunk, b.offset) == r.1.value && size <= b.size;
    }
  }

  /** The block that is handed out is the last of the list. */
  lemma MallocIsLast(s: State, size: nat, granted: bool)
    requires size > 0 && Malloc(s, size, granted).1.Some?
    ensures var r := Malloc(s, size, granted);
            r.0.blocks != [] && r.0.blocks[|r.0.blocks| - 1] == BlockAt(r.1.value, size)
  {
    hide Align;
  }

  /** A block of size zero breaks the layout. */
  lemma EmptyIsInvalid(s: State)
    requires s.chunks != []
    ensures !Valid(Carve(s, 0).0)
  {
    var r := Carve(s, 0).0;
    assert !BlockFits(r, r.blocks[|s.blocks|]);
  }

  /** So does a block beyond the used part of its chunk. */
  lemma WrappedIsInvalid(s: State, aligned: nat)
    requires Valid(s) && s.chunks != [] && aligned < TWO_64 <= s.chunks[|s.chunks| - 1].size + aligned
    ensures !Valid(Carve(s, aligned).0)
  {
    HeadFits(s);
    var r := Carve(s, aligned).0;
    assert !BlockFits(r, r.blocks[|s.blocks|]);
  }

  /** A chunk that claims more than there can be breaks it as well. */
  lemma HugeIsInvalid(s: State, aligned: nat, capacity: nat)
    requires capacity > MAX_SIZE
    ensures !Valid(Carve(s.(chunks := s.chunks + [Chunk(capacity, 0)]), aligned).0)
  {
    var r := Carve(s.(chunks := s.chunks + [Chunk(capacity, 0)]), aligned).0;
    assert !ChunkFits(r.chunks[|s.chunks|]);
  }

  /** No chunk of the usual capacity can be had, and none is there. */
  predicate NoChunks(s: State) { s.chunks == [] && HEADER + s.chunkCapacity > MAX_SIZE }

  /** For every size_t: Malloc is safe whatever the base allocator answers exactly when no sum wraps
      around, or a size that is rounded down to nothing finds no chunk. */
  lemma MallocSafeExactly(s: State, size: nat)
    requires Valid(s) && size < TWO_64
    ensures (forall granted :: Safe(Malloc(s, size, granted), size)) <==>
            Fits(s, size) || (size > TWO_64 - 8 && NoChunks(s))
  {
    if Fits(s, size) {
      forall granted
        ensures Safe(Malloc(s, size, granted), size)
      {
        MallocIsSafe(s, size, granted);
      }
    } else if size > TWO_64 - 8 && NoChunks(s) {
      assert forall granted :: Malloc(s, size, granted) == (s, None);
    } else {
      MallocIsUnsafe(s, size);
    }
  }

  lemma MallocIsUnsafe(s: State, size: nat)
    requires Valid(s) && size < TWO_64 && !Fits(s, size) && (size > TWO_64 - 8 ==> !NoChunks(s))
    ensures !Valid(Malloc(s, size, true).0)
  {
    AlignExactly(size);
    if size > TWO_64 - 8 {
      EmptyIsHandedOut(s, size);
    } else if s.chunks != [] && s.chunks[|s.chunks| - 1].size + Align(size) >= TWO_64 {
      HeadFits(s);
      WrappedIsInvalid(s, Align(size));
      hide Valid, Carve;
    } else {
      HugeIsHandedOut(s, size);
    }
  }

  lemma HugeIsHandedOut(s: State, size: nat)
    requires Valid(s) && size < TWO_64 && HEADER + Align(size) >= TWO_64
    requires s.chunks != [] ==> s.chunks[|s.chunks| - 1].size + Align(size) < TWO_64
    ensures !Valid(Malloc(s, size, true).0)
  {
    if s.chunks != [] { HeadFits(s); }
    assert size > 0 && HEADER + s.chunkCapacity < TWO_64;
    hide Valid, Carve, Align;
    HugeIsInvalid(s, Align(size), Align(size));
  }

  lemma EmptyIsHandedOut(s: State, size: nat)
    requires Valid(s) && TWO_64 - 8 < size < TWO_64 && !NoChunks(s)
    ensures !Valid(Malloc(s, size, true).0)
  {
    assert Align(size) == 0;
    if s.chunks != [] {
      HeadFits(s);
      EmptyIsInvalid(s);
      hide Valid, Carve, Align;
      assert HasRoom(s.chunks[|s.chunks| - 1].size, s.chunks[|s.chunks| - 1].capacity, 0);
    } else {
      EmptyIsInvalid(s.(chunks := s.chunks + [Chunk(s.chunkCapacity, 0)]));
      hide Valid, Carve, Align;
      assert AddChunk(s, s.chunkCapacity, true) == Some(s.(chunks := s.chunks + [Chunk(s.chunkCapacity, 0)]));
    }
  }

  /** The same for Realloc of a block that the caller holds. */
  lemma ReallocSafeExactly(s: State, p: Address, originalSize: nat, newSize: nat)
    requires Valid(s) && IsHeld(s, p, originalSize) && newSize < TWO_64
    ensures (forall granted :: Safe(Realloc(s, Some(p), originalSize, newSize, granted), newSize))
            <==> ReallocFits(s, Some(p), originalSize, newSize)
  {
    if ReallocFits(s, Some(p), originalSize, newSize) {
      forall granted
        ensures Safe(Realloc(s, Some(p), originalSize, newSize, granted), newSize)
      {
        ReallocIsSafe(s, p, originalSize, newSize, granted);
      }
    } else {
      ReallocIsUnsafe(s, p, originalSize, newSize);
    }
  }

  lemma ReallocIsSafe(s: State, p: Address, originalSize: nat, newSize: nat, granted: bool)
    requires Valid(s) && IsHeld(s, p, originalSize) && ReallocFits(s, Some(p), originalSize, newSize)
    ensures Safe(Realloc(s, Some(p), originalSize, newSize, granted), newSize)
  {
    ReallocKeepsValid(s, Some(p), originalSize, newSize, granted);
    hide Valid;
    var b, aligned := BlockAt(p, originalSize), Align(newSize);
    if newSize > 0 {
      AlignExactly(newSize);
      if b.size < aligned && GrowsInPlace(s, b, aligned) {
        GrownIsThere(s, b, aligned);
      } else if b.size < aligned {
        MallocIsSafe(s, aligned, granted);
      }
    }
  }

  lemma GrownIsThere(s: State, b: Block, aligned: nat)
    requires b in s.blocks && IsLast(s, b) && b.size <= aligned
    ensures b.(size := aligned) in Grow(s, b, aligned).blocks
  {
    assert Grow(s, b, aligned).blocks[IndexOf(s.blocks, b)] == b.(size := aligned);
  }

  lemma ReallocIsUnsafe(s: State, p: Address, originalSize: nat, newSize: nat)
    requires Valid(s) && IsHeld(s, p, originalSize) && newSize < TWO_64
    requires !ReallocFits(s, Some(p), originalSize, newSize)
    ensures !Safe(Realloc(s, Some(p), originalSize, newSize, true), newSize)
  {
    var b, aligned := BlockAt(p, originalSize), Align(newSize);
    if newSize > TWO_64 - 8 {
      assert aligned == 0;
      BlocksAreSmall(s);
    } else if b in s.blocks && IsLast(s, b) && s.chunks[b.chunk].size + (aligned - b.size) >= TWO_64 {
      WrappedGrowthIsInvalid(s, b, aligned);
    } else {
      MallocIsUnsafe(s, aligned);
    }
  }

  lemma BlocksAreSmall(s: State)
    requires Valid(s)
    ensures forall b :: b in s.blocks ==> b.size <= MAX_SIZE
  {
    forall b | b in s.blocks
      ensures b.size <= MAX_SIZE
    {
      assert BlockFits(s, s.blocks[IndexOf(s.blocks, b)]);
      assert ChunkFits(s.chunks[b.chunk]);
    }
  }

  lemma WrappedGrowthIsInvalid(s: State, b: Block, aligned: nat)
    requires Valid(s) && b in s.blocks && IsLast(s, b) &&
             b.size < aligned < TWO_64 <= s.chunks[b.chunk].size + (aligned - b.size)
    ensures GrowsInPlace(s, b, aligned) && !Valid(Grow(s, b, aligned))
  {
    assert ChunkFits(s.chunks[b.chunk]);
    var r := Grow(s, b, aligned);
    assert !BlockFits(r, r.blocks[IndexOf(s.blocks, b)]);
  }

  /** A pool whose chunk capacity wraps around with a header hands out what it does not have. */
  lemma WrappedCapacityIsUnsafe(chunkCapacity: nat)
    requires TWO_64 - HEADER <= chunkCapacity < TWO_64
    ensures var r := Malloc(Init(chunkCapacity), 8, true); r.1.Some? && !ChunkFits(r.0.chunks[0])
  {
    assert Align(8) == 8;
    hide Align;
  }

  /** Asked for 2^64 - 1 bytes the pool hands out no byte, and the next block has the same address. */
  lemma WrappedBlocksOverlap(chunkCapacity: nat)
    requires 8 <= chunkCapacity <= MAX_SIZE - HEADER
    ensures var first := Malloc(Init(chunkCapacity), TWO_64 - 1, true);
            first.1 == Some(Address(0, 0)) && Malloc(first.0, 8, true).1 == Some(Address(0, 0))
  {
    assert Align(TWO_64 - 1) == 0 && Align(8) == 8;
    hide Align;
    var s := Malloc(Init(chunkCapacity), TWO_64 - 1, true).0;
    assert s.chunks == [Chunk(chunkCapacity, 0)];
  }
}
