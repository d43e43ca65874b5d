/** What Malloc, Realloc and Clear of MemoryPoolAllocator (rapidjson/allocators.h) do, told by the chunks and
    without the 64-bit arithmetic. */
module PoolSteps {
  import opened Json
  import opened Pool

  // ----- Malloc -----

  /** The head chunk, which is the last. */
  function Head(s: State): Chunk
    requires s.chunks != []
  {
    s.chunks[|s.chunks| - 1]
  }

  predicate HeadHas(s: State, r: nat) { s.chunks != [] && Head(s).size + r <= Head(s).capacity }

  function Max(a: nat, b: nat): nat { if a >= b then a else b }

  /** The block of r bytes is taken from the head chunk of `from`, behind what is used. */
  predicate Taken(from: State, r: nat, s: State, a: Option<Address>)
    requires from.chunks != []
  {
    var n, c := |from.chunks| - 1, Head(from);
    && |s.chunks| == |from.chunks| && (forall i :: 0 <= i < n ==> s.chunks[i] == from.chunks[i])
    && s.chunks[n] == Chunk(c.capacity, c.size + r)
    && s.blocks == from.blocks + [Block(n, c.size, r)]
    && a == Some(Address(n, c.size)) && s.chunkCapacity == from.chunkCapacity && s.userBuffer == from.userBuffer
  }

  /** The size is rounded up to a multiple of 8. A head chunk with room serves it; otherwise a new chunk of the
      usual capacity, or as large as the block if that is more, if the base allocator grants it. */
  lemma MallocExactly(s: State, size: nat, granted: bool, r: nat)
    requires Valid(s) && 0 < size && Fits(s, size) && IsRounded(size, r)
    ensures var m := Malloc(s, size, granted);
            var capacity := Max(s.chunkCapacity, r);
            if HeadHas(s, r) then Taken(s, r, m.0, m.1)
            else if granted && HEADER + capacity <= MAX_SIZE then
              Taken(s.(chunks := s.chunks + [Chunk(capacity, 0)]), r, m.0, m.1)
            else m == (s, None)
  {
    RoundedIs(size, r);
    if s.chunks != [] { HeadFits(s); }
    assert HEADER + s.chunkCapacity < TWO_64;
    hide Valid, Align, Carve, Taken;
    var capacity := Max(s.chunkCapacity, r);
    if HeadHas(s, r) {
      CarveTakes(s, r);
    } else if granted && HEADER + capacity <= MAX_SIZE {
      CarveTakes(s.(chunks := s.chunks + [Chunk(capacity, 0)]), r);
    }
  }

  lemma CarveTakes(s: State, r: nat)
    requires s.chunks != [] && Head(s).size + r < TWO_64
    ensures Taken(s, r, Carve(s, r).0, Carve(s, r).1)
  {
  }

  lemma RoundedIs(size: nat, r: nat)
    requires size <= TWO_64 - 8 && IsRounded(size, r)
    ensures r == Align(size)
  {
  }

  // ----- Realloc -----

  /** The block of r0 bytes at p has become one of r1 bytes, at the end of the head chunk. */
  ghost predicate Grown(s: State, p: Address, r0: nat, r1: nat, t: State)
    requires s.chunks != [] && r0 <= r1
  {
    && t == s.(chunks := t.chunks, blocks := t.blocks)
    && t.chunks == s.chunks[|s.chunks| - 1 := Chunk(Head(s).capacity, Head(s).size + (r1 - r0))]
    && exists k: nat :: IsAt(s, k, p, r0) && t.blocks == s.blocks[k := Block(p.chunk, p.offset, r1)]
  }

  predicate IsAt(s: State, k: nat, p: Address, size: nat) {
    k < |s.blocks| && s.blocks[k] == Block(p.chunk, p.offset, size)
  }

  /** The block at p is the last of the head chunk and finds room there to grow. */
  predicate CanGrow(s: State, p: Address, r0: nat, r1: nat)
    requires r0 <= r1
  {
    && s.chunks != [] && p.chunk == |s.chunks| - 1 && p.offset + r0 == Head(s).size
    && Head(s).size + (r1 - r0) <= Head(s).capacity
  }

  /** A null pointer is allocated afresh, and nothing is returned for a size of zero. */
  lemma ReallocOfNothing(s: State, p: Address, originalSize: nat, newSize: nat, granted: bool)
    ensures Realloc(s, None, originalSize, newSize, granted) == Malloc(s, newSize, granted)
    ensures Realloc(s, Some(p), originalSize, 0, granted) == (s, None)
    ensures Malloc(s, 0, granted) == (s, None)
  {
  }

  /** A block never shrinks; the last block of the head chunk grows in place if there is room, and every other
      is allocated afresh. */
  lemma ReallocExactly(s: State, p: Address, originalSize: nat, newSize: nat, granted: bool, r0: nat, r1: nat)
    requires Valid(s) && IsHeld(s, p, originalSize) && 0 < newSize
    requires originalSize <= TWO_64 - 8 && ReallocFits(s, Some(p), originalSize, newSize)
    requires IsRounded(originalSize, r0) && IsRounded(newSize, r1)
    ensures var m := Realloc(s, Some(p), originalSize, newSize, granted);
            if r1 <= r0 then m == (s, Some(p))
            else if CanGrow(s, p, r0, r1) then m.1 == Some(p) && Grown(s, p, r0, r1, m.0)
            else m == Malloc(s, newSize, granted)
  {
    RoundedIs(originalSize, r0);
    RoundedIs(newSize, r1);
    RoundedIs(r1, r1);
    hide Align;
    if r0 < r1 {
      var b := Block(p.chunk, p.offset, r0);
      LastIsHeld(s, p, r0);
      if s.chunks != [] { HeadFits(s); }
      hide Valid, IsHeld;
      assert CanGrow(s, p, r0, r1) <==> GrowsInPlace(s, b, r1);
      if CanGrow(s, p, r0, r1) { GrownIs(s, p, r0, r1); }
      SameSize(s, newSize, r1, granted);
    }
  }

  lemma SameSize(s: State, newSize: nat, r: nat, granted: bool)
    requires 0 < newSize && 0 < r && Align(newSize) == Align(r)
    ensures Malloc(s, r, granted) == Malloc(s, newSize, granted)
  {
  }

  /** What ends with the used part is a whole block. */
  lemma LastIsHeld(s: State, p: Address, r0: nat)
    requires Valid(s) && HasBlock(s.blocks, p, r0)
    ensures p.chunk < |s.chunks| && p.offset + r0 <= s.chunks[p.chunk].size
    ensures p.offset + r0 == s.chunks[p.chunk].size ==> Block(p.chunk, p.offset, r0) in s.blocks
  {
    var held :| held in s.blocks && Address(held.chunk, held.offset) == p && r0 <= held.size;
    assert BlockFits(s, s.blocks[IndexOf(s.blocks, held)]);
  }

  lemma GrownIs(s: State, p: Address, r0: nat, r1: nat)
    requires r0 < r1 && CanGrow(s, p, r0, r1) && Block(p.chunk, p.offset, r0) in s.blocks
    requires Head(s).size + (r1 - r0) < TWO_64
    ensures Grown(s, p, r0, r1, Grow(s, Block(p.chunk, p.offset, r0), r1))
  {
    var b := Block(p.chunk, p.offset, r0);
    assert IsAt(s, IndexOf(s.blocks, b), p, r0);
  }

  // ----- the user buffer -----

  /** The oldest chunk is the user buffer with this capacity, or there is no user buffer. */
  predicate Keeps(s: State, buffer: Option<nat>) {
    if buffer.Some? then s.userBuffer && s.chunks != [] && s.chunks[0].capacity == buffer.value else !s.userBuffer
  }

  lemma StepKeepsBuffer(s: State, t: Step, buffer: Option<nat>)
    requires Keeps(s, buffer)
    ensures Keeps(Apply(s, t), buffer)
  {
  }

  lemma {:induction false} RunKeepsBuffer(s: State, steps: seq<Step>, buffer: Option<nat>)
    requires Keeps(s, buffer) && IsRun(s, steps)
    ensures Keeps(After(s, steps), buffer)
    decreases |steps|
  {
    hide Keeps, Apply, Allowed;
    if steps != [] {
      StepKeepsBuffer(s, steps[0], buffer);
      RunKeepsBuffer(Apply(s, steps[0]), steps[1..], buffer);
    }
  }

  /** After every run Clear leaves no block, and of the chunks none but the empty user buffer, which still has
      its size but for the header. */
  lemma ClearLeavesBuffer(chunkCapacity: nat, bufferSize: Option<nat>, steps: seq<Step>)
    requires bufferSize.Some? ==> HEADER < bufferSize.value
    requires IsRun(if bufferSize.Some? then InitBuffer(bufferSize.value, chunkCapacity) else Init(chunkCapacity), steps)
    ensures var s :=
            After(if bufferSize.Some? then InitBuffer(bufferSize.value, chunkCapacity) else Init(chunkCapacity), steps);
            && Clear(s).blocks == []
            && Clear(s).chunks == if bufferSize.Some? then [Chunk(bufferSize.value - 24, 0)] else []
  {
    var s := if bufferSize.Some? then InitBuffer(bufferSize.value, chunkCapacity) else Init(chunkCapacity);
    var buffer: Option<nat> := if bufferSize.Some? then Some(bufferSize.value - 24) else None;
    RunKeepsBuffer(s, steps, buffer);
    hide IsRun, After;
  }
}
