/** MemoryPoolAllocator as it runs: a linked list of chunk headers and the memory of the chunks. Its
    steps are those of Pool, so that the blocks it hands out are safe, and Realloc keeps what was in
    a block. An address is a chunk, counted from the oldest, and an offset behind its header. */
module Allocator {
  import opened Json
  import P = Pool

  /** ChunkHeader. Only the size ever changes. */
  class ChunkHeader {
    const capacity: nat
    var size: nat
    const next: ChunkHeader?

    constructor (capacity: nat, next: ChunkHeader?)
      ensures this.capacity == capacity && size == 0 && this.next == next
    {
      this.capacity, this.next, size := capacity, next, 0;
    }
  }

  class MemoryPoolAllocator {
    var chunkHead: ChunkHeader?
    var memory: seq<bytes>               // of every chunk, the oldest first
    const chunkCapacity: nat
    const userBuffer: ChunkHeader?
    ghost var chunks: seq<ChunkHeader>   // the linked list, the oldest first
    ghost var blocks: seq<P.Block>       // what was handed out

    /** The list from chunkHead_ is `chunks` backwards, and every chunk has its memory. */
    ghost predicate Linked()
      reads this
    {
      && chunkHead == (if chunks == [] then null else chunks[|chunks| - 1])
      && (chunks != [] ==> chunks[0].next == null)
      && (forall i :: 0 <= i < |chunks| - 1 ==> chunks[i + 1].next == chunks[i])
      && (forall i, j :: 0 <= i < j < |chunks| ==> chunks[i] != chunks[j])
      && (userBuffer != null ==> chunks != [] && chunks[0] == userBuffer)
      && |memory| == |chunks| && (forall i :: 0 <= i < |chunks| ==> |memory[i]| == chunks[i].capacity)
    }

    ghost function Infos(): (r: seq<P.Chunk>)
      reads this`chunks, chunks`size
      ensures |r| == |chunks| && forall i {:trigger r[i]} :: 0 <= i < |chunks| ==>
              r[i] == P.Chunk(chunks[i].capacity, chunks[i].size)
    {
      InfosOf(chunks)
    }

    /** The layout. */
    ghost function Now(): P.State
      reads this`chunks, this`blocks, chunks`size
    {
      P.State(Infos(), blocks, chunkCapacity, userBuffer != null)
    }

    /** One step down the list. */
    lemma NextDown(k: nat)
      requires Linked() && 0 < k <= |chunks|
      ensures chunks[k - 1].next == if k == 1 then null else chunks[k - 2]
    {
      if k > 1 { assert chunks[(k - 2) + 1].next == chunks[k - 2]; }
    }

    /** The head of the list is the last chunk of the layout. */
    lemma HeadInfo()
      requires Linked() && chunkHead != null
      ensures chunks != [] && chunkHead == chunks[|chunks| - 1]
      ensures Now().chunks[|chunks| - 1] == P.Chunk(chunkHead.capacity, chunkHead.size)
    {
    }

    constructor (chunkSize: nat)
      ensures Linked() && Now() == P.Init(chunkSize) && chunks == []
    {
      chunkHead, chunkCapacity, userBuffer, chunks, blocks, memory := null, chunkSize, null, [], [], [];
    }

    constructor WithBuffer(size: nat, chunkSize: nat)
      requires size > P.HEADER
      ensures Linked() && Now() == P.InitBuffer(size, chunkSize) && forall c :: c in chunks ==> fresh(c)
    {
      var buffer := new ChunkHeader(size - P.HEADER, null);
      chunkHead, chunkCapacity, userBuffer, chunks, blocks := buffer, chunkSize, buffer, [buffer], [];
      memory := [seq(size - P.HEADER, _ => 0)];
    }

    method AddChunk(capacity: nat, granted: bool) returns (ok: bool)
      requires Linked()
      modifies this
      ensures Linked() && ok == P.AddChunk(old(Now()), capacity, granted).Some?
      ensures ok ==> Some(Now()) == P.AddChunk(old(Now()), capacity, granted)
      ensures ok ==>
              |chunks| == |old(chunks)| + 1 && chunks[..|old(chunks)|] == old(chunks) && fresh(chunks[|old(chunks)|])
      ensures !ok ==> Now() == old(Now()) && chunks == old(chunks)
      ensures old(memory) <= memory
    {
      hide P.Wrap, InfosOf;
      if !granted || P.Wrap(P.HEADER + capacity) > P.MAX_SIZE { return false; }
      ghost var before, list := Infos(), chunks;
      var chunk := new ChunkHeader(capacity, chunkHead);
      chunkHead := chunk;
      memory := memory + [seq(capacity, _ => 0)];
      chunks := chunks + [chunk];
      assert forall i :: 0 <= i < |list| ==> chunks[i] == list[i];
      assert Infos() == before + [P.Chunk(capacity, 0)];
      return true;
    }

    /** Takes a block from the head chunk. */
    method CarveHead(aligned: nat) returns (p: P.Address)
      requires Linked() && chunkHead != null
      modifies this`blocks, chunkHead`size
      ensures Linked() && Now() == P.Carve(old(Now()), aligned).0 && Some(p) == P.Carve(old(Now()), aligned).1
    {
      hide P.Wrap, InfosOf;
      ghost var infos := Infos();
      var offset := chunkHead.size;
      p := P.Address(|memory| - 1, offset);
      chunkHead.size := P.Wrap(chunkHead.size + aligned);
      blocks := blocks + [P.Block(|memory| - 1, offset, aligned)];
      assert Infos() == infos[|memory| - 1 := P.Chunk(infos[|memory| - 1].capacity, P.Wrap(offset + aligned))];
    }

    /** Malloc. No memory is written. */
    method Malloc(size: nat, granted: bool) returns (p: Option<P.Address>)
      requires Linked()
      modifies this, chunks`size
      ensures Linked() && Now() == P.Malloc(old(Now()), size, granted).0 && p == P.Malloc(old(Now()), size, granted).1
      ensures old(memory) <= memory
      ensures |old(chunks)| <= |chunks| && chunks[..|old(chunks)|] == old(chunks)
      ensures forall i :: |old(chunks)| <= i < |chunks| ==> fresh(chunks[i])
    {
      hide P.Align, P.Wrap, P.Carve, P.AddChunk, InfosOf;
      if size == 0 { return None; }
      var aligned := P.Align(size);
      if chunkHead != null { HeadInfo(); }
      if chunkHead == null || P.Wrap(chunkHead.size + aligned) > chunkHead.capacity {
        var ok := AddChunk(if chunkCapacity > aligned then chunkCapacity else aligned, granted);
        if !ok { return None; }
        assert chunks != [];
        HeadInfo();
      }
      var block := CarveHead(aligned);
      p := Some(block);
    }

    /** Expands the last block of the head chunk. */
    method GrowHead(ghost b: P.Block, increment: nat)
      requires Linked() && b in blocks && P.IsLast(Now(), b)
      modifies this`blocks, chunks`size
      ensures Linked() && Now() == P.Grow(old(Now()), b, b.size + increment)
    {
      hide P.Wrap, P.IndexOf, InfosOf;
      ghost var infos := Infos();
      chunkHead.size := P.Wrap(chunkHead.size + increment);
      blocks := blocks[P.IndexOf(blocks, b) := b.(size := b.size + increment)];
      assert Infos() == infos[b.chunk := P.Chunk(infos[b.chunk].capacity, P.Wrap(infos[b.chunk].size + increment))];
    }

    /** memcpy of n bytes to a place that does not overlap. */
    method Copy(q: P.Address, p: P.Address, n: nat)
      requires HasRoom(memory, p, n) && HasRoom(memory, q, n) && (q.chunk != p.chunk || p.offset + n <= q.offset)
      modifies this`memory
      ensures |memory| == |old(memory)| && HasRoom(memory, q, n)
      ensures forall i :: 0 <= i < |memory| ==>
              |memory[i]| == |old(memory)[i]| && (i != q.chunk ==> memory[i] == old(memory)[i])
      ensures memory[q.chunk][..q.offset] == old(memory)[q.chunk][..q.offset]
      ensures BytesAt(memory, q, n) == old(BytesAt(memory, p, n))
    {
      ghost var copied, before := BytesAt(memory, p, n), memory;
      var i := 0;
      while i < n
        invariant i <= n && |memory| == |before| && |memory[q.chunk]| == |before[q.chunk]|
        invariant forall k :: 0 <= k < |memory| && k != q.chunk ==> memory[k] == before[k]
        invariant memory[q.chunk][..q.offset] == before[q.chunk][..q.offset]
        invariant memory[q.chunk][q.offset..q.offset + i] == copied[..i]
        invariant HasRoom(memory, p, n) && BytesAt(memory, p, n) == copied
      {
        ghost var done := memory[q.chunk][q.offset..q.offset + i];
        var b := memory[p.chunk][p.offset + i];
        assert b == copied[i];
        memory := memory[q.chunk := memory[q.chunk][q.offset + i := b]];
        i := i + 1;
        assert memory[q.chunk][q.offset..q.offset + i] == done + [b];
      }
      assert copied[..n] == copied;
    }

    /** Allocates a new block and copies an old one into it. */
    method MoveBlock(p: P.Address, oldSize: nat, newSize: nat, granted: bool) returns (q: Option<P.Address>)
      requires Linked() && P.Valid(Now()) && P.HasBlock(blocks, p, oldSize)
      requires oldSize <= newSize == P.Align(newSize) && newSize > 0 && P.Fits(Now(), newSize)
      modifies this, chunks`size
      ensures Linked() && Now() == P.Malloc(old(Now()), newSize, granted).0 &&
              q == P.Malloc(old(Now()), newSize, granted).1
      ensures Keeps(old(Used(memory, Infos())), memory)
      ensures HasRoom(old(memory), p, oldSize)
      ensures q.Some? ==>
              HasRoom(memory, q.value, oldSize) && BytesAt(memory, q.value, oldSize) == old(BytesAt(memory, p, oldSize))
    {
      hide P.Align, P.Wrap, P.Valid, P.Malloc, P.Fits, P.HasBlock, InfosOf, Used, BytesAt, HasRoom, Fitting, Keeps;
      ghost var before, infos, m := Now(), Infos(), memory;
      MemoryFits();
      OldBlock(before, m, p, oldSize);
      q := Malloc(newSize, granted);
      MemoryFits();
      if q.Some? {
        ghost var m' := memory;
        NewBlock(before, Now(), m, m', p, oldSize, newSize, granted, q.value);
        Copy(q.value, p, oldSize);
        CopyKeeps(m, m', memory, before.chunks, q.value);
      } else {
        UsedIsKept(m, memory, infos);
      }
    }

    /** Every chunk has as much memory as the layout says. */
    lemma MemoryFits()
      requires Linked()
      ensures Fitting(memory, Infos()) && Now().chunks == Infos() && Now().blocks == blocks
    {
      hide InfosOf;
    }

    /** The expansion in Realloc: in place for the last block, if there is room, or by moving. */
    method Expand(p: P.Address, oldSize: nat, newSize: nat, granted: bool) returns (q: Option<P.Address>)
      requires Linked() && P.Valid(Now()) && P.HasBlock(blocks, p, oldSize)
      requires oldSize < newSize == P.Align(newSize)
      requires P.GrowsInPlace(Now(), P.Block(p.chunk, p.offset, oldSize), newSize) || P.Fits(Now(), newSize)
      modifies this, chunks`size
      ensures Linked()
      ensures var b := P.Block(p.chunk, p.offset, oldSize);
              if P.GrowsInPlace(old(Now()), b, newSize) then Now() == P.Grow(old(Now()), b, newSize) && q == Some(p)
              else Now() == P.Malloc(old(Now()), newSize, granted).0 && q == P.Malloc(old(Now()), newSize, granted).1
      ensures Keeps(old(Used(memory, Infos())), memory)
      ensures HasRoom(old(memory), p, oldSize)
      ensures q.Some? && q != Some(p) ==>
                HasRoom(memory, q.value, oldSize) &&
                BytesAt(memory, q.value, oldSize) == old(BytesAt(memory, p, oldSize))
    {
      hide *;
      ghost var b := P.Block(p.chunk, p.offset, oldSize);
      GrowsExactly(b, newSize);
      Inside(p, oldSize);
      UsedIsKept(memory, memory, Infos());
      if p.chunk == |memory| - 1 && p.offset + oldSize == chunkHead.size &&
         P.Wrap(chunkHead.size + (newSize - oldSize)) <= chunkHead.capacity {
        GrowHead(b, newSize - oldSize);
        return Some(p);
      }
      q := MoveBlock(p, oldSize, newSize, granted);
    }

    lemma Inside(p: P.Address, size: nat)
      requires Linked() && P.Valid(Now()) && P.HasBlock(blocks, p, size)
      ensures HasRoom(memory, p, size)
    {
      HeldInside(Now(), p, size);
    }

    /** Pointer comparison and the test for room decide as the layout says. */
    lemma GrowsExactly(b: P.Block, newSize: nat)
      requires Linked() && P.HasBlock(blocks, P.Address(b.chunk, b.offset), b.size) && P.Valid(Now()) &&
               b.size <= newSize
      ensures b.chunk < |memory| && chunkHead != null
      ensures P.GrowsInPlace(Now(), b, newSize) <==>
                b.chunk == |memory| - 1 && b.offset + b.size == chunkHead.size &&
                P.Wrap(chunkHead.size + (newSize - b.size)) <= chunkHead.capacity
      ensures P.GrowsInPlace(Now(), b, newSize) ==> b in blocks && P.IsLast(Now(), b)
    {
      HeadIsLast(b);
    }

    /** Realloc of a block that was handed out, or of a null pointer. What was in the block is in the
        new one, and no used byte of any chunk is changed. */
    method Realloc(p: Option<P.Address>, originalSize: nat, newSize: nat, granted: bool) returns (q: Option<P.Address>)
      requires Linked() && P.Valid(Now()) && P.ReallocFits(Now(), p, originalSize, newSize)
      requires p.Some? ==> P.IsHeld(Now(), p.value, originalSize)
      modifies this, chunks`size
      ensures Linked() && P.Valid(Now())
      ensures Now() == P.Realloc(old(Now()), p, originalSize, newSize, granted).0
      ensures q == P.Realloc(old(Now()), p, originalSize, newSize, granted).1
      ensures Keeps(old(Used(memory, Infos())), memory)
      ensures p.Some? && q.Some? && q != p ==>
                var n := P.Align(originalSize);
                && HasRoom(old(memory), p.value, n) && HasRoom(memory, q.value, n)
                && BytesAt(memory, q.value, n) == old(BytesAt(memory, p.value, n))
    {
      hide P.Valid, P.Malloc, P.Grow, P.Align, P.GrowsInPlace, P.Fits, P.HasBlock, InfosOf, Used, BytesAt, HasRoom;
      P.ReallocKeepsValid(Now(), p, originalSize, newSize, granted);
      ghost var infos, m := Infos(), memory;
      UsedInside();
      UsedIsKept(m, m, infos);
      if p.None? {
        q := Malloc(newSize, granted);
        UsedIsKept(m, memory, infos);
        return;
      }
      if newSize == 0 { return None; }
      var oldAligned, newAligned := P.Align(originalSize), P.Align(newSize);
      if oldAligned >= newAligned { return p; }
      AlignTwice(newSize);
      q := Expand(p.value, oldAligned, newAligned, granted);
    }

    lemma UsedInside()
      requires Linked() && P.Valid(Now())
      ensures |memory| == |Infos()| && forall i :: 0 <= i < |memory| ==> Infos()[i].size <= |memory[i]|
    {
      AllInside(Now());
    }

    /** Pointer comparison finds out whether a block is the last one of the head chunk. */
    lemma HeadIsLast(b: P.Block)
      requires Linked() && P.HasBlock(blocks, P.Address(b.chunk, b.offset), b.size) && P.Valid(Now())
      ensures b.chunk < |memory| && chunkHead != null
      ensures (b.chunk == |memory| - 1 && b.offset + b.size == chunkHead.size) <==> P.IsLast(Now(), b)
      ensures P.IsLast(Now(), b) ==> b in blocks
      ensures b.chunk == |memory| - 1 ==> Now().chunks[b.chunk] == P.Chunk(chunkHead.capacity, chunkHead.size)
    {
      HeldInside(Now(), P.Address(b.chunk, b.offset), b.size);
      if P.IsLast(Now(), b) { LastIsHeld(Now(), b); }
      HeadInfo();
    }

    /** Size and Capacity walk down the list. */
    method Size() returns (size: nat)
      requires Linked()
      ensures size == P.Size(Infos())
    {
      hide InfosOf;
      size := 0;
      var c := chunkHead;
      ghost var k: nat := |chunks|;
      assert Infos()[..k] == Infos();
      while c != null
        invariant k <= |chunks| && c == (if k == 0 then null else chunks[k - 1])
        invariant size + P.Size(Infos()[..k]) == P.Size(Infos())
        decreases k
      {
        assert Infos()[..k][..k - 1] == Infos()[..k - 1];
        NextDown(k);
        size := size + c.size;
        c := c.next;
        k := k - 1;
      }
    }

    method Capacity() returns (capacity: nat)
      requires Linked()
      ensures capacity == P.Capacity(Infos())
    {
      hide InfosOf;
      capacity := 0;
      var c := chunkHead;
      ghost var k: nat := |chunks|;
      assert Infos()[..k] == Infos();
      while c != null
        invariant k <= |chunks| && c == (if k == 0 then null else chunks[k - 1])
        invariant capacity + P.Capacity(Infos()[..k]) == P.Capacity(Infos())
        decreases k
      {
        assert Infos()[..k][..k - 1] == Infos()[..k - 1];
        NextDown(k);
        capacity := capacity + c.capacity;
        c := c.next;
        k := k - 1;
      }
    }

    /** Clear frees all chunks but the user buffer, which is emptied. */
    method Clear()
      requires Linked()
      modifies this, chunks`size
      ensures Linked() && Now() == P.Clear(old(Now()))
    {
      hide InfosOf;
      ghost var infos := Infos();
      while chunkHead != null && chunkHead != userBuffer
        invariant Linked() && |chunks| <= |old(chunks)| && chunks == old(chunks)[..|chunks|]
        invariant forall c :: c in old(chunks) ==> c.size == old(c.size)
        decreases |chunks|
      {
        NextDown(|chunks|);
        chunkHead := chunkHead.next;
        chunks, memory := chunks[..|chunks| - 1], memory[..|memory| - 1];
      }
      blocks := [];
      if chunkHead != null { chunkHead.size := 0; }
      assert Infos() == P.Clear(P.State(infos, old(blocks), chunkCapacity, userBuffer != null)).chunks;
    }
  }

  ghost function InfosOf(chunks: seq<ChunkHeader>): (r: seq<P.Chunk>)
    reads chunks`size
    ensures |r| == |chunks| && forall i {:trigger r[i]} :: 0 <= i < |chunks| ==>
            r[i] == P.Chunk(chunks[i].capacity, chunks[i].size)
    decreases |chunks|
  {
    if chunks == [] then []
    else
      var n := |chunks| - 1;
      InfosOf(chunks[..n]) + [P.Chunk(chunks[n].capacity, chunks[n].size)]
  }

  // ----- memory -----

  predicate HasRoom(memory: seq<bytes>, p: P.Address, n: nat) {
    p.chunk < |memory| && p.offset + n <= |memory[p.chunk]|
  }

  /** The n bytes at an address. */
  function BytesAt(memory: seq<bytes>, p: P.Address, n: nat): bytes
    requires HasRoom(memory, p, n)
  {
    memory[p.chunk][p.offset..p.offset + n]
  }

  /** The used parts of the chunks. */
  function Used(memory: seq<bytes>, infos: seq<P.Chunk>): (r: seq<bytes>)
    ensures |r| == if |memory| == |infos| then |infos| else 0
  {
    if |memory| != |infos| then []
    else seq(|infos|,
             i requires 0 <= i < |infos| => if infos[i].size <= |memory[i]| then memory[i][..infos[i].size]
             else memory[i])
  }

  /** The chunks still have these bytes. */
  predicate Keeps(used: seq<bytes>, memory: seq<bytes>) {
    |used| <= |memory| && forall i :: 0 <= i < |used| ==> used[i] <= memory[i]
  }

  lemma UsedIsKept(memory: seq<bytes>, later: seq<bytes>, infos: seq<P.Chunk>)
    requires memory <= later
    ensures Keeps(Used(memory, infos), later)
  {
    assert forall i :: 0 <= i < |memory| ==> later[i] == memory[i];
  }

  /** Writing behind the used part of a chunk keeps it. */
  lemma CopyKeeps(memory: seq<bytes>, before: seq<bytes>, after: seq<bytes>, infos: seq<P.Chunk>, q: P.Address)
    requires |memory| == |infos| && memory <= before && |after| == |before| && q.chunk < |after|
    requires q.chunk < |infos| ==> infos[q.chunk].size <= q.offset
    requires q.offset <= |before[q.chunk]| == |after[q.chunk]| &&
             after[q.chunk][..q.offset] == before[q.chunk][..q.offset]
    requires forall i :: 0 <= i < |after| && i != q.chunk ==> after[i] == before[i]
    requires forall i :: 0 <= i < |infos| ==> infos[i].size <= |memory[i]|
    ensures Keeps(Used(memory, infos), after)
  {
    var used := Used(memory, infos);
    forall i | 0 <= i < |used|
      ensures used[i] <= after[i]
    {
      assert memory[i] == before[i];
      if i == q.chunk {
        assert used[i] == before[i][..q.offset][..infos[i].size];
        assert after[i][..infos[i].size] == after[i][..q.offset][..infos[i].size];
      }
    }
  }

  predicate Fitting(memory: seq<bytes>, infos: seq<P.Chunk>) {
    |memory| == |infos| && forall i :: 0 <= i < |infos| ==> |memory[i]| == infos[i].capacity
  }

  lemma OldBlock(s: P.State, memory: seq<bytes>, p: P.Address, size: nat)
    requires P.Valid(s) && P.HasBlock(s.blocks, p, size) && Fitting(memory, s.chunks)
    ensures HasRoom(memory, p, size)
  {
    hide P.Valid, P.HasBlock;
    HeldInside(s, p, size);
  }

  /** The old block and the new one in memory, apart from each other. */
  lemma NewBlock(before: P.State, after: P.State, m: seq<bytes>, m': seq<bytes>, p: P.Address,
                 oldSize: nat, newSize: nat, granted: bool, q: P.Address)
    requires P.Valid(before) && P.HasBlock(before.blocks, p, oldSize)
    requires oldSize <= newSize == P.Align(newSize) && newSize > 0 && P.Fits(before, newSize)
    requires (after, Some(q)) == P.Malloc(before, newSize, granted)
    requires Fitting(m, before.chunks) && Fitting(m', after.chunks) && m <= m'
    ensures HasRoom(m, p, oldSize) && HasRoom(m', p, oldSize) && HasRoom(m', q, oldSize)
    ensures BytesAt(m', p, oldSize) == BytesAt(m, p, oldSize)
    ensures q.chunk != p.chunk || p.offset + oldSize <= q.offset
    ensures q.chunk < |before.chunks| ==> before.chunks[q.chunk].size <= q.offset
    ensures q.chunk < |m'| && q.offset <= |m'[q.chunk]|
    ensures |m| == |before.chunks| && forall i :: 0 <= i < |m| ==> before.chunks[i].size <= |m[i]|
  {
    HeldInside(before, p, oldSize);
    AllInside(before);
    P.MallocPlace(before, newSize, granted);
    hide P.Valid, P.HasBlock, P.Malloc, P.Fits, P.Align;
    assert m'[p.chunk] == m[p.chunk];
  }

  lemma AllInside(s: P.State)
    requires P.Valid(s)
    ensures forall i :: 0 <= i < |s.chunks| ==> s.chunks[i].size <= s.chunks[i].capacity
  {
    assert forall i :: 0 <= i < |s.chunks| ==> P.ChunkFits(s.chunks[i]);
  }

  lemma HeldInside(s: P.State, p: P.Address, size: nat)
    requires P.Valid(s) && P.HasBlock(s.blocks, p, size)
    ensures p.chunk < |s.chunks| && p.offset + size <= s.chunks[p.chunk].size <= s.chunks[p.chunk].capacity
  {
    var b :| b in s.blocks && P.Address(b.chunk, b.offset) == p && size <= b.size;
    assert P.BlockFits(s, s.blocks[P.IndexOf(s.blocks, b)]);
    assert P.ChunkFits(s.chunks[b.chunk]);
  }

  /** Where the size that a caller knows ends with the used part, it is the size of the block. */
  lemma LastIsHeld(s: P.State, b: P.Block)
    requires P.Valid(s) && P.HasBlock(s.blocks, P.Address(b.chunk, b.offset), b.size) && P.IsLast(s, b)
    ensures b in s.blocks
  {
    var held :| held in s.blocks && held.chunk == b.chunk && held.offset == b.offset && b.size <= held.size;
    assert P.BlockFits(s, s.blocks[P.IndexOf(s.blocks, held)]);
    assert held == b;
  }

  lemma AlignTwice(x: nat)
    requires x <= P.TWO_64 - 8
    ensures P.Align(P.Align(x)) == P.Align(x) <= P.TWO_64 - 8
  {
  }
}
