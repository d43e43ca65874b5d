/** The streams that encodings, readers and writers move code units through
    (rapidjson/stream.h, rapidjson/memorystream.h). */
module Streams {
  import opened Json

  /** The code unit at p; behind the end of the text a stream reads a null character. */
  function At<Ch(0)>(s: seq<Ch>, p: nat, end: Ch): Ch { if p < |s| then s[p] else end }

  /** MemoryStream: reads a text of known size. Take behind the end gives null and stays there. */
  class MemoryStream<Ch(0)> {
    const text: seq<Ch>
    const end: Ch
    var pos: nat

    ghost predicate Valid()
      reads this
    {
      pos <= |text|
    }

    constructor (text: seq<Ch>, end: Ch)
      ensures Valid() && this.text == text && this.end == end && pos == 0
    {
      this.text, this.end, pos := text, end, 0;
    }

    method Peek() returns (c: Ch)
      ensures c == At(text, pos, end)
    {
      c := if pos < |text| then text[pos] else end;
    }

    method Take() returns (c: Ch)
      requires Valid()
      modifies this
      ensures Valid() && c == At(text, old(pos), end)
      ensures pos == Advance(old(pos), 1)
    {
      c := end;
      if pos < |text| { c, pos := text[pos], pos + 1; }
    }

    /** Where n calls of Take lead from p. */
    function Advance(p: nat, n: nat): nat { if p + n <= |text| then p + n else |text| }
  }

  /** GenericStringStream: reads from memory, unbounded. The memory is a text, its terminating null and
      what happens to lie behind; a read that leaves it is an error of the caller. */
  class StringStream<Ch> {
    const memory: seq<Ch>
    var src: nat

    constructor (memory: seq<Ch>)
      ensures this.memory == memory && src == 0
    {
      this.memory, src := memory, 0;
    }

    method Peek() returns (c: Ch)
      requires src < |memory|
      ensures c == memory[src]
    {
      c := memory[src];
    }

    method Take() returns (c: Ch)
      requires src < |memory|
      modifies this
      ensures c == memory[old(src)] && src == old(src) + 1
    {
      c, src := memory[src], src + 1;
    }
  }

  /** The memory holds the text and its terminator. */
  predicate Terminates(memory: bytes, text: bytes) {
    |text| < |memory| && text == memory[..|text|] && memory[|text|] == 0
  }

  /** StackStream and StringBuffer: what is Put is kept in order. */
  class OutputStream<Ch> {
    var written: seq<Ch>

    constructor ()
      ensures written == []
    {
      written := [];
    }

    method Put(c: Ch)
      modifies this
      ensures written == old(written) + [c]
    {
      written := written + [c];
    }
  }

  /** GenericInsituStringStream: writes into the memory it reads. The ghost parameters are what the
      memory held at first, what it held when the writing began, where that was, and what was put since. */
  class InsituStringStream {
    const buffer: array<byte>
    var src: nat
    var dst: nat

    ghost predicate Valid()
      reads this
    {
      dst <= src <= buffer.Length
    }

    /** From src on the memory is as it was at first. */
    ghost predicate Unread(memory: bytes)
      reads this`src, buffer
    {
      && buffer.Length == |memory|
      && (forall i :: src <= i < |memory| ==> buffer[i] == memory[i])
    }

    /** Between begin and the write cursor the buffer holds what was put; the rest is as before. */
    ghost predicate Holds(before: bytes, begin: nat, put: bytes)
      reads this`dst, buffer
    {
      && dst == begin + |put| <= |before|
      && buffer[..] == before[..begin] + put + before[dst..]
    }

    constructor (buffer: array<byte>)
      ensures Valid() && this.buffer == buffer && src == 0
    {
      this.buffer, src, dst := buffer, 0, 0;
    }

    method Peek(ghost memory: bytes) returns (c: byte)
      requires Valid() && Unread(memory) && src < |memory|
      ensures c == memory[src]
    {
      c := buffer[src];
    }

    /** Nothing keeps a caller from taking the terminator and what lies behind it. */
    method Take(ghost memory: bytes) returns (c: byte)
      requires Valid() && Unread(memory) && src < |memory|
      modifies this`src
      ensures Valid() && Unread(memory) && src == old(src) + 1 && c == memory[old(src)]
    {
      c, src := buffer[src], src + 1;
    }

    /** A Put needs room between the two cursors: so no unread character is ever overwritten. */
    method Put(c: byte, ghost memory: bytes, ghost before: bytes, ghost begin: nat, ghost put: bytes)
      requires Valid() && dst < src && Unread(memory) && Holds(before, begin, put)
      modifies this`dst, buffer
      ensures Valid() && Unread(memory) && Holds(before, begin, put + [c]) && dst == old(dst) + 1
    {
      buffer[dst] := c;
      dst := dst + 1;
      assert buffer[..] == old(buffer[..])[old(dst) := c];
      assert old(buffer[..])[old(dst) := c] == before[..begin] + (put + [c]) + before[dst..];
    }

    method PutBegin() returns (begin: nat)
      requires Valid()
      modifies this`dst
      ensures Valid() && begin == dst == src
    {
      dst := src;
      begin := dst;
    }

    method PutEnd(begin: nat) returns (length: nat)
      requires begin <= dst
      ensures length == dst - begin
    {
      length := dst - begin;
    }
  }
}
