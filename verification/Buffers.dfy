/** Buffer_t of the firmware: a fixed array with a fill level and a read mark. */
module Buffers {
  import opened Bytes

  class Buffer {
    var size: byte
    var length: byte
    var used: byte
    var data: array<byte>

    /** What the buffer holds: the filled part of the array. */
    ghost var contents: seq<byte>

    ghost predicate Valid()
      reads this, data
    {
      length <= size == data.Length && contents == data[..length]
    }

    /** Buffer_Init. */
    constructor (capacity: byte)
      ensures Valid() && fresh(data)
      ensures size == capacity && contents == [] && used == 0
    {
      size, length, used := capacity, 0, 0;
      data := new byte[capacity](_ => 0);
      contents := [];
    }

    method ClearFast()
      requires Valid()
      modifies this`length, this`used, this`contents
      ensures Valid() && contents == [] && used == 0
    {
      length := 0;
      used := 0;
      contents := [];
    }

    method ClearFull()
      requires Valid()
      modifies this`length, this`used, this`contents, data
      ensures Valid() && contents == [] && used == 0
      ensures forall i | 0 <= i < data.Length :: data[i] == 0
    {
      forall i | 0 <= i < size {
        data[i] := 0;
      }
      length := 0;
      used := 0;
      contents := [];
    }

    method Append(b: byte) returns (ok: bool)
      requires Valid()
      modifies this`length, this`contents, data
      ensures Valid()
      ensures ok == (|old(contents)| + 1 <= size)
      ensures contents == if ok then old(contents) + [b] else old(contents)
    {
      if length + 1 > size {
        return false;
      }
      data[length] := b;
      length := length + 1;
      contents := contents + [b];
      return true;
    }

    method AppendN(src: seq<byte>) returns (ok: bool)
      requires Valid()
      modifies this`length, this`contents, data
      ensures Valid()
      ensures ok == (|old(contents)| + |src| <= size)
      ensures contents == if ok then old(contents) + src else old(contents)
    {
      if length + |src| > size {
        return false;
      }
      forall i | 0 <= i < |src| {
        data[length + i] := src[i];
      }
      length := length + |src|;
      contents := contents + src;
      return true;
    }

    /** Replaces the contents, cut to the size; the read mark stays. */
    method Copy(src: seq<byte>)
      requires Valid()
      modifies this`length, this`contents, data
      ensures Valid()
      ensures contents == if |src| < size then src else src[..size]
    {
      var len: byte := if |src| < size then |src| else size;
      forall i | 0 <= i < len {
        data[i] := src[i];
      }
      length := len;
      contents := src[..len];
    }
  }

  /** Buffer_Swap: the two exchange everything, the arrays included. */
  method Swap(b1: Buffer, b2: Buffer)
    requires b1.Valid() && b2.Valid()
    modifies b1, b2
    ensures b1.Valid() && b2.Valid()
    ensures b1.size == old(b2.size) && b1.length == old(b2.length) && b1.used == old(b2.used)
    ensures b1.data == old(b2.data) && b1.contents == old(b2.contents)
    ensures b2.size == old(b1.size) && b2.length == old(b1.length) && b2.used == old(b1.used)
    ensures b2.data == old(b1.data) && b2.contents == old(b1.contents)
  {
    b1.size, b2.size := b2.size, b1.size;
    b1.length, b2.length := b2.length, b1.length;
    b1.used, b2.used := b2.used, b1.used;
    b1.data, b2.data := b2.data, b1.data;
    b1.contents, b2.contents := b2.contents, b1.contents;
  }
}
