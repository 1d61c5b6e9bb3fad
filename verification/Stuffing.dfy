/** The byte stuffing of a 9-bit line read with PARMRK (section 11.2.2 of POSIX.1-2017 Base
    Definitions): 0xff is doubled, and 0xff 0x00 marks the byte that carries the ninth bit. */
module Stuffing {
  import opened Bytes

  const MARK: byte := 0xff

  // ---------------------------------------------------------------- encoding

  /** The data bytes as the line driver shows them. */
  function Stuff(bs: seq<byte>): (s: seq<byte>) {
    if bs == [] then []
    else StuffByte(bs[0]) + Stuff(bs[1..])
  }

  lemma {:induction false} StuffAppend(a: seq<byte>, b: seq<byte>)
    ensures Stuff(a + b) == Stuff(a) + Stuff(b)
  {
    if a == [] {
      assert a + b == b;
    } else {
      assert (a + b)[1..] == a[1..] + b;
      StuffAppend(a[1..], b);
    }
  }

  /** Data closed by a byte with the ninth bit set. */
  function Marked(bs: seq<byte>, last: byte): (s: seq<byte>) {
    Stuff(bs) + [MARK, 0, last]
  }

  /** A block as it arrives: the data, closed by its sum. */
  function WireOf(bs: seq<byte>): (s: seq<byte>) {
    Marked(bs, Sum(bs))
  }

  // ---------------------------------------------------------------- decoding

  datatype Ending =
    | Frame(used: nat)
    | Eof
    | Unknown(code: byte)

  /** The bytes read before the ending, the one with the ninth bit included. */
  datatype Unstuffed = Unstuffed(bytes: seq<byte>, ending: Ending)

  function Later(bs: seq<byte>, k: nat, u: Unstuffed): (r: Unstuffed) {
    Unstuffed(bs + u.bytes, if u.ending.Frame? then Frame(u.ending.used + k) else u.ending)
  }

  /** The specification decoder: one byte or one escape sequence at a time. */
  function Unstuff(src: seq<byte>): (u: Unstuffed)
    ensures u.ending.Frame? ==> u.bytes != [] && u.ending.used <= |src|
  {
    if src == [] then Unstuffed([], Eof)
    else if src[0] != MARK then Later([src[0]], 1, Unstuff(src[1..]))
    else if |src| == 1 then Unstuffed([], Eof)
    else if src[1] == MARK then Later([MARK], 2, Unstuff(src[2..]))
    else if src[1] != 0 then Unstuffed([], Unknown(src[1]))
    else if |src| == 2 then Unstuffed([], Eof)
    else Unstuffed([src[2]], Frame(3))
  }

  lemma LaterLater(a: seq<byte>, j: nat, b: seq<byte>, k: nat, u: Unstuffed)
    ensures Later(a, j, Later(b, k, u)) == Later(a + b, j + k, u)
  {
    assert a + (b + u.bytes) == a + b + u.bytes;
  }

  function StuffByte(b: byte): (s: seq<byte>) {
    if b == MARK then [MARK, MARK] else [b]
  }

  lemma UnstuffByte(b: byte, src: seq<byte>, tail: seq<byte>)
    requires src == StuffByte(b) + tail
    ensures Unstuff(src) == Later([b], |StuffByte(b)|, Unstuff(tail))
  {
    assert src[|StuffByte(b)|..] == tail;
  }

  /** Stuffed data is passed over, whatever follows it. */
  lemma {:induction false} UnstuffAfter(bs: seq<byte>, rest: seq<byte>)
    ensures Unstuff(Stuff(bs) + rest) == Later(bs, |Stuff(bs)|, Unstuff(rest))
  {
    if bs == [] {
      assert Stuff(bs) + rest == rest;
      assert [] + Unstuff(rest).bytes == Unstuff(rest).bytes;
    } else {
      var tail := Stuff(bs[1..]) + rest;
      assert Stuff(bs) + rest == StuffByte(bs[0]) + tail;
      UnstuffByte(bs[0], Stuff(bs) + rest, tail);
      UnstuffAfter(bs[1..], rest);
      LaterLater([bs[0]], |StuffByte(bs[0])|, bs[1..], |Stuff(bs[1..])|, Unstuff(rest));
      assert [bs[0]] + bs[1..] == bs;
    }
  }

  /** Round trip: what was stuffed is read back, its end is found, and nothing after it is. */
  lemma UnstuffMarked(bs: seq<byte>, last: byte, rest: seq<byte>)
    ensures Unstuff(Marked(bs, last) + rest) == Unstuffed(bs + [last], Frame(|Marked(bs, last)|))
  {
    var tail := [MARK, 0, last] + rest;
    assert Marked(bs, last) + rest == Stuff(bs) + tail;
    UnstuffAfter(bs, tail);
  }

  /** Exactness: a frame that is read is the stuffing of its bytes, and of no others. */
  lemma {:induction false} FrameIsMarked(src: seq<byte>)
    requires Unstuff(src).ending.Frame?
    ensures var u := Unstuff(src); var n := |u.bytes| - 1;
            src[..u.ending.used] == Marked(u.bytes[..n], u.bytes[n])
  {
    var u := Unstuff(src);
    if src[0] != MARK || src[1] == MARK {
      var k := if src[0] != MARK then 1 else 2;
      var v := Unstuff(src[k..]);
      FrameIsMarked(src[k..]);
      MarkedFromHead(src, k, u, v);
    }
  }

  lemma MarkedFromHead(src: seq<byte>, k: nat, u: Unstuffed, v: Unstuffed)
    requires src != [] && k <= |src| && src[..k] == StuffByte(src[0]) && u == Later([src[0]], k, v)
    requires v.bytes != [] && v.ending.Frame? && v.ending.used <= |src| - k
    requires var m := |v.bytes| - 1; src[k..][..v.ending.used] == Marked(v.bytes[..m], v.bytes[m])
    ensures var n := |u.bytes| - 1; src[..u.ending.used] == Marked(u.bytes[..n], u.bytes[n])
  {
    var n := |u.bytes| - 1;
    assert u.bytes[..n] == [src[0]] + v.bytes[..n - 1] && u.bytes[..n][1..] == v.bytes[..n - 1];
    assert src[..u.ending.used] == src[..k] + src[k..][..v.ending.used];
  }

  /** A stream starts with the wire form of at most one block, and reading it finds that block. */
  lemma WireIsRead(src: seq<byte>, bs: seq<byte>)
    requires WireOf(bs) <= src
    ensures Unstuff(src) == Unstuffed(bs + [Sum(bs)], Frame(|WireOf(bs)|))
  {
    UnstuffMarked(bs, Sum(bs), src[|WireOf(bs)|..]);
    assert WireOf(bs) + src[|WireOf(bs)|..] == src;
  }

  /** A stream of stuffed data that breaks off: at its end, or within a sequence. */
  predicate BreaksOff(tail: seq<byte>) {
    tail == [] || tail == [MARK] || tail == [MARK, 0]
  }

  /** A stream of stuffed data that goes on with 0xff and a byte that means nothing there. */
  predicate GoesWrong(tail: seq<byte>, code: byte) {
    |tail| >= 2 && tail[0] == MARK && tail[1] == code && code != 0 && code != MARK
  }

  /** Exactness of the failures: what was decoded is the data before, and the ending is what the
      stream goes on with. */
  lemma UnstuffFails(bs: seq<byte>, tail: seq<byte>)
    ensures BreaksOff(tail) ==> Unstuff(Stuff(bs) + tail) == Unstuffed(bs, Eof)
    ensures forall code | GoesWrong(tail, code) :: Unstuff(Stuff(bs) + tail) == Unstuffed(bs, Unknown(code))
  {
    UnstuffAfter(bs, tail);
    assert bs + [] == bs;
  }

  /** Every stream is of one of the three kinds. */
  lemma {:induction false} UnstuffIsExact(src: seq<byte>) returns (tail: seq<byte>)
    ensures var u := Unstuff(src);
            match u.ending
            case Frame(used) => var n := |u.bytes| - 1; src[..used] == Marked(u.bytes[..n], u.bytes[n])
            case Eof => src == Stuff(u.bytes) + tail && BreaksOff(tail)
            case Unknown(code) => src == Stuff(u.bytes) + tail && GoesWrong(tail, code)
    decreases |src|
  {
    tail := src;
    if Unstuff(src).ending.Frame? {
      FrameIsMarked(src);
    } else if src != [] && (src[0] != MARK || (|src| > 1 && src[1] == MARK)) {
      var k := if src[0] != MARK then 1 else 2;
      tail := UnstuffIsExact(src[k..]);
      StuffedFromHead(src, k, Unstuff(src[k..]).bytes, tail);
    }
  }

  lemma StuffedFromHead(src: seq<byte>, k: nat, bs: seq<byte>, tail: seq<byte>)
    requires src != [] && k <= |src| && src[..k] == StuffByte(src[0]) && src[k..] == Stuff(bs) + tail
    ensures src == Stuff([src[0]] + bs) + tail
  {
    assert ([src[0]] + bs)[1..] == bs;
    assert src == src[..k] + src[k..];
  }

  /** The reply 73 ff ff 04 ff 00 76: three bytes of data, one of them 0xff, and their sum. */
  lemma ExampleIsRead()
    ensures Unstuff([0x73, 0xff, 0xff, 0x04, 0xff, 0x00, 0x76]) == Unstuffed([0x73, 0xff, 0x04, 0x76], Frame(7))
  {
    var bs := [0x73, 0xff, 0x04];
    assert bs[1..] == [0xff, 0x04] && bs[1..][1..] == [0x04] && bs[1..][1..][1..] == [];
    UnstuffMarked(bs, 0x76, []);
    assert Marked(bs, 0x76) + [] == [0x73, 0xff, 0xff, 0x04, 0xff, 0x00, 0x76];
  }

  // ---------------------------------------------------------------- streams of frames

  function Wires(blocks: seq<seq<byte>>): (s: seq<byte>) {
    if blocks == [] then [] else WireOf(blocks[0]) + Wires(blocks[1..])
  }

  /** Frames one after another, and what remains after the last whole one. */
  function Frames(src: seq<byte>): (r: (seq<seq<byte>>, seq<byte>))
    decreases |src|
  {
    var u := Unstuff(src);
    if !u.ending.Frame? then ([], src)
    else
      FrameIsMarked(src);
      var r := Frames(src[u.ending.used..]);
      ([u.bytes] + r.0, r.1)
  }

  lemma NextFrame(src: seq<byte>, bs: seq<byte>, used: nat, rest: seq<byte>)
    requires Unstuff(src) == Unstuffed(bs, Frame(used)) && rest == src[used..]
    ensures Frames(src) == ([bs] + Frames(rest).0, Frames(rest).1)
  {
    FrameIsMarked(src);
  }

  function WithSums(blocks: seq<seq<byte>>): (r: seq<seq<byte>>)
    ensures |r| == |blocks|
  {
    seq(|blocks|, i requires 0 <= i < |blocks| => blocks[i] + [Sum(blocks[i])])
  }

  lemma WireThenRest(bs: seq<byte>, head: seq<byte>, rest: seq<byte>)
    requires head == WireOf(bs)
    ensures Frames(head + rest) == ([bs + [Sum(bs)]] + Frames(rest).0, Frames(rest).1)
  {
    UnstuffMarked(bs, Sum(bs), rest);
    NextFrame(head + rest, bs + [Sum(bs)], |head|, rest);
  }

  /** Any blocks, sent one after another, are split back into just those blocks; a tail that
      holds no frame is left as it is. */
  lemma {:induction false} WiresSplit(blocks: seq<seq<byte>>, tail: seq<byte>)
    requires !Unstuff(tail).ending.Frame?
    ensures Frames(Wires(blocks) + tail) == (WithSums(blocks), tail)
  {
    if blocks == [] {
      assert Wires(blocks) + tail == tail;
    } else {
      var head, rest := WireOf(blocks[0]), Wires(blocks[1..]) + tail;
      assert Wires(blocks) + tail == head + rest;
      WireThenRest(blocks[0], head, rest);
      WiresSplit(blocks[1..], tail);
      assert WithSums(blocks) == [blocks[0] + [Sum(blocks[0])]] + WithSums(blocks[1..]);
    }
  }
}
