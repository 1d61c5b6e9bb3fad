/** The packet buffer of hardware/mdb/packet.go, and how it is laid out on the wire. */
module MdbPacket {
  import opened Bytes
  import opened Stuffing

  const PACKET_MAX_LENGTH: nat := 40

  datatype WriteError = Readonly | PacketOverflow

  /** The wire form without stuffing: the data and its sum. */
  function Plain(bs: seq<byte>): (s: seq<byte>) {
    bs + [Sum(bs)]
  }

  /** It is the data and one byte more, which is their true sum modulo 256. */
  lemma PlainIsSummed(bs: seq<byte>)
    ensures |Plain(bs)| == |bs| + 1 && Plain(bs)[..|bs|] == bs && Plain(bs)[|bs|] == Total(bs) % 256
  {
    SumIsModular(bs);
  }

  lemma StuffOne(bs: seq<byte>, b: byte)
    ensures Stuff(bs + [b]) == Stuff(bs) + (if b == MARK then [MARK, b] else [b])
  {
    StuffAppend(bs, [b]);
    assert [b][1..] == [];
  }

  /** The data part, stuffed or not. */
  function Laid(ffDance: bool, bs: seq<byte>): (s: seq<byte>) {
    if ffDance then Stuff(bs) else bs
  }

  function LaidOne(ffDance: bool, v: byte): (s: seq<byte>) {
    if ffDance && v == MARK then [MARK, v] else [v]
  }

  class Packet {
    var b: array<byte>
    var l: nat
    const readonly: bool

    ghost predicate Valid()
      reads this
    {
      b.Length == PACKET_MAX_LENGTH && l <= PACKET_MAX_LENGTH
    }

    ghost function Bytes(): (bs: seq<byte>)
      requires Valid()
      reads this, b
    {
      b[..l]
    }

    constructor (ro: bool)
      ensures Valid() && fresh(b) && readonly == ro && Bytes() == []
    {
      b := new byte[PACKET_MAX_LENGTH](_ => 0);
      l := 0;
      readonly := ro;
    }

    method Write(p: seq<byte>) returns (r: Result<nat, WriteError>)
      requires Valid()
      modifies this`l, b
      ensures Valid()
      ensures r == if readonly then Err(Readonly)
                   else if |p| > PACKET_MAX_LENGTH then Err(PacketOverflow)
                   else Ok(|p|)
      ensures Bytes() == if r.Ok? && p != [] then p else old(Bytes())
    {
      if readonly {
        return Err(Readonly);
      }
      if |p| == 0 {
        return Ok(0);
      }
      if |p| > PACKET_MAX_LENGTH {
        return Err(PacketOverflow);
      }
      for i := 0 to |p|
        invariant b[..i] == p[..i]
      {
        b[i] := p[i];
      }
      l := |p|;
      return Ok(l);
    }

    /** Stuffed as a line driver would show it, or plain. */
    method Wire(ffDance: bool) returns (w: array<byte>, size: nat)
      requires Valid()
      ensures fresh(w) && size <= w.Length
      ensures w[..size] == if ffDance then WireOf(Bytes()) else Plain(Bytes())
    {
      ghost var bs := Bytes();
      var chk: byte, j := 0, 0;
      w := new byte[(l + 2) * 2](_ => 0);
      for i := 0 to l
        invariant j <= 2 * i && fresh(w) && w.Length == (l + 2) * 2 && Bytes() == bs
        invariant chk == Sum(bs[..i]) && w[..j] == Laid(ffDance, bs[..i])
      {
        var v := b[i];
        NextByte(ffDance, bs, i, v);
        j := PutData(w, j, ffDance, v);
        chk := Add8(chk, v);
      }
      assert bs[..l] == bs;
      size := PutEnd(w, j, ffDance, chk);
    }
  }

  method PutData(w: array<byte>, j: nat, ffDance: bool, v: byte) returns (k: nat)
    requires j + 2 <= w.Length
    modifies w
    ensures j < k <= j + 2 && w[..k] == old(w[..j]) + LaidOne(ffDance, v)
  {
    k := j;
    if ffDance && v == 0xff {
      w[k] := 0xff;
      k := k + 1;
    }
    w[k] := v;
    k := k + 1;
  }

  method PutEnd(w: array<byte>, j: nat, ffDance: bool, chk: byte) returns (k: nat)
    requires j + 3 <= w.Length
    modifies w
    ensures k <= w.Length
    ensures w[..k] == old(w[..j]) + (if ffDance then [MARK, 0, chk] else [chk])
  {
    k := j;
    if ffDance {
      w[k] := 0xff;
      w[k + 1] := 0x00;
      k := k + 2;
    }
    w[k] := chk;
    k := k + 1;
  }

  lemma NextByte(ffDance: bool, bs: seq<byte>, i: nat, v: byte)
    requires i < |bs| && bs[i] == v
    ensures Sum(bs[..i + 1]) == Add8(Sum(bs[..i]), v)
    ensures Laid(ffDance, bs[..i + 1]) == Laid(ffDance, bs[..i]) + LaidOne(ffDance, v)
  {
    assert bs[..i + 1] == bs[..i] + [v];
    SumAppend(bs[..i], v);
    StuffOne(bs[..i], v);
  }
}
