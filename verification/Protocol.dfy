/** The packet format that the gateway firmware and its host share, in both directions. */
module Protocol {
  import opened Bytes
  import opened Crc

  const COMMAND_MAX_LENGTH := 93
  const RESPONSE_MAX_LENGTH := 80
  const MDB_PACKET_SIZE := 36

  const COMMAND_POLL: byte := 0x01
  const COMMAND_CONFIG: byte := 0x02
  const COMMAND_RESET: byte := 0x03
  const COMMAND_DEBUG: byte := 0x04
  const COMMAND_FLASH: byte := 0x05
  const COMMAND_MDB_BUS_RESET: byte := 0x07
  const COMMAND_MDB_TRANSACTION_SIMPLE: byte := 0x08
  const COMMAND_MDB_TRANSACTION_CUSTOM: byte := 0x09

  const RESPONSE_STATUS: byte := 0x01
  const RESPONSE_DEBUG: byte := 0x04
  const RESPONSE_TWI: byte := 0x05
  const RESPONSE_MDB_STARTED: byte := 0x08
  const RESPONSE_MDB_SUCCESS: byte := 0x09
  const RESPONSE_ERROR: byte := 0x80
  const RESPONSE_BAD_PACKET: byte := 0x81
  const RESPONSE_INVALID_CRC: byte := 0x82
  const RESPONSE_BUFFER_OVERFLOW: byte := 0x83
  const RESPONSE_UNKNOWN_COMMAND: byte := 0x84
  const RESPONSE_CORRUPTION: byte := 0x85
  const RESPONSE_NOT_IMPLEMENTED: byte := 0x86
  const RESPONSE_MDB_BUSY: byte := 0x88
  const RESPONSE_MDB_INVALID_CHK: byte := 0x89
  const RESPONSE_MDB_NAK: byte := 0x8a
  const RESPONSE_MDB_TIMEOUT: byte := 0x8b
  const RESPONSE_MDB_INVALID_END: byte := 0x8c
  const RESPONSE_MDB_RECEIVE_OVERFLOW: byte := 0x8d
  const RESPONSE_MDB_SEND_OVERFLOW: byte := 0x8e
  const RESPONSE_UART_READ_UNEXPECTED: byte := 0x90
  const RESPONSE_UART_READ_ERROR: byte := 0x91
  const RESPONSE_UART_SEND_BUSY: byte := 0x92

  /** The response headers that the host can name; any other header is rejected. */
  predicate KnownHeader(h: byte) {
    || h == RESPONSE_STATUS
    || 4 <= h <= 5
    || 8 <= h <= 9
    || 0x80 <= h <= 0x86
    || 0x88 <= h <= 0x8e
    || 0x90 <= h <= 0x92
  }

  /** Packet data: with the three other bytes it fits the length byte. */
  type Data = d: seq<byte> | |d| <= 252

  datatype Packet = Packet(header: byte, data: Data) {
    /** The length of the packet on the wire, its own length byte and CRC included. */
    function Size(): (n: byte)
      ensures n == 3 + |data|
    {
      3 + |data|
    }
  }

  /** Length, header, data. */
  function Body(p: Packet): (bs: seq<byte>)
    ensures |bs| == p.Size() - 1
  {
    [p.Size(), p.header] + p.data
  }

  /** Length, header, data, and the CRC of those. */
  function Encode(p: Packet): (bs: seq<byte>)
    ensures |bs| == p.Size() && bs[0] == p.Size() && bs[1] == p.header
  {
    Body(p) + [Crc8(0, Body(p))]
  }

  function EncodeAll(ps: seq<Packet>): (bs: seq<byte>) {
    if ps == [] then [] else Encode(ps[0]) + EncodeAll(ps[1..])
  }

  lemma {:induction false} EncodeAllAppend(ps: seq<Packet>, qs: seq<Packet>)
    ensures EncodeAll(ps + qs) == EncodeAll(ps) + EncodeAll(qs)
  {
    if ps == [] {
      assert ps + qs == qs;
    } else {
      EncodeAllAppend(ps[1..], qs);
      assert (ps + qs)[0] == ps[0] && (ps + qs)[1..] == ps[1..] + qs;
      JoinsAssociate(Encode(ps[0]), EncodeAll(ps[1..]), EncodeAll(qs));
    }
  }

  lemma JoinsAssociate(a: seq<byte>, b: seq<byte>, c: seq<byte>)
    ensures (a + b) + c == a + (b + c)
  {}

  lemma EncodeAllOne(p: Packet)
    ensures EncodeAll([p]) == Encode(p)
  {
    assert EncodeAll([p][1..]) == [];
    assert Encode(p) + [] == Encode(p);
  }

  /** An encoding passes the frame check, and gives back header and data. */
  lemma EncodeChecks(p: Packet)
    ensures Checks(Encode(p))
    ensures Encode(p)[2..p.Size() - 1] == p.data
  {
    assert Encode(p)[..p.Size() - 1] == Body(p);
  }

  /** The only frames that pass the check are encodings. */
  lemma ChecksIsEncoded(frame: seq<byte>)
    requires 3 <= |frame| < 256 && frame[0] == |frame| && Checks(frame)
    ensures frame == Encode(Packet(frame[1], frame[2..|frame| - 1]))
  {
    var p := Packet(frame[1], frame[2..|frame| - 1]);
    assert frame[..|frame| - 1] == Body(p);
  }
}
