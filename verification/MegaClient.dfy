/** The host side of the gateway link (mega-client): framing of commands and parsing of the
    stream of response packets. */
module MegaClient {
  import opened Bytes
  import opened Crc
  import opened Protocol
  import CrcTable

  datatype ParseError = Empty | TooShort | ClaimsTooMuch | BadCrc | UnknownHeader

  datatype ResponseError = ResponseEmpty | TotalTooLarge | TotalBeyondBuffer | InPacket(e: ParseError)

  // ---------------------------------------------------------------- one packet

  function ParsePacket(b: seq<byte>): (r: Result<Packet, ParseError>) {
    if |b| == 0 then Err(Empty)
    else if b[0] < 3 then Err(TooShort)
    else if b[0] > |b| then Err(ClaimsTooMuch)
    else if !Checks(b[..b[0]]) then Err(BadCrc)
    else if !KnownHeader(b[1]) then Err(UnknownHeader)
    else Ok(Packet(b[1], b[2..b[0] - 1]))
  }

  /** The packet that Parse fills in place. */
  class ParsedPacket {
    var length: byte
    var header: byte
    var data: seq<byte>

    constructor ()
      ensures length == 0 && header == 0 && data == []
    {
      length, header, data := 0, 0, [];
    }

    method Parse(b: seq<byte>) returns (r: Result<(), ParseError>)
      modifies this
      ensures r.Err? <==> ParsePacket(b).Err?
      ensures r.Err? ==> r.error == ParsePacket(b).error
      ensures r.Ok? && old(data) == [] ==>
                |data| <= 252 && Packet(header, data) == ParsePacket(b).value && length == b[0]
    {
      if |b| == 0 {
        return Err(Empty);
      }
      length := b[0];
      if length < 3 {
        return Err(TooShort);
      }
      if length > |b| {
        return Err(ClaimsTooMuch);
      }
      var frame := b[..length];
      var crcIn := frame[length - 1];
      var crcLocal := CrcTable.Fold(0, frame[..length - 1]);
      if crcIn != crcLocal {
        return Err(BadCrc);
      }
      header := frame[1];
      if !KnownHeader(header) {
        return Err(UnknownHeader);
      }
      var dataLength := length - 3;
      if dataLength > 0 {
        data := frame[2..2 + dataLength];
      }
      return Ok(());
    }
  }

  lemma ParseEncoded(p: Packet, rest: seq<byte>)
    ensures ParsePacket(Encode(p) + rest)
         == if KnownHeader(p.header) then Ok(p) else Err(UnknownHeader)
  {
    EncodeChecks(p);
    var b := Encode(p) + rest;
    assert b[..b[0]] == Encode(p);
    assert b[2..b[0] - 1] == Encode(p)[2..p.Size() - 1];
  }

  lemma ParsedIsEncoded(b: seq<byte>)
    requires ParsePacket(b).Ok?
    ensures var p := ParsePacket(b).value;
            KnownHeader(p.header) && p.Size() == b[0] && b[..p.Size()] == Encode(p)
  {
    var frame := b[..b[0]];
    ChecksIsEncoded(frame);
    assert frame[2..|frame| - 1] == b[2..b[0] - 1];
  }

  /** Why a packet is refused: each reason exactly where the ones before it do not apply. */
  lemma RefusedBecause(b: seq<byte>)
    ensures ParsePacket(b) == Err(Empty) <==> b == []
    ensures ParsePacket(b) == Err(TooShort) <==> b != [] && b[0] < 3
    ensures ParsePacket(b) == Err(ClaimsTooMuch) <==> b != [] && 3 <= b[0] && |b| < b[0]
    ensures ParsePacket(b) == Err(BadCrc)
       <==> b != [] && 3 <= b[0] <= |b| && forall p: Packet | p.Size() == b[0] :: b[..b[0]] != Encode(p)
    ensures ParsePacket(b) == Err(UnknownHeader)
       <==> b != [] && 3 <= b[0] <= |b| && !KnownHeader(b[1])
            && exists p: Packet :: p.Size() == b[0] && b[..b[0]] == Encode(p)
  {
    if b != [] && 3 <= b[0] <= |b| {
      var frame := b[..b[0]];
      if Checks(frame) {
        ChecksIsEncoded(frame);
        var p := Packet(frame[1], frame[2..|frame| - 1]);
        assert p.Size() == b[0] && b[..b[0]] == Encode(p);
      }
      forall p: Packet | p.Size() == b[0] && b[..b[0]] == Encode(p) ensures Checks(frame) {
        EncodeChecks(p);
      }
    }
  }

  /** The headers that the host knows are those that the firmware names. */
  lemma KnownHeadersAreNamed(h: byte)
    ensures KnownHeader(h)
       <==> h in {RESPONSE_STATUS, RESPONSE_DEBUG, RESPONSE_TWI, RESPONSE_MDB_STARTED, RESPONSE_MDB_SUCCESS,
                  RESPONSE_ERROR, RESPONSE_BAD_PACKET, RESPONSE_INVALID_CRC, RESPONSE_BUFFER_OVERFLOW,
                  RESPONSE_UNKNOWN_COMMAND,
                  RESPONSE_CORRUPTION, RESPONSE_NOT_IMPLEMENTED, RESPONSE_MDB_BUSY, RESPONSE_MDB_INVALID_CHK,
                  RESPONSE_MDB_NAK, RESPONSE_MDB_TIMEOUT, RESPONSE_MDB_INVALID_END, RESPONSE_MDB_RECEIVE_OVERFLOW,
                  RESPONSE_MDB_SEND_OVERFLOW, RESPONSE_UART_READ_UNEXPECTED, RESPONSE_UART_READ_ERROR,
                  RESPONSE_UART_SEND_BUSY}
  {}

  /** Any burst of at most eight bits in a packet, its length byte spared, is answered with
      a CRC error. */
  lemma CorruptionIsRejected(b: seq<byte>, b': seq<byte>, p: nat)
    requires ParsePacket(b).Ok? && |b'| == |b| && b'[0] == b[0]
    requires Burst(b[..b[0]], b'[..b[0]], p)
    ensures ParsePacket(b') == Err(BadCrc)
  {
    BurstDetected(b[..b[0]], b'[..b[0]], p);
  }

  // ---------------------------------------------------------------- the response

  /** What a run of the parser shows: the packets handed to the callback, in order, and the
      error that ended it, if any. */
  datatype Parsed = Parsed(seen: seq<Packet>, error: Option<ResponseError>)

  function ParseAll(b: seq<byte>): (r: Parsed) {
    if b == [] then Parsed([], None)
    else
      match ParsePacket(b)
      case Err(e) => Parsed([], Some(InPacket(e)))
      case Ok(p) =>
        var rest := ParseAll(b[b[0]..]);
        Parsed([p] + rest.seen, rest.error)
  }

  function ParseResponse(b: seq<byte>): (r: Parsed) {
    if |b| == 0 then Parsed([], Some(ResponseEmpty))
    else if b[0] == 0 then Parsed([], None)
    else if b[0] > RESPONSE_MAX_LENGTH then Parsed([], Some(TotalTooLarge))
    else if b[0] > |b| - 1 then Parsed([], Some(TotalBeyondBuffer))
    else ParseAll(b[1..b[0] + 1])
  }

  /** A response is refused as a whole, with nothing seen of it, exactly when it is empty, or its
      first byte claims more than 80 bytes or more than there are; a claim of none is no error. */
  lemma ResponseIsRefused(b: seq<byte>)
    ensures ParseResponse(b).error == Some(ResponseEmpty) <==> b == []
    ensures ParseResponse(b).error == Some(TotalTooLarge) <==> b != [] && b[0] > 80
    ensures ParseResponse(b).error == Some(TotalBeyondBuffer) <==> b != [] && 0 < b[0] <= 80 && b[0] >= |b|
    ensures b == [] || b[0] > 80 || b[0] >= |b| || b[0] == 0 ==> ParseResponse(b).seen == []
    ensures b != [] && b[0] == 0 ==> ParseResponse(b).error == None
  {
    if b != [] && 0 < b[0] <= 80 && b[0] < |b| {
      OnlyPacketErrors(b[1..b[0] + 1]);
    }
  }

  lemma {:induction false} OnlyPacketErrors(b: seq<byte>)
    ensures ParseAll(b).error.Some? ==> ParseAll(b).error.value.InPacket?
    decreases |b|
  {
    if b != [] && ParsePacket(b).Ok? {
      OnlyPacketErrors(b[b[0]..]);
    }
  }

  /** ParseResponse of protocol.go.  The callback is the append to seen. */
  method ParseResponseLoop(b: seq<byte>) returns (seen: seq<Packet>, error: Option<ResponseError>)
    ensures Parsed(seen, error) == ParseResponse(b)
  {
    if |b| == 0 {
      return [], Some(ResponseEmpty);
    }
    var total := b[0];
    if total == 0 {
      return [], None;
    }
    if total > RESPONSE_MAX_LENGTH {
      return [], Some(TotalTooLarge);
    }
    if total > |b| - 1 {
      return [], Some(TotalBeyondBuffer);
    }
    assert b[..total + 1][1..] == b[1..total + 1];
    seen, error := ParseLoop(b[..total + 1]);
  }

  /** Its loop over the counted bytes.  The offset is an 8-bit counter that
      never wraps. */
  method ParseLoop(bs: seq<byte>) returns (seen: seq<Packet>, error: Option<ResponseError>)
    requires 1 < |bs| <= RESPONSE_MAX_LENGTH + 1
    ensures Parsed(seen, error) == ParseAll(bs[1..])
  {
    seen := [];
    ghost var goal := ParseAll(bs[1..]);
    var offset: byte := 1;
    while offset < |bs|
      invariant 1 <= offset <= |bs| && goal == Before(seen, ParseAll(bs[offset..]))
      decreases |bs| - offset
    {
      var r := ParseFresh(bs[offset..]);
      ParseAllStep(seen, bs, offset, r);
      if r.Err? {
        return seen, Some(InPacket(r.error));
      }
      var length := bs[offset];
      seen := seen + [r.value];
      assert offset + length <= |bs| < 256;
      offset := Add8(offset, length);
    }
    assert bs[offset..] == [];
    return seen, None;
  }

  method ParseFresh(b: seq<byte>) returns (r: Result<Packet, ParseError>)
    ensures r == ParsePacket(b)
  {
    var p := new ParsedPacket();
    var ok := p.Parse(b);
    r := if ok.Err? then Err(ok.error) else Ok(Packet(p.header, p.data));
  }

  function Before(seen: seq<Packet>, rest: Parsed): (r: Parsed) {
    Parsed(seen + rest.seen, rest.error)
  }

  lemma ParseAllStep(seen: seq<Packet>, bs: seq<byte>, offset: nat, r: Result<Packet, ParseError>)
    requires offset < |bs| && r == ParsePacket(bs[offset..])
    ensures r.Err? ==>
              Before(seen, ParseAll(bs[offset..])) == Parsed(seen, Some(InPacket(r.error)))
    ensures r.Ok? ==>
              && 3 <= bs[offset] <= |bs| - offset
              && Before(seen, ParseAll(bs[offset..]))
                 == Before(seen + [r.value], ParseAll(bs[offset + bs[offset]..]))
  {
    var here := bs[offset..];
    assert seen + [] == seen;
    if r.Ok? {
      assert here[here[0]..] == bs[offset + bs[offset]..];
      var rest := ParseAll(here[here[0]..]);
      assert seen + ([r.value] + rest.seen) == seen + [r.value] + rest.seen;
    }
  }

  predicate AllKnown(ps: seq<Packet>) {
    forall p | p in ps :: KnownHeader(p.header)
  }

  lemma {:induction false} ParseAllEncoded(ps: seq<Packet>)
    requires AllKnown(ps)
    ensures ParseAll(EncodeAll(ps)) == Parsed(ps, None)
  {
    if ps != [] {
      var p, rest := ps[0], EncodeAll(ps[1..]);
      ParseEncoded(p, rest);
      ParseAllEncoded(ps[1..]);
      assert (Encode(p) + rest)[p.Size()..] == rest;
    }
  }

  /** Round trip: a length byte, the encodings of known packets, and anything after them. */
  lemma ParseOfEncoding(ps: seq<Packet>, trailing: seq<byte>)
    requires AllKnown(ps) && |EncodeAll(ps)| <= RESPONSE_MAX_LENGTH
    ensures ParseResponse([|EncodeAll(ps)|] + EncodeAll(ps) + trailing) == Parsed(ps, None)
  {
    var bs := EncodeAll(ps);
    var b := [|bs|] + bs + trailing;
    assert b[1..|bs| + 1] == bs;
    ParseAllEncoded(ps);
  }

  /** The packets seen are exactly the valid packets before the first bad one, and there is
      no error exactly when they make up all of the input. */
  ghost predicate Explains(r: Parsed, b: seq<byte>) {
    && AllKnown(r.seen)
    && EncodeAll(r.seen) <= b
    && (r.error.None? ==> EncodeAll(r.seen) == b)
    && (r.error.Some? ==>
          var bad := b[|EncodeAll(r.seen)|..];
          bad != [] && ParsePacket(bad).Err? && r.error.value == InPacket(ParsePacket(bad).error))
  }

  /** The converse of the round trip, for any bytes. */
  lemma {:induction false} ParseAllIsExact(b: seq<byte>)
    ensures Explains(ParseAll(b), b)
    decreases |b|
  {
    if b != [] && ParsePacket(b).Ok? {
      var p, n := ParsePacket(b).value, b[0];
      ParsedIsEncoded(b);
      ParseAllIsExact(b[n..]);
      ExplainsOneMore(p, ParseAll(b[n..]), b);
    } else if b != [] {
      assert b[0..] == b;
    }
  }

  lemma ExplainsOneMore(p: Packet, r: Parsed, b: seq<byte>)
    requires KnownHeader(p.header) && |b| >= p.Size() && b[..p.Size()] == Encode(p)
    requires Explains(r, b[p.Size()..])
    ensures Explains(Parsed([p] + r.seen, r.error), b)
  {
    var n, head, tail := p.Size(), Encode(p), EncodeAll(r.seen);
    assert ([p] + r.seen)[1..] == r.seen;
    assert EncodeAll([p] + r.seen) == head + tail;
    assert b == head + b[n..];
    assert b[|head + tail|..] == b[n..][|tail|..];
  }

  /** On any response at all: success means re-encoding the callbacks gives back the counted
      bytes; failure after the length checks means they are the prefix that was good. */
  lemma ParseResponseIsExact(b: seq<byte>)
    requires |b| > 0 && 0 < b[0] <= RESPONSE_MAX_LENGTH && b[0] < |b|
    ensures Explains(ParseResponse(b), b[1..b[0] + 1])
  {
    ParseAllIsExact(b[1..b[0] + 1]);
  }

  // ---------------------------------------------------------------- the command frame

  /** The frame that Do writes for a request: header and data together are the payload. */
  function CommandFrame(rq: seq<byte>): (bs: seq<byte>)
    ensures |bs| == |rq| + 2
  {
    var body: seq<byte> := [(|rq| + 2) % 256] + rq;
    body + [Crc8(0, body)]
  }

  /** The length of a payload of 254 bytes or more does not fit its byte, and wraps. */
  lemma FrameIsLaid(rq: seq<byte>)
    ensures CommandFrame(rq)[0] == (|rq| + 2) % 256 && CommandFrame(rq)[1..|rq| + 1] == rq
    ensures CommandFrame(rq)[|rq| + 1] == Crc8(0, CommandFrame(rq)[..|rq| + 1])
  {
    assert CommandFrame(rq)[..|rq| + 1] == [(|rq| + 2) % 256] + rq;
  }

  method FrameCommand(rq: seq<byte>) returns (packet: array<byte>)
    ensures fresh(packet) && packet[..] == CommandFrame(rq)
  {
    packet := new byte[|rq| + 2](_ => 0);
    PutBody(packet, rq);
    var n := packet.Length - 1;
    var crc := CrcTable.Fold(0, packet[..n]);
    ghost var body := packet[..n];
    packet[n] := crc;
    assert packet[..n] == body && packet[..] == packet[..n] + [packet[n]];
  }

  /** The length byte and the payload. */
  method PutBody(packet: array<byte>, rq: seq<byte>)
    requires packet.Length == |rq| + 2
    modifies packet
    ensures packet[..|rq| + 1] == [(|rq| + 2) % 256] + rq
  {
    packet[0] := packet.Length % 256;
    forall i | 0 <= i < |rq| {
      packet[1 + i] := rq[i];
    }
  }

  /** Commands and responses have one format: the payload is header, then data. */
  lemma CommandFrameIsPacket(header: byte, data: seq<byte>)
    requires |data| <= 252
    ensures CommandFrame([header] + data) == Encode(Packet(header, data))
  {
    assert [3 + |data|] + ([header] + data) == [3 + |data|, header] + data;
  }
}
