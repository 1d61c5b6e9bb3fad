/** twi.c on its buffers, in place: the reply queue and the I2C interrupt. */
module FirmwareTwi {
  import opened Bytes
  import opened Protocol
  import opened Gateway
  import opened Buffers
  import Crc
  import CrcTable

  /** The appends of master_out_n, piece by piece and with the CRC folded in two parts, to a
      buffer with room for the packet. */
  method AppendPieces(b: Buffer, header: byte, data: Data)
    requires b.Valid() && |b.contents| + 3 + |data| <= b.size
    modifies b`length, b`contents, b.data
    ensures b.Valid() && b.contents == old(b.contents) + Encode(Packet(header, data))
  {
    var packetLength: byte := 3 + |data|;
    ghost var before := b.contents;
    var ok := b.Append(packetLength);
    ok := b.Append(header);
    ok := b.AppendN(data);
    var crc := SplitCrc(packetLength, header, data);
    ok := b.Append(crc);
    PiecesMakePacket(before, Packet(header, data), crc);
  }

  method SplitCrc(packetLength: byte, header: byte, data: seq<byte>) returns (crc: byte)
    ensures crc == Crc.Crc8(0, [packetLength, header] + data)
  {
    crc := CrcTable.Fold(0, [packetLength, header]);
    crc := CrcTable.Fold(crc, data);
    Crc.Composes(0, [packetLength, header], data);
  }

  lemma PiecesMakePacket(before: seq<byte>, p: Packet, crc: byte)
    requires crc == Crc.Crc8(0, Body(p))
    ensures before + [p.Size()] + [p.header] + p.data + [crc] == before + Encode(p)
  {}

  /** The packet that master_out_1, master_out_2 and twi_out_set_2 build before they copy it. */
  method ShortPacket(p: Packet) returns (packet: seq<byte>)
    ensures packet == Encode(p)
  {
    var body: seq<byte> := [p.Size(), p.header] + p.data;
    var crc := CrcTable.Fold(0, body);
    packet := body + [crc];
  }

  /** The statics of twi.c, with the acknowledge bit of TWCR and the mode of the bus hardware. */
  class Twi {
    var idle: bool
    var twea: bool
    var mode: BusMode
    const input: Buffer
    const masterOut: Buffer
    const twiOut: Buffer
    var stat: TwiStat

    // history
    ghost var ledger: Ledger

    ghost predicate Valid()
      reads this, input, masterOut, twiOut, input.data, masterOut.data, twiOut.data
    {
      && input.Valid() && masterOut.Valid() && twiOut.Valid()
      && input != masterOut && input != twiOut && masterOut != twiOut
      && input.data != masterOut.data && input.data != twiOut.data && masterOut.data != twiOut.data
      && input.size == COMMAND_MAX_LENGTH
      && masterOut.size == RESPONSE_MAX_LENGTH && twiOut.size == RESPONSE_MAX_LENGTH
    }

    ghost function View(): (t: Gateway.Twi)
      reads this, input, masterOut, twiOut, input.data, masterOut.data, twiOut.data
      requires Valid()
    {
      Gateway.Twi(idle, twea, mode, input.contents, twiOut.contents, twiOut.used, masterOut.contents, stat, ledger)
    }

    ghost function Repr(): (s: set<object>)
      reads this, input, masterOut, twiOut
    {
      {this, input, masterOut, twiOut, input.data, masterOut.data, twiOut.data}
    }

    /** twi_init_slave. */
    constructor ()
      ensures Valid() && fresh(Repr())
      ensures View() == Blank(0).twi
    {
      input := new Buffer(COMMAND_MAX_LENGTH);
      masterOut := new Buffer(RESPONSE_MAX_LENGTH);
      twiOut := new Buffer(RESPONSE_MAX_LENGTH);
      idle, twea, mode, stat := true, true, Unaddressed, [0, 0, 0, 0, 0, 0, 0, 0];
      ledger := Ledger([], [], [], [], true);
    }

    // -------------------------------------------------------------- replies

    /** twi_out_set_2, as the overflow branches of master_out_* call it. */
    method ReportOverflow(size: byte)
      requires Valid()
      modifies twiOut`length, twiOut`contents, twiOut.data, this`ledger
      ensures Valid()
      ensures View() == old(View()).(reply := Encode(Packet(RESPONSE_BUFFER_OVERFLOW, [size])),
                                     ledger := old(ledger).(intact := false))
    {
      var packet := ShortPacket(Packet(RESPONSE_BUFFER_OVERFLOW, [size]));
      ghost var t := View();
      twiOut.Copy(packet);
      assert View() == t.(reply := packet);
      ledger := ledger.(intact := false);
    }

    method Refuse(size: byte, ghost p: Packet)
      requires Valid() && !Fits(View(), p) && size == p.Size()
      modifies twiOut`length, twiOut`contents, twiOut.data, this`ledger
      ensures Valid() && View() == Emit(old(View()), p)
    {
      ReportOverflow(size);
    }

    ghost method Accept(p: Packet)
      requires Valid()
      modifies this`ledger
      ensures Valid() && View() == old(View()).(ledger := old(ledger).(
                accepted := old(ledger).accepted + [p], pending := old(ledger).pending + [p]))
    {
      ledger := ledger.(accepted := ledger.accepted + [p], pending := ledger.pending + [p]);
    }

    /** master_out_1 and master_out_2. */
    method MasterOut(p: Packet)
      requires Valid() && |p.data| <= 1
      modifies Repr()
      ensures Valid() && Repr() == old(Repr()) && View() == Emit(old(View()), p)
    {
      var packet := ShortPacket(p);
      var ok := masterOut.AppendN(packet);
      if ok {
        Accept(p);
      } else {
        Refuse(p.Size(), p);
      }
    }

    /** master_out_n. */
    method MasterOutN(p: Packet)
      requires Valid()
      modifies Repr()
      ensures Valid() && Repr() == old(Repr()) && View() == Emit(old(View()), p)
    {
      var room := HasRoom(p);
      if room {
        AppendPacket(p);
      } else {
        Refuse(p.Size(), p);
      }
    }

    method HasRoom(p: Packet) returns (room: bool)
      requires Valid()
      ensures room == Fits(View(), p)
    {
      room := masterOut.length + p.Size() <= masterOut.size;
    }

    method AppendPacket(p: Packet)
      requires Valid() && Fits(View(), p)
      modifies masterOut`length, masterOut`contents, masterOut.data, this`ledger
      ensures Valid() && View() == Emit(old(View()), p)
    {
      ghost var t := View();
      AppendPieces(masterOut, p.header, p.data);
      assert View() == t.(pending := t.pending + Encode(p));
      Accept(p);
    }

    /** The end of twi_step: a reply read to its end makes room for the next. */
    method SwapIfRead()
      requires Valid()
      modifies Repr()
      ensures Valid() && Repr() == old(Repr())
      ensures View() == var t := old(View());
                        if t.used >= |t.reply| && t.pending != [] then Gateway.Swap(t) else t
    {
      if twiOut.used >= twiOut.length && masterOut.length > 0 {
        Buffers.Swap(twiOut, masterOut);
        twiOut.used := 0;
        masterOut.ClearFull();
        ledger := Ledger(ledger.accepted, ledger.consumed + ledger.reply, ledger.pending, [], ledger.intact);
      }
    }

    method ClearInput()
      requires Valid()
      modifies input`length, input`used, input`contents
      ensures Valid() && View() == old(View()).(input := [])
    {
      input.ClearFast();
    }

    method Bump(i: nat)
      requires Valid() && i < 8
      modifies this`stat
      ensures Valid() && View() == old(View()).(stat := Count(old(stat), i))
    {
      stat := stat[i := Add8(stat[i], 1)];
    }

    // -------------------------------------------------------------- the interrupt

    /** An event on the bus: the byte that TWI_vect loads for the host, if it loads one. */
    method OnTwi(e: TwiEvent) returns (out: Option<byte>)
      requires Valid()
      modifies this, input`length, input`used, input`contents, input.data
      modifies twiOut`length, twiOut`used, twiOut`contents
      ensures Valid() && TwiResult(View(), out) == TwiIsr(old(View()), e)
    {
      SetMode(ModeAfter(mode, e));
      if e.ReadAddressed? || e.ByteOutAcked? || e.LastByteOutAcked? || e.ByteOutNacked? {
        out := OnTransmit(e);
      } else {
        OnReceive(e);
        out := None;
      }
    }

    method SetMode(m: BusMode)
      requires Valid()
      modifies this`mode
      ensures Valid() && View() == old(View()).(mode := m)
    {
      mode := m;
    }

    /** The statuses of a slave that is written to, and those of the bus itself. */
    method OnReceive(e: TwiEvent)
      requires Valid()
      requires !(e.ReadAddressed? || e.ByteOutAcked? || e.LastByteOutAcked? || e.ByteOutNacked?)
      modifies this, input`length, input`used, input`contents, input.data
      modifies twiOut`length, twiOut`used, twiOut`contents
      ensures Valid() && TwiResult(View(), None) == Handled(old(View()), e)
    {
      var ack := false;
      match e {
        case NoInfo =>
          Bump(0);
          return;
        case BusError =>
          ClearAll();
        case WriteAddressed =>
          idle := false;
          ClearInput();
          ack := true;
        case ByteIn(b) =>
          idle := false;
          var ok := input.Append(b);
          ack := true;
        case ByteInNacked(general) =>
          Bump(if general then 3 else 2);
          idle := false;
        case StopSeen =>
          Bump(6);
          idle := true;
          ack := true;
        case OtherStatus =>
      }
      twea := ack;
    }

    /** A bus error: both buffers that the bus uses are cleared. */
    method ClearAll()
      requires Valid()
      modifies this`stat, this`ledger, input`length, input`used, input`contents
      modifies twiOut`length, twiOut`used, twiOut`contents
      ensures Valid()
      ensures View() == old(View()).(stat := Count(old(stat), 1), input := [], reply := [], used := 0,
                                     ledger := old(ledger).(intact := false))
    {
      Bump(1);
      ClearInput();
      twiOut.ClearFast();
      ledger := ledger.(intact := false);
    }

    /** The next byte of the reply, or 0 behind its end. */
    method LoadByte() returns (out: Option<byte>, ack: bool)
      requires Valid()
      modifies this`idle, twiOut`used
      ensures Valid() && TwiResult(View().(twea := ack), out) == Handled(old(View()), ByteOutAcked)
      ensures twea == old(twea)
    {
      idle := false;
      ack := twiOut.used < twiOut.length;
      if ack {
        out := Some(twiOut.data[twiOut.used]);
        twiOut.used := twiOut.used + 1;
      } else {
        out := Some(0);
      }
    }

    /** The statuses of a slave that is read from. */
    method OnTransmit(e: TwiEvent) returns (out: Option<byte>)
      requires Valid()
      requires e.ReadAddressed? || e.ByteOutAcked? || e.LastByteOutAcked? || e.ByteOutNacked?
      modifies this, twiOut`length, twiOut`used, twiOut`contents
      ensures Valid() && TwiResult(View(), out) == Handled(old(View()), e)
    {
      var ack := false;
      out := None;
      match e {
        case ReadAddressed =>
          out, ack := Announce();
        case ByteOutAcked =>
          out, ack := LoadByte();
        case LastByteOutAcked =>
          Bump(5);
          idle := true;
          twiOut.ClearFast();
          ack := true;
          ledger := ledger.(consumed := ledger.consumed + ledger.reply, reply := []);
        case ByteOutNacked =>
          Bump(4);
          idle := true;
          twiOut.used := 0;
      }
      twea := ack;
    }

    /** A read begins: the length of the reply, 0 when there is none. */
    method Announce() returns (out: Option<byte>, ack: bool)
      requires Valid()
      modifies this`idle, this`stat, twiOut`used
      ensures Valid() && TwiResult(View().(twea := ack), out) == Handled(old(View()), ReadAddressed)
      ensures twea == old(twea)
    {
      idle := false;
      if twiOut.length == 0 {
        Bump(7);
        return Some(0), false;
      }
      twiOut.used := 0;
      out := Some(twiOut.length);
      ack := twiOut.used < twiOut.length;
    }
  }
}
