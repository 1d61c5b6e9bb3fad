/** main.c and mdb_step: the main loop over both sides, and the command dispatch. */
module FirmwareMain {
  import opened Bytes
  import opened Protocol
  import opened Gateway
  import FirmwareMdb
  import FirmwareTwi
  import Crc
  import CrcTable

  /** memsum: the 8-bit sum of a block, which is its true sum modulo 256. */
  method MemSum(src: seq<byte>) returns (sum: byte)
    ensures sum == Sum(src) == Total(src) % 256
  {
    sum := 0;
    for i := 0 to |src|
      invariant sum == Sum(src[..i])
    {
      sum := Add8(sum, src[i]);
      assert src[..i + 1][..i] == src[..i];
    }
    assert src[..|src|] == src;
    SumIsModular(src);
  }

  class Mega {
    const mdb: FirmwareMdb.Mdb
    const twi: FirmwareTwi.Twi
    var mcusr: byte
    var course: Course

    ghost predicate Valid()
      reads this, mdb, mdb.Repr(), twi, twi.Repr()
    {
      mdb.Valid() && twi.Valid() && mdb.Repr() !! twi.Repr() && this !in mdb.Repr() && this !in twi.Repr()
    }

    ghost function View(): (g: State)
      reads this, mdb, mdb.Repr(), twi, twi.Repr()
      requires Valid()
    {
      State(mdb.View(), twi.View(), mcusr, course)
    }

    ghost function Repr(): (s: set<object>)
      reads mdb, mdb.Repr(), twi, twi.Repr()
    {
      {this} + mdb.Repr() + twi.Repr()
    }

    constructor (m: FirmwareMdb.Mdb, t: FirmwareTwi.Twi, mcusrSaved: byte)
      requires m.Valid() && t.Valid() && m.Repr() !! t.Repr()
      ensures Valid() && mdb == m && twi == t
      ensures View() == State(m.View(), t.View(), mcusrSaved, Running)
    {
      mdb, twi := m, t;
      mcusr, course := mcusrSaved, Running;
    }

    /** main up to its loop. */
    static method Boot(mcusrSaved: byte) returns (m: Mega)
      ensures m.Valid() && fresh(m.Repr())
      ensures m.View() == Initial(mcusrSaved)
    {
      m := Off(mcusrSaved);
      m.Queue(Packet(RESPONSE_DEBUG, [0xbe, 0xeb, 0xee]));
    }

    /** The parts as initialisation leaves them, before the greeting. */
    static method Off(mcusrSaved: byte) returns (m: Mega)
      ensures m.Valid() && fresh(m.Repr())
      ensures m.View() == Blank(mcusrSaved)
    {
      var link := new FirmwareMdb.Mdb();
      var replies := new FirmwareTwi.Twi();
      m := new Mega(link, replies, mcusrSaved);
    }

    // -------------------------------------------------------------- mdb_step

    /** mdb_finish_1, mdb_finish_2, mdb_finish_3 and mdb_finish_in. */
    method Finish(p: Packet)
      requires Valid()
      modifies Repr()
      ensures Valid() && Repr() == old(Repr())
      ensures View() == old(View()).(link := ResetLink(old(View()).link), twi := Emit(old(View()).twi, p))
    {
      Queue(p);
      ResetMdb();
    }

    method ResetMdb()
      requires Valid()
      modifies mdb.Repr()
      ensures Valid() && Repr() == old(Repr())
      ensures View() == old(View()).(link := ResetLink(old(View()).link))
    {
      mdb.Reset();
    }

    method Queue(p: Packet)
      requires Valid()
      modifies twi.Repr()
      ensures Valid() && Repr() == old(Repr())
      ensures View() == old(View()).(twi := Emit(old(View()).twi, p))
    {
      twi.MasterOutN(p);
    }

    /** A closing word on the MDB bus, and the answer. */
    method WriteAndFinish(b: byte, p: Packet)
      requires Valid()
      modifies Repr()
      ensures Valid() && Repr() == old(Repr())
      ensures var g := old(View());
              View() == g.(link := ResetLink(Write(g.link, Word(b, false))), twi := Emit(g.twi, p))
    {
      mdb.UartWrite(b);
      Finish(p);
    }

    method MdbStep() returns (again: bool)
      requires Valid()
      modifies Repr()
      ensures Valid() && Repr() == old(Repr())
      ensures View() == Gateway.MdbStep(old(View()))
      ensures again <==> old(View()).link.errCode != 0 || old(View()).link.state == RecvEnd
    {
      if mdb.errCode != 0 {
        ReportError();
        return true;
      }
      if mdb.state == RecvEnd {
        if mdb.input.length == 0 {
          EmptyBlock();
        } else {
          DataBlock();
        }
        return true;
      }
      return false;
    }

    method ReportError()
      requires Valid() && View().link.errCode != 0
      modifies Repr()
      ensures Valid() && Repr() == old(Repr())
      ensures View() == Gateway.MdbStep(old(View()))
    {
      var stateCode, data := mdb.errState.Code(), mdb.errData;
      Finish(Packet(mdb.errCode, [stateCode, data]));
    }

    /** An answer without data: acknowledged, refused, or neither. */
    method EmptyBlock()
      requires Valid()
      requires var l := View().link; l.errCode == 0 && l.state == RecvEnd && l.input == []
      modifies Repr()
      ensures Valid() && Repr() == old(Repr())
      ensures View() == Gateway.MdbStep(old(View()))
    {
      if mdb.lastByte == MDB_ACK {
        Finish(Packet(RESPONSE_MDB_SUCCESS, []));
      } else if mdb.lastByte == MDB_NAK {
        Finish(Packet(RESPONSE_MDB_NAK, [mdb.lastByte]));
      } else {
        Finish(Packet(RESPONSE_MDB_INVALID_END, [mdb.lastByte]));
      }
    }

    /** An answer with data, whose sum decides. */
    method DataBlock()
      requires Valid()
      requires var l := View().link; l.errCode == 0 && l.state == RecvEnd && l.input != []
      modifies Repr()
      ensures Valid() && Repr() == old(Repr())
      ensures View() == Gateway.MdbStep(old(View()))
    {
      if mdb.lastByte != mdb.checksum {
        if mdb.retry {
          WriteAndFinish(MDB_NAK, Packet(RESPONSE_MDB_INVALID_CHK, [mdb.lastByte]));
        } else {
          AskForRetry();
        }
      } else {
        WriteAndFinish(MDB_ACK, Packet(RESPONSE_MDB_SUCCESS, mdb.input.data[..mdb.input.length]));
      }
    }

    method AskForRetry()
      requires Valid()
      modifies Repr()
      ensures Valid() && Repr() == old(Repr())
      ensures View() == old(View()).(link := StartReceive(
                Write(old(View()).link, Word(MDB_RET, false)).(retry := true)))
    {
      mdb.UartWrite(MDB_RET);
      mdb.retry := true;
      mdb.StartReceive();
    }

    // -------------------------------------------------------------- master_command

    /** master_out_1 and master_out_2 as one command's whole answer. */
    method Say(p: Packet)
      requires Valid() && |p.data| <= 1
      modifies Repr()
      ensures Valid() && Repr() == old(Repr())
      ensures View() == Apply(old(View()), Answer(old(View()), [p]))
    {
      twi.MasterOut(p);
      EmitOne(old(View()).twi, p);
    }

    /** master_command on what is left of the input. */
    method MasterCommand(bs: seq<byte>, ready: bool) returns (consumed: nat)
      requires Valid() && course == Running
      requires |bs| < 3 || bs[0] > 0
      modifies Repr()
      ensures Valid() && Repr() == old(Repr())
      ensures consumed == Claimed(bs)
      ensures View() == Apply(old(View()), Perform(old(View()), CommandAt(bs), ready))
    {
      if |bs| < 3 {
        Say(Packet(RESPONSE_BAD_PACKET, [0]));
        return |bs|;
      }
      consumed := bs[0];
      if consumed > |bs| {
        Say(Packet(RESPONSE_BAD_PACKET, [0]));
        return;
      }
      CheckAndExecute(bs, consumed, ready);
    }

    lemma CommandIs(bs: seq<byte>, length: byte, crcIn: byte, crcLocal: byte)
      requires |bs| >= 3 && 0 < length == bs[0] <= |bs|
      requires crcIn == bs[length - 1] && crcLocal == Crc.Crc8(0, bs[..length - 1])
      ensures CommandAt(bs) == if crcIn != crcLocal then BadCheck(crcIn) else Command(bs[1], DataAt(bs))
    {
      assert bs[..length][..length - 1] == bs[..length - 1];
    }

    method CheckAndExecute(bs: seq<byte>, length: byte, ready: bool)
      requires Valid() && course == Running && |bs| >= 3 && 0 < length == bs[0] <= |bs|
      modifies Repr()
      ensures Valid() && Repr() == old(Repr())
      ensures View() == Apply(old(View()), Perform(old(View()), CommandAt(bs), ready))
    {
      var crcIn := bs[length - 1];
      var crcLocal := CrcTable.Fold(0, bs[..length - 1]);
      CommandIs(bs, length, crcIn, crcLocal);
      if crcIn != crcLocal {
        Say(Packet(RESPONSE_INVALID_CRC, [crcIn]));
        return;
      }
      Execute(bs[1], DataAt(bs), ready);
    }

    /** A frame of two bytes that passes the check has a header that no command has: whatever
        follows it, the answer is the same. */
    lemma TwoBytesAreUnknown(g: State, bs: seq<byte>, data: Data, ready: bool)
      requires |bs| >= 3 && bs[0] == 2
      ensures CommandAt(bs) in {BadCheck(bs[1]), Command(0xb5, [])}
      ensures Gateway.Execute(g, 0xb5, data, ready) == Answer(g, [Packet(RESPONSE_UNKNOWN_COMMAND, [])])
    {
      assert bs[..2][..1] == [2];
      CrcTable.CrcOfTwo();
    }

    method Execute(header: byte, data: Data, ready: bool)
      requires Valid() && course == Running
      modifies Repr()
      ensures Valid() && Repr() == old(Repr())
      ensures View() == Apply(old(View()), Gateway.Execute(old(View()), header, data, ready))
    {
      if header == COMMAND_POLL {
        if |data| != 0 {
          Say(Packet(RESPONSE_BAD_PACKET, [1]));
        }
      } else if header == COMMAND_CONFIG {
        mcusr := 0;
        Say(Packet(RESPONSE_NOT_IMPLEMENTED, []));
      } else if header == COMMAND_RESET {
        course := Stopped;
      } else if header == COMMAND_FLASH {
        course := Spinning;
      } else if header == COMMAND_DEBUG {
        Debug();
      } else if header == COMMAND_MDB_BUS_RESET {
        BusResetCommand(data);
      } else if header == COMMAND_MDB_TRANSACTION_SIMPLE {
        if mdb.state != Idle {
          Say(Packet(RESPONSE_MDB_BUSY, []));
        } else {
          TransactionCommand(data, ready);
        }
      } else if header == COMMAND_MDB_TRANSACTION_CUSTOM {
        Say(Packet(RESPONSE_NOT_IMPLEMENTED, []));
      } else {
        Say(Packet(RESPONSE_UNKNOWN_COMMAND, []));
      }
    }

    method Debug()
      requires Valid()
      modifies Repr()
      ensures Valid() && Repr() == old(Repr())
      ensures View() == Apply(old(View()), Answer(old(View()), [Packet(RESPONSE_DEBUG, DebugData(old(View())))]))
    {
      var head: seq<byte> := ['M' as int, 1, mdb.state.Code(), 'T' as int, 8];
      var saved: byte := mcusr;
      var tail: seq<byte> := ['U' as int, saved];
      var buf: Data := head + twi.stat + tail + seq<byte>(25, _ => 0);
      assert buf == DebugData(View());
      twi.MasterOutN(Packet(RESPONSE_DEBUG, buf));
      EmitOne(old(View()).twi, Packet(RESPONSE_DEBUG, buf));
    }

    method BusResetCommand(data: Data)
      requires Valid() && course == Running
      modifies Repr()
      ensures Valid() && Repr() == old(Repr())
      ensures View() == Apply(old(View()), Gateway.Execute(old(View()), COMMAND_MDB_BUS_RESET, data, true))
    {
      if |data| != 2 {
        Say(Packet(RESPONSE_BAD_PACKET, []));
      } else if mdb.state != Idle {
        Say(Packet(RESPONSE_MDB_BUSY, []));
      } else {
        mdb.StartBusReset();
        Say(Packet(RESPONSE_MDB_STARTED, []));
      }
    }

    method TransactionCommand(data: Data, ready: bool)
      requires Valid() && course == Running
      modifies Repr()
      ensures Valid() && Repr() == old(Repr())
      ensures View() == Apply(old(View()), Transaction(old(View()), data, ready))
    {
      LoadRequest(data);
      var started := Packet(RESPONSE_MDB_STARTED, []);
      if ready {
        Launch(started);
      } else {
        ReportBusyUart(started);
      }
    }

    method LoadRequest(data: Data)
      requires Valid()
      modifies Repr()
      ensures Valid() && Repr() == old(Repr()) && mdb.output.length > 0
      ensures View() == old(View()).(link := old(View()).link.(output := RequestBlock(data), used := 0))
    {
      var sum := MemSum(data);
      mdb.Load(data, sum);
    }

    method Launch(started: Packet)
      requires Valid() && |started.data| == 0 && mdb.output.length > 0
      modifies Repr()
      ensures Valid() && Repr() == old(Repr())
      ensures View() == Apply(old(View()), Answer(old(View()), [started]).(
                link := StartSend(old(View()).link)))
    {
      mdb.StartSend();
      twi.MasterOut(started);
      EmitOne(old(View()).twi, started);
    }

    method ReportBusyUart(started: Packet)
      requires Valid() && |started.data| == 0
      modifies Repr()
      ensures Valid() && Repr() == old(Repr())
      ensures View() == Apply(old(View()), Answer(old(View()),
                [Packet(RESPONSE_UART_SEND_BUSY, [0]), started]).(link := ResetLink(old(View()).link)))
    {
      var busy := Packet(RESPONSE_UART_SEND_BUSY, [0]);
      Finish(busy);
      twi.MasterOut(started);
      EmitTwo(old(View()).twi, busy, started);
    }

    lemma EmitTwo(t: Gateway.Twi, p: Packet, q: Packet)
      ensures EmitAll(t, [p, q]) == Emit(Emit(t, p), q)
    {
      assert [p, q][1..] == [q];
      EmitOne(Emit(t, p), q);
    }

    // -------------------------------------------------------------- twi_step

    method TwiStep(ready: nat -> bool)
      requires Valid() && course == Running && Consumable(View())
      modifies Repr()
      ensures Valid() && Repr() == old(Repr())
      ensures View() == Gateway.TwiStep(old(View()), ready)
    {
      ghost var g := View();
      if twi.input.length == 0 {
        twi.SwapIfRead();
        NothingTaken(g, ready);
      } else {
        TakeWrite(twi.input.data[..twi.input.length], ready);
        Settle();
      }
    }

    lemma NothingTaken(g: State, ready: nat -> bool)
      requires !g.halted && g.twi.input == []
      ensures TakeInput(g, ready) == g
    {}

    /** What follows the commands of a write, unless one of them stopped the processor. */
    method Settle()
      requires Valid()
      modifies twi.Repr()
      ensures Valid() && Repr() == old(Repr())
      ensures View() == Settled(old(View()))
    {
      if course != Running {
        return;
      }
      twi.ClearInput();
      twi.SwapIfRead();
    }

    /** A single byte is no command: it goes back as it came. */
    method TakeWrite(src: seq<byte>, ready: nat -> bool)
      requires Valid() && course == Running && Consumable(View()) && src == View().twi.input && |src| > 0
      modifies Repr()
      ensures Valid() && Repr() == old(Repr())
      ensures View() == TakeInput(old(View()), ready)
    {
      if |src| == 1 {
        Say(Packet(RESPONSE_TWI, [src[0]]));
      } else {
        CommandLoop(src, ready);
      }
    }

    /** The loop over the frames of one bus write, with its 8-bit offset. */
    method CommandLoop(src: seq<byte>, ready: nat -> bool)
      requires Valid() && course == Running && 0 < |src| <= COMMAND_MAX_LENGTH && WellFramed(src, 0)
      modifies Repr()
      ensures Valid() && Repr() == old(Repr())
      ensures View() == PerformAll(old(View()), Commands(src, 0), ready)
    {
      var i: byte := 0;
      ghost var goal := PerformAll(View(), Commands(src, 0), ready);
      assert src[0..] == src;
      while true
        invariant Valid() && Repr() == old(Repr()) && course == Running
        invariant Before(View(), src, i, ready, goal)
        decreases |src| - i
      {
        var consumed := Turn(src, i, ready, goal);
        if course != Running || consumed == 0 {
          break;
        }
        i := Add8(i, consumed);
        if i >= |src| {
          break;
        }
      }
    }

    method Turn(src: seq<byte>, i: nat, ready: nat -> bool, ghost goal: State) returns (consumed: nat)
      requires Valid() && course == Running && |src| <= COMMAND_MAX_LENGTH && Before(View(), src, i, ready, goal)
      modifies Repr()
      ensures Valid() && Repr() == old(Repr())
      ensures 0 < consumed && i + consumed < 256
      ensures if course != Running || i + consumed >= |src| then goal == View()
              else Before(View(), src, i + consumed, ready, goal)
    {
      ghost var g := View();
      consumed := MasterCommand(src[i..], ready(i));
      LoopTurn(g, src, i, ready, goal, View(), consumed);
    }

    /** In state g, at offset i, what is left of the write leads to goal. */
    static ghost predicate Before(g: State, src: seq<byte>, i: nat, ready: nat -> bool, goal: State) {
      && i < |src| && WellFramed(src[i..], i)
      && goal == PerformAll(g, Commands(src[i..], i), ready)
    }

    lemma LoopTurn(g: State, src: seq<byte>, i: nat, ready: nat -> bool, goal: State, g1: State, consumed: nat)
      requires |src| <= COMMAND_MAX_LENGTH && Before(g, src, i, ready, goal) && consumed == Claimed(src[i..])
      requires g1 == Apply(g, Gateway.Perform(g, CommandAt(src[i..]), ready(i)))
      ensures 0 < consumed && i + consumed < 256
      ensures if g1.halted || i + consumed >= |src| then goal == g1 else Before(g1, src, i + consumed, ready, goal)
    {
      OneCommand(g, src[i..], i, ready, g1);
      if i + consumed < |src| {
        assert src[i..][consumed..] == src[i + consumed..];
      }
    }

    /** One turn of the loop: what PerformAll makes of the rest, given what one command did. */
    lemma OneCommand(g: State, bs: seq<byte>, offset: nat, ready: nat -> bool, g1: State)
      requires WellFramed(bs, offset) && bs != [] && offset + |bs| < 256
      requires g1 == Apply(g, Perform(g, CommandAt(bs), ready(offset)))
      ensures 0 < Claimed(bs) && offset + Claimed(bs) < 256
      ensures Claimed(bs) < |bs| && !g1.halted ==> WellFramed(bs[Claimed(bs)..], offset + Claimed(bs))
      ensures PerformAll(g, Commands(bs, offset), ready)
           == if g1.halted || Claimed(bs) >= |bs| then g1
              else PerformAll(g1, Commands(bs[Claimed(bs)..], offset + Claimed(bs)), ready)
    {
      var cs := Commands(bs, offset);
      assert cs[0] == Placed(offset, CommandAt(bs));
      if Claimed(bs) >= |bs| || Stops(CommandAt(bs)) {
        assert cs[1..] == [];
      } else {
        assert cs[1..] == Commands(bs[Claimed(bs)..], offset + Claimed(bs));
      }
    }

    // -------------------------------------------------------------- the main loop and interrupts

    /** One event: an enabled interrupt, or one of the two calls of the main loop.  After a Reset
        command there are neither. */
    method Handle(e: Event)
      requires Valid() && Admissible(View(), e)
      modifies Repr()
      ensures Valid() && Repr() == old(Repr())
      ensures View() == Step(old(View()), e)
    {
      if course == Stopped {
        return;
      }
      match e {
        case PollMdb =>
          if course == Running && mdb.state != Idle {
            var again := MdbStep();
          }
        case PollTwi(ready) =>
          if course == Running && twi.idle {
            TwiStep(ready);
          }
        case Bus(b) =>
          if MayReport(twi.mode, twi.twea, b) {
            var out := twi.OnTwi(b);
          }
        case _ =>
          HandleUart(e);
      }
    }

    method HandleUart(e: Event)
      requires Valid() && course != Stopped && (e.RxWord? || e.Udre? || e.TxDone? || e.TimerOverflow?)
      modifies Repr()
      ensures Valid() && Repr() == old(Repr())
      ensures View() == Step(old(View()), e)
    {
      match e {
        case RxWord(err, w) => mdb.OnRx(err, w);
        case TimerOverflow =>
          if mdb.timer {
            mdb.OnTimer();
          }
        case Udre => HandleTransmit(e);
        case TxDone => HandleTransmit(e);
      }
    }

    method HandleTransmit(e: Event)
      requires Valid() && course != Stopped && (e.Udre? || e.TxDone?)
      modifies Repr()
      ensures Valid() && Repr() == old(Repr())
      ensures View() == Step(old(View()), e)
    {
      match e {
        case Udre =>
          if mdb.udrie {
            mdb.OnUdre();
          }
        case TxDone =>
          if mdb.txcie {
            mdb.OnTx();
          }
      }
    }

    /** Any run: the buffers in place end where the state machine ends. */
    method RunAll(es: seq<Event>)
      requires Valid() && AdmissibleRun(View(), es)
      modifies Repr()
      ensures Valid() && Repr() == old(Repr())
      ensures View() == Run(old(View()), es)
    {
      assert es[0..] == es;
      for i := 0 to |es|
        invariant Valid() && Repr() == old(Repr())
        invariant AdmissibleRun(View(), es[i..])
        invariant Run(View(), es[i..]) == Run(old(View()), es)
      {
        assert es[i..][0] == es[i] && es[i..][1..] == es[i + 1..];
        Handle(es[i]);
      }
    }
  }
}
