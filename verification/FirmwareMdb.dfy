/** mdb.c on its buffers and registers, in place.  Every method is proved to do exactly
    the step of the same name in Gateway.dfy, so what is proved there of runs holds here. */
module FirmwareMdb {
  import opened Bytes
  import opened Protocol
  import opened Gateway
  import opened Buffers

  /** Fills a block with a request and its sum, each only if it fits. */
  method LoadBlock(b: Buffer, data: seq<byte>, sum: byte)
    requires b.Valid() && b.size == MDB_PACKET_SIZE && sum == Sum(data)
    modifies b`length, b`used, b`contents, b.data
    ensures b.Valid() && b.length > 0 && b.used == 0 && b.contents == RequestBlock(data)
  {
    b.ClearFull();
    var ok := b.AppendN(data);
    ok := b.Append(sum);
  }

  /** The statics of mdb.c, with the UART and timer registers they go with. */
  class Mdb {
    var state: MdbState
    const input: Buffer
    var checksum: byte
    var lastByte: byte
    const output: Buffer
    var retry: bool
    var errCode: byte
    var errState: MdbState
    var errData: byte
    var udrie: bool
    var txcie: bool
    var txen: bool
    var timer: bool

    // history
    ghost var heard: seq<Word>
    ghost var sending: seq<Word>
    ghost var wire: seq<Word>

    ghost predicate Valid()
      reads this, input, output, input.data, output.data
    {
      && input.Valid() && output.Valid() && input != output && input.data != output.data
      && input.size == MDB_PACKET_SIZE && output.size == MDB_PACKET_SIZE
      && input.used == 0
    }

    ghost function View(): (l: Link)
      reads this, input, output, input.data, output.data
      requires Valid()
    {
      Link(state, input.contents, checksum, lastByte, output.contents, output.used, retry,
           errCode, errState, errData, udrie, txcie, txen, timer, heard, sending, wire)
    }

    ghost function Repr(): (s: set<object>)
      reads this, input, output
    {
      {this, input, output, input.data, output.data}
    }

    /** Power-on and mdb_init. */
    constructor ()
      ensures Valid() && fresh(Repr())
      ensures View() == Blank(0).link
    {
      state, checksum, lastByte, retry := Idle, 0, 0, false;
      errCode, errState, errData := 0, Idle, 0;
      udrie, txcie, txen, timer := false, false, true, false;
      input := new Buffer(MDB_PACKET_SIZE);
      output := new Buffer(MDB_PACKET_SIZE);
      heard, sending, wire := [], [], [];
    }

    method StartReceive()
      requires Valid()
      modifies this`checksum, this`lastByte, this`timer, this`heard
      modifies input`length, input`used, input`contents
      ensures Valid() && View() == Gateway.StartReceive(old(View()))
    {
      input.ClearFast();
      ClearReception();
      timer := true;
    }

    method Reset()
      requires Valid()
      modifies this, input`length, input`used, input`contents, input.data
      modifies output`length, output`used, output`contents, output.data
      ensures Valid() && View() == ResetLink(old(View()))
    {
      ClearBlocks();
      ClearReception();
      ghost var l := View();
      timer := false;
      errCode := 0;
      state := Idle;
      retry := false;
      sending := [];
      assert View() == l.(timer := false, errCode := 0, state := Idle, retry := false, sending := []);
    }

    method ClearReception()
      requires Valid()
      modifies this`checksum, this`lastByte, this`heard
      ensures Valid() && View() == old(View()).(checksum := 0, last := 0, heard := [])
    {
      checksum := 0;
      lastByte := 0;
      heard := [];
    }

    method ClearBlocks()
      requires Valid()
      modifies input`length, input`used, input`contents, input.data
      modifies output`length, output`used, output`contents, output.data
      ensures Valid()
      ensures View() == old(View()).(input := [], output := [], used := 0)
    {
      input.ClearFull();
      output.ClearFull();
    }

    /** mdb_start_send, once the UART is known to be ready. */
    method StartSend()
      requires Valid() && output.length > 0
      modifies this, output`used
      ensures Valid() && View() == Gateway.StartSend(old(View()))
    {
      BeginSending();
      SendFirst();
    }

    method BeginSending()
      requires Valid()
      modifies this`timer, this`state, this`retry
      ensures Valid() && View() == old(View()).(timer := true, state := Send, retry := false)
    {
      timer := true;
      state := Send;
      retry := false;
    }

    /** The first byte goes out with the ninth bit set. */
    method SendFirst()
      requires Valid() && output.length > 0
      modifies this`wire, this`sending, this`udrie, output`used
      ensures Valid()
      ensures var l, l' := old(View()), View(); var first := Word(l.output[0], true);
              l' == l.(wire := WireWith(l, [first]), sending := [first], used := 1, udrie := true)
    {
      ghost var first := Word(output.data[0], true);
      wire := WireWith(View(), [first]);
      sending := [first];
      output.used := 1;
      udrie := true;
    }

    /** Loads mdb_out. */
    method Load(data: seq<byte>, sum: byte)
      requires Valid() && sum == Sum(data)
      modifies output`length, output`used, output`contents, output.data
      ensures Valid() && output.length > 0
      ensures View() == old(View()).(output := RequestBlock(data), used := 0)
    {
      LoadBlock(output, data, sum);
    }

    /** The registers of a bus reset: transmitter off, line low until the timer fires. */
    method StartBusReset()
      requires Valid()
      modifies this`state, this`txen, this`timer
      ensures Valid() && View() == Gateway.StartBusReset(old(View()))
    {
      state := BusReset;
      txen := false;
      timer := true;
    }

    method FastError(code: byte, data: byte)
      requires Valid()
      modifies this`errState, this`state, this`errCode, this`errData
      ensures Valid() && View() == Gateway.FastError(old(View()), code, data)
    {
      errState := state;
      state := Error;
      errCode := code;
      errData := data;
    }

    /** A write to UDR0 with the ninth bit clear. */
    method UartWrite(b: byte)
      requires Valid()
      modifies this`wire
      ensures Valid() && View() == Write(old(View()), Word(b, false))
    {
      wire := WireWith(View(), [Word(b, false)]);
    }

    /** USART_RX_vect. */
    method OnRx(err: byte, w: Word)
      requires Valid()
      modifies this, input`length, input`contents, input.data
      ensures Valid() && View() == RxIsr(old(View()), err, w)
    {
      Arrived(w);
      if err != 0 {
        FastError(RESPONSE_UART_READ_ERROR, err);
      } else if state != Recv {
        FastError(RESPONSE_UART_READ_UNEXPECTED, w.value);
      } else if w.ninth {
        Close(w.value);
      } else {
        AddToSum(w.value);
        Store(w.value);
      }
    }

    method Arrived(w: Word)
      requires Valid()
      modifies this`timer, this`heard
      ensures Valid() && View() == old(View()).(timer := false, heard := old(heard) + [w])
    {
      timer := false;
      heard := heard + [w];
    }

    method Close(v: byte)
      requires Valid()
      modifies this`lastByte, this`state
      ensures Valid() && View() == old(View()).(last := v, state := RecvEnd)
    {
      lastByte := v;
      state := RecvEnd;
    }

    method AddToSum(v: byte)
      requires Valid()
      modifies this`checksum
      ensures Valid() && View() == old(View()).(checksum := Add8(old(checksum), v))
    {
      checksum := Add8(checksum, v);
    }

    /** A data byte goes into mdb_in, if there is room. */
    method Store(v: byte)
      requires Valid()
      modifies this`errState, this`state, this`errCode, this`errData, this`timer
      modifies input`length, input`contents, input.data
      ensures Valid()
      ensures View() == var l := old(View());
                        if |l.input| + 1 > MDB_PACKET_SIZE
                        then Gateway.FastError(l, RESPONSE_MDB_RECEIVE_OVERFLOW, |l.input|)
                        else l.(input := l.input + [v], timer := true)
    {
      var ok := input.Append(v);
      if !ok {
        FastError(RESPONSE_MDB_RECEIVE_OVERFLOW, input.length);
        return;
      }
      timer := true;
    }

    /** USART_UDRE_vect. */
    method OnUdre()
      requires Valid()
      modifies this, output`used
      ensures Valid() && View() == UdreIsr(old(View()))
    {
      timer := false;
      if output.used >= output.length {
        FastError(RESPONSE_MDB_SEND_OVERFLOW, output.used);
        return;
      }
      SendNext();
    }

    method SendNext()
      requires Valid() && output.used < output.length
      modifies this`udrie, this`txcie, this`wire, this`sending, this`timer, output`used
      ensures Valid()
      ensures var l, l' := old(View()), View();
              var w := Word(l.output[l.used], false);
              var last := l.used + 1 == |l.output|;
              l' == l.(used := l.used + 1, wire := WireWith(l, [w]), sending := l.sending + [w], timer := true,
                       udrie := l.udrie && !last, txcie := l.txcie || last)
    {
      var data := TakeNext();
      if output.used == output.length {
        WaitForLast();
      }
      SendWord(data);
    }

    method SendWord(data: byte)
      requires Valid()
      modifies this`wire, this`sending, this`timer
      ensures Valid()
      ensures View() == var l, w := old(View()), Word(data, false);
                        l.(wire := WireWith(l, [w]), sending := l.sending + [w], timer := true)
    {
      UartWrite(data);
      sending := sending + [Word(data, false)];
      timer := true;
    }

    method TakeNext() returns (data: byte)
      requires Valid() && output.used < output.length
      modifies output`used
      ensures Valid() && data == old(View()).output[old(output.used)]
      ensures View() == old(View()).(used := old(output.used) + 1)
    {
      data := output.data[output.used];
      output.used := output.used + 1;
    }

    /** Disables this interrupt and enables the one that reports the last byte as sent. */
    method WaitForLast()
      requires Valid()
      modifies this`udrie, this`txcie
      ensures Valid() && View() == old(View()).(udrie := false, txcie := true)
    {
      udrie := false;
      txcie := true;
    }

    /** USART_TX_vect. */
    method OnTx()
      requires Valid()
      modifies this, input`length, input`used, input`contents
      ensures Valid() && View() == TxIsr(old(View()))
    {
      timer := false;
      txcie := false;
      StartReceive();
      state := Recv;
    }

    /** TIMER0_OVF_vect. */
    method OnTimer()
      requires Valid()
      modifies this
      ensures Valid() && View() == TimerIsr(old(View()))
    {
      timer := false;
      if state == Idle {
      } else if state == BusReset {
        txen := true;
      } else {
        FastError(RESPONSE_MDB_TIMEOUT, 5);
      }
    }
  }
}
