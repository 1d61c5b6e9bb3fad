/** What goes wrong on the MDB bus, and what the host is told of it: words with line errors, words
    that nobody waits for, silence, a second bad block, and requests of the wrong size. */
module GatewayErrors {
  import opened Bytes
  import opened Protocol
  import opened Gateway
  import opened GatewayInvariant
  import opened GatewayReceive
  import opened GatewayTransmit

  /** The run ends with the link idle, the bus as it was, and this one packet queued. */
  ghost predicate Reported(g: State, es: seq<Event>, p: Packet) {
    && AdmissibleRun(g, es)
    && var g' := Run(g, es);
    && g'.twi == Emit(g.twi, p) && g'.course == g.course
    && g'.link.state == Idle && g'.link.errCode == 0 && g'.link.input == [] && g'.link.wire == g.link.wire
  }

  lemma ReportedLater(g: State, a: seq<Event>, g1: State, b: seq<Event>, p: Packet)
    requires RunsTo(g, a, g1) && Reported(g1, b, p)
    requires g1.twi == g.twi && g1.course == g.course && g1.link.wire == g.link.wire
    ensures Reported(g, a + b, p)
  {
    RunComposes(g, a, b);
  }

  // ---------------------------------------------------------------- words

  lemma PollReports(g: State, e: Event, code: byte, during: MdbState, data: byte)
    requires Admissible(g, e) && !g.halted
    requires var l := Step(g, e).link;
             l.errCode == code != 0 && l.state == Error && l.errState == during && l.errData == data
    requires Step(g, e).twi == g.twi && Step(g, e).course == g.course && Step(g, e).link.wire == g.link.wire
    ensures Reported(g, [e, PollMdb], Packet(code, [during.Code(), data]))
  {
    RunTwo(g, e, PollMdb);
  }

  /** In any state, a word with line errors ends what is going on: the next poll reports the state
      in which it came and the error flags, and the word itself is not looked at. */
  lemma LineErrorIsReported(g: State, err: byte, w: Word)
    requires err != 0 && !g.halted
    ensures Reported(g, [RxWord(err, w), PollMdb], Packet(0x91, [g.link.state.Code(), err]))
  {
    PollReports(g, RxWord(err, w), RESPONSE_UART_READ_ERROR, g.link.state, err);
  }

  /** In any state but reception, so does a good word: with the state and the word's value. */
  lemma StrayWordIsReported(g: State, w: Word)
    requires g.link.state != Recv && !g.halted
    ensures Reported(g, [RxWord(0, w), PollMdb], Packet(0x90, [g.link.state.Code(), w.value]))
  {
    PollReports(g, RxWord(0, w), RESPONSE_UART_READ_UNEXPECTED, g.link.state, w.value);
  }

  lemma DataArrives(g: State, data: Block) returns (g1: State)
    requires Listening(g.link) && g.course != Stopped
    ensures RunsTo(g, RxEvents(DataWords(data)), g1)
    ensures g1 == g.(link := Feed(g.link, DataWords(data)))
    ensures Matches(g1.link, Pending(data)) && SameTransmitter(g.link, g1.link)
  {
    var ws := DataWords(data);
    g1 := g.(link := Feed(g.link, ws));
    RunRxEvents(g, ws);
    FeedRefinesDecode(g.link, ws);
    DecodeData(data);
  }

  /** From the start of reception, after any data within the block size: a word with line errors,
      its ninth bit set or not, ends the reception, and no data is reported. */
  lemma LineErrorEndsReception(g: State, data: Block, err: byte, w: Word)
    requires Listening(g.link) && !g.halted && err != 0
    ensures Reported(g, RxEvents(DataWords(data)) + [RxWord(err, w), PollMdb], Packet(0x91, [3, err]))
  {
    var g1 := DataArrives(g, data);
    LineErrorIsReported(g1, err, w);
    ReportedLater(g, RxEvents(DataWords(data)), g1, [RxWord(err, w), PollMdb], Packet(0x91, [3, err]));
  }

  /** A word after the end of a block, before the main loop has looked: the block is lost. */
  lemma WordAfterEnd(g: State, data: Block, last: byte, w: Word)
    requires Listening(g.link) && !g.halted
    ensures Reported(g, RxEvents(BlockWords(data, last)) + [RxWord(0, w), PollMdb], Packet(0x90, [4, w.value]))
  {
    var ws := BlockWords(data, last);
    RunRxEvents(g, ws);
    FeedRefinesDecode(g.link, ws);
    DecodeBlock(data, last);
    var g1 := g.(link := Feed(g.link, ws));
    StrayWordIsReported(g1, w);
    ReportedLater(g, RxEvents(ws), g1, [RxWord(0, w), PollMdb], Packet(0x90, [4, w.value]));
  }

  // ---------------------------------------------------------------- silence

  /** While something is under way that the timer watches, its overflow ends that, and the next
      poll reports the state and the five milliseconds. */
  lemma TimeoutIsReported(g: State)
    requires g.link.state != Idle && g.link.state != BusReset && g.link.timer && !g.halted
    ensures Reported(g, [TimerOverflow, PollMdb], Packet(0x8b, [g.link.state.Code(), 5]))
  {
    PollReports(g, TimerOverflow, RESPONSE_MDB_TIMEOUT, g.link.state, 5);
  }

  /** With nothing under way, the timer only stops. */
  lemma IdleTimerStops(g: State)
    requires g.link.state == Idle
    ensures g.course != Stopped ==> Step(g, TimerOverflow) == g.(link := g.link.(timer := false))
  {}

  lemma {:induction false} TimerRunsOn(l: Link, data: Block)
    requires Listening(l) && l.timer
    ensures Feed(l, DataWords(data)).timer
  {
    if data != [] {
      var n := |data| - 1;
      var ws := DataWords(data);
      assert ws[..n] == DataWords(data[..n]);
      TimerRunsOn(l, data[..n]);
      FeedRefinesDecode(l, ws[..n]);
      DecodeData(data[..n]);
    }
  }

  /** The receiver is started with the timer running. */
  lemma ReceptionIsTimed(l: Link)
    requires l.errCode == 0
    ensures Listening(TxIsr(l)) && TxIsr(l).timer
  {}

  /** Silence after any number of data words, or of none, is a timeout: the timer is started anew
      by each of them. */
  lemma SilenceIsReported(g: State, data: Block)
    requires Listening(g.link) && g.link.timer && !g.halted
    ensures Reported(g, RxEvents(DataWords(data)) + [TimerOverflow, PollMdb], Packet(0x8b, [3, 5]))
  {
    var es := RxEvents(DataWords(data));
    var g1 := DataArrives(g, data);
    TimerRunsOn(g.link, data);
    TimeoutInReception(g1);
    ReportedLater(g, es, g1, [TimerOverflow, PollMdb], Packet(0x8b, [3, 5]));
  }

  lemma TimeoutInReception(g: State)
    requires g.link.state == Recv && g.link.timer && !g.halted
    ensures Reported(g, [TimerOverflow, PollMdb], Packet(0x8b, [3, 5]))
  {
    TimeoutIsReported(g);
  }

  /** A block that has ended cannot time out any more. */
  lemma EndStopsTimer(g: State, data: Block, last: byte)
    requires Listening(g.link) && g.course != Stopped
    ensures var es := RxEvents(BlockWords(data, last));
            AdmissibleRun(g, es) && AdmissibleRun(g, es + [TimerOverflow]) && Run(g, es + [TimerOverflow]) == Run(g, es)
  {
    var ws := BlockWords(data, last);
    RunRxEvents(g, ws);
    EndTurnsTimerOff(g.link, data, last);
    RunOneMore(g, RxEvents(ws), TimerOverflow);
  }

  lemma EndTurnsTimerOff(l: Link, data: Block, last: byte)
    requires Listening(l)
    ensures !Feed(l, BlockWords(data, last)).timer
  {
    var ws := BlockWords(data, last);
    assert ws[..|data|] == DataWords(data);
    FeedRefinesDecode(l, ws[..|data|]);
    DecodeData(data);
  }

  /** A transmission that stops at any of its bytes, the last one included, times out. */
  lemma SendingCanTimeOut(g: State, l: Link, data: Data, k: nat)
    requires g.link == Started(l, data) && l.state == Idle && l.errCode == 0
    requires 1 <= |data| <= 35 && k <= |data| && !g.halted
    ensures var es := Repeat(Udre, k) + [TimerOverflow, PollMdb];
            && AdmissibleRun(g, es)
            && Run(g, es).twi == Emit(g.twi, Packet(0x8b, [2, 5]))
            && Run(g, es).link.state == Idle
  {
    var l1 := g.link;
    ShortRequestIsSent(l, data);
    FirstIsOut(l.(output := RequestBlock(data), used := 0));
    PumpSends(l1, 1, l.wire, k);
    RunUdre(g, k);
    var g1 := g.(link := Pump(l1, k));
    TimeoutIsReported(g1);
    RunComposes(g, Repeat(Udre, k), [TimerOverflow, PollMdb]);
  }

  // ---------------------------------------------------------------- a second chance

  /** A receiver that was restarted for a retry keeps the retry. */
  lemma RetryListens(g: State)
    requires g.link.state == RecvEnd && g.link.retry && g.link.errCode == 0 && g.link.txcie && g.course != Stopped
    ensures var l := Step(g, TxDone).link; Listening(l) && l.retry && l.timer
  {}

  /** After a retry, a block with a wrong sum is refused for good: NAK on the bus, and the host is
      told the closing byte. */
  lemma SecondBadBlock(g: State, data: Block, last: byte)
    requires Listening(g.link) && g.link.retry && !g.halted && data != [] && last != Sum(data)
    ensures var es := RxEvents(BlockWords(data, last)) + [PollMdb];
            && AdmissibleRun(g, es)
            && var g' := Run(g, es);
            && g'.twi == Emit(g.twi, Packet(0x89, [last]))
            && g'.link.state == Idle && g'.link.wire == WireWith(g.link, [Word(0xff, false)])
  {
    var g1 := BlockArrives(g, data, last);
    RunOneMore(g, RxEvents(BlockWords(data, last)), PollMdb);
  }

  /** After a retry or not, a block with the right sum is acknowledged and reported. */
  lemma GoodBlock(g: State, data: Block)
    requires Listening(g.link) && !g.halted && data != []
    ensures var es := RxEvents(BlockWords(data, Sum(data))) + [PollMdb];
            && AdmissibleRun(g, es)
            && var g' := Run(g, es);
            && g'.twi == Emit(g.twi, Packet(0x09, data))
            && g'.link.state == Idle && g'.link.wire == WireWith(g.link, [Word(0x00, false)])
  {
    var g1 := BlockArrives(g, data, Sum(data));
    RunOneMore(g, RxEvents(BlockWords(data, Sum(data))), PollMdb);
  }

  /** An empty block is an answer by itself: acknowledged, refused, or neither. */
  lemma EmptyBlockIsReported(g: State, last: byte)
    requires Listening(g.link) && !g.halted
    ensures Reported(g, RxEvents(BlockWords([], last)) + [PollMdb],
                     if last == 0x00 then Packet(0x09, [])
                     else if last == 0xff then Packet(0x8a, [0xff])
                     else Packet(0x8c, [last]))
  {
    var g1 := BlockArrives(g, [], last);
    RunOneMore(g, RxEvents(BlockWords([], last)), PollMdb);
  }

  lemma BlockArrives(g: State, data: Block, last: byte) returns (g1: State)
    requires Listening(g.link) && g.course != Stopped
    ensures RunsTo(g, RxEvents(BlockWords(data, last)), g1)
    ensures g1 == g.(link := g1.link) && Matches(g1.link, Closed(data, last)) && SameTransmitter(g.link, g1.link)
  {
    var ws := BlockWords(data, last);
    RunRxEvents(g, ws);
    FeedRefinesDecode(g.link, ws);
    DecodeBlock(data, last);
    g1 := g.(link := Feed(g.link, ws));
  }

  // ---------------------------------------------------------------- requests of the wrong size

  /** Without data, or with more than a block holds, only the sum is put into the block. */
  lemma OnlySumIsSent(l: Link, data: Data, l': Link)
    requires (data == [] || |data| > 36) && l' == Started(l, data)
    ensures && l'.output == [Sum(data)] && l'.used == 1 && l'.state == Send && l'.udrie
            && l'.wire == WireWith(l, [Word(Sum(data), true)])
  {
    assert RequestBlock(data) == [Sum(data)];
  }

  /** A block of one byte is out with the command itself: the first interrupt finds nothing left,
      and that is reported. */
  lemma NothingLeftToSend(g: State)
    requires g.link.state == Send && g.link.udrie && |g.link.output| == g.link.used == 1 && !g.halted
    ensures Reported(g, [Udre, PollMdb], Packet(0x8e, [2, 1]))
  {
    PollReports(g, Udre, RESPONSE_MDB_SEND_OVERFLOW, Send, 1);
  }

  /** Of 36 bytes the block is full: they are all sent, but no sum. */
  lemma FullBlockHasNoSum(l: Link, data: Data)
    requires l.state == Idle && l.errCode == 0 && |data| == 36
    ensures var l' := Pump(Started(l, data), 35);
            && l'.txcie && !l'.udrie && l'.sending == RequestWords(data)
            && l'.wire == (if l'.txen then l.wire + RequestWords(data) else l.wire)
  {
    FirstIsOut(l.(output := RequestBlock(data), used := 0));
    PumpSends(Started(l, data), 1, l.wire, 35);
  }
}
