/** What every interleaving of interrupts, main-loop calls and commands keeps. */
module GatewayInvariant {
  import opened Bytes
  import opened Protocol
  import opened Gateway

  function DataWords(bs: seq<byte>): (ws: seq<Word>)
    ensures |ws| == |bs|
  {
    seq(|bs|, i requires 0 <= i < |bs| => Word(bs[i], false))
  }

  /** A peripheral's block: the data, closed by a word with the ninth bit. */
  function BlockWords(bs: seq<byte>, last: byte): (ws: seq<Word>) {
    DataWords(bs) + [Word(last, true)]
  }

  /** A request on the bus: the ninth bit marks the first word only. */
  function RequestWords(bs: seq<byte>): (ws: seq<Word>)
    ensures |ws| == |bs|
  {
    seq(|bs|, i requires 0 <= i < |bs| => Word(bs[i], i == 0))
  }

  // ---------------------------------------------------------------- the MDB side

  ghost predicate LinkInv(l: Link) {
    && l.used <= |l.output|
    && (l.output != [] ==> SendingIsOutput(l))
    && (l.state == Idle ==> l.errCode == 0 && l.output == [] && l.input == [] && Cleared(l))
    && (l.state == Error ==> l.errCode != 0)
    && (l.errCode != 0 ==> l.errCode > RESPONSE_ERROR)
    && (l.state == Send || l.state == BusReset ==> l.errCode == 0)
    && (l.state == BusReset ==> l.output == [])
    && (l.state == Send ==> l.output != [])
    && (l.state != Error ==> l.checksum == Sum(l.input))
    && (l.errCode == 0 ==> Heard(l))
  }

  /** Nothing is remembered of what was received. */
  predicate Cleared(l: Link) {
    l.last == 0 && l.used == 0 && !l.retry && !l.timer
  }

  /** What has been written of the block is its first used bytes, the first with bit 9. */
  ghost predicate SendingIsOutput(l: Link) {
    1 <= l.used <= |l.output| && l.sending == RequestWords(l.output[..l.used])
  }

  /** Without a pending error, the input buffer and the last byte are what was received since
      the receiver was started; the exception is a receiver restarted by a retry. */
  ghost predicate Heard(l: Link) {
    && (l.state == Recv ==> l.heard == DataWords(l.input))
    && (l.state == RecvEnd ==> l.heard == BlockWords(l.input, l.last) || AfterRetry(l))
  }

  predicate AfterRetry(l: Link) {
    l.retry && l.input == [] && l.last == 0 && l.heard == []
  }

  lemma ResetKeepsInv(l: Link)
    ensures LinkInv(ResetLink(l))
  {}

  lemma FastErrorKeepsInv(l: Link, code: byte, data: byte)
    requires l.used <= |l.output| && code > RESPONSE_ERROR
    requires l.output != [] ==> SendingIsOutput(l)
    ensures LinkInv(FastError(l, code, data))
  {}

  lemma StartSendKeepsInv(l: Link)
    requires l.output != [] && l.input == [] && l.errCode == 0 && l.checksum == Sum(l.input)
    ensures LinkInv(StartSend(l))
  {
    assert l.output[..1] == [l.output[0]];
  }

  /** A data word within the block size. */
  lemma StoreKeepsInv(l: Link, l': Link, v: byte)
    requires LinkInv(l) && l.state == Recv && |l.input| < MDB_PACKET_SIZE
    requires l' == l.(timer := true, heard := l.heard + [Word(v, false)],
                      checksum := Add8(l.checksum, v), input := l.input + [v])
    ensures LinkInv(l')
  {
    SumAppend(l.input, v);
    assert DataWords(l.input + [v]) == DataWords(l.input) + [Word(v, false)];
  }

  lemma RxKeepsInv(l: Link, err: byte, w: Word)
    requires LinkInv(l)
    ensures LinkInv(RxIsr(l, err, w))
  {
    var l1 := l.(timer := false, heard := l.heard + [w]);
    if err != 0 {
      FastErrorKeepsInv(l1, RESPONSE_UART_READ_ERROR, err);
    } else if l.state != Recv {
      FastErrorKeepsInv(l1, RESPONSE_UART_READ_UNEXPECTED, w.value);
    } else if !w.ninth {
      var l2 := l1.(checksum := Add8(l.checksum, w.value));
      if |l.input| + 1 > MDB_PACKET_SIZE {
        FastErrorKeepsInv(l2, RESPONSE_MDB_RECEIVE_OVERFLOW, |l.input|);
      } else {
        StoreKeepsInv(l, RxIsr(l, err, w), w.value);
      }
    }
  }

  lemma UdreKeepsInv(l: Link)
    requires LinkInv(l)
    ensures LinkInv(UdreIsr(l))
  {
    if l.used < |l.output| {
      RequestWordsGrow(l.output, l.used);
    }
  }

  lemma RequestWordsGrow(bs: seq<byte>, n: nat)
    requires 1 <= n < |bs|
    ensures RequestWords(bs[..n + 1]) == RequestWords(bs[..n]) + [Word(bs[n], false)]
  {}

  lemma TxKeepsInv(l: Link)
    requires LinkInv(l)
    ensures LinkInv(TxIsr(l))
  {}

  lemma TimerKeepsInv(l: Link)
    requires LinkInv(l)
    ensures LinkInv(TimerIsr(l))
  {}

  lemma VerdictKeepsInv(l: Link)
    requires LinkInv(l)
    ensures LinkInv(MdbVerdict(l).link)
  {
    if MdbVerdict(l).answer.Some? {
      ResetKeepsInv(l);
      ResetKeepsInv(Write(l, Word(MDB_ACK, false)));
      ResetKeepsInv(Write(l, Word(MDB_NAK, false)));
    } else if l.state == RecvEnd {
      RetryKeepsInv(l);
    }
  }

  lemma RetryKeepsInv(l: Link)
    requires LinkInv(l) && l.state == RecvEnd
    ensures LinkInv(StartReceive(Write(l, Word(MDB_RET, false)).(retry := true)))
  {}

  // ---------------------------------------------------------------- the host side

  /** The reply queue is first in, first out, and both buffers are whole packets. */
  ghost predicate TwiInv(t: Twi) {
    t.ledger.intact ==>
      && t.used <= |t.reply|
      && t.pending == EncodeAll(t.ledger.pending)
      && t.reply == EncodeAll(t.ledger.reply)
      && t.ledger.accepted == t.ledger.consumed + t.ledger.reply + t.ledger.pending
  }

  lemma EmitKeepsInv(t: Twi, p: Packet)
    requires TwiInv(t)
    ensures TwiInv(Emit(t, p))
  {
    EncodeAllAppend(t.ledger.pending, [p]);
    EncodeAllOne(p);
    var l := t.ledger;
    assert l.consumed + l.reply + (l.pending + [p]) == l.consumed + l.reply + l.pending + [p];
  }

  lemma SwapKeepsInv(t: Twi)
    requires TwiInv(t)
    ensures TwiInv(Swap(t))
  {
    var l := t.ledger;
    assert (l.consumed + l.reply) + l.pending + [] == l.consumed + l.reply + l.pending;
  }

  lemma TwiIsrKeepsInv(t: Twi, e: TwiEvent)
    requires TwiInv(t)
    ensures TwiInv(TwiIsr(t, e).t)
  {
    var l := t.ledger;
    assert (l.consumed + l.reply) + [] + l.pending == l.consumed + l.reply + l.pending;
  }

  // ---------------------------------------------------------------- together

  ghost predicate Inv(g: State) {
    LinkInv(g.link) && TwiInv(g.twi)
  }

  lemma {:induction false} EmitAllKeepsInv(t: Twi, ps: seq<Packet>)
    requires TwiInv(t)
    ensures TwiInv(EmitAll(t, ps))
    decreases |ps|
  {
    if ps != [] {
      EmitKeepsInv(t, ps[0]);
      EmitAllKeepsInv(Emit(t, ps[0]), ps[1..]);
    }
  }

  lemma TransactionKeepsInv(g: State, data: Data, ready: bool)
    requires LinkInv(g.link) && g.link.state == Idle
    ensures LinkInv(Transaction(g, data, ready).link)
  {
    RequestBlockNotEmpty(data);
    var l := g.link.(output := RequestBlock(data), used := 0);
    if ready {
      StartSendKeepsInv(l);
    } else {
      ResetKeepsInv(l);
    }
  }

  lemma RequestBlockNotEmpty(data: seq<byte>)
    ensures RequestBlock(data) != []
  {}

  lemma CommandKeepsInv(g: State, c: Command, ready: bool)
    requires LinkInv(g.link)
    ensures LinkInv(Perform(g, c, ready).link)
  {
    if c.Command? && c.header == COMMAND_MDB_TRANSACTION_SIMPLE && g.link.state == Idle {
      TransactionKeepsInv(g, c.data, ready);
    }
  }

  /** Whatever one command keeps, the loop over the commands of one bus write keeps. */
  lemma {:induction false} PerformAllKeeps(P: State -> bool, g: State, cs: seq<Placed>, ready: nat -> bool)
    requires P(g)
    requires forall x: State, c: Command, r: bool | P(x) :: P(Apply(x, Perform(x, c, r)))
    ensures P(PerformAll(g, cs, ready))
    decreases |cs|
  {
    if cs != [] {
      var g1 := Apply(g, Perform(g, cs[0].command, ready(cs[0].at)));
      assert P(g1);
      if !g1.halted {
        PerformAllKeeps(P, g1, cs[1..], ready);
      }
    }
  }

  lemma PerformAllKeepsInv(g: State, cs: seq<Placed>, ready: nat -> bool)
    requires Inv(g)
    ensures Inv(PerformAll(g, cs, ready))
  {
    var P := (x: State) => Inv(x);
    forall x: State, c: Command, r: bool | P(x) ensures P(Apply(x, Perform(x, c, r))) {
      CommandKeepsInv(x, c, r);
      EmitAllKeepsInv(x.twi, Perform(x, c, r).answers);
    }
    PerformAllKeeps(P, g, cs, ready);
  }

  lemma TwiStepKeepsInv(g: State, ready: nat -> bool)
    requires Inv(g) && Consumable(g)
    ensures Inv(TwiStep(g, ready))
  {
    if |g.twi.input| == 1 {
      EmitAllKeepsInv(g.twi, [Packet(RESPONSE_TWI, [g.twi.input[0]])]);
    } else {
      PerformAllKeepsInv(g, Commands(g.twi.input, 0), ready);
    }
    SwapKeepsInv(TakeInput(g, ready).twi.(input := []));
  }

  lemma MdbStepKeepsInv(g: State)
    requires Inv(g)
    ensures Inv(MdbStep(g))
  {
    VerdictKeepsInv(g.link);
    if MdbVerdict(g.link).answer.Some? {
      EmitKeepsInv(g.twi, MdbVerdict(g.link).answer.value);
    }
  }

  /** Every atomic step, of either side, keeps the invariant. */
  lemma StepKeepsInv(g: State, e: Event)
    requires Inv(g) && Admissible(g, e)
    ensures Inv(Step(g, e))
  {
    match e
    case RxWord(err, w) => RxKeepsInv(g.link, err, w);
    case Udre => UdreKeepsInv(g.link);
    case TxDone => TxKeepsInv(g.link);
    case TimerOverflow => TimerKeepsInv(g.link);
    case PollMdb => MdbStepKeepsInv(g);
    case PollTwi(ready) =>
      if !g.halted && g.twi.idle {
        TwiStepKeepsInv(g, ready);
      }
    case Bus(b) => TwiIsrKeepsInv(g.twi, b);
  }

  lemma {:induction false} RunKeepsInv(g: State, es: seq<Event>)
    requires Inv(g) && AdmissibleRun(g, es)
    ensures Inv(Run(g, es))
    decreases |es|
  {
    if es != [] {
      StepKeepsInv(g, es[0]);
      RunKeepsInv(Step(g, es[0]), es[1..]);
    }
  }

  lemma InitialInv(mcusr: byte)
    ensures Inv(Initial(mcusr))
  {
    var g := Blank(mcusr);
    assert LinkInv(g.link);
    assert TwiInv(g.twi) by {
      assert EncodeAll([]) == [];
    }
    EmitKeepsInv(g.twi, Packet(RESPONSE_DEBUG, [0xbe, 0xeb, 0xee]));
  }
}
