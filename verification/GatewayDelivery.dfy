/** From the reply queue to the host's parser over arbitrary runs: every packet that is queued
    reaches the host at most once, in order, and unchanged. */
module GatewayDelivery {
  import opened Bytes
  import opened Protocol
  import opened Gateway
  import opened GatewayInvariant
  import opened GatewayStreaming
  import opened GatewayReach
  import MegaClient

  // ---------------------------------------------------------------- what the host can name

  ghost predicate LinkKnown(l: Link) {
    l.errCode == 0 || KnownHeader(l.errCode)
  }

  ghost predicate LedgerKnown(t: Twi) {
    MegaClient.AllKnown(t.ledger.reply) && MegaClient.AllKnown(t.ledger.pending)
  }

  /** Every header that is queued, or about to be, is one of the host's. */
  ghost predicate HeadersKnown(g: State) {
    LinkKnown(g.link) && LedgerKnown(g.twi)
  }

  lemma EmitKeepsKnown(t: Twi, p: Packet)
    requires LedgerKnown(t) && KnownHeader(p.header)
    ensures LedgerKnown(Emit(t, p))
  {}

  lemma {:induction false} EmitAllKeepsKnown(t: Twi, ps: seq<Packet>)
    requires LedgerKnown(t) && MegaClient.AllKnown(ps)
    ensures LedgerKnown(EmitAll(t, ps))
    decreases |ps|
  {
    if ps != [] {
      EmitKeepsKnown(t, ps[0]);
      EmitAllKeepsKnown(Emit(t, ps[0]), ps[1..]);
    }
  }

  lemma RxKeepsKnown(l: Link, err: byte, w: Word)
    requires LinkKnown(l)
    ensures LinkKnown(RxIsr(l, err, w))
  {}

  lemma UdreKeepsKnown(l: Link)
    requires LinkKnown(l)
    ensures LinkKnown(UdreIsr(l))
  {}

  lemma TimerKeepsKnown(l: Link)
    requires LinkKnown(l)
    ensures LinkKnown(TimerIsr(l))
  {}

  lemma VerdictKeepsKnown(l: Link)
    requires LinkKnown(l)
    ensures LinkKnown(MdbVerdict(l).link)
    ensures MdbVerdict(l).answer.Some? ==> KnownHeader(MdbVerdict(l).answer.value.header)
  {}

  lemma CommandKeepsKnown(g: State, c: Command, ready: bool)
    requires LinkKnown(g.link)
    ensures LinkKnown(Perform(g, c, ready).link) && MegaClient.AllKnown(Perform(g, c, ready).answers)
  {}

  lemma TwiStepKeepsKnown(g: State, ready: nat -> bool)
    requires HeadersKnown(g) && Consumable(g)
    ensures HeadersKnown(TwiStep(g, ready))
  {
    if |g.twi.input| == 1 {
      EmitAllKeepsKnown(g.twi, [Packet(RESPONSE_TWI, [g.twi.input[0]])]);
    } else {
      var P := (x: State) => HeadersKnown(x);
      forall x: State, c: Command, r: bool | P(x) ensures P(Apply(x, Perform(x, c, r))) {
        CommandKeepsKnown(x, c, r);
        EmitAllKeepsKnown(x.twi, Perform(x, c, r).answers);
      }
      PerformAllKeeps(P, g, Commands(g.twi.input, 0), ready);
    }
  }

  lemma TwiIsrKeepsKnown(t: Twi, e: TwiEvent)
    requires LedgerKnown(t)
    ensures LedgerKnown(TwiIsr(t, e).t)
  {}

  lemma StepKeepsKnown(g: State, e: Event)
    requires HeadersKnown(g) && Admissible(g, e)
    ensures HeadersKnown(Step(g, e))
  {
    match e
    case RxWord(err, w) => RxKeepsKnown(g.link, err, w);
    case Udre => UdreKeepsKnown(g.link);
    case TxDone =>
    case TimerOverflow => TimerKeepsKnown(g.link);
    case PollMdb =>
      VerdictKeepsKnown(g.link);
      if MdbVerdict(g.link).answer.Some? {
        EmitKeepsKnown(g.twi, MdbVerdict(g.link).answer.value);
      }
    case PollTwi(ready) =>
      if !g.halted && g.twi.idle {
        TwiStepKeepsKnown(g, ready);
      }
    case Bus(b) => TwiIsrKeepsKnown(g.twi, b);
  }

  // ---------------------------------------------------------------- one read

  /** The host client's read of 81 bytes, and what its parser makes of it. */
  ghost predicate HostReads(g: State, r: MegaClient.Parsed, g': State) {
    var read := ReadReply(g.twi, RESPONSE_MAX_LENGTH + 1);
    && g.course != Stopped && Answers(g.twi) && RunsTo(g, BusEvents(read.events), g')
    && r == MegaClient.ParseResponse(read.bytes)
  }

  lemma ReadIsParsed(g: State, r: MegaClient.Parsed, g': State)
    requires HostReads(g, r, g') && Inv(g) && HeadersKnown(g) && g.twi.ledger.intact
    ensures r == MegaClient.Parsed(g.twi.ledger.reply, None)
    ensures if |g.twi.reply| <= 78 then Consumed(g.twi, g'.twi) else Kept(g.twi, g'.twi)
    ensures g'.link == g.link
  {
    var k, ps := RESPONSE_MAX_LENGTH + 1, g.twi.ledger.reply;
    var bs := EncodeAll(ps);
    ReadReplyIsRun(g, k);
    if bs == [] {
      NothingEncoded(ps);
      NothingIsStreamed(g.twi, k);
    } else {
      ReplyIsStreamed(g.twi, k);
      var tail := ([0] + Released(k))[..k - 1 - |bs|];
      assert OnBus(bs, k) == [|bs|] + bs + tail;
      MegaClient.ParseOfEncoding(ps, tail);
    }
  }

  /** A packet that does not fit any more: what the host reads next is the report of the overflow,
      with the size of that packet, and nothing of what was to be read before it. */
  lemma OverflowIsRead(g: State, p: Packet, r: MegaClient.Parsed, g': State)
    requires !Fits(g.twi, p) && HostReads(g.(twi := Emit(g.twi, p)), r, g')
    ensures r == MegaClient.Parsed([Packet(0x83, [p.Size()])], None)
    ensures Consumed(Emit(g.twi, p), g'.twi) && g'.twi.pending == g.twi.pending
  {
    var k, q := RESPONSE_MAX_LENGTH + 1, Packet(0x83, [p.Size()]);
    var g1 := g.(twi := Emit(g.twi, p));
    ReadReplyIsRun(g1, k);
    ReplyIsStreamed(g1.twi, k);
    EncodeAllOne(q);
    var tail := ([0] + Released(k))[..k - 5];
    assert OnBus(Encode(q), k) == [4] + Encode(q) + tail;
    MegaClient.ParseOfEncoding([q], tail);
  }

  /** In the middle of a read, the overflow takes the reply's place and the read goes on in it where
      it was: the bytes of the report from there, and a zero when it is shorter. */
  lemma OverflowInRead(t: Twi, p: Packet)
    requires !Fits(t, p) && t.mode == Transmitter && t.twea
    ensures var r := TwiIsr(Emit(t, p), ByteOutAcked);
            r.out == Some(if t.used < 4 then Encode(Packet(0x83, [p.Size()]))[t.used] else 0)
  {}

  lemma NothingEncoded(ps: seq<Packet>)
    requires EncodeAll(ps) == []
    ensures ps == []
  {}

  // ---------------------------------------------------------------- whole runs

  /** The host's reads are those of its client. */
  ghost predicate NoOtherRead(es: seq<Event>) {
    forall e | e in es :: !(e.Bus? && e.e.ReadAddressed?)
  }

  /** Nothing is being read, and nothing of the reply has been. */
  ghost predicate Unread(t: Twi) {
    t.used == 0 && t.mode != Transmitter
  }

  /** The same has been read, and the queue has not become intact again. */
  ghost predicate SameRead(t: Twi, t': Twi) {
    && t'.used == t.used && t'.mode == t.mode && t'.ledger.consumed == t.ledger.consumed
    && (t'.ledger.intact ==> t.ledger.intact)
  }

  lemma {:induction false} EmitAllSameRead(t: Twi, ps: seq<Packet>)
    ensures SameRead(t, EmitAll(t, ps))
    decreases |ps|
  {
    if ps != [] {
      EmitAllSameRead(Emit(t, ps[0]), ps[1..]);
    }
  }

  lemma TakeInputSameRead(g: State, ready: nat -> bool)
    requires Consumable(g)
    ensures SameRead(g.twi, TakeInput(g, ready).twi)
  {
    if |g.twi.input| == 1 {
      EmitAllSameRead(g.twi, [Packet(RESPONSE_TWI, [g.twi.input[0]])]);
    } else {
      var P := (x: State) => SameRead(g.twi, x.twi);
      forall x: State, c: Command, r: bool | P(x) ensures P(Apply(x, Perform(x, c, r))) {
        EmitAllSameRead(x.twi, Perform(x, c, r).answers);
      }
      PerformAllKeeps(P, g, Commands(g.twi.input, 0), ready);
    }
  }

  /** What a step without a read leaves unread, and consumed, while the queue stays intact. */
  ghost predicate StillUnread(t: Twi, t': Twi) {
    t'.ledger.intact ==> t.ledger.intact && (Unread(t) ==> Unread(t') && t'.ledger.consumed == t.ledger.consumed)
  }

  lemma SettledUnread(g: State)
    requires TwiInv(g.twi)
    ensures StillUnread(g.twi, Settled(g).twi)
  {
    var t := g.twi;
    if t.ledger.intact && t.reply == [] {
      NothingEncoded(t.ledger.reply);
      assert t.ledger.consumed + [] == t.ledger.consumed;
    }
  }

  lemma TakeInputKeepsInv(g: State, ready: nat -> bool)
    requires Inv(g) && Consumable(g)
    ensures Inv(TakeInput(g, ready))
  {
    if |g.twi.input| == 1 {
      EmitAllKeepsInv(g.twi, [Packet(RESPONSE_TWI, [g.twi.input[0]])]);
    } else {
      PerformAllKeepsInv(g, Commands(g.twi.input, 0), ready);
    }
  }

  lemma BusUnread(t: Twi, e: TwiEvent)
    requires Possible(t, e) && !e.ReadAddressed?
    ensures StillUnread(t, TwiIsr(t, e).t)
  {}

  lemma StepUnread(g: State, e: Event)
    requires Inv(g) && Admissible(g, e) && NoOtherRead([e])
    ensures StillUnread(g.twi, Step(g, e).twi)
  {
    match e
    case PollTwi(ready) =>
      if !g.halted && g.twi.idle {
        TakeInputSameRead(g, ready);
        TakeInputKeepsInv(g, ready);
        SettledUnread(TakeInput(g, ready));
      }
    case Bus(b) =>
      assert e in [e];
      if g.course != Stopped && Possible(g.twi, b) {
        BusUnread(g.twi, b);
      }
    case _ =>
  }

  lemma {:induction false} RunUnread(g: State, es: seq<Event>)
    requires Inv(g) && AdmissibleRun(g, es) && NoOtherRead(es)
    ensures StillUnread(g.twi, Run(g, es).twi)
    decreases |es|
  {
    if es != [] {
      assert es[0] in es;
      StepUnread(g, es[0]);
      StepKeepsInv(g, es[0]);
      RunUnread(Step(g, es[0]), es[1..]);
    }
  }

  lemma {:induction false} RunKeepsKnown(g: State, es: seq<Event>)
    requires HeadersKnown(g) && AdmissibleRun(g, es)
    ensures HeadersKnown(Run(g, es))
    decreases |es|
  {
    if es != [] {
      StepKeepsKnown(g, es[0]);
      RunKeepsKnown(Step(g, es[0]), es[1..]);
    }
  }

  // ---------------------------------------------------------------- any number of reads

  /** Runs of anything but reads, each followed by one read of the client; got is what its
      parser has shown in all. */
  ghost predicate Visits(g: State, runs: seq<seq<Event>>, got: seq<Packet>, g': State)
    decreases |runs|
  {
    if runs == [] then got == [] && g' == g
    else
      exists m, r, n, rest ::
        Visit(g, runs[0], m, r, n) && got == r.seen + rest && Visits(n, runs[1..], rest, g')
  }

  ghost predicate Visit(g: State, es: seq<Event>, m: State, r: MegaClient.Parsed, n: State) {
    NoOtherRead(es) && RunsTo(g, es, m) && HostReads(m, r, n)
  }

  /** What holds between visits. */
  ghost predicate InOrder(g: State) {
    Inv(g) && HeadersKnown(g) && Unread(g.twi)
  }

  lemma VisitStaysIntact(g: State, es: seq<Event>, m: State, r: MegaClient.Parsed, n: State)
    requires Inv(g) && Visit(g, es, m, r, n)
    ensures Inv(n) && m.twi.ledger.intact == n.twi.ledger.intact
    ensures m.twi.ledger.intact ==> g.twi.ledger.intact
  {
    var k := RESPONSE_MAX_LENGTH + 1;
    RunKeepsInv(g, es);
    RunUnread(g, es);
    ReadReplyIsRun(m, k);
    RunKeepsInv(m, BusEvents(ReadReply(m.twi, k).events));
    if m.twi.reply == [] {
      NothingIsStreamed(m.twi, k);
    } else {
      ReplyIsStreamed(m.twi, k);
    }
  }

  lemma {:induction false} VisitsStayIntact(g: State, runs: seq<seq<Event>>, got: seq<Packet>, g': State)
    requires Inv(g) && Visits(g, runs, got, g') && g'.twi.ledger.intact
    ensures g.twi.ledger.intact
    decreases |runs|
  {
    if runs != [] {
      var m, r, n, rest :| Visit(g, runs[0], m, r, n) && got == r.seen + rest && Visits(n, runs[1..], rest, g');
      VisitStaysIntact(g, runs[0], m, r, n);
      VisitsStayIntact(n, runs[1..], rest, g');
    }
  }

  /** After the last possible read there is no other. */
  lemma NoVisitFollows(n: State, runs: seq<seq<Event>>, got: seq<Packet>, g': State)
    requires OutOfReach(n) && Visits(n, runs, got, g')
    ensures runs == [] && got == [] && g' == n
  {
    if runs != [] {
      var m, r, n', rest :| Visit(n, runs[0], m, r, n') && got == r.seen + rest && Visits(n', runs[1..], rest, g');
      StaysOutOfReach(n, runs[0]);
      assert false;
    }
  }

  /** Of what the host has been shown since, either all is consumed, or the last reply is not
      but was the last one possible. */
  ghost predicate Shown(before: seq<Packet>, got: seq<Packet>, g': State) {
    var l := g'.twi.ledger;
    l.consumed == before + got || (OutOfReach(g') && l.consumed + l.reply == before + got)
  }

  /** One visit: the host gets what was the reply, without an error. */
  lemma VisitDelivers(g: State, es: seq<Event>, m: State, r: MegaClient.Parsed, n: State)
    requires InOrder(g) && Visit(g, es, m, r, n) && m.twi.ledger.intact
    ensures r == MegaClient.Parsed(m.twi.ledger.reply, None) && n.course != Stopped
    ensures m.twi.ledger.consumed == g.twi.ledger.consumed
    ensures if |m.twi.reply| <= 78 then Consumed(m.twi, n.twi) else Kept(m.twi, n.twi)
    ensures HeadersKnown(n)
  {
    RunKeepsInv(g, es);
    RunUnread(g, es);
    RunKeepsKnown(g, es);
    RunKeepsKnown(m, BusEvents(ReadReply(m.twi, RESPONSE_MAX_LENGTH + 1).events));
    ReadIsParsed(m, r, n);
    ReadReplyIsRun(m, RESPONSE_MAX_LENGTH + 1);
  }

  /** Over any number of runs and reads, whatever the MDB bus, the timers and the commands do:
      while no buffer has overflowed, what the host has been shown is exactly the packets
      consumed since, each once and in order. */
  lemma {:induction false} QueueIsDelivered(g: State, runs: seq<seq<Event>>, got: seq<Packet>, g': State)
    requires InOrder(g) && Visits(g, runs, got, g') && g'.twi.ledger.intact
    ensures Inv(g') && Shown(g.twi.ledger.consumed, got, g')
    decreases |runs|
  {
    var before := g.twi.ledger.consumed;
    if runs == [] {
      assert before + [] == before;
    } else {
      var m, r, n, rest :| Visit(g, runs[0], m, r, n) && got == r.seen + rest && Visits(n, runs[1..], rest, g');
      VisitStaysIntact(g, runs[0], m, r, n);
      VisitsStayIntact(n, runs[1..], rest, g');
      VisitDelivers(g, runs[0], m, r, n);
      if |m.twi.reply| <= 78 {
        QueueIsDelivered(n, runs[1..], rest, g');
        GotMore(before, r.seen, rest);
      } else {
        NoVisitFollows(n, runs[1..], rest, g');
        assert r.seen + [] == r.seen;
      }
    }
  }

  lemma GotMore(before: seq<Packet>, seen: seq<Packet>, rest: seq<Packet>)
    ensures before + seen + rest == before + (seen + rest)
  {}

  /** From power-up: with what the buffers still hold, what the host has been shown is
      everything that was accepted for it. */
  lemma HostGetsAll(mcusr: byte, runs: seq<seq<Event>>, got: seq<Packet>, g': State)
    requires Visits(Initial(mcusr), runs, got, g') && g'.twi.ledger.intact
    ensures var l := g'.twi.ledger;
            l.accepted == got + l.reply + l.pending || (OutOfReach(g') && l.accepted == got + l.pending)
  {
    InitialInv(mcusr);
    QueueIsDelivered(Initial(mcusr), runs, got, g');
    assert [] + got == got;
  }
}
