/** What an error leaves behind: mdb_reset does not disable the transmit interrupts, so a link
    that is Idle again may still be interrupted, and still queue errors. */
module GatewayLeftovers {
  import opened Bytes
  import opened Protocol
  import opened Gateway
  import opened GatewayInvariant
  import opened GatewayTransmit

  // ---------------------------------------------------------------- how it comes about

  /** A transmission that times out: the next poll reports it, and leaves the link Idle with the
      data register interrupt still enabled. */
  lemma TimeoutLeavesInterruptOn(g: State)
    requires g.link.state == Send && g.link.udrie && g.link.timer && !g.halted
    ensures var es := [TimerOverflow, PollMdb];
            && AdmissibleRun(g, es)
            && var g' := Run(g, es);
            && g'.link.state == Idle && g'.link.udrie && g'.link.txcie == g.link.txcie && !g'.halted
            && g'.twi == Emit(g.twi, Packet(RESPONSE_MDB_TIMEOUT, [Send.Code(), 5]))
  {
    RunTwo(g, TimerOverflow, PollMdb);
  }

  /** Every transaction that is started can time out so. */
  lemma StartedCanTimeOut(l: Link, data: Data)
    ensures var l' := Started(l, data);
            l'.state == Send && l'.udrie && l'.timer
  {}

  // ---------------------------------------------------------------- when the gateway is quiet

  /** Only transmit interrupts, the timer and polls: no word from the bus, nothing from the host. */
  ghost predicate Unprompted(es: seq<Event>) {
    forall e | e in es :: e.Udre? || e.TxDone? || e.TimerOverflow? || e.PollMdb?
  }

  lemma {:induction false} IdleStaysQuiet(g: State, es: seq<Event>)
    requires g.link.state == Idle && !g.link.udrie && !g.link.txcie
    requires Unprompted(es) && AdmissibleRun(g, es)
    ensures Run(g, es).twi == g.twi
    decreases |es|
  {
    if es != [] {
      assert es[0] in es;
      IdleStaysQuiet(Step(g, es[0]), es[1..]);
    }
  }

  lemma EmitChanges(t: Twi, p: Packet)
    requires t.ledger.intact
    ensures Emit(t, p) != t
  {
    assert |t.pending + Encode(p)| > |t.pending|;
  }

  const NOTHING_TO_SEND := Packet(RESPONSE_MDB_SEND_OVERFLOW, [0, 0])

  /** The link after one round of the interrupt and a poll. */
  function AfterRound(l: Link): (l': Link) {
    ResetLink(l).(errState := Idle, errData := 0)
  }

  lemma RoundOfLink(l: Link)
    requires LinkInv(l) && l.state == Idle
    ensures UdreIsr(l).state == Error && MdbVerdict(UdreIsr(l)) == Verdict(AfterRound(l), Some(NOTHING_TO_SEND))
  {}

  /** The interrupt finds nothing to send, and the poll after it reports that. */
  lemma UdreReports(g: State)
    requires Inv(g) && g.link.state == Idle && g.link.udrie && !g.halted
    ensures AdmissibleRun(g, [Udre, PollMdb])
    ensures Run(g, [Udre, PollMdb]).twi == Emit(g.twi, NOTHING_TO_SEND)
    ensures Run(g, [Udre, PollMdb]).link == AfterRound(g.link) && !Run(g, [Udre, PollMdb]).halted
  {
    RoundOfLink(g.link);
    RunTwo(g, Udre, PollMdb);
  }

  lemma TxThenSilence(l: Link)
    ensures var l1 := TxIsr(l); var l2 := TimerIsr(l1);
            && l1.timer && l2.state == Error
            && MdbVerdict(l2) == Finished(l2, Packet(RESPONSE_MDB_TIMEOUT, [Recv.Code(), 5]))
  {}

  /** TX complete starts the receiver, and the silence after it is a timeout. */
  lemma TxReports(g: State)
    requires Inv(g) && g.link.state == Idle && g.link.txcie && !g.halted
    ensures var es := [TxDone, TimerOverflow] + [PollMdb];
            && AdmissibleRun(g, es)
            && Run(g, es).twi == Emit(g.twi, Packet(RESPONSE_MDB_TIMEOUT, [Recv.Code(), 5]))
  {
    TxThenSilence(g.link);
    RunTwo(g, TxDone, TimerOverflow);
    RunOneMore(g, [TxDone, TimerOverflow], PollMdb);
  }

  /** With an interrupt left on, some unprompted run queues a packet. */
  lemma UnpromptedPacket(g: State) returns (es: seq<Event>)
    requires Inv(g) && g.link.state == Idle && g.twi.ledger.intact && !g.halted
    requires g.link.udrie || g.link.txcie
    ensures AdmissibleRun(g, es) && Unprompted(es) && Run(g, es).twi != g.twi
  {
    if g.link.udrie {
      es := [Udre, PollMdb];
      UdreReports(g);
      EmitChanges(g.twi, NOTHING_TO_SEND);
    } else {
      es := [TxDone, TimerOverflow] + [PollMdb];
      TxReports(g);
      EmitChanges(g.twi, Packet(RESPONSE_MDB_TIMEOUT, [Recv.Code(), 5]));
    }
  }

  /** An idle gateway that is left alone queues nothing, however its interrupts, its timer and
      its polls fall, if and only if both transmit interrupts are off. */
  lemma QuietIff(g: State)
    requires Inv(g) && g.link.state == Idle && g.twi.ledger.intact && !g.halted
    ensures (forall es: seq<Event> | AdmissibleRun(g, es) && Unprompted(es) :: Run(g, es).twi == g.twi)
       <==> !g.link.udrie && !g.link.txcie
  {
    if g.link.udrie || g.link.txcie {
      var es := UnpromptedPacket(g);
    } else {
      forall es: seq<Event> | AdmissibleRun(g, es) && Unprompted(es) ensures Run(g, es).twi == g.twi {
        IdleStaysQuiet(g, es);
      }
    }
  }

  // ---------------------------------------------------------------- how often

  function Rounds(n: nat): (es: seq<Event>) {
    if n == 0 then [] else [Udre, PollMdb] + Rounds(n - 1)
  }

  function Copies(p: Packet, n: nat): (ps: seq<Packet>)
    ensures |ps| == n
  {
    seq(n, _ => p)
  }

  lemma RoundKeeps(g: State)
    requires Inv(g) && g.link.state == Idle && g.link.udrie && !g.halted
    ensures var g' := Run(g, [Udre, PollMdb]);
            && AdmissibleRun(g, [Udre, PollMdb])
            && Inv(g') && g'.link.state == Idle && g'.link.udrie && !g'.halted
            && g'.link == AfterRound(g.link) && g'.twi == Emit(g.twi, NOTHING_TO_SEND)
  {
    UdreReports(g);
    RunKeepsInv(g, [Udre, PollMdb]);
  }

  /** Error packets repeat: n rounds of the interrupt and the main loop queue n of them, and
      from the first on come back to the very same link. */
  lemma {:induction false} ErrorRepeats(g: State, n: nat)
    requires Inv(g) && g.link.state == Idle && g.link.udrie && !g.halted
    ensures AdmissibleRun(g, Rounds(n))
    ensures var g' := Run(g, Rounds(n));
            && g'.twi == EmitAll(g.twi, Copies(NOTHING_TO_SEND, n))
            && g'.link == (if n == 0 then g.link else AfterRound(g.link))
    decreases n
  {
    if n > 0 {
      var g1 := Run(g, [Udre, PollMdb]);
      RoundKeeps(g);
      ErrorRepeats(g1, n - 1);
      RunComposes(g, [Udre, PollMdb], Rounds(n - 1));
      FirstCopy(g.twi, NOTHING_TO_SEND, n);
      SameAfterRounds(g.link);
    }
  }

  lemma FirstCopy(t: Twi, p: Packet, n: nat)
    requires n > 0
    ensures EmitAll(t, Copies(p, n)) == EmitAll(Emit(t, p), Copies(p, n - 1))
  {
    assert Copies(p, n)[1..] == Copies(p, n - 1);
  }

  lemma SameAfterRounds(l: Link)
    ensures AfterRound(AfterRound(l)) == AfterRound(l)
  {}

  /** As long as there is room for them, all n are in the queue. */
  lemma {:induction false} CopiesAreQueued(t: Twi, n: nat)
    requires |t.pending| + 5 * n <= RESPONSE_MAX_LENGTH
    ensures EmitAll(t, Copies(NOTHING_TO_SEND, n)).ledger.accepted == t.ledger.accepted + Copies(NOTHING_TO_SEND, n)
    decreases n
  {
    if n > 0 {
      var t1 := Emit(t, NOTHING_TO_SEND);
      CopiesAreQueued(t1, n - 1);
      assert Copies(NOTHING_TO_SEND, n)[1..] == Copies(NOTHING_TO_SEND, n - 1);
      assert Copies(NOTHING_TO_SEND, n) == [NOTHING_TO_SEND] + Copies(NOTHING_TO_SEND, n - 1);
    } else {
      assert t.ledger.accepted + [] == t.ledger.accepted;
    }
  }

  /** So a reply buffer with nothing in it overflows after sixteen rounds. */
  lemma SixteenFill(g: State)
    requires Inv(g) && g.link.state == Idle && g.link.udrie && !g.halted
    requires g.twi.pending == [] && g.twi.ledger.intact
    ensures AdmissibleRun(g, Rounds(16)) && AdmissibleRun(g, Rounds(17))
    ensures Run(g, Rounds(16)).twi.ledger.accepted == g.twi.ledger.accepted + Copies(NOTHING_TO_SEND, 16)
    ensures Run(g, Rounds(16)).twi.ledger.intact && !Run(g, Rounds(17)).twi.ledger.intact
  {
    ErrorRepeats(g, 16);
    ErrorRepeats(g, 17);
    CopiesAreQueued(g.twi, 16);
    SeventeenthOverflows(g.twi);
  }

  lemma SeventeenthOverflows(t: Twi)
    requires t.pending == [] && t.ledger.intact
    ensures EmitAll(t, Copies(NOTHING_TO_SEND, 16)).ledger.intact
    ensures !EmitAll(t, Copies(NOTHING_TO_SEND, 17)).ledger.intact
  {
    Filling(t, 16);
    EmitLast(t, 16);
  }

  lemma {:induction false} Filling(t: Twi, n: nat)
    requires |t.pending| + 5 * n <= RESPONSE_MAX_LENGTH
    ensures var t' := EmitAll(t, Copies(NOTHING_TO_SEND, n));
            |t'.pending| == |t.pending| + 5 * n && t'.ledger.intact == t.ledger.intact
    decreases n
  {
    if n > 0 {
      Filling(Emit(t, NOTHING_TO_SEND), n - 1);
      assert Copies(NOTHING_TO_SEND, n)[1..] == Copies(NOTHING_TO_SEND, n - 1);
    }
  }

  lemma {:induction false} EmitLast(t: Twi, n: nat)
    ensures EmitAll(t, Copies(NOTHING_TO_SEND, n + 1)) == Emit(EmitAll(t, Copies(NOTHING_TO_SEND, n)), NOTHING_TO_SEND)
    decreases n
  {
    var ps, qs := Copies(NOTHING_TO_SEND, n + 1), Copies(NOTHING_TO_SEND, n);
    assert ps[1..] == qs;
    if n > 0 {
      EmitLast(Emit(t, NOTHING_TO_SEND), n - 1);
      assert qs[1..] == Copies(NOTHING_TO_SEND, n - 1);
    }
  }
}
