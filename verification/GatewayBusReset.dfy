/** A bus reset does not end by itself: the timer re-enables the transmitter but leaves the
    state.  It ends at a word from the MDB bus, or at a transmit interrupt that an earlier
    error left enabled, which the command does not look at. */
module GatewayBusReset {
  import opened Bytes
  import opened Protocol
  import opened Gateway
  import opened GatewayInvariant
  import opened GatewayDispatch
  import opened GatewayLeftovers

  /** In a bus reset, with both transmit interrupts off. */
  predicate Resetting(l: Link) {
    l.state == BusReset && l.errCode == 0 && !l.udrie && !l.txcie
  }

  ghost predicate NoWords(es: seq<Event>) {
    forall e | e in es :: !e.RxWord?
  }

  /** Every command meanwhile leaves the link alone; transactions are refused as busy. */
  lemma ResettingIsBusy(g: State, c: Command, ready: bool)
    requires g.link.state == BusReset
    ensures Perform(g, c, ready).link == g.link
    ensures c.Command? && c.header == COMMAND_MDB_TRANSACTION_SIMPLE ==>
              Perform(g, c, ready).answers == [Packet(RESPONSE_MDB_BUSY, [])]
  {}

  lemma PerformKeepsResetting(g: State, cs: seq<Placed>, ready: nat -> bool)
    requires Resetting(g.link)
    ensures Resetting(PerformAll(g, cs, ready).link)
  {
    var P := (x: State) => Resetting(x.link);
    forall x: State, c: Command, r: bool | P(x) ensures P(Apply(x, Perform(x, c, r))) {
      ResettingIsBusy(x, c, r);
    }
    PerformAllKeeps(P, g, cs, ready);
  }

  lemma StepKeepsResetting(g: State, e: Event)
    requires Resetting(g.link) && Admissible(g, e) && !e.RxWord?
    ensures Resetting(Step(g, e).link)
  {
    match e
    case PollTwi(ready) =>
      if !g.halted && g.twi.idle && |g.twi.input| != 1 {
        PerformKeepsResetting(g, Commands(g.twi.input, 0), ready);
      }
    case _ =>
  }

  /** With both transmit interrupts off, any run without a word from the MDB bus stays in the
      reset, whatever the timer, the main loop and the host do. */
  lemma {:induction false} ResetNeverEndsAlone(g: State, es: seq<Event>)
    requires Resetting(g.link) && AdmissibleRun(g, es) && NoWords(es)
    ensures Resetting(Run(g, es).link)
    decreases |es|
  {
    if es != [] {
      assert es[0] in es;
      StepKeepsResetting(g, es[0]);
      ResetNeverEndsAlone(Step(g, es[0]), es[1..]);
    }
  }

  /** In a bus reset: no run without a word from the MDB bus leaves it, if and only if both
      transmit interrupts are off, or all interrupts are, after a Reset command. */
  lemma StaysInResetIff(g: State)
    requires Inv(g) && g.link.state == BusReset
    ensures (forall es: seq<Event> | AdmissibleRun(g, es) && NoWords(es) :: Run(g, es).link.state == BusReset)
       <==> g.course == Stopped || (!g.link.udrie && !g.link.txcie)
  {
    if g.course == Stopped {
      forall es: seq<Event> | AdmissibleRun(g, es) ensures Run(g, es) == g {
        StoppedForGood(g, es);
      }
    } else if g.link.udrie {
      RunOne(g, Udre);
      assert NoWords([Udre]);
    } else if g.link.txcie {
      RunOne(g, TxDone);
      assert NoWords([TxDone]);
    } else {
      forall es: seq<Event> | AdmissibleRun(g, es) && NoWords(es) ensures Run(g, es).link.state == BusReset {
        ResetNeverEndsAlone(g, es);
      }
    }
  }

  lemma {:induction false} StoppedForGood(g: State, es: seq<Event>)
    requires g.course == Stopped && AdmissibleRun(g, es)
    ensures Run(g, es) == g
    decreases |es|
  {
    if es != [] {
      StoppedForGood(Step(g, es[0]), es[1..]);
    }
  }

  /** Any word at all ends it, received well or not: the next poll reports the word and the link
      is idle again.  The transmitter stays as it is: off, if the word comes before the timer. */
  lemma WordEndsReset(g: State, err: byte, w: Word)
    requires g.link.state == BusReset && !g.halted
    ensures var g' := Step(Step(g, RxWord(err, w)), PollMdb);
            && g'.link == ResetLink(RxIsr(g.link, err, w)) && g'.link.txen == g.link.txen
            && g'.link.state == Idle && g'.course == Running
            && g'.twi == Emit(g.twi, WordReport(err, w))
  {
    WordIsError(g.link, err, w);
  }

  /** How a word that nobody waits for is reported. */
  function WordReport(err: byte, w: Word): (p: Packet) {
    if err != 0 then Packet(RESPONSE_UART_READ_ERROR, [BusReset.Code(), err])
    else Packet(RESPONSE_UART_READ_UNEXPECTED, [BusReset.Code(), w.value])
  }

  lemma WordIsError(l: Link, err: byte, w: Word)
    requires l.state == BusReset
    ensures var l' := RxIsr(l, err, w);
            l'.state == Error && MdbVerdict(l') == Finished(l', WordReport(err, w))
  {}

  // ---------------------------------------------------------------- the reset that does end

  function ResetFrame(d: Data): (p: Packet) {
    Packet(COMMAND_MDB_BUS_RESET, d)
  }

  /** The host writes the command, and the main loop takes it. */
  function ResetEvents(d: Data, ready: nat -> bool): (es: seq<Event>) {
    WriteEvents(Encode(ResetFrame(d))) + [PollTwi(ready)]
  }

  function ResetStarted(g: State, d: Data): (g': State)
    requires |d| == 2
  {
    var g1 := Written(g, Encode(ResetFrame(d)));
    Settled(g1.(link := StartBusReset(g.link), twi := Emit(g1.twi, STARTED)))
  }

  /** The command is taken by an idle link, whatever its interrupt flags. */
  lemma ResetIsTaken(g: State, d: Data, ready: nat -> bool)
    requires g.link.state == Idle && !g.halted && |d| == 2 && Answers(g.twi)
    ensures var es := ResetEvents(d, ready);
            && AdmissibleRun(g, es) && NoWords(es)
            && Run(g, es).link == StartBusReset(g.link) && !Run(g, es).halted
            && Run(g, es) == ResetStarted(g, d)
  {
    FrameIsPerformed(g, ResetFrame(d), ready);
    ResetEffect(Written(g, Encode(ResetFrame(d))), d, ready(0));
  }

  lemma ResetEffect(g: State, d: Data, ready: bool)
    requires g.link.state == Idle && |d| == 2
    ensures Apply(g, Execute(g, COMMAND_MDB_BUS_RESET, d, ready))
         == g.(link := StartBusReset(g.link), twi := Emit(g.twi, STARTED))
  {
    EmitOne(g.twi, STARTED);
  }

  /** After a transmission that timed out, a bus reset is over at once, without any word from the
      bus: the interrupt that is still enabled is reported, and the link is Idle again. */
  lemma LeftoverEndsReset(g: State, d: Data, ready: nat -> bool)
    requires Inv(g) && g.link.state == Send && g.link.udrie && g.link.timer && !g.halted && |d| == 2
    requires Answers(g.twi)
    ensures var reset := [TimerOverflow, PollMdb] + ResetEvents(d, ready);
            && AdmissibleRun(g, reset) && Run(g, reset).link.state == BusReset
            && AdmissibleRun(g, reset + [Udre, PollMdb]) && NoWords(reset + [Udre, PollMdb])
            && Run(g, reset + [Udre, PollMdb]).link.state == Idle
  {
    var reset := [TimerOverflow, PollMdb] + ResetEvents(d, ready);
    LeftoverIsReset(g, d, ready, reset);
    var g1 := Run(g, reset);
    InterruptEndsReset(g1);
    RunComposes(g, reset, [Udre, PollMdb]);
  }

  lemma LeftoverIsReset(g: State, d: Data, ready: nat -> bool, reset: seq<Event>)
    requires Inv(g) && g.link.state == Send && g.link.udrie && g.link.timer && !g.halted && |d| == 2
    requires Answers(g.twi)
    requires reset == [TimerOverflow, PollMdb] + ResetEvents(d, ready)
    ensures AdmissibleRun(g, reset) && NoWords(reset)
    ensures var g1 := Run(g, reset);
            Inv(g1) && g1.link.state == BusReset && g1.link.udrie && !g1.halted
  {
    var lost := [TimerOverflow, PollMdb];
    TimeoutLeavesInterruptOn(g);
    ResetIsTaken(Run(g, lost), d, ready);
    RunComposes(g, lost, ResetEvents(d, ready));
    RunKeepsInv(g, reset);
  }

  lemma InterruptEndsReset(g: State)
    requires Inv(g) && g.link.state == BusReset && g.link.udrie && !g.halted
    ensures AdmissibleRun(g, [Udre, PollMdb]) && Run(g, [Udre, PollMdb]).link.state == Idle
  {
    RunTwo(g, Udre, PollMdb);
  }
}
