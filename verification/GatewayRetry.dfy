/** What the RET retry comes to: the block that it asks for is never reported. */
module GatewayRetry {
  import opened Bytes
  import opened Gateway
  import opened GatewayInvariant
  import opened GatewayHonesty
  import opened GatewayReceive

  /** The receiver is not running, and holds no data: where RET leaves the link. */
  predicate Deaf(l: Link) {
    l.state != Recv && (l.state == RecvEnd ==> l.input == [])
  }

  lemma CommandKeepsDeaf(g: State, c: Command, ready: bool)
    requires Deaf(g.link)
    ensures Deaf(Perform(g, c, ready).link)
  {}

  lemma PerformAllKeepsDeaf(g: State, cs: seq<Placed>, ready: nat -> bool)
    requires Deaf(g.link)
    ensures Deaf(PerformAll(g, cs, ready).link)
  {
    var P := (x: State) => Deaf(x.link);
    forall x: State, c: Command, r: bool | P(x) ensures P(Apply(x, Perform(x, c, r))) {
      CommandKeepsDeaf(x, c, r);
    }
    PerformAllKeeps(P, g, cs, ready);
  }

  lemma StepKeepsDeaf(g: State, e: Event)
    requires Deaf(g.link) && Admissible(g, e) && !e.TxDone?
    ensures Deaf(Step(g, e).link)
  {
    match e
    case PollTwi(ready) =>
      if !g.halted && g.twi.idle && |g.twi.input| != 1 {
        PerformAllKeepsDeaf(g, Commands(g.twi.input, 0), ready);
      }
    case PollMdb => VerdictKeepsDeaf(g.link);
    case _ =>
  }

  lemma VerdictKeepsDeaf(l: Link)
    requires Deaf(l)
    ensures Deaf(MdbVerdict(l).link)
  {}

  lemma VerdictOfDeaf(l: Link)
    requires LinkInv(l) && Deaf(l)
    ensures MdbVerdict(l).answer.Some? ==> !IsDataSuccess(MdbVerdict(l).answer.value)
  {}

  lemma DeafStepReportsNothing(g: State, e: Event)
    requires Inv(g) && Deaf(g.link) && Admissible(g, e)
    ensures NoNewSuccess(Accepted(g), Accepted(Step(g, e)))
  {
    if e.PollMdb? {
      VerdictOfDeaf(g.link);
    } else {
      OtherStepsNoSuccess(g, e);
    }
  }

  /** Until a request has been sent again, no interleaving of words, interrupts, polls and
      commands makes a success with data. */
  lemma {:induction false} DeafReportsNothing(g: State, es: seq<Event>)
    requires Inv(g) && Deaf(g.link) && AdmissibleRun(g, es)
    requires forall e | e in es :: !e.TxDone?
    ensures NoNewSuccess(Accepted(g), Accepted(Run(g, es)))
    decreases |es|
  {
    if es != [] {
      var g1 := Step(g, es[0]);
      StepKeepsDeaf(g, es[0]);
      DeafStepReportsNothing(g, es[0]);
      StepKeepsInv(g, es[0]);
      DeafReportsNothing(g1, es[1..]);
      NoNewSuccessJoins(Accepted(g), Accepted(g1), Accepted(Run(g, es)));
    }
  }

  /** The retry never recovers the data: after a block with a wrong sum and the RET that it is
      answered with, no run at all, whatever is repeated and whenever the main loop polls,
      reports data before the transmitter has finished another request. */
  lemma RetryDoesNotRecover(g: State, bad: Block, last: byte, es: seq<Event>)
    requires Inv(g) && Listening(g.link) && !g.link.retry && !g.halted
    requires bad != [] && last != Sum(bad)
    requires AdmissibleRun(g, RxEvents(BlockWords(bad, last)) + [PollMdb] + es)
    requires forall e | e in es :: !e.TxDone?
    ensures var asked := RxEvents(BlockWords(bad, last)) + [PollMdb];
            && AdmissibleRun(g, asked)
            && Run(g, asked).link.wire == WireWith(g.link, [Word(MDB_RET, false)])
            && NoNewSuccess(Accepted(g), Accepted(Run(g, asked + es)))
  {
    var asked := RxEvents(BlockWords(bad, last)) + [PollMdb];
    AskForRetry(g, bad, last);
    var g1 := Run(g, asked);
    RunKeepsInv(g, asked);
    RunSplitsAt(g, asked, es);
    DeafReportsNothing(g1, es);
  }
}
