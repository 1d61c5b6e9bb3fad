/** The UART transmitter over whole runs.  A bus reset switches it off, and only the timer of
    that reset switches it on again: a word or a transmit interrupt that comes first leaves the
    gateway unable to send anything. */
module GatewayTransmitter {
  import opened Bytes
  import opened Protocol
  import opened Gateway
  import opened GatewayInvariant
  import opened GatewayBusReset

  /** At no point of the run is a bus reset under way. */
  ghost predicate NoReset(g: State, es: seq<Event>)
    requires AdmissibleRun(g, es)
    decreases |es|
  {
    g.link.state != BusReset && (es == [] || NoReset(Step(g, es[0]), es[1..]))
  }

  /** The transmitter is as it was, and while it is off nothing reaches the bus. */
  predicate TransmitterKept(l: Link, l': Link) {
    l'.txen == l.txen && (!l.txen ==> l'.wire == l.wire)
  }

  predicate KeptOrReset(l: Link, l': Link) {
    l'.state == BusReset || TransmitterKept(l, l')
  }

  lemma CommandsKeepTransmitter(g: State, cs: seq<Placed>, ready: nat -> bool)
    ensures KeptOrReset(g.link, PerformAll(g, cs, ready).link)
  {
    var P := (x: State) => KeptOrReset(g.link, x.link);
    forall x: State, c: Command, r: bool | P(x) ensures P(Apply(x, Perform(x, c, r))) {
      CommandKeepsTransmitter(x, c, r);
      if x.link.state == BusReset {
        ResettingIsBusy(x, c, r);
      }
    }
    PerformAllKeeps(P, g, cs, ready);
  }

  lemma CommandKeepsTransmitter(g: State, c: Command, ready: bool)
    ensures KeptOrReset(g.link, Perform(g, c, ready).link)
  {
    if c.Command? && c.header == COMMAND_MDB_TRANSACTION_SIMPLE && g.link.state == Idle {
      TransactionKeepsTransmitter(g, c.data, ready);
    }
  }

  lemma TransactionKeepsTransmitter(g: State, data: Data, ready: bool)
    ensures TransmitterKept(g.link, Transaction(g, data, ready).link)
  {}

  lemma RxKeepsTransmitter(l: Link, err: byte, w: Word)
    ensures TransmitterKept(l, RxIsr(l, err, w))
  {}

  lemma UdreKeepsTransmitter(l: Link)
    ensures TransmitterKept(l, UdreIsr(l))
  {}

  lemma TxKeepsTransmitter(l: Link)
    ensures TransmitterKept(l, TxIsr(l))
  {}

  lemma TimerKeepsTransmitter(l: Link)
    requires l.state != BusReset
    ensures TransmitterKept(l, TimerIsr(l))
  {}

  lemma VerdictKeepsTransmitter(l: Link)
    ensures TransmitterKept(l, MdbVerdict(l).link)
  {}

  lemma TwiStepKeepsTransmitter(g: State, ready: nat -> bool)
    requires Consumable(g)
    ensures KeptOrReset(g.link, TwiStep(g, ready).link)
  {
    if |g.twi.input| != 1 {
      CommandsKeepTransmitter(g, Commands(g.twi.input, 0), ready);
    }
  }

  lemma StepKeepsTransmitter(g: State, e: Event)
    requires Admissible(g, e) && g.link.state != BusReset && Step(g, e).link.state != BusReset
    ensures TransmitterKept(g.link, Step(g, e).link)
  {
    match e
    case RxWord(err, w) => RxKeepsTransmitter(g.link, err, w);
    case Udre => UdreKeepsTransmitter(g.link);
    case TxDone => TxKeepsTransmitter(g.link);
    case TimerOverflow => TimerKeepsTransmitter(g.link);
    case PollMdb => VerdictKeepsTransmitter(g.link);
    case PollTwi(ready) =>
      if !g.halted && g.twi.idle {
        TwiStepKeepsTransmitter(g, ready);
      }
    case Bus(_) =>
  }

  /** Outside a bus reset nothing switches the transmitter on or off, in any run; and while it
      is off, nothing that the gateway writes reaches the MDB bus. */
  lemma {:induction false} TransmitterStays(g: State, es: seq<Event>)
    requires AdmissibleRun(g, es) && NoReset(g, es)
    ensures TransmitterKept(g.link, Run(g, es).link)
    decreases |es|
  {
    if es != [] {
      StepKeepsTransmitter(g, es[0]);
      TransmitterStays(Step(g, es[0]), es[1..]);
    }
  }

  // ---------------------------------------------------------------- when it comes back

  /** An event that ends a bus reset. */
  predicate EndsReset(l: Link, e: Event) {
    e.RxWord? || (e.Udre? && l.udrie) || (e.TxDone? && l.txcie)
  }

  /** The timer comes before anything that ends the reset. */
  ghost predicate TimerFirst(l: Link, es: seq<Event>) {
    exists i :: 0 <= i < |es| && TimerAt(l, es, i)
  }

  ghost predicate TimerAt(l: Link, es: seq<Event>, i: nat)
    requires i < |es|
  {
    es[i].TimerOverflow? && forall j | 0 <= j < i :: !EndsReset(l, es[j])
  }

  /** The run goes on in a bus reset, and does not come to another one after it. */
  ghost predicate OneReset(g: State, es: seq<Event>)
    requires AdmissibleRun(g, es)
    decreases |es|
  {
    if g.link.state == BusReset then es == [] || OneReset(Step(g, es[0]), es[1..]) else NoReset(g, es)
  }

  lemma ResetKeepsLink(g: State, cs: seq<Placed>, ready: nat -> bool)
    requires g.link.state == BusReset
    ensures PerformAll(g, cs, ready).link == g.link
  {
    var P := (x: State) => x.link == g.link;
    forall x: State, c: Command, r: bool | P(x) ensures P(Apply(x, Perform(x, c, r))) {
      ResettingIsBusy(x, c, r);
    }
    PerformAllKeeps(P, g, cs, ready);
  }

  /** In a bus reset, all but the timer and what ends the reset leave the link alone. */
  lemma StepInReset(g: State, e: Event)
    requires Inv(g) && Admissible(g, e) && g.link.state == BusReset && g.course != Stopped
    ensures var l := Step(g, e).link;
            if e.TimerOverflow? then l == (if g.link.timer then g.link.(timer := false, txen := true) else g.link)
            else if EndsReset(g.link, e) then l.state != BusReset && l.txen == g.link.txen
            else l == g.link
  {
    match e
    case PollTwi(ready) =>
      if !g.halted && g.twi.idle && |g.twi.input| != 1 {
        ResetKeepsLink(g, Commands(g.twi.input, 0), ready);
      }
    case _ =>
  }

  /** Once on, it stays on to the end of the reset and after it. */
  lemma {:induction false} OnStaysOn(g: State, es: seq<Event>)
    requires Inv(g) && AdmissibleRun(g, es) && OneReset(g, es) && g.link.txen
    ensures Run(g, es).link.txen
    decreases |es|
  {
    if g.link.state != BusReset {
      TransmitterStays(g, es);
    } else if es != [] {
      if g.course != Stopped {
        StepInReset(g, es[0]);
      }
      StepKeepsInv(g, es[0]);
      OnStaysOn(Step(g, es[0]), es[1..]);
    }
  }

  /** After a bus reset has begun, and before the next one: the transmitter is on again if and
      only if the timer came before the first word and before any transmit interrupt left on. */
  lemma {:induction false} ComesBackIff(g: State, es: seq<Event>)
    requires Inv(g) && g.link.state == BusReset && !g.link.txen && g.link.timer
    requires AdmissibleRun(g, es) && OneReset(g, es) && Run(g, es).course != Stopped
    ensures Run(g, es).link.txen <==> TimerFirst(g.link, es)
    decreases |es|
  {
    if es != [] {
      var e, g1 := es[0], Step(g, es[0]);
      NotStopped(g, es);
      StepInReset(g, e);
      StepKeepsInv(g, e);
      if e.TimerOverflow? {
        OnStaysOn(g1, es[1..]);
        assert TimerAt(g.link, es, 0);
      } else if EndsReset(g.link, e) {
        TransmitterStays(g1, es[1..]);
        assert forall i | 0 <= i < |es| && TimerAt(g.link, es, i) :: i == 0;
      } else {
        ComesBackIff(g1, es[1..]);
        TimerFirstLater(g.link, es);
      }
    }
  }

  lemma NotStopped(g: State, es: seq<Event>)
    requires AdmissibleRun(g, es) && Run(g, es).course != Stopped
    ensures g.course != Stopped
  {
    if g.course == Stopped {
      StoppedForGood(g, es);
    }
  }

  lemma TimerFirstLater(l: Link, es: seq<Event>)
    requires es != [] && !es[0].TimerOverflow? && !EndsReset(l, es[0])
    ensures TimerFirst(l, es) <==> TimerFirst(l, es[1..])
  {
    forall i | 0 <= i < |es| && TimerAt(l, es, i) ensures TimerFirst(l, es[1..]) {
      assert TimerAt(l, es[1..], i - 1);
    }
    forall i | 0 <= i < |es[1..]| && TimerAt(l, es[1..], i) ensures TimerFirst(l, es) {
      assert TimerAt(l, es, i + 1);
    }
  }
}
