/** Whether the host can still reach the gateway.  The I2C hardware answers its address only
    with twea set; some ends of a transfer leave it clear, and nothing but another transfer
    sets it again. */
module GatewayReach {
  import opened Bytes
  import opened Protocol
  import opened Gateway
  import opened GatewayInvariant
  import opened GatewayStreaming

  /** The bytes that an event moves over I2C, from the host or loaded for it. */
  function Moved(g: State, e: Event): (bs: seq<byte>) {
    if g.course != Stopped && e.Bus? && Possible(g.twi, e.e) then
      if e.e.ByteIn? then [e.e.value]
      else
        match TwiIsr(g.twi, e.e).out
        case Some(b) => [b]
        case None => []
    else []
  }

  function AllMoved(g: State, es: seq<Event>): (bs: seq<byte>)
    requires AdmissibleRun(g, es)
    decreases |es|
  {
    if es == [] then [] else Moved(g, es[0]) + AllMoved(Step(g, es[0]), es[1..])
  }

  /** No transfer is under way, and none can begin. */
  predicate OutOfReach(g: State) {
    g.course == Stopped || (g.twi.mode == Unaddressed && !g.twi.twea)
  }

  /** The hardware's side of the gateway. */
  predicate SameHardware(t: Twi, t': Twi) {
    t'.twea == t.twea && t'.mode == t.mode
  }

  lemma {:induction false} EmitAllKeepsHardware(t: Twi, ps: seq<Packet>)
    ensures SameHardware(t, EmitAll(t, ps))
    decreases |ps|
  {
    if ps != [] {
      EmitAllKeepsHardware(Emit(t, ps[0]), ps[1..]);
    }
  }

  lemma TwiStepKeepsHardware(g: State, ready: nat -> bool)
    requires Consumable(g)
    ensures SameHardware(g.twi, TwiStep(g, ready).twi)
  {
    if |g.twi.input| == 1 {
      EmitAllKeepsHardware(g.twi, [Packet(RESPONSE_TWI, [g.twi.input[0]])]);
    } else {
      var P := (x: State) => SameHardware(g.twi, x.twi);
      forall x: State, c: Command, r: bool | P(x) ensures P(Apply(x, Perform(x, c, r))) {
        EmitAllKeepsHardware(x.twi, Perform(x, c, r).answers);
      }
      PerformAllKeeps(P, g, Commands(g.twi.input, 0), ready);
    }
  }

  lemma StepStaysOutOfReach(g: State, e: Event)
    requires OutOfReach(g) && Admissible(g, e)
    ensures OutOfReach(Step(g, e)) && Moved(g, e) == []
  {
    match e
    case PollTwi(ready) =>
      if !g.halted && g.twi.idle {
        TwiStepKeepsHardware(g, ready);
      }
    case _ =>
  }

  lemma {:induction false} StaysOutOfReach(g: State, es: seq<Event>)
    requires OutOfReach(g) && AdmissibleRun(g, es)
    ensures OutOfReach(Run(g, es)) && AllMoved(g, es) == []
    decreases |es|
  {
    if es != [] {
      StepStaysOutOfReach(g, es[0]);
      StaysOutOfReach(Step(g, es[0]), es[1..]);
    }
  }

  lemma MovesFirst(g: State, e: Event)
    requires Admissible(g, e) && Moved(g, e) != []
    ensures AdmissibleRun(g, [e]) && AllMoved(g, [e]) != []
  {
    RunOne(g, e);
  }

  lemma MovesLater(g: State, e: Event, es: seq<Event>)
    requires Admissible(g, e) && AdmissibleRun(Step(g, e), es) && AllMoved(Step(g, e), es) != []
    ensures AdmissibleRun(g, [e] + es) && AllMoved(g, [e] + es) != []
  {
    assert ([e] + es)[1..] == es;
  }

  /** From everywhere else a byte can still be moved. */
  lemma SomethingMoves(g: State) returns (es: seq<Event>)
    requires !OutOfReach(g)
    ensures AdmissibleRun(g, es) && AllMoved(g, es) != []
  {
    es := [Bus(ReadAddressed)];
    if g.twi.mode == Unaddressed {
      MovesFirst(g, Bus(ReadAddressed));
    } else if g.twi.mode == Transmitter && g.twi.twea {
      MovesFirst(g, Bus(ByteOutAcked));
      es := [Bus(ByteOutAcked)];
    } else {
      var last := Bus(if g.twi.mode == Transmitter then LastByteOutAcked else StopSeen);
      MovesFirst(Step(g, last), Bus(ReadAddressed));
      MovesLater(g, last, es);
      es := [last] + es;
    }
  }

  /** No run whatever moves another byte over I2C, either way, if and only if the hardware is
      not addressed and twea is clear, or interrupts are off. */
  lemma OutOfReachIff(g: State)
    ensures (forall es: seq<Event> | AdmissibleRun(g, es) :: AllMoved(g, es) == []) <==> OutOfReach(g)
  {
    if OutOfReach(g) {
      forall es: seq<Event> | AdmissibleRun(g, es) ensures AllMoved(g, es) == [] {
        StaysOutOfReach(g, es);
      }
    } else {
      var es := SomethingMoves(g);
    }
  }

  // ---------------------------------------------------------------- how it comes about

  /** After a read of k bytes the gateway is out of reach if and only if the host ended it with
      a NACK: before the reply, its length byte and two more were through. */
  lemma ReadLosesReachIff(g: State, k: nat)
    requires k >= 1 && g.course != Stopped && Answers(g.twi)
    ensures var r := ReadReply(g.twi, k); var g' := g.(twi := r.t);
            && AdmissibleRun(g, BusEvents(r.events)) && Run(g, BusEvents(r.events)) == g'
            && (OutOfReach(g') <==> k < (if g.twi.reply == [] then 2 else |g.twi.reply| + 3))
            && (!OutOfReach(g') ==> Answers(g'.twi))
  {
    ReadReplyIsRun(g, k);
    if g.twi.reply == [] {
      NothingIsStreamed(g.twi, k);
    } else {
      ReplyIsStreamed(g.twi, k);
    }
  }

  /** The host client always reads 81 bytes.  It gets the whole reply; it takes it, and can go
      on, if and only if the reply has at most 78 bytes.  One of 79 or 80 stays where it is, and
      no byte is ever moved again. */
  lemma ClientReadIsLastIff(g: State)
    requires g.twi.reply != [] && g.course != Stopped && Answers(g.twi)
    ensures var r := ReadReply(g.twi, RESPONSE_MAX_LENGTH + 1); var g' := g.(twi := r.t);
            && AdmissibleRun(g, BusEvents(r.events)) && Run(g, BusEvents(r.events)) == g'
            && [|g.twi.reply|] + g.twi.reply <= r.bytes
            && (if |g.twi.reply| <= 78 then Consumed(g.twi, g'.twi) else Kept(g.twi, g'.twi))
            && ((forall es: seq<Event> | AdmissibleRun(g', es) :: AllMoved(g', es) == [])
                <==> |g.twi.reply| > 78)
  {
    var k := RESPONSE_MAX_LENGTH + 1;
    ReplyIsStreamed(g.twi, k);
    ReadLosesReachIff(g, k);
    OutOfReachIff(g.(twi := ReadReply(g.twi, k).t));
    WholeReply(g.twi.reply, k);
  }

  lemma WholeReply(reply: seq<byte>, k: nat)
    requires |reply| < k && |reply| <= RESPONSE_MAX_LENGTH
    ensures [|reply|] + reply <= OnBus(reply, k)
  {
    assert [|reply|] + reply <= ([|reply|] + reply + [0] + Released(k))[..k];
  }

  /** A bus error does it too, at any time. */
  lemma BusErrorLosesReach(g: State)
    ensures OutOfReach(Step(g, Bus(BusError)))
  {}

  /** Between transfers, so does any status that the handler does not know; that there is no
      status is only counted. */
  lemma OtherStatusLosesReach(g: State)
    requires g.twi.mode == Unaddressed
    ensures OutOfReach(Step(g, Bus(OtherStatus)))
    ensures g.course != Stopped ==>
              Step(g, Bus(NoInfo)) == g.(twi := g.twi.(stat := Count(g.twi.stat, 0)))
  {}

  lemma StepStaysStuck(g: State, e: Event)
    requires OutOfReach(g) && !g.twi.idle && Admissible(g, e)
    ensures !Step(g, e).twi.idle && (e.PollTwi? ==> Step(g, e) == g)
  {}

  lemma {:induction false} StaysStuck(g: State, es: seq<Event>)
    requires OutOfReach(g) && !g.twi.idle && AdmissibleRun(g, es)
    ensures !Run(g, es).twi.idle
    decreases |es|
  {
    if es != [] {
      StepStaysStuck(g, es[0]);
      StepStaysOutOfReach(g, es[0]);
      StaysStuck(Step(g, es[0]), es[1..]);
    }
  }

  /** A written byte that the slave had to refuse ends it for the main loop as well: in no run after
      it does a poll of the host side find anything to do. */
  lemma RefusedByteIsLast(g: State, general: bool, es: seq<Event>, ready: nat -> bool)
    requires Possible(g.twi, ByteInNacked(general)) && !g.twi.idle && g.course != Stopped
    requires AdmissibleRun(Step(g, Bus(ByteInNacked(general))), es)
    ensures var g' := Run(Step(g, Bus(ByteInNacked(general))), es);
            OutOfReach(g') && Admissible(g', PollTwi(ready)) && Step(g', PollTwi(ready)) == g'
  {
    var g1 := Step(g, Bus(ByteInNacked(general)));
    StaysStuck(g1, es);
    StaysOutOfReach(g1, es);
  }
}
