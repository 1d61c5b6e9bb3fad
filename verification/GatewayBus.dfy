/** The I2C side beyond one clean transfer: writes that are too long, polls during a transfer, bus
    errors, and the counters of the debug report. */
module GatewayBus {
  import opened Bytes
  import opened Protocol
  import opened Gateway
  import opened GatewayInvariant
  import opened GatewayDispatch

  // ---------------------------------------------------------------- too long a write

  /** What of a write is kept. */
  function Cut(bs: seq<byte>): (r: CommandBuffer) {
    if |bs| > COMMAND_MAX_LENGTH then bs[..COMMAND_MAX_LENGTH] else bs
  }

  lemma {:induction false} ByteInAtMost(g: State, bs: seq<byte>)
    requires g.course != Stopped && g.twi.mode == Receiver && g.twi.twea
    requires g.twi.input == [] && !g.twi.idle
    ensures AdmissibleRun(g, ByteEvents(bs))
    ensures Run(g, ByteEvents(bs)) == g.(twi := g.twi.(input := Cut(bs)))
  {
    if |bs| <= COMMAND_MAX_LENGTH {
      BytesFillInput(g, bs);
    } else {
      var n := |bs| - 1;
      ByteInAtMost(g, bs[..n]);
      assert ByteEvents(bs) == ByteEvents(bs[..n]) + [Bus(ByteIn(bs[n]))];
      assert Cut(bs[..n]) == bs[..COMMAND_MAX_LENGTH];
      RunOneMore(g, ByteEvents(bs[..n]), Bus(ByteIn(bs[n])));
    }
  }

  /** A write of any length leaves its first 93 bytes; the others are acknowledged and lost. */
  lemma LongWriteIsCut(g: State, bs: seq<byte>)
    requires Answers(g.twi) && g.course != Stopped
    ensures AdmissibleRun(g, WriteEvents(bs)) && Run(g, WriteEvents(bs)) == Written(g, Cut(bs))
  {
    var first := [Bus(WriteAddressed)];
    RunOne(g, Bus(WriteAddressed));
    ByteInAtMost(Run(g, first), bs);
    RunComposes(g, first, ByteEvents(bs));
    RunOneMore(g, first + ByteEvents(bs), Bus(StopSeen));
  }

  // ---------------------------------------------------------------- polls during a transfer

  /** Between the address and the stop of a write, whatever has come so far, the main loop leaves
      the input and the replies alone. */
  lemma WriteIsNotPolled(g: State, bs: seq<byte>, ready: nat -> bool)
    requires Answers(g.twi) && g.course != Stopped
    ensures var es := [Bus(WriteAddressed)] + ByteEvents(bs);
            && AdmissibleRun(g, es) && AdmissibleRun(g, es + [PollTwi(ready)])
            && Run(g, es + [PollTwi(ready)]) == Run(g, es)
  {
    var first := [Bus(WriteAddressed)];
    RunOne(g, Bus(WriteAddressed));
    ByteInAtMost(Run(g, first), bs);
    RunComposes(g, first, ByteEvents(bs));
    RunOneMore(g, first + ByteEvents(bs), PollTwi(ready));
  }

  /** And so it does while a reply is read: after the address and after every byte. */
  lemma ReadIsNotPolled(g: State, e: TwiEvent, ready: nat -> bool)
    requires Possible(g.twi, e) && g.course != Stopped && (e.ReadAddressed? || e.ByteOutAcked?)
    ensures var g1 := Step(g, Bus(e)); Admissible(g1, PollTwi(ready)) && Step(g1, PollTwi(ready)) == g1
  {}

  /** A poll with nothing to take brings up what waits, once the reply before it is read, and does
      nothing before. */
  lemma PollBringsUp(g: State, ready: nat -> bool)
    requires !g.halted && g.twi.idle && g.twi.input == []
    ensures Admissible(g, PollTwi(ready))
    ensures var t := Step(g, PollTwi(ready)).twi;
            if g.twi.used >= |g.twi.reply| && g.twi.pending != []
            then t.reply == g.twi.pending && t.used == 0 && t.pending == [] && t.input == []
            else t == g.twi
    ensures Step(g, PollTwi(ready)).link == g.link
  {
    assert g.twi.(input := []) == g.twi;
  }

  // ---------------------------------------------------------------- bus errors

  /** A bus error drops what was written and what was to be read; what waits in the second buffer
      stays, and the MDB side does not notice. */
  lemma BusErrorDropsBoth(g: State)
    requires g.course != Stopped
    ensures var g' := Step(g, Bus(BusError));
            && g'.twi.input == [] && g'.twi.reply == [] && g'.twi.used == 0
            && g'.twi.pending == g.twi.pending && g'.twi.idle == g.twi.idle && !g'.twi.ledger.intact
            && g'.link == g.link && g'.course == g.course
  {}

  // ---------------------------------------------------------------- counters

  /** The counter of the debug report that an event moves, in the order of the report. */
  function Counter(t: Twi, e: TwiEvent): (i: Option<nat>) {
    match e
    case NoInfo => Some(0)
    case BusError => Some(1)
    case ByteInNacked(general) => Some(if general then 3 else 2)
    case ByteOutNacked => Some(4)
    case LastByteOutAcked => Some(5)
    case StopSeen => Some(6)
    case ReadAddressed => if t.reply == [] then Some(7) else None
    case _ => None
  }

  predicate Counts(g: State, e: Event, i: nat) {
    g.course != Stopped && e.Bus? && Possible(g.twi, e.e) && Counter(g.twi, e.e) == Some(i)
  }

  /** How often a run moves counter i. */
  function Moves(g: State, es: seq<Event>, i: nat): (n: nat)
    requires AdmissibleRun(g, es)
    decreases |es|
  {
    if es == [] then 0
    else
      (if Counts(g, es[0], i) then 1 else 0) + Moves(Step(g, es[0]), es[1..], i)
  }

  lemma {:induction false} EmitAllKeepsStat(t: Twi, ps: seq<Packet>)
    ensures EmitAll(t, ps).stat == t.stat
    decreases |ps|
  {
    if ps != [] {
      EmitAllKeepsStat(Emit(t, ps[0]), ps[1..]);
    }
  }

  lemma TwiStepKeepsStat(g: State, ready: nat -> bool)
    requires Consumable(g)
    ensures TwiStep(g, ready).twi.stat == g.twi.stat
  {
    if |g.twi.input| == 1 {
      EmitAllKeepsStat(g.twi, [Packet(RESPONSE_TWI, [g.twi.input[0]])]);
    } else {
      var P := (x: State) => x.twi.stat == g.twi.stat;
      forall x: State, c: Command, r: bool | P(x) ensures P(Apply(x, Perform(x, c, r))) {
        EmitAllKeepsStat(x.twi, Perform(x, c, r).answers);
      }
      PerformAllKeeps(P, g, Commands(g.twi.input, 0), ready);
    }
  }

  lemma IsrCounts(t: Twi, e: TwiEvent, i: nat)
    requires i < 8
    ensures TwiIsr(t, e).t.stat[i] == if Counter(t, e) == Some(i) then Add8(t.stat[i], 1) else t.stat[i]
  {}

  lemma StepCounts(g: State, e: Event, i: nat)
    requires Admissible(g, e) && i < 8
    ensures Step(g, e).twi.stat[i] == if Counts(g, e, i) then Add8(g.twi.stat[i], 1) else g.twi.stat[i]
  {
    match e
    case PollTwi(ready) =>
      if !g.halted && g.twi.idle {
        TwiStepKeepsStat(g, ready);
      }
    case Bus(b) => IsrCounts(g.twi, b, i);
    case _ =>
  }

  /** Over any run each counter has moved as often as its event came, modulo 256. */
  lemma {:induction false} CountersCount(g: State, es: seq<Event>, i: nat)
    requires AdmissibleRun(g, es) && i < 8
    ensures Tallies(g.twi.stat[i], Run(g, es).twi.stat[i], Moves(g, es, i))
    decreases |es|
  {
    if es != [] {
      var g1 := Step(g, es[0]);
      StepCounts(g, es[0], i);
      CountersCount(g1, es[1..], i);
      MoreTallies(g.twi.stat[i], g1.twi.stat[i], Run(g, es).twi.stat[i], Counts(g, es[0], i), Moves(g1, es[1..], i));
    }
  }

  /** An 8-bit counter after n more. */
  predicate Tallies(c: byte, c': byte, n: nat) {
    c' == (c + n) % 256
  }

  lemma MoreTallies(c: byte, c1: byte, c': byte, moved: bool, n: nat)
    requires c1 == (if moved then Add8(c, 1) else c) && Tallies(c1, c', n)
    ensures Tallies(c, c', (if moved then 1 else 0) + n)
  {}
}
