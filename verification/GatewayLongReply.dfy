/** A reply that is the last one: one write of commands whose answers make 79 bytes. */
module GatewayLongReply {
  import opened Bytes
  import opened Protocol
  import opened Gateway
  import opened GatewayDispatch
  import opened GatewayStreaming
  import opened GatewayReach

  function ConfigFrames(n: nat): (ps: seq<Packet>)
    ensures |ps| == n
  {
    seq(n, _ => Packet(COMMAND_CONFIG, []))
  }

  /** One Debug command and twelve Config commands, 39 bytes. */
  function LongWrite(): (ps: seq<Packet>) {
    [Packet(COMMAND_DEBUG, [])] + ConfigFrames(12)
  }

  lemma {:induction false} ConfigFramesSize(n: nat)
    ensures |EncodeAll(ConfigFrames(n))| == 3 * n
  {
    if n > 0 {
      assert ConfigFrames(n)[1..] == ConfigFrames(n - 1);
      ConfigFramesSize(n - 1);
    }
  }

  /** The answer queue has grown by n bytes, and nothing else of the replies has changed. */
  predicate Grown(g: State, g': State, n: nat) {
    && |g'.twi.pending| == |g.twi.pending| + n
    && g'.twi.reply == g.twi.reply && g'.twi.used == g.twi.used
    && g'.course == g.course && g'.twi.idle == g.twi.idle && SameHardware(g.twi, g'.twi)
  }

  lemma OneAnswer(g: State, header: byte, p: Packet, ready: bool)
    requires !g.halted && |g.twi.pending| + p.Size() <= RESPONSE_MAX_LENGTH
    requires Execute(g, header, [], ready).answers == [p] && Execute(g, header, [], ready).course == Running
    ensures Grown(g, Apply(g, Perform(g, Command(header, []), ready)), p.Size())
  {
    EmitOne(g.twi, p);
  }

  lemma {:induction false} ConfigsAnswer(g: State, offset: nat, n: nat, ready: nat -> bool)
    requires !g.halted && |g.twi.pending| + 3 * n <= RESPONSE_MAX_LENGTH
    ensures Grown(g, PerformAll(g, Meant(ConfigFrames(n), offset), ready), 3 * n)
    decreases n
  {
    if n > 0 {
      assert ConfigFrames(n)[1..] == ConfigFrames(n - 1);
      var g1 := Apply(g, Perform(g, Command(COMMAND_CONFIG, []), ready(offset)));
      OneAnswer(g, COMMAND_CONFIG, Packet(RESPONSE_NOT_IMPLEMENTED, []), ready(offset));
      ConfigsAnswer(g1, offset + 3, n - 1, ready);
      FirstMeant(ConfigFrames(n), offset);
      PerformFirst(g, Meant(ConfigFrames(n), offset), g1, ready);
    }
  }

  lemma FirstMeant(ps: seq<Packet>, offset: nat)
    requires ps != []
    ensures var cs := Meant(ps, offset);
            && cs != [] && cs[0] == Placed(offset, Command(ps[0].header, ps[0].data))
            && cs[1..] == Meant(ps[1..], offset + ps[0].Size())
  {}

  lemma PerformFirst(g: State, cs: seq<Placed>, g1: State, ready: nat -> bool)
    requires cs != [] && g1 == Apply(g, Perform(g, cs[0].command, ready(cs[0].at))) && !g1.halted
    ensures PerformAll(g, cs, ready) == PerformAll(g1, cs[1..], ready)
  {}

  lemma DebugAnswers(g: State, g1: State, ready: bool)
    requires !g.halted && g.twi.pending == []
    requires g1 == Apply(g, Perform(g, Command(COMMAND_DEBUG, []), ready))
    ensures Grown(g, g1, 43)
  {
    var p := Packet(RESPONSE_DEBUG, DebugData(g));
    assert p.Size() == 43;
    OneAnswer(g, COMMAND_DEBUG, p, ready);
  }

  lemma LongWriteAnswers(g: State, ready: nat -> bool)
    requires !g.halted && g.twi.pending == []
    ensures Grown(g, PerformAll(g, Meant(LongWrite(), 0), ready), 79)
  {
    var ps := LongWrite();
    var g1 := Apply(g, Perform(g, Command(COMMAND_DEBUG, []), ready(0)));
    DebugAnswers(g, g1, ready(0));
    ConfigsAnswer(g1, 3, 12, ready);
    AfterDebug(ps, g, g1, ready);
  }

  lemma AfterDebug(ps: seq<Packet>, g: State, g1: State, ready: nat -> bool)
    requires ps == LongWrite() && !g1.halted
    requires g1 == Apply(g, Perform(g, Command(COMMAND_DEBUG, []), ready(0)))
    ensures PerformAll(g, Meant(ps, 0), ready) == PerformAll(g1, Meant(ConfigFrames(12), 3), ready)
  {
    var cs := Meant(ps, 0);
    LongWriteMeans(ps, cs);
    PerformFirst(g, cs, g1, ready);
  }

  lemma LongWriteMeans(ps: seq<Packet>, cs: seq<Placed>)
    requires ps == LongWrite() && cs == Meant(ps, 0)
    ensures cs != [] && cs[0] == Placed(0, Command(COMMAND_DEBUG, [])) && cs[1..] == Meant(ConfigFrames(12), 3)
  {
    assert ps[0] == Packet(COMMAND_DEBUG, []) && ps[1..] == ConfigFrames(12);
    FirstMeant(ps, 0);
  }

  /** From any state in which the host can reach the gateway, with nothing to read and nothing
      queued: after that write and a poll, the client's read gets a whole reply of 79 bytes,
      which stays in its buffer, and no run after it moves another byte. */
  lemma LongReplyIsLast(g: State, ready: nat -> bool)
    requires !g.halted && Answers(g.twi) && g.twi.pending == [] && g.twi.used >= |g.twi.reply|
    ensures var es := WriteEvents(EncodeAll(LongWrite())) + [PollTwi(ready)];
            && AdmissibleRun(g, es)
            && var g1 := Run(g, es);
            && |g1.twi.reply| == 79 && Answers(g1.twi) && !g1.halted
            && var r := ReadReply(g1.twi, RESPONSE_MAX_LENGTH + 1); var g2 := g1.(twi := r.t);
            && [79] + g1.twi.reply <= r.bytes
            && AdmissibleRun(g1, BusEvents(r.events)) && Run(g1, BusEvents(r.events)) == g2
            && Kept(g1.twi, g2.twi)
            && forall fs: seq<Event> | AdmissibleRun(g2, fs) :: AllMoved(g2, fs) == []
  {
    var ps := LongWrite();
    LongWriteSize();
    FramesArePerformed(g, ps, ready);
    var g1 := Written(g, EncodeAll(ps));
    LongWriteAnswers(g1, ready);
    var g2 := PerformAll(g1, Meant(ps, 0), ready);
    LongReplyComesUp(g1, g2);
    ClientReadIsLastIff(Settled(g2));
  }

  lemma LongWriteSize()
    ensures |EncodeAll(LongWrite())| == 39
  {
    var ps := LongWrite();
    assert ps[0] == Packet(COMMAND_DEBUG, []) && ps[1..] == ConfigFrames(12);
    ConfigFramesSize(12);
  }

  lemma LongReplyComesUp(g: State, g': State)
    requires Grown(g, g', 79) && !g.halted && Answers(g.twi) && g.twi.pending == [] && g.twi.used >= |g.twi.reply|
    ensures |Settled(g').twi.reply| == 79 && Answers(Settled(g').twi) && !Settled(g').halted
  {}
}
