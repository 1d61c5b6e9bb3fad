/** What the gateway does with one write of the host, header by header: said of the run that
    writes the bytes and then polls for them. */
module GatewayAnswers {
  import opened Bytes
  import opened Crc
  import opened Protocol
  import opened Gateway
  import opened GatewayDispatch

  /** Written and polled for, these bytes leave the gateway as g1, but for the end of the poll. */
  ghost predicate Leads(g: State, bs: seq<byte>, ready: nat -> bool, g1: State)
    requires |bs| <= COMMAND_MAX_LENGTH
  {
    RunsTo(g, WriteEvents(bs) + [PollTwi(ready)], Settled(g1))
  }

  /** The host gets this answer, and nothing else changes. */
  ghost predicate OnlyAnswers(g: State, bs: seq<byte>, ready: nat -> bool, p: Packet)
    requires |bs| <= COMMAND_MAX_LENGTH
  {
    var w := Written(g, bs);
    Leads(g, bs, ready, w.(twi := Emit(w.twi, p)))
  }

  /** The gateway runs, and the host can reach it. */
  predicate Serving(g: State) {
    !g.halted && Answers(g.twi)
  }

  // ---------------------------------------------------------------- writes that are no command

  lemma WriteIsPolled(g: State, bs: CommandBuffer, ready: nat -> bool)
    requires Serving(g) && WellFramed(bs, 0)
    ensures Leads(g, bs, ready, TakeInput(Written(g, bs), ready))
  {
    WriteFillsInput(g, bs);
    RunOneMore(g, WriteEvents(bs), PollTwi(ready));
  }

  /** A single byte comes back. */
  lemma OneByteComesBack(g: State, b: byte, ready: nat -> bool)
    requires Serving(g)
    ensures OnlyAnswers(g, [b], ready, Packet(0x05, [b]))
  {
    WriteIsPolled(g, [b], ready);
    EmitOne(Written(g, [b]).twi, Packet(RESPONSE_TWI, [b]));
  }

  lemma FirstIsLast(g: State, bs: CommandBuffer, c: Command, p: Packet, ready: nat -> bool)
    requires Serving(g) && |bs| > 1 && WellFramed(bs, 0) && Commands(bs, 0) == [Placed(0, c)]
    requires var w := Written(g, bs); Perform(w, c, ready(0)) == Answer(w, [p])
    ensures OnlyAnswers(g, bs, ready, p)
  {
    var w := Written(g, bs);
    WriteIsPolled(g, bs, ready);
    PerformOne(w, Placed(0, c), ready);
    EmitOne(w.twi, p);
  }

  /** Two bytes are too few for a frame. */
  lemma TwoBytesAreBad(g: State, bs: seq<byte>, ready: nat -> bool)
    requires Serving(g) && |bs| == 2
    ensures OnlyAnswers(g, bs, ready, Packet(0x81, [0]))
  {
    FirstIsLast(g, bs, BadFrame, Packet(0x81, [0]), ready);
  }

  /** A frame that claims more bytes than were written. */
  lemma LongClaimIsBad(g: State, bs: CommandBuffer, ready: nat -> bool)
    requires Serving(g) && |bs| >= 3 && bs[0] > |bs|
    ensures OnlyAnswers(g, bs, ready, Packet(0x81, [0]))
  {
    FirstIsLast(g, bs, BadFrame, Packet(0x81, [0]), ready);
  }

  /** A frame whose last byte is not the CRC of the others: the host gets that byte back. */
  lemma WrongCrcIsTold(g: State, bs: CommandBuffer, ready: nat -> bool)
    requires Serving(g) && 3 <= |bs| == bs[0] && bs[|bs| - 1] != Crc8(0, bs[..|bs| - 1])
    ensures OnlyAnswers(g, bs, ready, Packet(0x82, [bs[|bs| - 1]]))
  {
    assert bs[..|bs|] == bs && bs[|bs|..] == [];
    FirstIsLast(g, bs, BadCheck(bs[|bs| - 1]), Packet(0x82, [bs[|bs| - 1]]), ready);
  }

  /** A command that is damaged within any eight consecutive bits, its length byte spared, is
      never performed: the answer is the CRC error, and nothing else changes. */
  lemma DamagedCommandIsRefused(g: State, p: Packet, bs: CommandBuffer, at: nat, ready: nat -> bool)
    requires Serving(g) && |bs| == p.Size() && bs[0] == p.Size() && Burst(Encode(p), bs, at)
    ensures OnlyAnswers(g, bs, ready, Packet(0x82, [bs[|bs| - 1]]))
  {
    EncodeChecks(p);
    BurstDetected(Encode(p), bs, at);
    WrongCrcIsTold(g, bs, ready);
  }

  // ---------------------------------------------------------------- commands

  /** A command that only answers. */
  lemma AnswerOfFrame(g: State, f: Packet, p: Packet, ready: nat -> bool)
    requires Serving(g) && f.Size() <= COMMAND_MAX_LENGTH
    requires var w := Written(g, Encode(f)); Execute(w, f.header, f.data, ready(0)) == Answer(w, [p])
    ensures OnlyAnswers(g, Encode(f), ready, p)
  {
    var w := Written(g, Encode(f));
    FrameIsPerformed(g, f, ready);
    EmitOne(w.twi, p);
  }

  /** The poll command does nothing at all. */
  lemma PollIsSilent(g: State, ready: nat -> bool)
    requires Serving(g)
    ensures var bs := Encode(Packet(0x01, [])); Leads(g, bs, ready, Written(g, bs))
  {
    FrameIsPerformed(g, Packet(0x01, []), ready);
  }

  lemma PollWithDataIsBad(g: State, d: Data, ready: nat -> bool)
    requires Serving(g) && 0 < |d| <= 90
    ensures OnlyAnswers(g, Encode(Packet(0x01, d)), ready, Packet(0x81, [1]))
  {
    AnswerOfFrame(g, Packet(0x01, d), Packet(0x81, [1]), ready);
  }

  /** Config is not implemented, but forgets the cause of the last reset. */
  lemma ConfigForgetsCause(g: State, d: Data, ready: nat -> bool)
    requires Serving(g) && |d| <= 90
    ensures var bs := Encode(Packet(0x02, d)); var w := Written(g, bs);
            Leads(g, bs, ready, w.(twi := Emit(w.twi, Packet(0x86, [])), mcusr := 0))
  {
    var f := Packet(0x02, d);
    FrameIsPerformed(g, f, ready);
    EmitOne(Written(g, Encode(f)).twi, Packet(0x86, []));
  }

  /** Reset stops everything; Flash stops the main loop only. */
  lemma ResetStops(g: State, d: Data, ready: nat -> bool)
    requires Serving(g) && |d| <= 90
    ensures var bs := Encode(Packet(0x03, d)); Leads(g, bs, ready, Written(g, bs).(course := Stopped))
    ensures var bs := Encode(Packet(0x05, d)); Leads(g, bs, ready, Written(g, bs).(course := Spinning))
  {
    FrameIsPerformed(g, Packet(0x03, d), ready);
    FrameIsPerformed(g, Packet(0x05, d), ready);
  }

  /** After Reset nothing happens any more; after Flash the main loop takes no step, and every
      interrupt does what it did before. */
  lemma NothingAfterReset(g: State, e: Event)
    requires Admissible(g, e)
    ensures g.course == Stopped ==> Step(g, e) == g
    ensures g.course == Spinning && (e.PollMdb? || e.PollTwi?) ==> Step(g, e) == g
    ensures g.course == Spinning && !e.PollMdb? && !e.PollTwi? ==>
              Step(g, e) == Step(g.(course := Running), e).(course := Spinning)
  {}

  /** The debug report: the states and counters, each behind its name and length, and zeros up to
      40 bytes. */
  lemma DebugTells(g: State, d: Data, ready: nat -> bool) returns (r: Data)
    requires Serving(g) && |d| <= 90
    ensures OnlyAnswers(g, Encode(Packet(0x04, d)), ready, Packet(0x04, r))
    ensures |r| == 40 && r[..3] == ['M' as int, 1, g.link.state.Code()]
    ensures r[3..5] == ['T' as int, 8] && r[5..13] == g.twi.stat[6 := Add8(g.twi.stat[6], 1)]
    ensures r[13..15] == ['U' as int, g.mcusr] && forall i | 15 <= i < 40 :: r[i] == 0
  {
    r := DebugData(Written(g, Encode(Packet(0x04, d))));
    AnswerOfFrame(g, Packet(0x04, d), Packet(0x04, r), ready);
  }

  /** While anything is under way on the MDB side, a transaction is refused as busy, whatever its
      data and the UART: what is under way goes on untouched. */
  lemma BusyRefusesTransaction(g: State, d: Data, ready: nat -> bool)
    requires Serving(g) && |d| <= 90 && g.link.state != Idle
    ensures OnlyAnswers(g, Encode(Packet(0x08, d)), ready, Packet(0x88, []))
  {
    AnswerOfFrame(g, Packet(0x08, d), Packet(0x88, []), ready);
  }

  /** And so is a bus reset. */
  lemma BusyRefusesReset(g: State, d: Data, ready: nat -> bool)
    requires Serving(g) && |d| == 2 && g.link.state != Idle
    ensures OnlyAnswers(g, Encode(Packet(0x07, d)), ready, Packet(0x88, []))
  {
    AnswerOfFrame(g, Packet(0x07, d), Packet(0x88, []), ready);
  }

  /** A bus reset needs two bytes of duration, busy or not. */
  lemma ResetNeedsDuration(g: State, d: Data, ready: nat -> bool)
    requires Serving(g) && |d| <= 90 && |d| != 2
    ensures OnlyAnswers(g, Encode(Packet(0x07, d)), ready, Packet(0x81, []))
  {
    AnswerOfFrame(g, Packet(0x07, d), Packet(0x81, []), ready);
  }

  /** With nothing under way and the UART ready, a transaction begins: its first byte goes out with
      the ninth bit, the interrupt and the timer are on, and the host is told. */
  lemma TransactionBegins(g: State, d: Data, ready: nat -> bool) returns (l: Link)
    requires Serving(g) && |d| <= 90 && g.link.state == Idle && ready(0)
    ensures var bs := Encode(Packet(0x08, d)); var w := Written(g, bs);
            Leads(g, bs, ready, w.(link := l, twi := Emit(w.twi, Packet(0x08, []))))
    ensures l.state == Send && l.udrie && l.timer && l.used == 1 && !l.retry
    ensures l.txcie == g.link.txcie && l.txen == g.link.txen
    ensures l.output == if |d| < 36 then d + [Sum(d)] else if |d| == 36 then d else [Sum(d)]
    ensures l.wire == WireWith(g.link, [Word(l.output[0], true)])
  {
    var f := Packet(0x08, d);
    var w := Written(g, Encode(f));
    FrameIsPerformed(g, f, ready);
    EmitOne(w.twi, STARTED);
    RequestBlockIs(d);
    l := StartSend(g.link.(output := RequestBlock(d), used := 0));
  }

  lemma RequestBlockIs(d: Data)
    ensures RequestBlock(d) == if |d| < 36 then d + [Sum(d)] else if |d| == 36 then d else [Sum(d)]
  {}

  /** With the UART not ready, the link is cleared, and the host is told of that and then, all the
      same, of a start. */
  lemma BusyUartIsTold(g: State, d: Data, ready: nat -> bool)
    requires Serving(g) && |d| <= 90 && g.link.state == Idle && !ready(0)
    ensures var bs := Encode(Packet(0x08, d)); var w := Written(g, bs);
            Leads(g, bs, ready, w.(link := ResetLink(g.link),
                                   twi := Emit(Emit(w.twi, Packet(0x92, [0])), Packet(0x08, []))))
  {
    FrameIsPerformed(g, Packet(0x08, d), ready);
    NotReadyEffect(Written(g, Encode(Packet(0x08, d))), d);
  }

  lemma NotReadyEffect(w: State, d: Data)
    requires w.link.state == Idle
    ensures Apply(w, Execute(w, 0x08, d, false))
         == w.(link := ResetLink(w.link), twi := Emit(Emit(w.twi, Packet(0x92, [0])), Packet(0x08, [])))
  {
    EmitPair(w.twi, Packet(0x92, [0]), Packet(0x08, []));
    ClearedAlike(w.link, RequestBlock(d));
  }

  lemma ClearedAlike(l: Link, b: Block)
    ensures ResetLink(l.(output := b, used := 0)) == ResetLink(l)
  {}

  lemma EmitPair(t: Twi, p: Packet, q: Packet)
    ensures EmitAll(t, [p, q]) == Emit(Emit(t, p), q)
  {
    assert [p, q][1..] == [q];
    EmitOne(Emit(t, p), q);
  }

  /** Custom transactions are not implemented; any other header is unknown. */
  lemma CustomIsNotImplemented(g: State, d: Data, ready: nat -> bool)
    requires Serving(g) && |d| <= 90
    ensures OnlyAnswers(g, Encode(Packet(0x09, d)), ready, Packet(0x86, []))
  {
    AnswerOfFrame(g, Packet(0x09, d), Packet(0x86, []), ready);
  }

  lemma OtherHeaderIsUnknown(g: State, h: byte, d: Data, ready: nat -> bool)
    requires Serving(g) && |d| <= 90 && h !in {0x01, 0x02, 0x03, 0x04, 0x05, 0x07, 0x08, 0x09}
    ensures OnlyAnswers(g, Encode(Packet(h, d)), ready, Packet(0x84, []))
  {
    AnswerOfFrame(g, Packet(h, d), Packet(0x84, []), ready);
  }

  // ---------------------------------------------------------------- several frames

  /** A frame with a wrong CRC is passed over by the length that it claims: the command behind it is
      performed. */
  lemma BadFrameIsPassed(bad: seq<byte>, p: Packet)
    requires 3 <= |bad| < 256 && bad[0] == |bad| && bad[|bad| - 1] != Crc8(0, bad[..|bad| - 1])
    requires |bad| + p.Size() < 256
    ensures var bs := bad + Encode(p);
            && WellFramed(bs, 0)
            && Commands(bs, 0) == [Placed(0, BadCheck(bad[|bad| - 1])), Placed(|bad|, Command(p.header, p.data))]
  {
    var bs, rest := bad + Encode(p), Encode(p);
    assert bs[..|bad|] == bad && bs[|bad|..] == rest;
    assert rest[..p.Size()] == rest && [p][1..] == [] && IsEncoding(rest[p.Size()..], []);
    assert IsEncoding(rest, [p]);
    CommandsOfEncoding(rest, [p], |bad|);
    OneMeant(p, |bad|);
  }

  lemma OneMeant(p: Packet, offset: nat)
    ensures UpToStop(Meant([p], offset)) == [Placed(offset, Command(p.header, p.data))]
  {
    assert [p][1..] == [] && Meant([p][1..], offset + p.Size()) == [];
    var cs := Meant([p], offset);
    assert cs[1..] == [] && UpToStop(cs[1..]) == [];
  }

  /** Of several commands the last one is performed last, on what the others have left, unless one
      of those does not return. */
  lemma {:induction false} LastIsLast(g: State, cs: seq<Placed>, c: Placed, ready: nat -> bool, g1: State)
    requires g1 == PerformAll(g, cs, ready) && !g.halted
    ensures PerformAll(g, cs + [c], ready)
         == if g1.halted then g1 else Apply(g1, Perform(g1, c.command, ready(c.at)))
    decreases |cs|
  {
    if cs == [] {
      assert [] + [c] == [c];
      PerformOne(g, c, ready);
    } else {
      var first := Apply(g, Perform(g, cs[0].command, ready(cs[0].at)));
      assert (cs + [c])[0] == cs[0] && (cs + [c])[1..] == cs[1..] + [c];
      if !first.halted {
        LastIsLast(first, cs[1..], c, ready, g1);
      }
    }
  }
}
