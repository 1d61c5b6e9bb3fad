/** The receive interrupt refines a simple block decoder, and what the gateway reports for
    every block. */
module GatewayReceive {
  import opened Bytes
  import opened Protocol
  import opened Gateway
  import opened GatewayInvariant

  /** What a stream of words amounts to, from the moment the receiver is started. */
  datatype Decoded =
    | Pending(data: Block)
    | Closed(data: Block, last: byte)
    | Overflow
    | Unexpected(value: byte, during: MdbState)

  /** The specification decoder: data words up to the block size, closed by a ninth bit;
      any word after the end is unexpected. */
  function Decode(ws: seq<Word>): (d: Decoded) {
    if ws == [] then Pending([])
    else
      var w := ws[|ws| - 1];
      match Decode(ws[..|ws| - 1])
      case Pending(data) =>
        if w.ninth then Closed(data, w.value)
        else if |data| < MDB_PACKET_SIZE then Pending(data + [w.value])
        else Overflow
      case Closed(_, _) => Unexpected(w.value, RecvEnd)
      case Overflow => Unexpected(w.value, Error)
      case Unexpected(_, _) => Unexpected(w.value, Error)
  }

  /** The link as the decoder sees it. */
  ghost predicate Matches(l: Link, d: Decoded) {
    match d
    case Pending(data) =>
      l.state == Recv && l.errCode == 0 && l.input == data && l.checksum == Sum(data)
    case Closed(data, last) =>
      l.state == RecvEnd && l.errCode == 0 && l.input == data && l.checksum == Sum(data) && l.last == last
    case Overflow =>
      && l.state == Error && l.errCode == RESPONSE_MDB_RECEIVE_OVERFLOW
      && l.errState == Recv && l.errData == MDB_PACKET_SIZE
    case Unexpected(v, s) =>
      && l.state == Error && l.errCode == RESPONSE_UART_READ_UNEXPECTED
      && l.errState == s && l.errData == v
  }

  /** What reception leaves alone. */
  predicate SameTransmitter(l: Link, l': Link) {
    && l'.output == l.output && l'.used == l.used && l'.retry == l.retry
    && l'.udrie == l.udrie && l'.txcie == l.txcie && l'.txen == l.txen
    && l'.sending == l.sending && l'.wire == l.wire
  }

  /** The receive interrupts for a stream of words without line errors. */
  function Feed(l: Link, ws: seq<Word>): (l': Link) {
    if ws == [] then l else RxIsr(Feed(l, ws[..|ws| - 1]), 0, ws[|ws| - 1])
  }

  /** Just as TX complete leaves it: waiting for the first word. */
  predicate Listening(l: Link) {
    l.state == Recv && l.errCode == 0 && l.input == [] && l.checksum == 0
  }

  lemma RxMatches(l: Link, ws: seq<Word>, w: Word)
    requires Matches(l, Decode(ws))
    ensures Matches(RxIsr(l, 0, w), Decode(ws + [w]))
    ensures SameTransmitter(l, RxIsr(l, 0, w))
  {
    assert (ws + [w])[..|ws|] == ws;
    if Decode(ws).Pending? {
      RxWhilePending(l, Decode(ws).data, w);
    }
  }

  lemma RxWhilePending(l: Link, data: Block, w: Word)
    requires Matches(l, Pending(data))
    ensures var l' := RxIsr(l, 0, w);
            Matches(l', if w.ninth then Closed(data, w.value)
                        else if |data| < MDB_PACKET_SIZE then Pending(data + [w.value])
                        else Overflow)
  {
    SumAppend(data, w.value);
  }

  /** Refinement: for every stream, the interrupts compute exactly the decoder. */
  lemma {:induction false} FeedRefinesDecode(l: Link, ws: seq<Word>)
    requires Listening(l)
    ensures Matches(Feed(l, ws), Decode(ws)) && SameTransmitter(l, Feed(l, ws))
  {
    if ws != [] {
      var n := |ws| - 1;
      FeedRefinesDecode(l, ws[..n]);
      RxMatches(Feed(l, ws[..n]), ws[..n], ws[n]);
      assert ws[..n] + [ws[n]] == ws;
    }
  }

  // ---------------------------------------------------------------- the decoder, declaratively

  lemma {:induction false} DecodeData(bs: seq<byte>)
    requires |bs| <= MDB_PACKET_SIZE
    ensures Decode(DataWords(bs)) == Pending(bs)
  {
    if bs != [] {
      var n := |bs| - 1;
      DecodeData(bs[..n]);
      assert DataWords(bs)[..n] == DataWords(bs[..n]);
      assert bs[..n] + [bs[n]] == bs;
    }
  }

  /** A closed block decodes to its data, and one data word too many to an overflow. */
  lemma DecodeBlock(bs: seq<byte>, last: byte)
    requires |bs| <= MDB_PACKET_SIZE
    ensures Decode(BlockWords(bs, last)) == Closed(bs, last)
  {
    DecodeData(bs);
    assert BlockWords(bs, last)[..|bs|] == DataWords(bs);
  }

  lemma DecodeTooLong(bs: seq<byte>)
    requires |bs| == MDB_PACKET_SIZE + 1
    ensures Decode(DataWords(bs)) == Overflow
  {
    var n := |bs| - 1;
    DecodeData(bs[..n]);
    assert DataWords(bs)[..n] == DataWords(bs[..n]);
  }

  // ---------------------------------------------------------------- runs

  function RxEvents(ws: seq<Word>): (es: seq<Event>)
    ensures |es| == |ws|
  {
    seq(|ws|, i requires 0 <= i < |ws| => RxWord(0, ws[i]))
  }

  lemma {:induction false} RunRxEvents(g: State, ws: seq<Word>)
    requires g.course != Stopped
    ensures AdmissibleRun(g, RxEvents(ws))
    ensures Run(g, RxEvents(ws)) == g.(link := Feed(g.link, ws))
  {
    if ws != [] {
      var n := |ws| - 1;
      RunRxEvents(g, ws[..n]);
      assert RxEvents(ws) == RxEvents(ws[..n]) + [RxWord(0, ws[n])];
      RunOneMore(g, RxEvents(ws[..n]), RxWord(0, ws[n]));
    }
  }

  // ---------------------------------------------------------------- what is reported

  /** The packet that the host gets for a closed block.  For data with a wrong sum it is an
      empty success: after asking for a retry the gateway does not wait for it. */
  function Report(data: Block, last: byte): (p: Packet) {
    if data == [] then
      if last == MDB_ACK then Packet(RESPONSE_MDB_SUCCESS, [])
      else if last == MDB_NAK then Packet(RESPONSE_MDB_NAK, [last])
      else Packet(RESPONSE_MDB_INVALID_END, [last])
    else if last == Sum(data) then Packet(RESPONSE_MDB_SUCCESS, data)
    else Packet(RESPONSE_MDB_SUCCESS, [])
  }

  /** The byte that closes the exchange on the MDB bus, if one does. */
  function Handshake(data: Block, last: byte): (ws: seq<Word>) {
    if data == [] then []
    else [Word(if last == Sum(data) then MDB_ACK else MDB_RET, false)]
  }

  lemma TwoPolls(g: State, data: Block, last: byte)
    requires Matches(g.link, Closed(data, last)) && !g.link.retry && !g.halted
    ensures var g' := Step(Step(g, PollMdb), PollMdb);
            && g'.twi == Emit(g.twi, Report(data, last))
            && g'.link.state == Idle && g'.link.errCode == 0 && g'.link.input == [] && g'.link.checksum == 0
            && g'.link.wire == WireWith(g.link, Handshake(data, last)) && g'.link.txen == g.link.txen
            && g'.link.udrie == g.link.udrie && g'.link.txcie == g.link.txcie
            && !g'.halted && g'.mcusr == g.mcusr
  {
    assert g.link.wire + [] == g.link.wire;
    FirstPoll(g.link, data, last);
    var v := MdbVerdict(g.link);
    if v.answer == None {
      SecondPoll(v.link);
    }
  }

  lemma FirstPoll(l: Link, data: Block, last: byte)
    requires Matches(l, Closed(data, last)) && !l.retry
    ensures var v := MdbVerdict(l);
            && (data != [] && last != Sum(data) ==>
                  v.answer == None
                  && v.link == StartReceive(Write(l, Word(MDB_RET, false)).(retry := true)))
            && (data == [] || last == Sum(data) ==>
                  v.answer == Some(Report(data, last))
                  && v.link == ResetLink(l.(wire := WireWith(l, Handshake(data, last)))))
  {
    assert l.wire + [] == l.wire;
  }

  lemma SecondPoll(l: Link)
    requires l.state == RecvEnd && l.errCode == 0 && l.input == [] && l.last == 0
    ensures MdbVerdict(l) == Verdict(ResetLink(l), Some(Packet(RESPONSE_MDB_SUCCESS, [])))
  {}

  /** From the start of reception: any block of at most 36 bytes, any closing byte, and two
      polls of the main loop make exactly one packet, the report of that block. */
  lemma BlockIsReported(g: State, data: Block, last: byte)
    requires Listening(g.link) && !g.link.retry && !g.halted
    ensures var es := RxEvents(BlockWords(data, last)) + [PollMdb, PollMdb];
            && AdmissibleRun(g, es)
            && Run(g, es).twi == Emit(g.twi, Report(data, last))
            && Run(g, es).link.state == Idle
            && Run(g, es).link.wire == WireWith(g.link, Handshake(data, last))
  {
    var ws := BlockWords(data, last);
    RunRxEvents(g, ws);
    FeedRefinesDecode(g.link, ws);
    DecodeBlock(data, last);
    var g1 := Run(g, RxEvents(ws));
    TwoPolls(g1, data, last);
    RunTwo(g1, PollMdb, PollMdb);
    RunComposes(g, RxEvents(ws), [PollMdb, PollMdb]);
  }

  /** Two reports that are queued alike are the same, whether there is room for them or not. */
  lemma EmitTellsSuccesses(t: Twi, a: Data, b: Data)
    requires Emit(t, Packet(RESPONSE_MDB_SUCCESS, a)) == Emit(t, Packet(RESPONSE_MDB_SUCCESS, b))
    ensures a == b || !Fits(t, Packet(RESPONSE_MDB_SUCCESS, a))
    ensures |a| == |b|
  {
    var p, q := Packet(RESPONSE_MDB_SUCCESS, a), Packet(RESPONSE_MDB_SUCCESS, b);
    var ps := t.ledger.accepted;
    assert |ps + [p]| == |ps| + 1 && (ps + [p])[|ps|] == p && (ps + [q])[|ps|] == q;
    if !Fits(t, p) && !Fits(t, q) {
      var r, s := Packet(RESPONSE_BUFFER_OVERFLOW, [p.Size()]), Packet(RESPONSE_BUFFER_OVERFLOW, [q.Size()]);
      EncodeChecks(r);
      EncodeChecks(s);
      assert r.data[0] == s.data[0];
    }
  }

  /** For a non-empty block, the run from the start of reception to the second poll queues
      exactly that data as a success if and only if the block was closed by its sum. */
  lemma ReportedIffSumRight(g: State, data: Block, last: byte)
    requires Listening(g.link) && !g.link.retry && !g.halted && data != []
    ensures var es := RxEvents(BlockWords(data, last)) + [PollMdb, PollMdb];
            && AdmissibleRun(g, es)
            && (Run(g, es).twi == Emit(g.twi, Packet(RESPONSE_MDB_SUCCESS, data)) <==> last == Sum(data))
  {
    BlockIsReported(g, data, last);
    var es := RxEvents(BlockWords(data, last)) + [PollMdb, PollMdb];
    if Run(g, es).twi == Emit(g.twi, Packet(RESPONSE_MDB_SUCCESS, data)) && last != Sum(data) {
      EmitTellsSuccesses(g.twi, [], data);
    }
  }

  /** One data word too many: the next poll queues the overflow, with the state in which it
      happened and the size of the buffer. */
  lemma OverflowIsReported(g: State, bs: seq<byte>)
    requires Listening(g.link) && !g.halted && |bs| == MDB_PACKET_SIZE + 1
    ensures var es := RxEvents(DataWords(bs)) + [PollMdb];
            && AdmissibleRun(g, es)
            && Run(g, es).link.state == Idle
            && Run(g, es).twi
            == Emit(g.twi, Packet(RESPONSE_MDB_RECEIVE_OVERFLOW, [Recv.Code(), MDB_PACKET_SIZE]))
  {
    var ws := DataWords(bs);
    RunRxEvents(g, ws);
    FeedRefinesDecode(g.link, ws);
    DecodeTooLong(bs);
    RunOneMore(g, RxEvents(ws), PollMdb);
  }

  /** The repetition that RET asks for, when it comes between two polls: its last word ends up
      as an unexpected one. */
  lemma RepetitionIsUnexpected(g: State, bad: Block, last: byte, again: Block)
    requires Listening(g.link) && !g.link.retry && !g.halted
    requires bad != [] && last != Sum(bad)
    ensures var es := RxEvents(BlockWords(bad, last)) + [PollMdb] + RxEvents(BlockWords(again, Sum(again)));
            && AdmissibleRun(g, es)
            && Matches(Run(g, es).link, Unexpected(Sum(again), if again == [] then RecvEnd else Error))
  {
    var ws, ws' := BlockWords(bad, last), BlockWords(again, Sum(again));
    var g2 := g.(link := MdbVerdict(Feed(g.link, ws)).link);
    AskForRetry(g, bad, last);
    RunRxEvents(g2, ws');
    RunComposes(g, RxEvents(ws) + [PollMdb], RxEvents(ws'));
    OutOfTurn(g2.link, ws');
  }

  lemma AskForRetry(g: State, bad: Block, last: byte)
    requires Listening(g.link) && !g.link.retry && !g.halted
    requires bad != [] && last != Sum(bad)
    ensures var ws := BlockWords(bad, last);
            var l := MdbVerdict(Feed(g.link, ws)).link;
            && AdmissibleRun(g, RxEvents(ws) + [PollMdb])
            && Run(g, RxEvents(ws) + [PollMdb]) == g.(link := l)
            && l.state == RecvEnd && l.input == [] && l.wire == WireWith(g.link, [Word(MDB_RET, false)])
  {
    var ws := BlockWords(bad, last);
    RunRxEvents(g, ws);
    FeedRefinesDecode(g.link, ws);
    DecodeBlock(bad, last);
    var g1 := Run(g, RxEvents(ws));
    FirstPoll(g1.link, bad, last);
    SilentPoll(g1, MdbVerdict(g1.link).link);
    RunComposes(g, RxEvents(ws), [PollMdb]);
  }

  lemma SilentPoll(g: State, l: Link)
    requires !g.halted && g.link.state != Idle && MdbVerdict(g.link) == Verdict(l, None)
    ensures AdmissibleRun(g, [PollMdb]) && Run(g, [PollMdb]) == g.(link := l)
  {
    RunOne(g, PollMdb);
  }

  /** Words that arrive when nothing is expected: the last one is reported. */
  lemma {:induction false} OutOfTurn(l: Link, ws: seq<Word>)
    requires l.state == RecvEnd && ws != []
    ensures Matches(Feed(l, ws), Unexpected(ws[|ws| - 1].value, if |ws| == 1 then RecvEnd else Error))
  {
    var n := |ws| - 1;
    if n > 0 {
      OutOfTurn(l, ws[..n]);
    } else {
      assert Feed(l, ws[..n]) == l;
    }
  }
}
