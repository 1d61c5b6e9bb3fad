/** A whole exchange through the gateway: the host's command frame, the MDB transaction it
    starts, and the two reads that bring back its outcome. */
module EndToEnd {
  import opened Bytes
  import opened Protocol
  import opened Gateway
  import opened GatewayInvariant
  import opened GatewayReceive
  import opened GatewayTransmit
  import opened GatewayStreaming
  import opened GatewayDispatch
  import GatewayLeftovers
  import MegaClient

  /** Nothing under way: idle link, both reply buffers empty, transmit interrupts off, and the
      host can reach the gateway. */
  ghost predicate Rested(g: State) {
    && g.link.state == Idle && g.link.errCode == 0 && g.link.input == [] && g.link.checksum == 0
    && !g.link.udrie && !g.link.txcie
    && g.twi.reply == [] && g.twi.used == 0 && g.twi.pending == [] && Answers(g.twi) && !g.halted
  }

  /** And the transmitter is on, as it is but for a bus reset. */
  ghost predicate Ready(g: State) {
    Rested(g) && g.link.txen
  }

  // ---------------------------------------------------------------- polls in between

  predicate IsPoll(e: Event) {
    e.PollMdb? || e.PollTwi?
  }

  /** The interrupts of a run, its main-loop polls left out. */
  function WithoutPolls(es: seq<Event>): (fs: seq<Event>) {
    if es == [] then []
    else
      var n := |es| - 1;
      if IsPoll(es[n]) then WithoutPolls(es[..n]) else WithoutPolls(es[..n]) + [es[n]]
  }

  /** A transaction is under way and its acknowledgement waits to be read: polls find nothing
      to do. */
  ghost predicate Quiet(g: State) {
    && g.link.state in {Send, Recv} && g.link.errCode == 0
    && g.twi.input == [] && g.twi.used < |g.twi.reply|
  }

  lemma PollOfQuiet(g: State, e: Event)
    requires Quiet(g) && IsPoll(e)
    ensures Admissible(g, e) && Step(g, e) == g
  {}

  /** Quiet before and after every event of the run. */
  ghost predicate QuietRun(g: State, fs: seq<Event>) {
    && AdmissibleRun(g, fs)
    && forall i: nat | i <= |fs| :: AdmissibleRun(g, fs[..i]) && Quiet(Run(g, fs[..i]))
  }

  lemma QuietAt(g: State, fs: seq<Event>, i: nat)
    requires QuietRun(g, fs) && i <= |fs|
    ensures AdmissibleRun(g, fs[..i]) && Quiet(Run(g, fs[..i]))
  {}

  /** Main-loop polls may fall anywhere in a quiet run: they change nothing. */
  lemma {:induction false} PollsDoNothing(g: State, es: seq<Event>)
    requires QuietRun(g, WithoutPolls(es))
    ensures AdmissibleRun(g, es) && Run(g, es) == Run(g, WithoutPolls(es))
    decreases |es|
  {
    var fs := WithoutPolls(es);
    QuietAt(g, fs, |fs|);
    assert fs[..|fs|] == fs;
    if es != [] {
      var n := |es| - 1;
      var before := WithoutPolls(es[..n]);
      assert es == es[..n] + [es[n]];
      if IsPoll(es[n]) {
        PollsDoNothing(g, es[..n]);
        PollOfQuiet(Run(g, es[..n]), es[n]);
        RunOneMore(g, es[..n], es[n]);
      } else {
        QuietPrefix(g, before, es[n]);
        PollsDoNothing(g, es[..n]);
        RunOneMore(g, es[..n], es[n]);
        RunOneMore(g, before, es[n]);
      }
    }
  }

  lemma QuietPrefix(g: State, fs: seq<Event>, e: Event)
    requires QuietRun(g, fs + [e])
    ensures QuietRun(g, fs)
  {
    QuietAt(g, fs + [e], |fs|);
    assert (fs + [e])[..|fs|] == fs;
    forall i: nat | i <= |fs| ensures AdmissibleRun(g, fs[..i]) && Quiet(Run(g, fs[..i])) {
      QuietAt(g, fs + [e], i);
      assert (fs + [e])[..i] == fs[..i];
    }
  }

  lemma QuietJoins(g: State, a: seq<Event>, b: seq<Event>)
    requires QuietRun(g, a) && QuietRun(Run(g, a), b)
    ensures QuietRun(g, a + b)
  {
    RunComposes(g, a, b);
    forall i: nat | i <= |a + b| ensures AdmissibleRun(g, (a + b)[..i]) && Quiet(Run(g, (a + b)[..i])) {
      if i <= |a| {
        QuietAt(g, a, i);
        assert (a + b)[..i] == a[..i];
      } else {
        QuietAt(Run(g, a), b, i - |a|);
        RunComposes(g, a, b[..i - |a|]);
        assert (a + b)[..i] == a + b[..i - |a|];
      }
    }
  }

  // ---------------------------------------------------------------- the interrupts of one transaction

  /** From the command to the last data word of the answer: the bytes of the request leave,
      the transmitter reports completion, the data words come in. */
  function TransactionEvents(request: seq<byte>, data: seq<byte>): (es: seq<Event>) {
    Repeat(Udre, |request|) + [TxDone] + RxEvents(DataWords(data))
  }

  lemma QuietSend(g: State, wire: seq<Word>, k: nat)
    requires Sending(g.link, 1, wire) && 1 + k == |g.link.output| && g.course != Stopped
    requires g.twi.input == [] && g.twi.used < |g.twi.reply|
    ensures QuietRun(g, Repeat(Udre, k))
  {
    RunUdre(g, k);
    forall i: nat | i <= |Repeat(Udre, k)|
      ensures AdmissibleRun(g, Repeat(Udre, k)[..i]) && Quiet(Run(g, Repeat(Udre, k)[..i]))
    {
      assert Repeat(Udre, k)[..i] == Repeat(Udre, i);
      RunUdre(g, i);
      PumpSends(g.link, 1, wire, i);
    }
  }

  lemma QuietReceive(g: State, data: Block)
    requires Listening(g.link) && g.twi.input == [] && g.twi.used < |g.twi.reply| && g.course != Stopped
    ensures QuietRun(g, RxEvents(DataWords(data)))
  {
    var ws := DataWords(data);
    RunRxEvents(g, ws);
    forall i: nat | i <= |RxEvents(ws)|
      ensures AdmissibleRun(g, RxEvents(ws)[..i]) && Quiet(Run(g, RxEvents(ws)[..i]))
    {
      assert RxEvents(ws)[..i] == RxEvents(ws[..i]);
      assert ws[..i] == DataWords(data[..i]);
      RunRxEvents(g, ws[..i]);
      FeedRefinesDecode(g.link, ws[..i]);
      DecodeData(data[..i]);
    }
  }

  /** The link when the transmitter has finished: listening, everything of the request on
      the wire. */
  lemma SentThenListening(l: Link, wire: seq<Word>)
    requires Sent(l, wire)
    ensures var l' := TxIsr(l);
            Listening(l') && l'.wire == (if l.txen then wire + RequestWords(l.output) else wire)
            && l'.retry == l.retry && !l'.txcie && !l'.udrie && l'.txen == l.txen
  {}

  /** From the command to the last data word, wherever the main loop polls in between. */
  lemma RequestAndData(g: State, l0: Link, request: seq<byte>, data: Block, es: seq<Event>)
    requires 1 <= |request| <= 35 && l0.state == Idle && l0.errCode == 0 && !l0.txcie && g.course != Stopped
    requires g.link == Started(l0, request) && g.twi.input == [] && g.twi.used < |g.twi.reply|
    requires WithoutPolls(es) == TransactionEvents(request, data)
    ensures AdmissibleRun(g, es)
    ensures var g' := Run(g, es);
            && Matches(g'.link, Pending(data)) && g' == g.(link := g'.link)
            && g'.link.wire == WireWith(l0, RequestWords(request + [Sum(request)]))
            && g'.link.txen == l0.txen
            && !g'.link.retry && !g'.link.txcie && !g'.link.udrie
  {
    var k, ws := |request|, DataWords(data);
    ShortRequestIsSent(l0, request);
    FirstIsOut(l0.(output := RequestBlock(request), used := 0));
    QuietSend(g, l0.wire, k);
    RunUdre(g, k);
    var g1 := Run(g, Repeat(Udre, k));
    SentThenListening(g1.link, l0.wire);
    RunOneMore(g, Repeat(Udre, k), TxDone);
    var g2 := Step(g1, TxDone);
    QuietJoinsOne(g, Repeat(Udre, k), TxDone);
    QuietReceive(g2, data);
    QuietJoins(g, Repeat(Udre, k) + [TxDone], RxEvents(ws));
    RunRxEvents(g2, ws);
    RunComposes(g, Repeat(Udre, k) + [TxDone], RxEvents(ws));
    PollsDoNothing(g, es);
    FeedRefinesDecode(g2.link, ws);
    DecodeData(data);
  }

  lemma QuietJoinsOne(g: State, fs: seq<Event>, e: Event)
    requires QuietRun(g, fs) && Admissible(Run(g, fs), e) && Quiet(Step(Run(g, fs), e))
    ensures QuietRun(g, fs + [e])
  {
    RunOneMore(g, fs, e);
    forall i: nat | i <= |fs + [e]| ensures AdmissibleRun(g, (fs + [e])[..i]) && Quiet(Run(g, (fs + [e])[..i])) {
      if i <= |fs| {
        QuietAt(g, fs, i);
        assert (fs + [e])[..i] == fs[..i];
      } else {
        assert (fs + [e])[..i] == fs + [e];
      }
    }
  }

  // ---------------------------------------------------------------- the exchange

  /** One transaction as its surroundings see it: the request, the interrupts and polls from
      its start to the last data word of the answer, that answer, and the closing byte. */
  datatype Exchange = Exchange(request: Data, meanwhile: seq<Event>, data: Block, last: byte,
                               ready: nat -> bool)

  ghost predicate Regular(x: Exchange) {
    && 1 <= |x.request| <= 35
    && WithoutPolls(x.meanwhile) == TransactionEvents(x.request, x.data)
    && x.ready(0)
  }

  function CommandBytes(request: Data): (bs: CommandBuffer)
    requires |request| <= 35
  {
    MegaClient.CommandFrame([COMMAND_MDB_TRANSACTION_SIMPLE] + request)
  }

  /** The host client reads its 81 bytes and parses them without error as ps. */
  ghost predicate HostGets(g: State, ps: seq<Packet>, g': State) {
    var r := ReadReply(g.twi, RESPONSE_MAX_LENGTH + 1);
    && Answers(g.twi) && RunsTo(g, BusEvents(r.events), g')
    && MegaClient.ParseResponse(r.bytes) == MegaClient.Parsed(ps, None)
  }

  /** A reply of one known packet is read and parsed as that packet, and is gone after it. */
  lemma OnePacketRead(g: State, p: Packet)
    requires g.twi.reply == Encode(p) && KnownHeader(p.header) && p.Size() <= 78
    requires Answers(g.twi) && g.course != Stopped
    ensures var t' := ReadReply(g.twi, RESPONSE_MAX_LENGTH + 1).t;
            HostGets(g, [p], g.(twi := t')) && Consumed(g.twi, t')
  {
    var k, bs := RESPONSE_MAX_LENGTH + 1, Encode(p);
    ReplyIsStreamed(g.twi, k);
    EncodeAllOne(p);
    var tail := ([0] + Released(k))[..k - 1 - |bs|];
    assert OnBus(bs, k) == [|bs|] + bs + tail;
    MegaClient.ParseOfEncoding([p], tail);
    ReadReplyIsRun(g, k);
  }

  lemma CommandIsOne(g: State, request: Data)
    requires 1 <= |request| <= 35
    ensures var bs := CommandBytes(request);
            && |bs| > 1 && WellFramed(bs, 0)
            && bs == Encode(Packet(COMMAND_MDB_TRANSACTION_SIMPLE, request))
            && Commands(bs, 0) == [Placed(0, Command(COMMAND_MDB_TRANSACTION_SIMPLE, request))]
  {
    var p := Packet(COMMAND_MDB_TRANSACTION_SIMPLE, request);
    MegaClient.CommandFrameIsPacket(p.header, p.data);
    var bs := CommandBytes(request);
    assert bs[..p.Size()] == bs && bs[p.Size()..] == [];
    assert [p][1..] == [];
    assert IsEncoding(bs, [p]);
    CommandsOfEncoding(bs, [p], 0);
    MeantOne(p);
  }

  /** The poll that takes the command: the first byte is out, and the acknowledgement is
      ready to be read. */
  lemma CommandStarts(g: State, request: Data, ready: nat -> bool)
    requires Ready(g) && 1 <= |request| <= 35 && ready(0)
    ensures var g1 := Written(g, CommandBytes(request));
            var g2 := Step(g1, PollTwi(ready));
            && Admissible(g1, PollTwi(ready))
            && g2.link == Started(g.link, request)
            && g2.twi.reply == Encode(STARTED) && g2.twi.used == 0 && g2.twi.pending == []
            && g2.twi.input == [] && Answers(g2.twi) && !g2.halted && g2.mcusr == g.mcusr
  {
    var g1 := Written(g, CommandBytes(request));
    CommandIsOne(g1, request);
    var c := Placed(0, Command(COMMAND_MDB_TRANSACTION_SIMPLE, request));
    PollPerforms(g1, [c], ready);
    RequestIsTaken(g1, request, c, ready);
    AcknowledgementComesUp(g1, Started(g.link, request));
  }

  lemma RequestIsTaken(g: State, request: Data, c: Placed, ready: nat -> bool)
    requires g.link.state == Idle && 1 <= |request| <= 35 && ready(0)
    requires c == Placed(0, Command(COMMAND_MDB_TRANSACTION_SIMPLE, request))
    ensures PerformAll(g, [c], ready) == g.(link := Started(g.link, request), twi := Emit(g.twi, STARTED))
  {
    PerformOne(g, c, ready);
    EmitOne(g.twi, STARTED);
  }

  lemma AcknowledgementComesUp(g: State, l: Link)
    requires g.twi.reply == [] && g.twi.used == 0 && g.twi.pending == [] && Answers(g.twi) && !g.halted
    ensures var g' := Settled(g.(link := l, twi := Emit(g.twi, STARTED)));
            && g'.link == l && !g'.halted && g'.mcusr == g.mcusr
            && g'.twi.reply == Encode(STARTED) && g'.twi.used == 0 && g'.twi.pending == [] && g'.twi.input == []
            && Answers(g'.twi)
  {
    assert [] + Encode(STARTED) == Encode(STARTED);
  }

  /** A poll with nothing to take and a finished reply brings up the next reply. */
  lemma PollSwaps(g: State, ready: nat -> bool)
    requires g.twi.input == [] && g.twi.used >= |g.twi.reply| && g.twi.pending != []
    requires !g.halted && g.twi.idle
    ensures Admissible(g, PollTwi(ready)) && Step(g, PollTwi(ready)) == g.(twi := Swap(g.twi))
  {
    assert g.twi.(input := []) == g.twi;
  }

  /** From the data words to the report: the closing word, and two polls of the main loop. */
  lemma ClosingWord(g: State, data: Block, last: byte)
    requires Matches(g.link, Pending(data)) && !g.link.retry && !g.halted
    ensures var es := [RxWord(0, Word(last, true)), PollMdb, PollMdb];
            && AdmissibleRun(g, es)
            && var g' := Run(g, es);
            && g'.twi == Emit(g.twi, Report(data, last))
            && g'.link.state == Idle && g'.link.errCode == 0 && g'.link.input == [] && g'.link.checksum == 0
            && g'.link.wire == WireWith(g.link, Handshake(data, last)) && g'.link.txen == g.link.txen
            && g'.link.udrie == g.link.udrie && g'.link.txcie == g.link.txcie && !g'.halted
  {
    var closing := RxWord(0, Word(last, true));
    RunOne(g, closing);
    var g1 := Run(g, [closing]);
    TwoPolls(g1, data, last);
    RunTwo(g1, PollMdb, PollMdb);
    RunComposes(g, [closing], [PollMdb, PollMdb]);
    assert [closing] + [PollMdb, PollMdb] == [closing, PollMdb, PollMdb];
  }

  lemma ReportIsSmall(data: Block, last: byte)
    ensures Report(data, last).Size() <= 39 && KnownHeader(Report(data, last).header)
  {}

  /** The gateway's half of one exchange, up to the moment when the report is queued behind
      the acknowledgement. */
  lemma Transacts(g: State, x: Exchange) returns (s1: State, s2: State)
    requires Ready(g) && Regular(x)
    ensures RunsTo(g, WriteEvents(CommandBytes(x.request)) + [PollTwi(x.ready)], s1)
    ensures RunsTo(s1, x.meanwhile + [RxWord(0, Word(x.last, true)), PollMdb, PollMdb], s2)
    ensures s2.twi.reply == Encode(STARTED) && s2.twi.pending == Encode(Report(x.data, x.last))
    ensures s2.twi.input == [] && s2.twi.used == 0 && Answers(s2.twi)
    ensures s2.link.wire == g.link.wire + RequestWords(x.request + [Sum(x.request)]) + Handshake(x.data, x.last)
    ensures s2.link.state == Idle && s2.link.errCode == 0 && s2.link.input == [] && s2.link.checksum == 0
    ensures !s2.link.udrie && !s2.link.txcie && s2.link.txen && !s2.halted
  {
    var frame, closing := CommandBytes(x.request), [RxWord(0, Word(x.last, true)), PollMdb, PollMdb];
    WriteFillsInput(g, frame);
    CommandStarts(g, x.request, x.ready);
    RunOneMore(g, WriteEvents(frame), PollTwi(x.ready));
    s1 := Step(Written(g, frame), PollTwi(x.ready));
    RequestAndData(s1, g.link, x.request, x.data, x.meanwhile);
    var s := Run(s1, x.meanwhile);
    ClosingWord(s, x.data, x.last);
    RunComposes(s1, x.meanwhile, closing);
    s2 := Run(s, closing);
    ReportIsSmall(x.data, x.last);
    assert [] + Encode(Report(x.data, x.last)) == Encode(Report(x.data, x.last));
  }

  /** A whole exchange takes the gateway from g to g'. */
  ghost predicate Exchanges(g: State, x: Exchange, g': State) {
    Regular(x) && exists s1, s2, s3, s4 ::
      && RunsTo(g, WriteEvents(CommandBytes(x.request)) + [PollTwi(x.ready)], s1)
      && RunsTo(s1, x.meanwhile + [RxWord(0, Word(x.last, true)), PollMdb, PollMdb], s2)
      && HostGets(s2, [STARTED], s3)
      && RunsTo(s3, [PollTwi(x.ready)], s4)
      && HostGets(s4, [Report(x.data, x.last)], g')
  }

  /** The exchange runs to its end, with everything on the MDB bus that belongs there, and the
      gateway is ready for the next. */
  ghost predicate Delivered(g: State, x: Exchange, g': State) {
    && Exchanges(g, x, g') && Ready(g')
    && g'.link.wire == g.link.wire + RequestWords(x.request + [Sum(x.request)]) + Handshake(x.data, x.last)
  }

  lemma EndOfExchange(g: State, x: Exchange) returns (g': State)
    requires Ready(g) && Regular(x)
    ensures Delivered(g, x, g')
  {
    var s1, s2 := Transacts(g, x);
    ReportIsSmall(x.data, x.last);
    var s3, s4;
    s3, s4, g' := BothAreRead(s2, Report(x.data, x.last), x.ready);
  }

  /** The host reads the acknowledgement, and after a poll the answer. */
  lemma BothAreRead(s2: State, p: Packet, ready: nat -> bool) returns (s3: State, s4: State, g': State)
    requires s2.twi.reply == Encode(STARTED) && s2.twi.pending == Encode(p)
    requires KnownHeader(p.header) && p.Size() <= 78
    requires s2.twi.input == [] && s2.twi.used == 0 && Answers(s2.twi) && !s2.halted
    ensures HostGets(s2, [STARTED], s3) && RunsTo(s3, [PollTwi(ready)], s4) && HostGets(s4, [p], g')
    ensures g'.link == s2.link && !g'.halted
    ensures g'.twi.reply == [] && g'.twi.used == 0 && g'.twi.pending == [] && Answers(g'.twi)
  {
    OnePacketRead(s2, STARTED);
    s3 := s2.(twi := ReadReply(s2.twi, RESPONSE_MAX_LENGTH + 1).t);
    PollSwaps(s3, ready);
    RunOne(s3, PollTwi(ready));
    s4 := Step(s3, PollTwi(ready));
    OnePacketRead(s4, p);
    g' := s4.(twi := ReadReply(s4.twi, RESPONSE_MAX_LENGTH + 1).t);
  }

  /** End to end: for every request of 1 to 35 bytes, every answer of up to 36 bytes, every
      closing byte, and main-loop polls anywhere in between, the request and its sum go out
      on the MDB bus, the host reads the acknowledgement and then the report of that answer,
      and the gateway is ready for the next command. */
  lemma ExchangeIsDelivered(g: State, x: Exchange)
    requires Ready(g) && Regular(x)
    ensures exists g' :: Delivered(g, x, g')
  {
    var g' := EndOfExchange(g, x);
  }

  /** The case that the protocol is for: data with its right sum is acknowledged on the bus and
      is what the host gets. */
  lemma GoodBlockIsDelivered(g: State, x: Exchange)
    requires Ready(g) && Regular(x) && x.data != [] && x.last == Sum(x.data)
    ensures Report(x.data, x.last) == Packet(RESPONSE_MDB_SUCCESS, x.data)
    ensures exists g' ::
              && Delivered(g, x, g')
              && g'.link.wire == g.link.wire + RequestWords(x.request + [Sum(x.request)]) + [Word(MDB_ACK, false)]
  {
    var g' := EndOfExchange(g, x);
  }

  // ---------------------------------------------------------------- sessions

  ghost predicate Session(g: State, xs: seq<Exchange>, g': State)
    decreases |xs|
  {
    if xs == [] then g' == g
    else exists m: State :: Exchanges(g, xs[0], m) && Session(m, xs[1..], g')
  }

  function SessionWire(xs: seq<Exchange>): (ws: seq<Word>)
    decreases |xs|
  {
    if xs == [] then []
    else
      RequestWords(xs[0].request + [Sum(xs[0].request)]) + Handshake(xs[0].data, xs[0].last)
      + SessionWire(xs[1..])
  }

  /** All exchanges of a session in full, and nothing else on the MDB bus. */
  ghost predicate AllDelivered(g: State, xs: seq<Exchange>, g': State) {
    Session(g, xs, g') && Ready(g') && g'.link.wire == g.link.wire + SessionWire(xs)
  }

  lemma {:induction false} EndOfSession(g: State, xs: seq<Exchange>) returns (g': State)
    requires Ready(g) && forall x | x in xs :: Regular(x)
    ensures AllDelivered(g, xs, g')
    decreases |xs|
  {
    if xs == [] {
      g' := g;
    } else {
      var m := EndOfExchange(g, xs[0]);
      g' := EndOfSession(m, xs[1..]);
      SessionGrows(g, xs, m, g');
      WireGrows(g.link.wire, RequestWords(xs[0].request + [Sum(xs[0].request)]),
                Handshake(xs[0].data, xs[0].last), SessionWire(xs[1..]));
    }
  }

  /** Any number of exchanges, one after the other, each delivered in full. */
  lemma SessionIsDelivered(g: State, xs: seq<Exchange>)
    requires Ready(g) && forall x | x in xs :: Regular(x)
    ensures exists g' :: AllDelivered(g, xs, g')
  {
    var g' := EndOfSession(g, xs);
  }

  lemma SessionGrows(g: State, xs: seq<Exchange>, m: State, g': State)
    requires xs != [] && Exchanges(g, xs[0], m) && Session(m, xs[1..], g')
    ensures Session(g, xs, g')
  {}

  lemma WireGrows(w: seq<Word>, a: seq<Word>, b: seq<Word>, c: seq<Word>)
    ensures w + a + b + c == w + (a + b + c)
  {}

  // ---------------------------------------------------------------- from power-up

  const GREETING := Packet(RESPONSE_DEBUG, [0xbe, 0xeb, 0xee])

  /** From the state in which main enters its loop, one poll and one host read, which gets the
      greeting, make the gateway ready: sessions can start from power-up. */
  lemma InitialReachesReady(mcusr: byte, ready: nat -> bool)
    ensures exists s, g :: RunsTo(Initial(mcusr), [PollTwi(ready)], s) && HostGets(s, [GREETING], g) && Ready(g)
  {
    var g0 := Initial(mcusr);
    assert g0.twi.pending == [] + Encode(GREETING) == Encode(GREETING);
    PollSwaps(g0, ready);
    RunOne(g0, PollTwi(ready));
    var s := Step(g0, PollTwi(ready));
    OnePacketRead(s, GREETING);
    var g := s.(twi := ReadReply(s.twi, RESPONSE_MAX_LENGTH + 1).t);
    assert HostGets(s, [GREETING], g);
  }

  // ---------------------------------------------------------------- a request that times out

  /** A transaction that a ready gateway starts and that times out before its next byte: the
      link is Idle again with the data register interrupt still on, the state in which errors
      repeat and a bus reset ends by itself. */
  lemma TimeoutIsReached(g: State, request: Data, ready: nat -> bool)
    requires Ready(g) && 1 <= |request| <= 35 && ready(0)
    ensures var es := WriteEvents(CommandBytes(request)) + [PollTwi(ready)] + [TimerOverflow, PollMdb];
            && AdmissibleRun(g, es)
            && Run(g, es).link.state == Idle && Run(g, es).link.udrie && !Run(g, es).halted
  {
    var frame := CommandBytes(request);
    var start := WriteEvents(frame) + [PollTwi(ready)];
    WriteFillsInput(g, frame);
    CommandStarts(g, request, ready);
    RunOneMore(g, WriteEvents(frame), PollTwi(ready));
    var g1 := Run(g, start);
    GatewayLeftovers.StartedCanTimeOut(g.link, request);
    GatewayLeftovers.TimeoutLeavesInterruptOn(g1);
    RunComposes(g, start, [TimerOverflow, PollMdb]);
  }
}
