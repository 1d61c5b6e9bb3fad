/** A whole bus reset through the gateway: the host's command, the timer or not, the word that
    ends it, and the two reads; and what is left of the transmitter after it. */
module EndToEndReset {
  import opened Bytes
  import opened Protocol
  import opened Gateway
  import opened GatewayDispatch
  import opened GatewayBusReset
  import opened GatewayTransmitter
  import opened EndToEnd

  /** The timer, if it comes first, then a word from the bus, then a poll. */
  function EndEvents(timerFirst: bool, err: byte, w: Word): (es: seq<Event>) {
    (if timerFirst then [TimerOverflow] else []) + [RxWord(err, w), PollMdb]
  }

  /** A whole bus reset takes the gateway from g to g'. */
  ghost predicate Resets(g: State, d: Data, ready: nat -> bool, timerFirst: bool, err: byte, w: Word, g': State) {
    exists s1, s2, s3, s4 ::
      && RunsTo(g, ResetEvents(d, ready), s1)
      && RunsTo(s1, EndEvents(timerFirst, err, w), s2)
      && HostGets(s2, [STARTED], s3)
      && RunsTo(s3, [PollTwi(ready)], s4)
      && HostGets(s4, [WordReport(err, w)], g')
  }

  /** The command is acknowledged. */
  lemma ResetBegins(g: State, d: Data, ready: nat -> bool) returns (s1: State)
    requires Rested(g) && |d| == 2
    ensures RunsTo(g, ResetEvents(d, ready), s1)
    ensures s1.link == StartBusReset(g.link) && !s1.halted
    ensures s1.twi.reply == Encode(STARTED) && s1.twi.used == 0 && s1.twi.pending == []
    ensures s1.twi.input == [] && Answers(s1.twi)
  {
    ResetIsTaken(g, d, ready);
    AcknowledgementComesUp(Written(g, Encode(ResetFrame(d))), StartBusReset(g.link));
    s1 := ResetStarted(g, d);
  }

  /** The link after the timer, if it came, and the word. */
  function Ended(l: Link, timerFirst: bool, err: byte, w: Word): (l': Link) {
    ResetLink(RxIsr(if timerFirst then TimerIsr(l) else l, err, w))
  }

  lemma EndedIsIdle(l: Link, timerFirst: bool, err: byte, w: Word)
    requires l.state == BusReset && !l.txen
    ensures var l' := Ended(l, timerFirst, err, w);
            && l'.state == Idle && l'.errCode == 0 && l'.input == [] && l'.checksum == 0
            && l'.udrie == l.udrie && l'.txcie == l.txcie && l'.txen == timerFirst && l'.wire == l.wire
  {}

  lemma WordFollows(s: State, err: byte, w: Word)
    requires s.link.state == BusReset && !s.halted
    ensures RunsTo(s, [RxWord(err, w), PollMdb],
                   s.(link := ResetLink(RxIsr(s.link, err, w)), twi := Emit(s.twi, WordReport(err, w))))
  {
    WordEndsReset(s, err, w);
    RunTwo(s, RxWord(err, w), PollMdb);
  }

  lemma ResetEnds(s1: State, timerFirst: bool, err: byte, w: Word) returns (s2: State)
    requires s1.link.state == BusReset && s1.link.timer && !s1.halted
    ensures RunsTo(s1, EndEvents(timerFirst, err, w), s2)
    ensures s2 == s1.(link := Ended(s1.link, timerFirst, err, w), twi := Emit(s1.twi, WordReport(err, w)))
  {
    var last := [RxWord(err, w), PollMdb];
    s2 := s1.(link := Ended(s1.link, timerFirst, err, w), twi := Emit(s1.twi, WordReport(err, w)));
    if timerFirst {
      RunOne(s1, TimerOverflow);
      WordFollows(Step(s1, TimerOverflow), err, w);
      RunComposes(s1, [TimerOverflow], last);
    } else {
      assert [] + last == last;
      WordFollows(s1, err, w);
    }
  }

  /** From a gateway at rest, a bus reset that a word ends: the host gets the acknowledgement and
      the report of the word, the gateway is at rest again, and its transmitter is on if and
      only if the timer came before the word. */
  lemma EndOfReset(g: State, d: Data, ready: nat -> bool, timerFirst: bool, err: byte, w: Word) returns (g': State)
    requires Rested(g) && |d| == 2
    ensures Resets(g, d, ready, timerFirst, err, w, g')
    ensures Rested(g') && g'.link.txen == timerFirst && g'.link.wire == g.link.wire
  {
    var s1 := ResetBegins(g, d, ready);
    var s2 := ResetEnds(s1, timerFirst, err, w);
    EndedIsIdle(s1.link, timerFirst, err, w);
    var p := WordReport(err, w);
    assert [] + Encode(p) == Encode(p);
    var s3, s4;
    s3, s4, g' := BothAreRead(s2, p, ready);
  }

  lemma ResetIsEnded(g: State, d: Data, ready: nat -> bool, timerFirst: bool, err: byte, w: Word)
    requires Rested(g) && |d| == 2
    ensures exists g' :: Resets(g, d, ready, timerFirst, err, w, g') && Rested(g') && g'.link.txen == timerFirst
  {
    var g' := EndOfReset(g, d, ready, timerFirst, err, w);
  }

  /** From every ready gateway, a word that comes before the timer silences it: the gateway seems
      ready again, but no run without a further bus reset puts a word on the MDB bus. */
  lemma ResetCanSilence(g: State, d: Data, ready: nat -> bool, err: byte, w: Word)
    requires Ready(g) && |d| == 2
    ensures exists g' ::
              && Resets(g, d, ready, false, err, w, g') && Rested(g') && !g'.link.txen
              && forall es: seq<Event> | AdmissibleRun(g', es) && NoReset(g', es) ::
                   !Run(g', es).link.txen && Run(g', es).link.wire == g.link.wire
  {
    var g' := EndOfReset(g, d, ready, false, err, w);
    forall es: seq<Event> | AdmissibleRun(g', es) && NoReset(g', es)
      ensures !Run(g', es).link.txen && Run(g', es).link.wire == g.link.wire
    {
      TransmitterStays(g', es);
    }
  }
}
