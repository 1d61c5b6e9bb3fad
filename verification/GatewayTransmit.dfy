/** The transmit side: which requests reach the MDB bus whole, and after how many interrupts. */
module GatewayTransmit {
  import opened Bytes
  import opened Protocol
  import opened Gateway
  import opened GatewayInvariant

  /** k data-register-empty interrupts, as far as they are enabled. */
  function Pump(l: Link, k: nat): (l': Link) {
    if k == 0 then l
    else
      var l1 := Pump(l, k - 1);
      if l1.udrie then UdreIsr(l1) else l1
  }

  /** What has been written of the block is on the bus after wire, if the transmitter is on. */
  ghost predicate IsOut(l: Link, wire: seq<Word>) {
    l.wire == if l.txen then wire + l.sending else wire
  }

  /** Sending a block of two bytes or more: used bytes have been written after wire. */
  ghost predicate Sending(l: Link, used: nat, wire: seq<Word>) {
    && l.state == Send && l.errCode == 0
    && 1 <= used < |l.output| && l.used == used
    && l.sending == RequestWords(l.output[..used]) && IsOut(l, wire)
    && l.udrie && l.timer
  }

  /** All of it written, and the interrupts switched over to wait for TX complete. */
  ghost predicate Sent(l: Link, wire: seq<Word>) {
    && l.state == Send && l.errCode == 0
    && l.used == |l.output| > 0
    && l.sending == RequestWords(l.output) && IsOut(l, wire)
    && !l.udrie && l.txcie && l.timer
  }

  lemma OneMore(l: Link, used: nat, wire: seq<Word>)
    requires Sending(l, used, wire)
    ensures var l' := UdreIsr(l);
            && (used + 1 < |l.output| ==> Sending(l', used + 1, wire))
            && (used + 1 < |l.output| ==> l'.txcie == l.txcie)
            && (used + 1 == |l.output| ==> Sent(l', wire))
            && l'.output == l.output && l'.retry == l.retry && l'.txen == l.txen
  {
    RequestWordsGrow(l.output, used);
    assert used + 1 == |l.output| ==> l.output[..used + 1] == l.output;
    var w := [Word(l.output[used], false)];
    assert wire + l.sending + w == wire + (l.sending + w);
  }

  /** From l, in the middle of a block, l' is where used bytes of it are out. */
  ghost predicate Reached(l: Link, used: nat, wire: seq<Word>, l': Link) {
    && l'.output == l.output && l'.retry == l.retry && l'.txen == l.txen && used <= |l.output|
    && (used < |l.output| ==> Sending(l', used, wire) && l'.txcie == l.txcie)
    && (used == |l.output| ==> Sent(l', wire))
  }

  lemma ReachesNext(l: Link, used: nat, wire: seq<Word>, l': Link)
    requires Reached(l, used, wire, l') && used < |l.output|
    ensures l'.udrie && Reached(l, used + 1, wire, UdreIsr(l'))
  {
    OneMore(l', used, wire);
  }

  lemma {:induction false} PumpReaches(l: Link, used: nat, wire: seq<Word>, k: nat)
    requires Sending(l, used, wire) && used + k <= |l.output|
    ensures Reached(l, used + k, wire, Pump(l, k))
    decreases k
  {
    if k > 0 {
      PumpReaches(l, used, wire, k - 1);
      ReachesNext(l, used + k - 1, wire, Pump(l, k - 1));
    }
  }

  /** After k interrupts exactly k more bytes are out; the block is complete, this interrupt
      disabled and TX complete enabled, exactly when k reaches what was left. */
  lemma PumpSends(l: Link, used: nat, wire: seq<Word>, k: nat)
    requires Sending(l, used, wire) && used + k <= |l.output|
    ensures var l' := Pump(l, k);
            && (used + k < |l.output| ==> Sending(l', used + k, wire) && l'.txcie == l.txcie)
            && (used + k == |l.output| ==> Sent(l', wire))
            && l'.output == l.output && l'.retry == l.retry && l'.txen == l.txen
  {
    PumpReaches(l, used, wire, k);
  }

  // ---------------------------------------------------------------- from the command on

  /** The link just after a transaction command, with the UART ready. */
  function Started(l: Link, data: seq<byte>): (l': Link)
    requires |data| <= 252
  {
    StartedIsDefined(data);
    StartSend(l.(output := RequestBlock(data), used := 0))
  }

  lemma StartedIsDefined(data: seq<byte>)
    ensures RequestBlock(data) != []
  {}

  /** The whole request, data and sum, has been written, and the interrupts switched over. */
  ghost predicate RequestIsOut(l: Link, data: seq<byte>) {
    !l.udrie && l.txcie && l.sending == RequestWords(data + [Sum(data)])
  }

  lemma ShortRequestIsSent(l: Link, data: seq<byte>)
    requires 1 <= |data| <= 35 && l.state == Idle && l.errCode == 0
    ensures RequestBlock(data) == data + [Sum(data)]
    ensures Sent(Pump(Started(l, data), |data|), l.wire)
    ensures Pump(Started(l, data), |data|).output == data + [Sum(data)]
    ensures !Pump(Started(l, data), |data|).retry && Pump(Started(l, data), |data|).txen == l.txen
  {
    var l1, block := Started(l, data), data + [Sum(data)];
    FirstIsOut(l.(output := block, used := 0));
    PumpSends(l1, 1, l.wire, |data|);
  }

  lemma FirstIsOut(l: Link)
    requires |l.output| >= 2 && l.errCode == 0
    ensures Sending(StartSend(l), 1, l.wire) && !StartSend(l).retry && StartSend(l).txen == l.txen
  {
    assert l.output[..1] == [l.output[0]];
    assert RequestWords([l.output[0]]) == [Word(l.output[0], true)];
  }

  /** A request without data: the first interrupt finds nothing left and reports an error. */
  lemma {:induction false} EmptyRequestIsNotSent(l: Link, k: nat)
    requires l.state == Idle && l.errCode == 0
    ensures var l' := Pump(Started(l, []), k);
            && l'.udrie && l'.used >= |l'.output|
            && (k > 0 ==> l'.state == Error && l'.errCode == RESPONSE_MDB_SEND_OVERFLOW)
  {
    assert RequestBlock([]) == [0];
    if k > 0 {
      EmptyRequestIsNotSent(l, k - 1);
    }
  }

  lemma {:induction false} PumpStaysInBlock(l: Link, k: nat)
    requires l.output != [] && SendingIsOutput(l)
    ensures var l' := Pump(l, k);
            l'.output == l.output && SendingIsOutput(l')
  {
    if k > 0 {
      PumpStaysInBlock(l, k - 1);
      UdreStaysInBlock(Pump(l, k - 1));
    }
  }

  lemma UdreStaysInBlock(l: Link)
    requires l.output != [] && SendingIsOutput(l)
    ensures UdreIsr(l).output == l.output && SendingIsOutput(UdreIsr(l))
  {
    if l.used < |l.output| {
      RequestWordsGrow(l.output, l.used);
    }
  }

  /** A request reaches the bus with its sum, and the gateway turns to wait for TX complete,
      exactly when it has 1 to 35 bytes of data. */
  lemma RequestSentIff(l: Link, data: seq<byte>)
    requires |data| <= 252 && l.state == Idle && l.errCode == 0
    ensures 1 <= |data| <= 35 <==> exists k: nat :: RequestIsOut(Pump(Started(l, data), k), data)
  {
    if 1 <= |data| <= 35 {
      ShortRequestIsSent(l, data);
      assert RequestIsOut(Pump(Started(l, data), |data|), data);
    } else if data == [] {
      forall k: nat ensures !RequestIsOut(Pump(Started(l, data), k), data) {
        EmptyRequestIsNotSent(l, k);
      }
    } else {
      forall k: nat ensures !RequestIsOut(Pump(Started(l, data), k), data) {
        var l1 := Started(l, data);
        assert l1.output[..1] == [l1.output[0]];
        PumpStaysInBlock(l1, k);
      }
    }
  }

  // ---------------------------------------------------------------- runs

  function Repeat(e: Event, k: nat): (es: seq<Event>)
    ensures |es| == k
  {
    seq(k, _ => e)
  }

  lemma {:induction false} RunUdre(g: State, k: nat)
    requires g.course != Stopped
    ensures AdmissibleRun(g, Repeat(Udre, k))
    ensures Run(g, Repeat(Udre, k)) == g.(link := Pump(g.link, k))
  {
    if k > 0 {
      RunUdre(g, k - 1);
      assert Repeat(Udre, k) == Repeat(Udre, k - 1) + [Udre];
      RunOneMore(g, Repeat(Udre, k - 1), Udre);
    }
  }
}
