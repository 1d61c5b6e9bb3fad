/** The gateway reports success with data only for a block that really came in, whole and
    with the right sum; and exactly what it makes of a block with a wrong one. */
module GatewayHonesty {
  import opened Bytes
  import opened Protocol
  import opened Gateway
  import opened GatewayInvariant

  predicate IsDataSuccess(p: Packet) {
    p.header == RESPONSE_MDB_SUCCESS && p.data != []
  }

  /** The packets that the reply queue has accepted so far. */
  function Accepted(g: State): (ps: seq<Packet>) {
    g.twi.ledger.accepted
  }

  /** ps' continues ps, and no success with data is among what it adds. */
  ghost predicate NoNewSuccess(ps: seq<Packet>, ps': seq<Packet>) {
    ps <= ps' && forall i | |ps| <= i < |ps'| :: !IsDataSuccess(ps'[i])
  }

  lemma NoNewSuccessJoins(a: seq<Packet>, b: seq<Packet>, c: seq<Packet>)
    requires NoNewSuccess(a, b) && NoNewSuccess(b, c)
    ensures NoNewSuccess(a, c)
  {
    forall i | |a| <= i < |c| ensures !IsDataSuccess(c[i]) {
      if i < |b| {
        assert c[i] == b[i];
      }
    }
  }

  ghost predicate NoSuccessIn(ps: seq<Packet>) {
    forall p | p in ps :: !IsDataSuccess(p)
  }

  lemma {:induction false} EmitAllNoSuccess(t: Twi, ps: seq<Packet>)
    requires NoSuccessIn(ps)
    ensures NoNewSuccess(t.ledger.accepted, EmitAll(t, ps).ledger.accepted)
    decreases |ps|
  {
    if ps != [] {
      var t1 := Emit(t, ps[0]);
      EmitAllNoSuccess(t1, ps[1..]);
      NoNewSuccessJoins(t.ledger.accepted, t1.ledger.accepted, EmitAll(t, ps).ledger.accepted);
    }
  }

  lemma CommandNoSuccess(g: State, c: Command, ready: bool)
    ensures NoSuccessIn(Perform(g, c, ready).answers)
  {}

  lemma PerformAllNoSuccess(g: State, cs: seq<Placed>, ready: nat -> bool)
    ensures NoNewSuccess(Accepted(g), Accepted(PerformAll(g, cs, ready)))
  {
    var P := (x: State) => NoNewSuccess(Accepted(g), Accepted(x));
    forall x: State, c: Command, r: bool | P(x) ensures P(Apply(x, Perform(x, c, r))) {
      CommandNoSuccess(x, c, r);
      EmitAllNoSuccess(x.twi, Perform(x, c, r).answers);
      NoNewSuccessJoins(Accepted(g), Accepted(x), Accepted(Apply(x, Perform(x, c, r))));
    }
    PerformAllKeeps(P, g, cs, ready);
  }

  lemma TwiStepNoSuccess(g: State, ready: nat -> bool)
    requires Consumable(g)
    ensures NoNewSuccess(Accepted(g), Accepted(TwiStep(g, ready)))
  {
    if |g.twi.input| == 1 {
      EmitAllNoSuccess(g.twi, [Packet(RESPONSE_TWI, [g.twi.input[0]])]);
    } else {
      PerformAllNoSuccess(g, Commands(g.twi.input, 0), ready);
    }
    assert Accepted(TwiStep(g, ready)) == Accepted(TakeInput(g, ready));
  }

  /** No step but a poll of the MDB side accepts a success with data. */
  lemma OtherStepsNoSuccess(g: State, e: Event)
    requires Admissible(g, e) && !e.PollMdb?
    ensures NoNewSuccess(Accepted(g), Accepted(Step(g, e)))
  {
    match e
    case PollTwi(ready) =>
      if !g.halted && g.twi.idle {
        TwiStepNoSuccess(g, ready);
      }
    case _ =>
  }

  /** Nothing is ever taken back from the queue's history. */
  lemma AcceptedGrows(g: State, e: Event)
    requires Admissible(g, e)
    ensures Accepted(g) <= Accepted(Step(g, e))
  {
    if !e.PollMdb? {
      OtherStepsNoSuccess(g, e);
    }
  }

  /** Whatever has been accepted before, equal packets included: a step that accepts a success
      with data is a poll of the MDB side that has just heard that data, closed by its sum; it
      accepts nothing else, and forgets what it heard. */
  lemma SuccessNeedsBlock(g: State, e: Event, i: nat)
    requires Inv(g) && Admissible(g, e)
    requires |Accepted(g)| <= i < |Accepted(Step(g, e))| && IsDataSuccess(Accepted(Step(g, e))[i])
    ensures e == PollMdb && g.link.heard == BlockWords(Accepted(Step(g, e))[i].data, Sum(Accepted(Step(g, e))[i].data))
    ensures i == |Accepted(g)| && |Accepted(Step(g, e))| == i + 1
    ensures g.link.errCode == 0 && Step(g, e).link.heard == []
  {
    if e.PollMdb? {
      PollNeedsBlock(g, i);
    } else {
      OtherStepsNoSuccess(g, e);
    }
  }

  lemma PollNeedsBlock(g: State, i: nat)
    requires Inv(g) && |Accepted(g)| <= i < |Accepted(Step(g, PollMdb))|
    requires IsDataSuccess(Accepted(Step(g, PollMdb))[i])
    ensures var p := Accepted(Step(g, PollMdb))[i];
            && g.link.heard == BlockWords(p.data, Sum(p.data)) && Step(g, PollMdb).link.heard == []
            && g.link.errCode == 0
            && i == |Accepted(g)| && |Accepted(Step(g, PollMdb))| == i + 1
  {
    var v := MdbVerdict(g.link);
    if v.answer.Some? {
      VerdictNeedsBlock(g.link, v.answer.value);
      assert Accepted(g)[..] + [v.answer.value] == Accepted(g) + [v.answer.value];
    }
  }

  lemma VerdictNeedsBlock(l: Link, p: Packet)
    requires LinkInv(l) && IsDataSuccess(p)
    ensures MdbVerdict(l).answer == Some(p) ==>
              && l.state == RecvEnd && l.errCode == 0 && l.heard == BlockWords(p.data, Sum(p.data))
              && MdbVerdict(l).link.heard == []
  {}

  /** A word from the MDB bus, with the error flags that it came with. */
  datatype Arrival = Arrival(err: byte, w: Word)

  /** What arrived from the MDB bus during a run. */
  function Received(es: seq<Event>): (arrivals: seq<Arrival>) {
    if es == [] then []
    else Received(es[..|es| - 1]) + (match es[|es| - 1] case RxWord(err, w) => [Arrival(err, w)] case _ => [])
  }

  function WordsIn(arrivals: seq<Arrival>): (ws: seq<Word>)
    ensures |ws| == |arrivals|
  {
    seq(|arrivals|, i requires 0 <= i < |arrivals| => arrivals[i].w)
  }

  /** Words that all came without line errors. */
  function Clean(ws: seq<Word>): (arrivals: seq<Arrival>)
    ensures |arrivals| == |ws|
  {
    seq(|ws|, i requires 0 <= i < |ws| => Arrival(0, ws[i]))
  }

  ghost predicate EndsWith<T>(ws: seq<T>, tail: seq<T>) {
    |tail| <= |ws| && ws[|ws| - |tail|..] == tail
  }

  /** What the link has heard is the end of what arrived, and came clean unless an error is
      pending. */
  ghost predicate HeardOf(arrivals: seq<Arrival>, l: Link) {
    && EndsWith(WordsIn(arrivals), l.heard)
    && (l.errCode == 0 ==> EndsWith(arrivals, Clean(l.heard)))
  }

  lemma NothingHeard(arrivals: seq<Arrival>, l: Link)
    requires l.heard == []
    ensures HeardOf(arrivals, l)
  {}

  lemma OneMoreHeard(arrivals: seq<Arrival>, l: Link, err: byte, w: Word, l': Link)
    requires HeardOf(arrivals, l) && l'.heard == l.heard + [w] && (l'.errCode == 0 ==> l.errCode == 0 && err == 0)
    ensures HeardOf(arrivals + [Arrival(err, w)], l')
  {
    var now := arrivals + [Arrival(err, w)];
    assert WordsIn(now) == WordsIn(arrivals) + [w];
    EndGrows(WordsIn(arrivals), l.heard, [w]);
    if l'.errCode == 0 {
      assert Clean(l'.heard) == Clean(l.heard) + [Arrival(0, w)];
      EndGrows(arrivals, Clean(l.heard), [Arrival(0, w)]);
    }
  }

  /** The log of what was heard is cleared or extended, never rewritten, and a pending error is
      forgotten only with it. */
  lemma HeardStep(g: State, e: Event, arrivals: seq<Arrival>)
    requires Admissible(g, e) && g.course != Stopped && HeardOf(arrivals, g.link)
    ensures HeardOf(arrivals + Received([e]), Step(g, e).link)
  {
    var l' := Step(g, e).link;
    ReceivedOne(e);
    if e.RxWord? {
      RxHeard(g.link, e.err, e.w);
      RxKeepsError(g.link, e.err, e.w);
      OneMoreHeard(arrivals, g.link, e.err, e.w, l');
    } else {
      OtherStepHeard(g, e);
      StillHeard(arrivals, g.link, l');
      assert arrivals + [] == arrivals;
    }
  }

  lemma ReceivedOne(e: Event)
    ensures Received([e]) == if e.RxWord? then [Arrival(e.err, e.w)] else []
  {
    assert [e][..0] == [];
  }

  lemma OtherStepHeard(g: State, e: Event)
    requires Admissible(g, e) && !e.RxWord?
    ensures SameOrCleared(g.link, Step(g, e).link)
  {
    match e
    case PollTwi(ready) =>
      if !g.halted && g.twi.idle {
        TwiStepHeard(g, ready);
      }
    case PollMdb => VerdictHeard(g.link);
    case _ =>
  }

  lemma StillHeard(arrivals: seq<Arrival>, l: Link, l': Link)
    requires HeardOf(arrivals, l) && SameOrCleared(l, l')
    ensures HeardOf(arrivals, l')
  {
    if l'.heard == [] {
      NothingHeard(arrivals, l');
    }
  }

  lemma RxHeard(l: Link, err: byte, w: Word)
    ensures RxIsr(l, err, w).heard == l.heard + [w]
  {}

  lemma RxKeepsError(l: Link, err: byte, w: Word)
    ensures RxIsr(l, err, w).errCode == 0 ==> l.errCode == 0 && err == 0
  {}

  predicate SameOrCleared(l: Link, l': Link) {
    (l'.heard == l.heard && (l'.errCode == 0 ==> l.errCode == 0)) || l'.heard == []
  }

  lemma VerdictHeard(l: Link)
    ensures SameOrCleared(l, MdbVerdict(l).link)
  {}

  lemma CommandHeard(g: State, c: Command, ready: bool)
    ensures SameOrCleared(g.link, Perform(g, c, ready).link)
  {}

  lemma PerformAllHeard(g: State, cs: seq<Placed>, ready: nat -> bool)
    ensures SameOrCleared(g.link, PerformAll(g, cs, ready).link)
  {
    var P := (x: State) => SameOrCleared(g.link, x.link);
    forall x: State, c: Command, r: bool | P(x) ensures P(Apply(x, Perform(x, c, r))) {
      CommandHeard(x, c, r);
    }
    PerformAllKeeps(P, g, cs, ready);
  }

  lemma TwiStepHeard(g: State, ready: nat -> bool)
    requires Consumable(g)
    ensures SameOrCleared(g.link, TwiStep(g, ready).link)
  {
    if |g.twi.input| != 1 {
      PerformAllHeard(g, Commands(g.twi.input, 0), ready);
    }
  }

  lemma {:induction false} RunSplitsLast(g: State, es: seq<Event>)
    requires es != [] && AdmissibleRun(g, es)
    ensures var n := |es| - 1;
            && AdmissibleRun(g, es[..n])
            && Admissible(Run(g, es[..n]), es[n])
            && Run(g, es) == Step(Run(g, es[..n]), es[n])
    decreases |es|
  {
    var n := |es| - 1;
    if n > 0 {
      RunSplitsLast(Step(g, es[0]), es[1..]);
      assert es[1..][..n - 1] == es[..n][1..];
    }
  }

  /** What the link has heard is the end of what the bus delivered, until a Reset command stops
      the interrupts; and while no error is pending all of it came without line errors. */
  lemma {:induction false} HeardWasReceived(g: State, es: seq<Event>)
    requires AdmissibleRun(g, es) && g.link.heard == [] && Run(g, es).course != Stopped
    ensures HeardOf(Received(es), Run(g, es).link)
    decreases |es|
  {
    if es == [] {
      NothingHeard([], g.link);
    } else {
      var n := |es| - 1;
      RunSplitsLast(g, es);
      HeardWasReceived(g, es[..n]);
      HeardStep(Run(g, es[..n]), es[n], Received(es[..n]));
      ReceivedLast(es, n);
    }
  }

  lemma ReceivedLast(es: seq<Event>, n: nat)
    requires |es| == n + 1
    ensures Received(es) == Received(es[..n]) + Received([es[n]])
  {
    assert [es[n]][..0] == [];
  }

  lemma EndGrows<T>(ws: seq<T>, tail: seq<T>, more: seq<T>)
    requires EndsWith(ws, tail)
    ensures EndsWith(ws + more, tail + more) && EndsWith(ws + more, [])
  {}

  /** Event k is the poll that accepts packet i of the history: it finds exactly i before it,
      so no two packets share a poll. */
  ghost predicate AcceptedAt(g: State, es: seq<Event>, k: nat, i: nat) {
    && k < |es| && es[k] == PollMdb
    && AdmissibleRun(g, es[..k]) && |Accepted(Run(g, es[..k]))| == i
    && AdmissibleRun(g, es[..k + 1]) && |Accepted(Run(g, es[..k + 1]))| == i + 1
    && Run(g, es[..k + 1]).link.heard == []
  }

  /** Packet i of the history is a success with data that event k accepts, and the last words
      that the bus delivered before it were that data, closed by its sum. */
  ghost predicate Justified(g: State, es: seq<Event>, k: nat, i: nat, p: Packet) {
    AcceptedAt(g, es, k, i) && EndsWith(Received(es[..k]), Clean(BlockWords(p.data, Sum(p.data))))
  }

  lemma JustifiedLater(g: State, es: seq<Event>, n: nat, k: nat, i: nat, p: Packet)
    requires n <= |es| && Justified(g, es[..n], k, i, p)
    ensures Justified(g, es, k, i, p)
  {
    assert es[..n][..k] == es[..k] && es[..n][..k + 1] == es[..k + 1];
  }

  /** Honesty over whole runs: every success with data that was ever queued for the host, each
      repetition for itself, has a poll of its own before which the MDB bus delivered exactly
      that data, closed by a ninth-bit word that holds its sum, every word without line errors. */
  lemma {:induction false} SuccessWasReceived(g: State, es: seq<Event>, i: nat)
    requires Inv(g) && g.link.heard == [] && AdmissibleRun(g, es)
    requires |Accepted(g)| <= i < |Accepted(Run(g, es))| && IsDataSuccess(Accepted(Run(g, es))[i])
    ensures exists k: nat :: Justified(g, es, k, i, Accepted(Run(g, es))[i])
    decreases |es|
  {
    var n := |es| - 1;
    RunSplitsLast(g, es);
    var before, p := Run(g, es[..n]), Accepted(Run(g, es))[i];
    AcceptedGrows(before, es[n]);
    if i < |Accepted(before)| {
      SuccessWasReceived(g, es[..n], i);
      var k: nat :| Justified(g, es[..n], k, i, p);
      JustifiedLater(g, es, n, k, i, p);
    } else {
      RunKeepsInv(g, es[..n]);
      SuccessNeedsBlock(before, es[n], i);
      HeardWasReceived(g, es[..n]);
      assert es[..n + 1] == es;
      assert Justified(g, es, n, i, p);
    }
  }

  /** No block is reported twice: between two polls that report data, the bus delivered the
      whole block of the later one again. */
  lemma SuccessIsNotReplayed(g: State, es: seq<Event>, k: nat, i: nat, k': nat, i': nat, p: Packet)
    requires Inv(g) && AdmissibleRun(g, es) && k < k'
    requires AcceptedAt(g, es, k, i) && AcceptedAt(g, es, k', i')
    requires p == Accepted(Run(g, es[..k' + 1]))[i'] && IsDataSuccess(p)
    ensures EndsWith(Received(es[k + 1..k']), Clean(BlockWords(p.data, Sum(p.data))))
  {
    var later := es[k + 1..k'];
    assert es[..k'] == es[..k + 1] + later;
    FoundAtPoll(g, es, k', i', p);
    HeardSinceWasReceived(g, es[..k + 1], later);
  }

  /** What the link has heard since it last forgot is the end of what the bus has delivered since. */
  lemma HeardSinceWasReceived(g: State, a: seq<Event>, b: seq<Event>)
    requires AdmissibleRun(g, a) && AdmissibleRun(g, a + b) && Run(g, a).link.heard == []
    requires Run(g, a + b).course != Stopped
    ensures HeardOf(Received(b), Run(g, a + b).link)
  {
    RunSplitsAt(g, a, b);
    HeardWasReceived(Run(g, a), b);
  }

  lemma FoundAtPoll(g: State, es: seq<Event>, k: nat, i: nat, p: Packet)
    requires Inv(g) && AcceptedAt(g, es, k, i) && p == Accepted(Run(g, es[..k + 1]))[i] && IsDataSuccess(p)
    ensures Run(g, es[..k]).link.heard == BlockWords(p.data, Sum(p.data)) && Run(g, es[..k]).course != Stopped
    ensures Run(g, es[..k]).link.errCode == 0
  {
    var upTo := es[..k + 1];
    assert upTo[..k] == es[..k];
    RunSplitsLast(g, upTo);
    RunKeepsInv(g, es[..k]);
    SuccessNeedsBlock(Run(g, es[..k]), es[k], i);
  }

  lemma {:induction false} RunSplitsAt(g: State, a: seq<Event>, b: seq<Event>)
    requires AdmissibleRun(g, a) && AdmissibleRun(g, a + b)
    ensures AdmissibleRun(Run(g, a), b) && Run(g, a + b) == Run(Run(g, a), b)
    decreases |a|
  {
    if a == [] {
      assert a + b == b;
    } else {
      assert (a + b)[0] == a[0] && (a + b)[1..] == a[1..] + b;
      RunSplitsAt(Step(g, a[0]), a[1..], b);
    }
  }
}
