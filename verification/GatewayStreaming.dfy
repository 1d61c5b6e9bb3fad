/** How the I2C interrupt streams one reply to the host, byte by byte. */
module GatewayStreaming {
  import opened Bytes
  import opened Protocol
  import opened Gateway

  /** What the host sees once the slave has left the bus. */
  function Released(n: nat): (bs: seq<byte>)
    ensures |bs| == n
  {
    seq(n, _ => 0xff)
  }

  datatype HostRead = HostRead(t: Twi, bytes: seq<byte>, events: seq<TwiEvent>)

  /** The rest of a read of k bytes.  The slave has loaded out; it goes on only with twea set.
      The host acknowledges every byte but its last. */
  function ReadOn(t: Twi, out: byte, k: nat): (r: HostRead)
    requires k >= 1
    decreases k
  {
    if k == 1 then HostRead(TwiIsr(t, ByteOutNacked).t, [out], [ByteOutNacked])
    else if t.twea then
      var r := TwiIsr(t, ByteOutAcked);
      var rest := ReadOn(r.t, r.out.value, k - 1);
      HostRead(rest.t, [out] + rest.bytes, [ByteOutAcked] + rest.events)
    else
      HostRead(TwiIsr(t, LastByteOutAcked).t, [out] + Released(k - 1), [LastByteOutAcked])
  }

  /** A read of k bytes by the bus master, which the slave answers. */
  function ReadReply(t: Twi, k: nat): (r: HostRead)
    requires k >= 1
  {
    var a := TwiIsr(t, ReadAddressed);
    var rest := ReadOn(a.t, a.out.value, k);
    HostRead(rest.t, rest.bytes, [ReadAddressed] + rest.events)
  }

  /** What a reply looks like on the bus: its length, its bytes, one zero, silence. */
  function OnBus(reply: seq<byte>, k: nat): (bs: seq<byte>)
    requires |reply| <= RESPONSE_MAX_LENGTH
  {
    ([|reply|] + reply + [0] + Released(k))[..k]
  }

  /** The reply has been handed over and its buffer is free; the slave answers again. */
  predicate Consumed(t: Twi, t': Twi) {
    && t'.reply == [] && t'.used == 0 && t'.idle && Answers(t')
    && t'.ledger == t.ledger.(consumed := t.ledger.consumed + t.ledger.reply, reply := [])
    && t'.pending == t.pending && t'.input == t.input
  }

  /** The reply is still there, but the slave no longer answers its address. */
  predicate Kept(t: Twi, t': Twi) {
    && t'.reply == t.reply && t'.used == 0 && t'.idle && t'.ledger == t.ledger
    && t'.mode == Unaddressed && !t'.twea
    && t'.pending == t.pending && t'.input == t.input
  }

  /** In the middle of a read: used bytes are on their way and k are still wanted, the one
      that is loaded first among them. */
  lemma {:induction false} MiddleOfRead(t: Twi, out: byte, k: nat)
    requires k >= 1 && t.used <= |t.reply| && t.twea
    ensures var r := ReadOn(t, out, k);
            && r.bytes == ([out] + t.reply[t.used..] + [0] + Released(k))[..k]
            && (k >= |t.reply| - t.used + 3 ==> Consumed(t, r.t))
            && (k < |t.reply| - t.used + 3 ==> Kept(t, r.t))
    decreases k
  {
    var u := t.used;
    if k >= 2 {
      var a := TwiIsr(t, ByteOutAcked);
      if u < |t.reply| {
        MiddleOfRead(a.t, t.reply[u], k - 1);
        NextOnBus(t.reply, u, out, k);
      } else {
        EndOfRead(a.t, k - 1);
        LastOnBus(t.reply, u, out, k);
      }
    }
  }

  lemma NextOnBus(reply: seq<byte>, u: nat, out: byte, k: nat)
    requires k >= 2 && u < |reply|
    ensures ([out] + reply[u..] + [0] + Released(k))[..k]
         == [out] + ([reply[u]] + reply[u + 1..] + [0] + Released(k - 1))[..k - 1]
  {
    assert reply[u..] == [reply[u]] + reply[u + 1..];
    PrefixAfterFirst(out, [reply[u]] + reply[u + 1..] + [0], k);
    assert [out] + reply[u..] + [0] == [out] + ([reply[u]] + reply[u + 1..] + [0]);
  }

  lemma LastOnBus(reply: seq<byte>, u: nat, out: byte, k: nat)
    requires k >= 2 && u == |reply|
    ensures ([out] + reply[u..] + [0] + Released(k))[..k] == [out] + ([0] + Released(k - 1))[..k - 1]
  {
    assert reply[u..] == [] && [out] + reply[u..] + [0] == [out] + [0];
    PrefixAfterFirst(out, [0], k);
  }

  /** Past the last data byte: a zero, and then the slave is gone. */
  lemma EndOfRead(t: Twi, k: nat)
    requires k >= 1 && !t.twea
    ensures var r := ReadOn(t, 0, k);
            && r.bytes == ([0] + Released(k))[..k]
            && (k >= 2 ==> Consumed(t, r.t))
            && (k < 2 ==> Kept(t, r.t))
  {}

  lemma PrefixAfterFirst(out: byte, bs: seq<byte>, k: nat)
    requires k >= 2
    ensures ([out] + bs + Released(k))[..k] == [out] + (bs + Released(k - 1))[..k - 1]
  {}

  /** A read of k bytes of a reply of length L delivers the length, the data, one zero, as far
      as k goes; and consumes the reply exactly when k is at least L + 3. */
  lemma ReplyIsStreamed(t: Twi, k: nat)
    requires k >= 1 && t.reply != []
    ensures var r := ReadReply(t, k);
            && r.bytes == OnBus(t.reply, k)
            && (k >= |t.reply| + 3 ==> Consumed(t, r.t))
            && (k < |t.reply| + 3 ==> Kept(t, r.t))
  {
    var a := TwiIsr(t, ReadAddressed);
    assert a.t.reply[0..] == t.reply;
    MiddleOfRead(a.t, |t.reply|, k);
  }

  /** Without a reply, a read delivers one zero; it is through after two bytes. */
  lemma NothingIsStreamed(t: Twi, k: nat)
    requires k >= 1 && t.reply == []
    ensures var r := ReadReply(t, k);
            && r.bytes == ([0] + Released(k))[..k]
            && (k >= 2 ==> Consumed(t, r.t))
            && (k < 2 ==> Kept(t.(used := 0), r.t))
  {
    EndOfRead(TwiIsr(t, ReadAddressed).t, k);
  }

  // ---------------------------------------------------------------- as a run

  function BusEvents(bs: seq<TwiEvent>): (es: seq<Event>) {
    seq(|bs|, i requires 0 <= i < |bs| => Bus(bs[i]))
  }

  lemma {:induction false} ReadOnIsRun(g: State, out: byte, k: nat)
    requires k >= 1 && g.course != Stopped && g.twi.mode == Transmitter
    ensures var r := ReadOn(g.twi, out, k);
            AdmissibleRun(g, BusEvents(r.events)) && Run(g, BusEvents(r.events)) == g.(twi := r.t)
    decreases k
  {
    var r := ReadOn(g.twi, out, k);
    if k >= 2 && g.twi.twea {
      var a := TwiIsr(g.twi, ByteOutAcked);
      var g1 := g.(twi := a.t);
      ReadOnIsRun(g1, a.out.value, k - 1);
      BusRunFrom(g, ByteOutAcked, ReadOn(a.t, a.out.value, k - 1).events, g1);
    } else {
      assert BusEvents(r.events) == [Bus(r.events[0])];
      RunOne(g, Bus(r.events[0]));
    }
  }

  lemma BusRunFrom(g: State, e: TwiEvent, bs: seq<TwiEvent>, g1: State)
    requires g.course != Stopped && Possible(g.twi, e)
    requires g1 == g.(twi := TwiIsr(g.twi, e).t) && AdmissibleRun(g1, BusEvents(bs))
    ensures AdmissibleRun(g, BusEvents([e] + bs))
    ensures Run(g, BusEvents([e] + bs)) == Run(g1, BusEvents(bs))
  {
    var es := BusEvents([e] + bs);
    FirstBusEvent(es, e, bs);
    RunFirst(g, es, g1);
  }

  lemma FirstBusEvent(es: seq<Event>, e: TwiEvent, bs: seq<TwiEvent>)
    requires es == BusEvents([e] + bs)
    ensures es != [] && es[0] == Bus(e) && es[1..] == BusEvents(bs)
  {}

  /** The read is one run of bus interrupts. */
  lemma ReadReplyIsRun(g: State, k: nat)
    requires k >= 1 && g.course != Stopped && Answers(g.twi)
    ensures var r := ReadReply(g.twi, k);
            AdmissibleRun(g, BusEvents(r.events)) && Run(g, BusEvents(r.events)) == g.(twi := r.t)
  {
    var a := TwiIsr(g.twi, ReadAddressed);
    var g1 := g.(twi := a.t);
    ReadOnIsRun(g1, a.out.value, k);
    BusRunFrom(g, ReadAddressed, ReadOn(a.t, a.out.value, k).events, g1);
  }
}
