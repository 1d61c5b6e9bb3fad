/** Commands from the host's frames to their execution. */
module GatewayDispatch {
  import opened Bytes
  import opened Protocol
  import opened Gateway

  /** The commands that a host means when it writes the encodings of ps. */
  function Meant(ps: seq<Packet>, offset: nat): (cs: seq<Placed>)
    decreases |ps|
  {
    if ps == [] then []
    else [Placed(offset, Command(ps[0].header, ps[0].data))] + Meant(ps[1..], offset + ps[0].Size())
  }

  /** bs is the encodings of ps, taken apart from the front. */
  predicate IsEncoding(bs: seq<byte>, ps: seq<Packet>)
    decreases |ps|
  {
    if ps == [] then bs == []
    else
      && ps[0].Size() <= |bs| && bs[..ps[0].Size()] == Encode(ps[0])
      && IsEncoding(bs[ps[0].Size()..], ps[1..])
  }

  lemma {:induction false} EncodingIsEncoding(ps: seq<Packet>)
    ensures IsEncoding(EncodeAll(ps), ps)
    decreases |ps|
  {
    if ps != [] {
      var head, rest := Encode(ps[0]), EncodeAll(ps[1..]);
      assert (head + rest)[..|head|] == head && (head + rest)[|head|..] == rest;
      EncodingIsEncoding(ps[1..]);
    }
  }

  lemma CommandOfEncoding(bs: seq<byte>, p: Packet)
    requires p.Size() <= |bs| && bs[..p.Size()] == Encode(p)
    ensures bs[0] == p.Size() >= 3 && CommandAt(bs) == Command(p.header, p.data)
  {
    EncodeChecks(p);
    assert bs[0] == bs[..p.Size()][0] && bs[1] == bs[..p.Size()][1];
    assert bs[2..p.Size() - 1] == bs[..p.Size()][2..p.Size() - 1];
  }

  /** bs is taken apart into the commands cs. */
  ghost predicate TakenApart(bs: seq<byte>, offset: nat, cs: seq<Placed>) {
    WellFramed(bs, offset) && Commands(bs, offset) == cs
  }

  /** Each command stands where the frames before it end; the last one ends at the end. */
  lemma {:induction false} MeantStands(ps: seq<Packet>, offset: nat, k: nat)
    requires k < |ps|
    ensures |Meant(ps, offset)| == |ps|
    ensures var c := Meant(ps, offset)[k];
            && c == Placed(offset + |EncodeAll(ps[..k])|, Command(ps[k].header, ps[k].data))
            && c.at + ps[k].Size() == offset + |EncodeAll(ps[..k + 1])|
    decreases |ps|
  {
    var n, rest := ps[0].Size(), Meant(ps[1..], offset + ps[0].Size());
    MeantSize(ps[1..], offset + n);
    assert Meant(ps, offset)[k] == if k == 0 then Placed(offset, Command(ps[0].header, ps[0].data)) else rest[k - 1];
    EncodedFromHead(ps, k + 1);
    if k > 0 {
      EncodedFromHead(ps, k);
      MeantStands(ps[1..], offset + n, k - 1);
    }
  }

  lemma {:induction false} MeantSize(ps: seq<Packet>, offset: nat)
    ensures |Meant(ps, offset)| == |ps|
    decreases |ps|
  {
    if ps != [] {
      MeantSize(ps[1..], offset + ps[0].Size());
    }
  }

  lemma EncodedFromHead(ps: seq<Packet>, k: nat)
    requires 0 < k <= |ps|
    ensures |EncodeAll(ps[..k])| == ps[0].Size() + |EncodeAll(ps[1..][..k - 1])|
  {
    assert ps[..k][0] == ps[0] && ps[..k][1..] == ps[1..][..k - 1];
  }

  /** The commands up to the first one that does not return. */
  function UpToStop(cs: seq<Placed>): (r: seq<Placed>) {
    if cs == [] then []
    else [cs[0]] + (if Stops(cs[0].command) then [] else UpToStop(cs[1..]))
  }

  /** The later ones would not be performed anyway. */
  lemma {:induction false} OnlyUpToStop(g: State, cs: seq<Placed>, ready: nat -> bool)
    ensures PerformAll(g, UpToStop(cs), ready) == PerformAll(g, cs, ready)
    decreases |cs|
  {
    if cs != [] {
      var g1 := Apply(g, Perform(g, cs[0].command, ready(cs[0].at)));
      OnlyUpToStop(g1, cs[1..], ready);
      if !Stops(cs[0].command) {
        assert UpToStop(cs)[1..] == UpToStop(cs[1..]);
      }
    }
  }

  /** The frames that the host writes are taken apart into exactly their headers and data, in
      order, up to one that does not return. */
  lemma CommandsOfEncoding(bs: seq<byte>, ps: seq<Packet>, offset: nat)
    requires IsEncoding(bs, ps) && offset + |bs| < 256
    ensures WellFramed(bs, offset) && Commands(bs, offset) == UpToStop(Meant(ps, offset))
  {
    EncodingIsTakenApart(bs, ps, offset, Meant(ps, offset));
  }

  lemma {:induction false} EncodingIsTakenApart(bs: seq<byte>, ps: seq<Packet>, offset: nat, cs: seq<Placed>)
    requires IsEncoding(bs, ps) && offset + |bs| < 256 && cs == Meant(ps, offset)
    ensures TakenApart(bs, offset, UpToStop(cs))
    decreases |ps|
  {
    if ps != [] {
      var n := ps[0].Size();
      var rest := Meant(ps[1..], offset + n);
      EncodingIsTakenApart(bs[n..], ps[1..], offset + n, rest);
      FirstOfEncoding(bs, ps[0], n, offset, UpToStop(rest));
      assert cs[0] == Placed(offset, Command(ps[0].header, ps[0].data)) && cs[1..] == rest;
    }
  }

  lemma FirstOfEncoding(bs: seq<byte>, p: Packet, n: nat, offset: nat, cs: seq<Placed>)
    requires n == p.Size() <= |bs| && bs[..n] == Encode(p) && offset + |bs| < 256
    requires TakenApart(bs[n..], offset + n, cs)
    ensures var c := Placed(offset, Command(p.header, p.data));
            TakenApart(bs, offset, [c] + (if Stops(c.command) then [] else cs))
  {
    CommandOfEncoding(bs, p);
    if n == |bs| {
      assert bs[n..] == [];
    }
  }

  // ---------------------------------------------------------------- the bus write

  function WriteEvents(bs: seq<byte>): (es: seq<Event>) {
    [Bus(WriteAddressed)] + ByteEvents(bs) + [Bus(StopSeen)]
  }

  function ByteEvents(bs: seq<byte>): (es: seq<Event>)
    ensures |es| == |bs|
  {
    seq(|bs|, i requires 0 <= i < |bs| => Bus(ByteIn(bs[i])))
  }

  lemma {:induction false} BytesFillInput(g: State, bs: seq<byte>)
    requires g.course != Stopped && g.twi.mode == Receiver && g.twi.twea
    requires g.twi.input == [] && !g.twi.idle && |bs| <= COMMAND_MAX_LENGTH
    ensures AdmissibleRun(g, ByteEvents(bs))
    ensures Run(g, ByteEvents(bs)) == g.(twi := g.twi.(input := bs))
  {
    if bs == [] {
      assert ByteEvents(bs) == [];
    } else {
      var n := |bs| - 1;
      BytesFillInput(g, bs[..n]);
      assert ByteEvents(bs) == ByteEvents(bs[..n]) + [Bus(ByteIn(bs[n]))];
      assert bs[..n] + [bs[n]] == bs;
      RunOneMore(g, ByteEvents(bs[..n]), Bus(ByteIn(bs[n])));
    }
  }

  /** The state when a write of at most 93 bytes has ended. */
  function Written(g: State, bs: CommandBuffer): (g': State) {
    g.(twi := g.twi.(input := bs, idle := true, stat := Count(g.twi.stat, 6)))
  }

  lemma WriteFillsInput(g: State, bs: CommandBuffer)
    requires Answers(g.twi) && g.course != Stopped
    ensures AdmissibleRun(g, WriteEvents(bs)) && Run(g, WriteEvents(bs)) == Written(g, bs)
  {
    var first := [Bus(WriteAddressed)];
    RunOne(g, Bus(WriteAddressed));
    var g1 := Run(g, first);
    BytesFillInput(g1, bs);
    RunComposes(g, first, ByteEvents(bs));
    RunOneMore(g, first + ByteEvents(bs), Bus(StopSeen));
  }

  // ---------------------------------------------------------------- from the host to the effect

  /** Host to device: any frames, written together within the 93 bytes of the buffer and then
      polled for, are performed one after the other exactly as the host meant them, each at
      the offset where it stands. */
  lemma FramesArePerformed(g: State, ps: seq<Packet>, ready: nat -> bool)
    requires |EncodeAll(ps)| <= COMMAND_MAX_LENGTH && !g.halted && Answers(g.twi)
    ensures var bs := EncodeAll(ps); var es := WriteEvents(bs) + [PollTwi(ready)];
            && AdmissibleRun(g, es)
            && Run(g, es) == Settled(PerformAll(Written(g, bs), Meant(ps, 0), ready))
  {
    var bs := EncodeAll(ps);
    EncodingIsEncoding(ps);
    CommandsOfEncoding(bs, ps, 0);
    WriteFillsInput(g, bs);
    NotOneByte(ps);
    PollPerforms(Written(g, bs), UpToStop(Meant(ps, 0)), ready);
    OnlyUpToStop(Written(g, bs), Meant(ps, 0), ready);
    RunOneMore(g, WriteEvents(bs), PollTwi(ready));
  }

  /** One frame alone. */
  lemma FrameIsPerformed(g: State, p: Packet, ready: nat -> bool)
    requires p.Size() <= COMMAND_MAX_LENGTH && !g.halted && Answers(g.twi)
    ensures var es := WriteEvents(Encode(p)) + [PollTwi(ready)]; var g1 := Written(g, Encode(p));
            && AdmissibleRun(g, es)
            && Run(g, es) == Settled(Apply(g1, Execute(g1, p.header, p.data, ready(0))))
  {
    EncodeAllOne(p);
    FramesArePerformed(g, [p], ready);
    MeantOne(p);
    PerformOne(Written(g, Encode(p)), Placed(0, Command(p.header, p.data)), ready);
  }

  lemma MeantOne(p: Packet)
    ensures Meant([p], 0) == [Placed(0, Command(p.header, p.data))]
  {
    assert [p][1..] == [];
    assert Meant([p][1..], p.Size()) == [];
  }

  lemma PollPerforms(g: State, cs: seq<Placed>, ready: nat -> bool)
    requires !g.halted && g.twi.idle && |g.twi.input| != 1 && TakenApart(g.twi.input, 0, cs)
    ensures Admissible(g, PollTwi(ready))
    ensures Step(g, PollTwi(ready)) == Settled(PerformAll(g, cs, ready))
  {}

  lemma NotOneByte(ps: seq<Packet>)
    ensures |EncodeAll(ps)| != 1
  {}
}
