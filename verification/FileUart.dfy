/** The two readers of stuffed packets, slice at a time and byte at a time, and the receiving
    half of a transaction, from hardware/mdb/io_file.go and hardware/mdb/mock.go. */
module FileUart {
  import opened Bytes
  import opened Stuffing

  /** The buffer of a bufio.Reader, and so the longest slice that it can return. */
  const BUFIO_SIZE: nat := 4096

  /** A buffered reader as the bytes that it will yield; a read error ends them. */
  class Reader {
    var rest: seq<byte>

    constructor (s: seq<byte>)
      ensures rest == s
    {
      rest := s;
    }

    method ReadByte() returns (r: Option<byte>)
      modifies this
      ensures if old(rest) == [] then r == None && rest == [] else r == Some(old(rest)[0]) && rest == old(rest)[1..]
    {
      if rest == [] {
        return None;
      }
      r := Some(rest[0]);
      rest := rest[1..];
    }

    /** Through the first delimiter; None when the input ends or the buffer fills before it. */
    method ReadSlice(delim: byte) returns (r: Option<seq<byte>>)
      modifies this
      ensures match r
              case Some(part) => part + rest == old(rest) && FirstAtEnd(part, delim)
              case None =>
                var n := if |old(rest)| < BUFIO_SIZE then |old(rest)| else BUFIO_SIZE;
                rest == old(rest)[n..] && forall k | 0 <= k < n :: old(rest)[k] != delim
      ensures r.Some? ==> |r.value| <= BUFIO_SIZE
    {
      var i := 0;
      while i < |rest| && i < BUFIO_SIZE && rest[i] != delim
        invariant i <= |rest| && i <= BUFIO_SIZE && forall k | 0 <= k < i :: rest[k] != delim
        invariant rest == old(rest)
      {
        i := i + 1;
      }
      if i < |rest| && i < BUFIO_SIZE {
        r := Some(rest[..i + 1]);
        rest := rest[i + 1..];
      } else {
        r := None;
        rest := rest[i..];
      }
    }
  }

  predicate FirstAtEnd(part: seq<byte>, delim: byte) {
    && part != [] && part[|part| - 1] == delim
    && forall k | 0 <= k < |part| - 1 :: part[k] != delim
  }

  // ---------------------------------------------------------------- results

  datatype ReadError = InputEnded | UnknownSequence(code: byte)

  datatype Read = Done(n: nat) | Failed(error: ReadError) | Panicked

  /** The stream starts with a frame, and the frame fits. */
  predicate Fits(u: Unstuffed, size: nat) {
    u.ending.Frame? && |u.bytes| <= size
  }

  /** The frame is in the buffer, and the input is left just after it. */
  predicate Delivered(src: seq<byte>, n: nat, dst: seq<byte>, rest: seq<byte>) {
    IsDelivered(Unstuff(src), src, n, dst, rest)
  }

  predicate IsDelivered(u: Unstuffed, src: seq<byte>, n: nat, dst: seq<byte>, rest: seq<byte>) {
    && u.ending.Frame? && u.ending.used <= |src|
    && n == |u.bytes| <= |dst|
    && dst[..n] == u.bytes
    && rest == src[u.ending.used..]
  }

  /** How a read fails that did not run out of room. */
  function Failure(e: Ending): (r: Read)
    requires !e.Frame?
  {
    Failed(if e.Eof? then InputEnded else UnknownSequence(e.code))
  }

  // ---------------------------------------------------------------- where a reader stands

  /** After k bytes, out has been decoded and rest remains. */
  ghost predicate At(src: seq<byte>, k: nat, out: seq<byte>, rest: seq<byte>) {
    && k <= |src| && rest == src[k..]
    && Unstuff(src) == Later(out, k, Unstuff(rest))
  }

  lemma AtStart(src: seq<byte>)
    ensures At(src, 0, [], src)
  {
    assert [] + Unstuff(src).bytes == Unstuff(src).bytes;
  }

  /** Some more of the stream is decoded. */
  lemma AtNext(src: seq<byte>, k: nat, out: seq<byte>, rest: seq<byte>, j: nat, more: seq<byte>)
    requires At(src, k, out, rest) && j <= |rest| && Unstuff(rest) == Later(more, j, Unstuff(rest[j..]))
    ensures At(src, k + j, out + more, rest[j..])
  {
    LaterLater(out, k, more, j, Unstuff(rest[j..]));
  }

  lemma AtEnd(src: seq<byte>, k: nat, out: seq<byte>, rest: seq<byte>, last: byte)
    requires At(src, k, out, rest) && Unstuff(rest) == Unstuffed([last], Frame(3)) && |rest| >= 3
    ensures Unstuff(src) == Unstuffed(out + [last], Frame(k + 3)) && src[k + 3..] == rest[3..]
  {}

  lemma AtFailure(src: seq<byte>, k: nat, out: seq<byte>, rest: seq<byte>)
    requires At(src, k, out, rest) && Unstuff(rest).bytes == [] && !Unstuff(rest).ending.Frame?
    ensures Unstuff(src) == Unstuffed(out, Unstuff(rest).ending)
  {
    assert out + [] == out;
  }

  // ---------------------------------------------------------------- byte at a time

  /** How a read by bytes ends.  It succeeds exactly on a frame that fits. */
  ghost predicate ByteResult(src: seq<byte>, r: Read, dst: seq<byte>, rest: seq<byte>) {
    var u := Unstuff(src);
    if Fits(u, |dst|) then r.Done? && Delivered(src, r.n, dst, rest)
    else r == if |u.bytes| > |dst| then Panicked else Failure(u.ending)
  }

  /** ReadPacket of the mock. */
  method ReadPacket(br: Reader, buf: array<byte>) returns (r: Read)
    modifies br, buf
    ensures ByteResult(old(br.rest), r, buf[..], br.rest)
  {
    ghost var src, k, out := br.rest, 0, [];
    var n := 0;
    AtStart(src);
    while true
      invariant At(src, k, out, br.rest) && n == |out| <= buf.Length && buf[..n] == out
      decreases |br.rest|
    {
      ghost var rest := br.rest;
      var first := br.ReadByte();
      if first == None {
        AtFailure(src, k, out, rest);
        return Failed(InputEnded);
      }
      var b := first.value;
      if b != 0xff {
        AtNext(src, k, out, rest, 1, [b]);
        if n >= buf.Length {
          return Panicked;
        }
        buf[n] := b;
        n, k, out := n + 1, k + 1, out + [b];
        continue;
      }
      var second := br.ReadByte();
      if second == None {
        AtFailure(src, k, out, rest);
        return Failed(InputEnded);
      }
      b := second.value;
      if b == 0xff {
        AtNext(src, k, out, rest, 2, [b]);
        if n >= buf.Length {
          return Panicked;
        }
        buf[n] := b;
        n, k, out := n + 1, k + 2, out + [b];
      } else if b == 0x00 {
        var chk := br.ReadByte();
        if chk == None {
          AtFailure(src, k, out, rest);
          return Failed(InputEnded);
        }
        AtEnd(src, k, out, rest, chk.value);
        if n >= buf.Length {
          return Panicked;
        }
        buf[n] := chk.value;
        n := n + 1;
        return Done(n);
      } else {
        AtFailure(src, k, out, rest);
        return Failed(UnknownSequence(b));
      }
    }
  }

  // ---------------------------------------------------------------- slice at a time

  lemma {:induction false} StuffPlain(bs: seq<byte>)
    requires forall k | 0 <= k < |bs| :: bs[k] != MARK
    ensures Stuff(bs) == bs
  {
    if bs != [] {
      StuffPlain(bs[1..]);
      assert [bs[0]] + bs[1..] == bs;
    }
  }

  /** Bytes up to a mark stand for themselves. */
  lemma PlainRun(rest: seq<byte>, j: nat)
    requires j <= |rest| && forall k | 0 <= k < j :: rest[k] != MARK
    ensures Unstuff(rest) == Later(rest[..j], j, Unstuff(rest[j..]))
  {
    assert rest[..j] + rest[j..] == rest;
    PlainHead(rest[..j], rest[j..]);
  }

  lemma PlainHead(head: seq<byte>, tail: seq<byte>)
    requires forall k | 0 <= k < |head| :: head[k] != MARK
    ensures Unstuff(head + tail) == Later(head, |head|, Unstuff(tail))
  {
    StuffPlain(head);
    UnstuffAfter(head, tail);
  }

  // ---------------------------------------------------------------- what a slice can hold

  /** The first n bytes are no marks. */
  predicate Plain(src: seq<byte>, n: nat) {
    n <= |src| && forall k | 0 <= k < n :: src[k] != MARK
  }

  /** Where the first mark is, or the end. */
  function FirstMark(src: seq<byte>): (j: nat)
    ensures Plain(src, j) && (j < |src| ==> src[j] == MARK)
  {
    if src == [] || src[0] == MARK then 0 else FirstMark(src[1..]) + 1
  }

  lemma FirstMarkIs(src: seq<byte>, j: nat)
    requires Plain(src, j) && (j < |src| ==> src[j] == MARK)
    ensures FirstMark(src) == j
  {}

  /** The stream as a reader by slices sees it: it ends where its buffer is full without a mark. */
  function Seen(src: seq<byte>): (s: seq<byte>)
    decreases |src|
  {
    var j := FirstMark(src);
    if j >= BUFIO_SIZE then src[..BUFIO_SIZE]
    else if j + 1 < |src| && src[j + 1] == MARK then src[..j + 2] + Seen(src[j + 2..])
    else src
  }

  lemma SeenOfPlain(src: seq<byte>, n: nat)
    requires n == (if |src| < BUFIO_SIZE then |src| else BUFIO_SIZE) && Plain(src, n)
    ensures Seen(src) == src[..n]
  {
    if n == |src| {
      FirstMarkIs(src, n);
    }
  }

  lemma SeenAfterPlain(src: seq<byte>, j: nat, tail: seq<byte>)
    requires j < |src| && j < BUFIO_SIZE && Plain(src, j) && tail == src[j..] && tail[0] == MARK
    ensures Seen(src) == src[..j] + Seen(tail)
  {
    SeenAt(src, j);
    SeenAt(tail, 0);
    if j + 1 < |src| && src[j + 1] == MARK {
      RunAndEscape(src, j, tail, Seen(src[j + 2..]));
    }
  }

  lemma RunAndEscape(src: seq<byte>, j: nat, tail: seq<byte>, more: seq<byte>)
    requires j + 2 <= |src| && tail == src[j..]
    ensures tail[2..] == src[j + 2..] && src[..j + 2] + more == src[..j] + (tail[..2] + more)
  {
    assert src[..j] + tail[..2] == src[..j + 2];
  }

  lemma SeenAt(src: seq<byte>, j: nat)
    requires j < |src| && j < BUFIO_SIZE && Plain(src, j) && src[j] == MARK
    ensures Seen(src) == if j + 1 < |src| && src[j + 1] == MARK then src[..j + 2] + Seen(src[j + 2..]) else src
  {
    FirstMarkIs(src, j);
  }

  /** After a mark: another one and what is seen after it, or the end of what is seen. */
  lemma SeenAtMark(tail: seq<byte>)
    requires tail != [] && tail[0] == MARK
    ensures Seen(tail) == if |tail| > 1 && tail[1] == MARK then tail[..2] + Seen(tail[2..]) else tail
  {
    SeenAt(tail, 0);
  }

  /** A stream cut short, and then some. */
  lemma {:induction false} SeenIsHead(src: seq<byte>)
    ensures Seen(src) <= src
    decreases |src|
  {
    var j := FirstMark(src);
    if j < BUFIO_SIZE && j + 1 < |src| && src[j + 1] == MARK {
      SeenIsHead(src[j + 2..]);
      assert src == src[..j + 2] + src[j + 2..];
    }
  }

  lemma FrameAtHead(src: seq<byte>, bs: seq<byte>, last: byte)
    requires Marked(bs, last) <= src
    ensures Unstuff(src) == Unstuffed(bs + [last], Frame(|Marked(bs, last)|))
  {
    var k := |Marked(bs, last)|;
    UnstuffMarked(bs, last, src[k..]);
    assert Marked(bs, last) + src[k..] == src;
  }

  /** A frame is a frame, whatever follows it. */
  lemma FrameOfHead(src: seq<byte>, s: seq<byte>)
    requires s <= src && Unstuff(s).ending.Frame?
    ensures Unstuff(src) == Unstuff(s)
  {
    var u := Unstuff(s);
    var n := |u.bytes| - 1;
    FrameIsMarked(s);
    HeadOfHead(src, s, u.ending.used, Marked(u.bytes[..n], u.bytes[n]));
    FrameAtHead(src, u.bytes[..n], u.bytes[n]);
    assert u.bytes[..n] + [u.bytes[n]] == u.bytes;
  }

  lemma HeadOfHead(src: seq<byte>, s: seq<byte>, k: nat, m: seq<byte>)
    requires s <= src && k <= |s| && s[..k] == m
    ensures m <= src && |m| == k
  {}

  /** All of it is seen, unless more is decoded than the buffer holds. */
  lemma {:induction false} AllIsSeen(src: seq<byte>)
    requires |Unstuff(src).bytes| < BUFIO_SIZE
    ensures Seen(src) == src
    decreases |src|
  {
    var j := FirstMark(src);
    PlainRun(src, j);
    if j < BUFIO_SIZE && j + 1 < |src| && src[j + 1] == MARK {
      assert src[j..][2..] == src[j + 2..];
      AllIsSeen(src[j + 2..]);
      assert src[..j + 2] + src[j + 2..] == src;
    }
  }

  /** How a read by slices ends.  Literal bytes that do not fit are dropped; an escaped 0xff or a
      last byte that does not is a panic. */
  function SliceOutcome(u: Unstuffed, size: nat): (r: Read) {
    if Fits(u, size) then Done(|u.bytes|)
    else if u.ending.Frame? || (|u.bytes| > size && MARK in u.bytes[size..]) then Panicked
    else Failure(u.ending)
  }

  /** What a read by slices comes to. */
  ghost predicate SliceResult(src: seq<byte>, r: Read, dst: seq<byte>, rest: seq<byte>) {
    r == SliceOutcome(Unstuff(Seen(src)), |dst|) && (r.Done? ==> Delivered(src, r.n, dst, rest))
  }

  /** The same when u is what can be decoded of the stream. */
  ghost predicate ComesTo(u: Unstuffed, src: seq<byte>, r: Read, dst: seq<byte>, rest: seq<byte>) {
    r == SliceOutcome(u, |dst|) && (r.Done? ==> IsDelivered(u, src, r.n, dst, rest))
  }

  lemma ComesToResult(src: seq<byte>, r: Read, dst: seq<byte>, rest: seq<byte>)
    requires ComesTo(Unstuff(Seen(src)), src, r, dst, rest)
    ensures SliceResult(src, r, dst, rest)
  {
    if r.Done? {
      SeenIsHead(src);
      FrameOfHead(src, Seen(src));
    }
  }

  /** Into less room than the reader's own buffer has, it succeeds exactly on a frame that fits. */
  lemma SliceFits(src: seq<byte>, r: Read, dst: seq<byte>, rest: seq<byte>)
    requires SliceResult(src, r, dst, rest) && |dst| < BUFIO_SIZE
    ensures r.Done? <==> Fits(Unstuff(src), |dst|)
  {
    if Fits(Unstuff(src), |dst|) {
      AllIsSeen(src);
    }
  }

  /** Where a reader by slices stands: after k bytes, out of u has been decoded, and x is what
      can be decoded of the rest. */
  predicate Standing(u: Unstuffed, src: seq<byte>, k: nat, out: seq<byte>, rest: seq<byte>, x: Unstuffed) {
    k <= |src| && rest == src[k..] && u == Later(out, k, x)
  }

  /** What can be decoded of a stream by slices. */
  function Sight(rest: seq<byte>): (x: Unstuffed) {
    Unstuff(Seen(rest))
  }

  lemma NoSight(rest: seq<byte>, n: nat)
    requires n == (if |rest| < BUFIO_SIZE then |rest| else BUFIO_SIZE) && Plain(rest, n)
    ensures Sight(rest) == Unstuffed(rest[..n], Eof)
  {
    SeenOfPlain(rest, n);
    PlainRun(rest[..n], n);
    assert rest[..n] + [] == rest[..n] && rest[..n][n..] == [];
  }

  lemma SightAfterPlain(rest: seq<byte>, j: nat, tail: seq<byte>)
    requires j < |rest| && j < BUFIO_SIZE && Plain(rest, j) && tail == rest[j..] && tail[0] == MARK
    ensures Sight(rest) == Later(rest[..j], j, Sight(tail))
  {
    SeenAfterPlain(rest, j, tail);
    PlainHead(rest[..j], Seen(tail));
  }

  /** What is seen of a stream that starts with a mark. */
  lemma SightOfMark(tail: seq<byte>)
    requires tail != [] && tail[0] == MARK
    ensures Sight(tail)
         == if |tail| == 1 then Unstuffed([], Eof)
            else if tail[1] == MARK then Later([MARK], 2, Sight(tail[2..]))
            else if tail[1] != 0 then Unstuffed([], Unknown(tail[1]))
            else if |tail| == 2 then Unstuffed([], Eof)
            else Unstuffed([tail[2]], Frame(3))
  {
    SeenAtMark(tail);
    if |tail| > 1 && tail[1] == MARK {
      assert Seen(tail)[2..] == Seen(tail[2..]);
    }
  }

  /** Some more of it is decoded. */
  lemma Stands(u: Unstuffed, src: seq<byte>, k: nat, out: seq<byte>, rest: seq<byte>, x: Unstuffed,
               more: seq<byte>, j: nat, x': Unstuffed)
    requires Standing(u, src, k, out, rest, x) && j <= |rest| && x == Later(more, j, x')
    ensures Standing(u, src, k + j, out + more, rest[j..], x')
  {
    LaterLater(out, k, more, j, x');
  }

  lemma NoSlice(u: Unstuffed, src: seq<byte>, k: nat, out: seq<byte>, rest: seq<byte>, x: Unstuffed,
                dst: seq<byte>, n: nat, more: seq<byte>)
    requires Standing(u, src, k, out, rest, x) && Holds(out, dst, n)
    requires x == Unstuffed(more, Eof) && forall i | 0 <= i < |more| :: more[i] != MARK
    ensures SliceOutcome(u, |dst|) == Failed(InputEnded)
  {
    assert u.bytes == out + more;
  }

  lemma MarkDoesNotFit(u: Unstuffed, src: seq<byte>, k: nat, out: seq<byte>, rest: seq<byte>, x: Unstuffed, size: nat)
    requires Standing(u, src, k, out + [MARK], rest, x) && |out| >= size
    ensures SliceOutcome(u, size) == Panicked
  {
    assert u.bytes[|out|] == MARK;
    assert u.bytes[size..][|out| - size] == MARK;
  }

  lemma FailsHere(u: Unstuffed, src: seq<byte>, k: nat, out: seq<byte>, rest: seq<byte>, x: Unstuffed,
                  dst: seq<byte>, n: nat)
    requires Standing(u, src, k, out, rest, x) && Holds(out, dst, n)
    requires x.bytes == [] && !x.ending.Frame?
    ensures SliceOutcome(u, |dst|) == Failure(x.ending)
  {
    assert u == Unstuffed(out, x.ending) by {
      assert out + [] == out;
    }
  }

  lemma LastDoesNotFit(u: Unstuffed, src: seq<byte>, k: nat, out: seq<byte>, rest: seq<byte>, x: Unstuffed,
                       last: byte, size: nat)
    requires Standing(u, src, k, out, rest, x) && x == Unstuffed([last], Frame(3)) && |out| >= size
    ensures SliceOutcome(u, size) == Panicked
  {}

  lemma FrameIsDone(u: Unstuffed, src: seq<byte>, k: nat, out: seq<byte>, rest: seq<byte>, x: Unstuffed,
                    last: byte, dst: seq<byte>, after: seq<byte>)
    requires Standing(u, src, k, out, rest, x) && x == Unstuffed([last], Frame(3))
    requires |rest| >= 3 && after == rest[3..]
    requires |out| < |dst| && dst[..|out|] == out && dst[|out|] == last
    ensures ComesTo(u, src, Done(|out| + 1), dst, after)
  {
    assert dst[..|out| + 1] == out + [last];
  }

  /** copy: as much as there is room for, and no complaint about the rest. */
  method CopyInto(dst: array<byte>, n: nat, part: seq<byte>) returns (c: nat)
    requires n <= dst.Length
    modifies dst
    ensures c == if |part| <= dst.Length - n then |part| else dst.Length - n
    ensures dst[..n + c] == old(dst[..n]) + part[..c]
  {
    c := 0;
    while c < |part| && n + c < dst.Length
      invariant c <= |part| && n + c <= dst.Length && dst[..n + c] == old(dst[..n]) + part[..c]
    {
      dst[n + c] := part[c];
      c := c + 1;
    }
  }

  /** What of the decoded bytes is in the buffer; those that are not were literal. */
  predicate Holds(out: seq<byte>, dst: seq<byte>, n: nat) {
    && (forall i | |dst| <= i < |out| :: out[i] != MARK)
    && n <= |dst| && n <= |out|
    && dst[..n] == out[..n]
    && (n < |out| ==> n == |dst|)
  }

  lemma HoldsMore(out: seq<byte>, was: seq<byte>, n: nat, part: seq<byte>, now: seq<byte>, c: nat)
    requires Holds(out, was, n) && |now| == |was| && forall i | 0 <= i < |part| :: part[i] != MARK
    requires c == (if |part| <= |was| - n then |part| else |was| - n) && now[..n + c] == was[..n] + part[..c]
    ensures Holds(out + part, now, n + c)
  {
    if n < |out| {
      assert c == 0 && (out + part)[..n] == out[..n];
    } else {
      assert out[..n] == out && (out + part)[..n + c] == out + part[..c];
    }
  }

  /** A slice without its mark, decoded and copied. */
  lemma PlainTaken(u: Unstuffed, src: seq<byte>, k: nat, out: seq<byte>, rest: seq<byte>,
                   part: seq<byte>, after: seq<byte>, tail: seq<byte>)
    requires Standing(u, src, k, out, rest, Sight(rest)) && |part| <= BUFIO_SIZE
    requires FirstAtEnd(part, MARK) && part + after == rest && tail == rest[|part| - 1..]
    ensures var j := |part| - 1;
            && Standing(u, src, k + j, out + part[..j], tail, Sight(tail))
            && tail != [] && tail[0] == MARK && after == tail[1..]
  {
    var j := |part| - 1;
    RunOfSlice(part, after, rest);
    SightAfterPlain(rest, j, tail);
    Stands(u, src, k, out, rest, Sight(rest), part[..j], j, Sight(tail));
  }

  lemma RunOfSlice(part: seq<byte>, after: seq<byte>, rest: seq<byte>)
    requires FirstAtEnd(part, MARK) && part + after == rest
    ensures var j := |part| - 1;
            && j < |rest| && Plain(rest, j) && rest[..j] == part[..j]
            && rest[j..] != [] && rest[j..][0] == MARK && after == rest[j..][1..]
  {
    assert forall i | 0 <= i < |part| - 1 :: rest[i] == part[i];
  }

  /** Copies a slice without its mark. */
  method TakePlain(dst: array<byte>, n: nat, part: seq<byte>, ghost out: seq<byte>)
    returns (n': nat, ghost out': seq<byte>)
    requires Holds(out, dst[..], n) && FirstAtEnd(part, MARK)
    modifies dst
    ensures out' == out + part[..|part| - 1] && Holds(out', dst[..], n')
  {
    ghost var was := dst[..];
    var copied := CopyInto(dst, n, part[..|part| - 1]);
    HoldsMore(out, was, n, part[..|part| - 1], dst[..], copied);
    n', out' := n + copied, out + part[..|part| - 1];
  }

  /** ReadSlice, and the copy of what it gives. */
  method TakeRun(br: Reader, dst: array<byte>, n: nat,
                 ghost u: Unstuffed, ghost src: seq<byte>, ghost k: nat, ghost out: seq<byte>)
    returns (ok: bool, n': nat, ghost k': nat, ghost out': seq<byte>, ghost tail: seq<byte>)
    requires Standing(u, src, k, out, br.rest, Sight(br.rest)) && Holds(out, dst[..], n)
    modifies br, dst
    ensures !ok ==> SliceOutcome(u, dst.Length) == Failed(InputEnded)
    ensures ok ==>
              && Standing(u, src, k', out', tail, Sight(tail)) && Holds(out', dst[..], n')
              && tail != [] && tail[0] == MARK && br.rest == tail[1..] && |tail| <= |old(br.rest)|
  {
    ghost var rest := br.rest;
    n', k', out', tail := n, k, out, rest;
    var slice := br.ReadSlice(0xff);
    if slice == None {
      ghost var m := if |rest| < BUFIO_SIZE then |rest| else BUFIO_SIZE;
      NoSight(rest, m);
      NoSlice(u, src, k, out, rest, Sight(rest), dst[..], n, rest[..m]);
      return false, n, k, out, rest;
    }
    var part := slice.value;
    tail := rest[|part| - 1..];
    PlainTaken(u, src, k, out, rest, part, br.rest, tail);
    n', out' := TakePlain(dst, n, part, out);
    ok, k' := true, k + (|part| - 1);
  }

  /** bufferReadPacket of the real line. */
  method BufferReadPacket(br: Reader, dst: array<byte>) returns (r: Read)
    modifies br, dst
    ensures SliceResult(old(br.rest), r, dst[..], br.rest)
  {
    ghost var src, u := br.rest, Sight(br.rest);
    assert u == Later([], 0, u) by {
      assert [] + u.bytes == u.bytes;
    }
    r := ReadFrame(br, dst, u, src);
    ComesToResult(src, r, dst[..], br.rest);
  }

  method ReadFrame(br: Reader, dst: array<byte>, ghost u: Unstuffed, ghost src: seq<byte>) returns (r: Read)
    requires Standing(u, src, 0, [], br.rest, Sight(br.rest))
    modifies br, dst
    ensures ComesTo(u, src, r, dst[..], br.rest)
  {
    ghost var k: nat, out := 0, [];
    var n := 0;
    while true
      invariant Standing(u, src, k, out, br.rest, Sight(br.rest)) && Holds(out, dst[..], n)
      decreases |br.rest|
    {
      var ok, n1;
      ghost var k1, out1, tail;
      ok, n1, k1, out1, tail := TakeRun(br, dst, n, u, src, k, out);
      if !ok {
        return Failed(InputEnded);
      }
      var end;
      end, n, out := FinishSequence(br, dst, n1, u, src, k1, out1, tail);
      if end != None {
        return end.value;
      }
      k := k1 + 2;
    }
  }

  /** What follows a mark: the end of the packet, a literal mark, or an error. */
  method FinishSequence(br: Reader, dst: array<byte>, n: nat, ghost u: Unstuffed, ghost src: seq<byte>,
                        ghost k: nat, ghost out: seq<byte>, ghost rest: seq<byte>)
    returns (r: Option<Read>, n': nat, ghost out': seq<byte>)
    requires Standing(u, src, k, out, rest, Sight(rest))
    requires rest != [] && rest[0] == MARK && br.rest == rest[1..] && Holds(out, dst[..], n)
    modifies br, dst
    ensures r == None ==>
              && Standing(u, src, k + 2, out', br.rest, Sight(br.rest)) && Holds(out', dst[..], n')
              && |br.rest| < |rest|
    ensures r.Some? ==> ComesTo(u, src, r.value, dst[..], br.rest)
  {
    n', out' := n, out;
    SightOfMark(rest);
    var next := br.ReadByte();
    if next == None {
      FailsHere(u, src, k, out, rest, Sight(rest), dst[..], n);
      return Some(Failed(InputEnded)), n, out;
    }
    var b := next.value;
    if b == 0x00 {
      r, n' := Closes(br, dst, n, u, src, k, out, rest);
    } else if b == 0xff {
      Stands(u, src, k, out, rest, Sight(rest), [b], 2, Sight(rest[2..]));
      if n >= dst.Length {
        MarkDoesNotFit(u, src, k + 2, out, rest[2..], Sight(rest[2..]), dst.Length);
        return Some(Panicked), n, out;
      }
      dst[n] := b;
      r, n', out' := None, n + 1, out + [b];
    } else {
      FailsHere(u, src, k, out, rest, Sight(rest), dst[..], n);
      return Some(Failed(UnknownSequence(b))), n, out;
    }
  }

  /** The byte with the ninth bit, into the buffer. */
  method Closes(br: Reader, dst: array<byte>, n: nat, ghost u: Unstuffed, ghost src: seq<byte>,
                ghost k: nat, ghost out: seq<byte>, ghost rest: seq<byte>)
    returns (r: Option<Read>, n': nat)
    requires Standing(u, src, k, out, rest, Sight(rest))
    requires |rest| >= 2 && rest[0] == MARK && rest[1] == 0 && br.rest == rest[2..] && Holds(out, dst[..], n)
    modifies br, dst
    ensures r.Some? && ComesTo(u, src, r.value, dst[..], br.rest)
  {
    n' := n;
    SightOfMark(rest);
    var chk := br.ReadByte();
    if chk == None {
      FailsHere(u, src, k, out, rest, Sight(rest), dst[..], n);
      return Some(Failed(InputEnded)), n;
    }
    if n >= dst.Length {
      LastDoesNotFit(u, src, k, out, rest, Sight(rest), chk.value, dst.Length);
      return Some(Panicked), n;
    }
    dst[n] := chk.value;
    n' := n + 1;
    r := Some(Done(n'));
    FrameIsDone(u, src, k, out, rest, Sight(rest), chk.value, dst[..], br.rest);
  }

  /** The two readers agree on every stream: on success, on what was read and on what is left;
      and on how they fail, except exactly where what the slice reader sees does not end in a
      frame and runs out of room in literal bytes: it drops them, the other panics. */
  lemma ReadersAgree(src: seq<byte>, a: Read, dst: seq<byte>, rest: seq<byte>, b: Read, dst': seq<byte>, rest': seq<byte>)
    requires SliceResult(src, a, dst, rest) && ByteResult(src, b, dst', rest')
    requires |dst| == |dst'| < BUFIO_SIZE
    ensures a.Done? <==> b.Done?
    ensures a.Done? ==> a == b && dst[..a.n] == dst'[..b.n] && rest == rest'
    ensures b != Panicked ==> a == b
    ensures var u := Unstuff(Seen(src));
            a != b <==>
              b == Panicked && !u.ending.Frame? && (|u.bytes| > |dst| ==> MARK !in u.bytes[|dst|..])
  {
    SliceFits(src, a, dst, rest);
    if b != Panicked {
      AllIsSeen(src);
    }
  }

  /** Both readers on a frame: its bytes if there is room, and a panic if there is not. */
  lemma FrameIsRead(src: seq<byte>, bs: seq<byte>, last: byte, a: Read, b: Read, dst: seq<byte>, dst': seq<byte>,
                    rest: seq<byte>, rest': seq<byte>)
    requires Marked(bs, last) <= src && |bs| + 1 < BUFIO_SIZE && |dst| == |dst'|
    requires SliceResult(src, a, dst, rest) && ByteResult(src, b, dst', rest')
    ensures a == b == if |bs| < |dst| then Done(|bs| + 1) else Panicked
    ensures |bs| < |dst| ==>
              && dst[..|bs|] == dst'[..|bs|] == bs && dst[|bs|] == dst'[|bs|] == last
              && rest == rest' == src[|Marked(bs, last)|..]
  {
    FrameAtHead(src, bs, last);
    AllIsSeen(src);
    if |bs| < |dst| {
      assert dst[..|bs| + 1] == bs + [last] && dst'[..|bs| + 1] == bs + [last];
      SameHead(bs + [last], dst, |bs|);
      SameHead(bs + [last], dst', |bs|);
    }
  }

  /** Both readers on stuffed data without an end: the end of the input or the unknown byte, if all
      of the data fits; what does not is dropped by one, unless it holds 0xff, and a panic of the other. */
  lemma FailureIsRead(bs: seq<byte>, tail: seq<byte>, e: ReadError, a: Read, b: Read, dst: seq<byte>, dst': seq<byte>,
                      rest: seq<byte>, rest': seq<byte>)
    requires |bs| < BUFIO_SIZE && |dst| == |dst'|
    requires if e == InputEnded then BreaksOff(tail) else GoesWrong(tail, e.code)
    requires SliceResult(Stuff(bs) + tail, a, dst, rest) && ByteResult(Stuff(bs) + tail, b, dst', rest')
    ensures b == if |bs| <= |dst| then Failed(e) else Panicked
    ensures a == if |bs| <= |dst| || MARK !in bs[|dst|..] then Failed(e) else Panicked
  {
    UnstuffFails(bs, tail);
    AllIsSeen(Stuff(bs) + tail);
  }

  // ---------------------------------------------------------------- the receiving half of a transaction

  method Checksum(bs: seq<byte>) returns (chk: byte)
    ensures chk == Sum(bs)
  {
    chk := 0;
    for i := 0 to |bs|
      invariant chk == Sum(bs[..i])
    {
      assert bs[..i + 1] == bs[..i] + [bs[i]];
      SumAppend(bs[..i], bs[i]);
      chk := Add8(chk, bs[i]);
    }
    assert bs[..|bs|] == bs;
  }

  datatype Received =
    | Response(n: nat)
    | InvalidChecksum(received: byte, actual: byte)
    | NotRead(read: Read)

  /** The stream starts with the wire form of what was received. */
  predicate Accepted(src: seq<byte>, n: nat, dst: seq<byte>, rest: seq<byte>) {
    && n < |dst|
    && WireOf(dst[..n]) <= src
    && rest == src[|WireOf(dst[..n])|..]
  }

  lemma WellSummed(src: seq<byte>, n: nat, dst: seq<byte>, rest: seq<byte>)
    requires Delivered(src, n + 1, dst, rest) && dst[n] == Sum(dst[..n])
    ensures Accepted(src, n, dst, rest)
  {
    FrameIsMarked(src);
    var used := Unstuff(src).ending.used;
    SameHead(Unstuff(src).bytes, dst, n);
    assert WireOf(dst[..n]) == src[..used];
  }

  lemma SameHead(bs: seq<byte>, dst: seq<byte>, n: nat)
    requires |bs| == n + 1 <= |dst| && dst[..n + 1] == bs
    ensures bs[..n] == dst[..n] && bs[n] == dst[n]
  {
    assert dst[..n] == dst[..n + 1][..n];
  }

  /** A stream that starts with the wire form of a block can only be read as that block. */
  lemma OnlyThatBlock(src: seq<byte>, bs: seq<byte>, n: nat, dst: seq<byte>, rest: seq<byte>)
    requires WireOf(bs) <= src && Delivered(src, n, dst, rest)
    ensures n == |bs| + 1 && dst[..|bs|] == bs && dst[|bs|] == Sum(bs)
  {
    WireIsRead(src, bs);
    var whole := bs + [Sum(bs)];
    assert dst[..n] == whole;
    SameHead(whole, dst, |bs|);
  }

  /** The checksum decides on what was read. */
  predicate Judged(read: Read, dst: seq<byte>, r: Received)
    requires read.Done? ==> 0 < read.n <= |dst|
  {
    match read
    case Done(n) =>
      r == if dst[n - 1] == Sum(dst[..n - 1]) then Response(n - 1)
           else InvalidChecksum(dst[n - 1], Sum(dst[..n - 1]))
    case _ => r == NotRead(read)
  }

  /** For such a stream the read succeeds, and the checksum is right. */
  lemma BlockIsRead(src: seq<byte>, bs: seq<byte>, read: Read, dst: seq<byte>, rest: seq<byte>)
    requires WireOf(bs) <= src && |bs| < |dst| < BUFIO_SIZE && SliceResult(src, read, dst, rest)
    ensures read == Done(|bs| + 1) && dst[..|bs|] == bs && dst[|bs|] == Sum(bs)
  {
    WireIsRead(src, bs);
    SliceFits(src, read, dst, rest);
    OnlyThatBlock(src, bs, read.n, dst, rest);
  }

  /** When the stream starts with the wire form of a block that fits, that block is the response. */
  ghost predicate ReceivesBlock(src: seq<byte>, r: Received, dst: seq<byte>) {
    forall bs {:trigger WireOf(bs)} | WireOf(bs) <= src && |bs| < |dst| :: r == Response(|bs|) && dst[..|bs|] == bs
  }

  lemma BlockIsReceived(src: seq<byte>, read: Read, dst: seq<byte>, rest: seq<byte>, r: Received)
    requires |dst| < BUFIO_SIZE && SliceResult(src, read, dst, rest) && Judged(read, dst, r)
    ensures ReceivesBlock(src, r, dst)
  {
    forall bs | WireOf(bs) <= src && |bs| < |dst| ensures r == Response(|bs|) && dst[..|bs|] == bs {
      BlockIsRead(src, bs, read, dst, rest);
    }
  }

  /** What is received of any stream: the block, the two checksums that differ, or how the read
      failed. */
  function ReceiveOutcome(u: Unstuffed, size: nat): (r: Received) {
    if Fits(u, size) && u.bytes != [] then
      var n := |u.bytes| - 1;
      if u.bytes[n] == Sum(u.bytes[..n]) then Response(n) else InvalidChecksum(u.bytes[n], Sum(u.bytes[..n]))
    else NotRead(SliceOutcome(u, size))
  }

  /** Of a block that fits, closed by whatever byte: that byte decides, and both sums are told. */
  lemma BlockOutcome(src: seq<byte>, bs: seq<byte>, last: byte, size: nat)
    requires Marked(bs, last) <= src && |bs| < size && |bs| + 1 < BUFIO_SIZE
    ensures ReceiveOutcome(Unstuff(Seen(src)), size)
         == if last == Sum(bs) then Response(|bs|) else InvalidChecksum(last, Sum(bs))
  {
    FrameAtHead(src, bs, last);
    AllIsSeen(src);
    SameHead(bs + [last], bs + [last], |bs|);
  }

  /** Of stuffed data that fits but has no end: how it fails. */
  lemma BrokenOutcome(bs: seq<byte>, tail: seq<byte>, e: ReadError, size: nat)
    requires |bs| <= size && |bs| < BUFIO_SIZE
    requires if e == InputEnded then BreaksOff(tail) else GoesWrong(tail, e.code)
    ensures ReceiveOutcome(Unstuff(Seen(Stuff(bs) + tail)), size) == NotRead(Failed(e))
  {
    UnstuffFails(bs, tail);
    AllIsSeen(Stuff(bs) + tail);
  }

  lemma OutcomeIs(src: seq<byte>, read: Read, dst: seq<byte>, rest: seq<byte>, r: Received)
    requires SliceResult(src, read, dst, rest) && Judged(read, dst, r)
    ensures r == ReceiveOutcome(Unstuff(Seen(src)), |dst|)
  {
    var u := Unstuff(Seen(src));
    if read.Done? {
      SeenIsHead(src);
      FrameOfHead(src, Seen(src));
      SameHead(u.bytes, dst, read.n - 1);
    }
  }

  class FileUart {
    const br: Reader
    var acks: seq<byte>

    constructor (r: Reader)
      ensures br == r && acks == []
    {
      br := r;
      acks := [];
    }

    /** Tx, after the request is sent.  It accepts exactly the streams that start with the wire
        form of a block for which there is room, gives back that block, and acknowledges it
        unless it is empty. */
    method Receive(response: array<byte>) returns (r: Received)
      modifies this, br, response
      ensures r.Response? ==> Accepted(old(br.rest), r.n, response[..], br.rest)
      ensures response.Length < BUFIO_SIZE ==> ReceivesBlock(old(br.rest), r, response[..])
      ensures r == ReceiveOutcome(Unstuff(Seen(old(br.rest))), response.Length)
      ensures acks == old(acks) + if r.Response? && r.n > 0 then [0] else []
    {
      ghost var src := br.rest;
      var read := BufferReadPacket(br, response);
      r := Judge(read, response, src);
      OutcomeIs(src, read, response[..], br.rest, r);
      if response.Length < BUFIO_SIZE {
        BlockIsReceived(src, read, response[..], br.rest, r);
      }
      if r.Response? && r.n > 0 {
        acks := acks + [0];
      }
    }

    method Judge(read: Read, response: array<byte>, ghost src: seq<byte>) returns (r: Received)
      requires read.Done? ==> Delivered(src, read.n, response[..], br.rest)
      ensures Judged(read, response[..], r)
      ensures r.Response? ==> Accepted(src, r.n, response[..], br.rest)
    {
      if !read.Done? {
        return NotRead(read);
      }
      var n := read.n;
      var chkin := response[n - 1];
      n := n - 1;
      ghost var dst := response[..];
      assert response[..n] == dst[..n];
      var chkcomp := Checksum(response[..n]);
      if chkin != chkcomp {
        return InvalidChecksum(chkin, chkcomp);
      }
      WellSummed(src, n, dst, br.rest);
      return Response(n);
    }
  }
}
