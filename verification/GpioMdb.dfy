/** The transaction of cmd/iodin/src/mdb.rs: 9-bit words, two bytes each, through one buffer
    that serves both the request and the reads. */
module GpioMdb {
  import opened Bytes
  import opened Protocol
  import Gateway
  import GatewayInvariant
  import GatewayReceive

  type Word = Gateway.Word

  const BLOCK_MAX_LENGTH: nat := 40
  const WORD_SIZE: nat := 2
  const BUF_SIZE: nat := BLOCK_MAX_LENGTH * WORD_SIZE
  const RESPONSE_ACK: byte := 0x00
  const RESPONSE_NAK: byte := 0xff

  // ---------------------------------------------------------------- words and reads

  predicate Even(bs: seq<byte>) {
    |bs| % 2 == 0
  }

  /** Value and flag bytes as words. */
  function WordsOf(bs: seq<byte>): (ws: seq<Word>)
    requires Even(bs)
    ensures |ws| == |bs| / 2
  {
    seq(|bs| / 2, i requires 0 <= i < |bs| / 2 => Gateway.Word(bs[2 * i], bs[2 * i + 1] == 1))
  }

  /** What successive serial reads return; a read may find nothing yet. */
  predicate Readable(chunks: seq<seq<byte>>) {
    forall i | 0 <= i < |chunks| :: Even(chunks[i]) && |chunks[i]| <= BUF_SIZE
  }

  function Flat(chunks: seq<seq<byte>>): (bs: seq<byte>)
    requires Readable(chunks)
    ensures Even(bs)
  {
    if chunks == [] then [] else chunks[0] + Flat(chunks[1..])
  }

  // ---------------------------------------------------------------- the receiver's decoder

  datatype Gathered = Gathered(data: seq<byte>, end: Option<byte>)

  /** Data words up to the first one with the ninth bit. */
  function Gather(ws: seq<Word>): (g: Gathered) {
    if ws == [] then Gathered([], None)
    else
      var w := ws[|ws| - 1];
      var g := Gather(ws[..|ws| - 1]);
      if g.end.Some? then g
      else if w.ninth then Gathered(g.data, Some(w.value))
      else Gathered(g.data + [w.value], None)
  }

  /** Nothing after the end counts. */
  lemma {:induction false} GatherStops(ws: seq<Word>, k: nat)
    requires k <= |ws| && Gather(ws[..k]).end.Some?
    ensures Gather(ws) == Gather(ws[..k])
  {
    if k == |ws| {
      assert ws[..k] == ws;
    } else {
      var n := |ws| - 1;
      assert ws[..n][..k] == ws[..k];
      GatherStops(ws[..n], k);
    }
  }

  /** The first k words are data and no more. */
  ghost predicate SoFar(ws: seq<Word>, k: nat, data: seq<byte>) {
    k <= |ws| && Gather(ws[..k]) == Gathered(data, None)
  }

  lemma NextWord(ws: seq<Word>, k: nat, data: seq<byte>)
    requires SoFar(ws, k, data) && k < |ws|
    ensures if ws[k].ninth then Gather(ws) == Gathered(data, Some(ws[k].value))
            else SoFar(ws, k + 1, data + [ws[k].value])
  {
    assert ws[..k + 1][..k] == ws[..k];
    if ws[k].ninth {
      GatherStops(ws, k + 1);
    }
  }

  /** After k words of all, left is still to come. */
  predicate Left(all: seq<byte>, k: nat, left: seq<byte>) {
    Even(all) && 2 * k <= |all| && left == all[2 * k..]
  }

  /** The m words from word k on are the first ones of the buffer. */
  predicate AreAt(ws: seq<Word>, k: nat, m: nat, buf: seq<byte>) {
    && k + m <= |ws| && 2 * m <= |buf|
    && forall j | 0 <= j < m :: ws[k + j] == Gateway.Word(buf[2 * j], buf[2 * j + 1] == 1)
  }

  lemma LeftAfter(all: seq<byte>, k: nat, left: seq<byte>, n: nat, buf: seq<byte>, rest: seq<byte>) returns (m: nat)
    requires Left(all, k, left) && n % 2 == 0 && n <= |buf| && left == buf[..n] + rest
    ensures n == 2 * m && Left(all, k + m, rest) && AreAt(WordsOf(all), k, m, buf)
  {
    m := n / 2;
    forall j | 0 <= j < m
      ensures WordsOf(all)[k + j] == Gateway.Word(buf[2 * j], buf[2 * j + 1] == 1)
    {
      assert left[2 * j] == buf[2 * j] && left[2 * j + 1] == buf[2 * j + 1];
      assert all[2 * (k + j)] == left[2 * j] && all[2 * (k + j) + 1] == left[2 * j + 1];
    }
  }

  lemma NothingLeft(all: seq<byte>, ws: seq<Word>, k: nat)
    requires Left(all, k, []) && ws == WordsOf(all)
    ensures ws[..k] == ws
  {}

  // ---------------------------------------------------------------- the outcome

  datatype Outcome =
    | Response(data: seq<byte>)
    | MdbNak
    | MdbInvalidResponse(code: byte)
    | MdbChecksum(computed: byte, received: byte, got: seq<byte>)
    | ReceiveTimeout

  function Judge(g: Gathered): (o: Outcome) {
    if g.end == None then ReceiveTimeout
    else
      var last := g.end.value;
      if g.data == [] then
        if last == RESPONSE_ACK then Response([])
        else if last == RESPONSE_NAK then MdbNak
        else MdbInvalidResponse(last)
      else if last != Sum(g.data) then MdbChecksum(Sum(g.data), last, g.data)
      else Response(g.data)
  }

  /** The word that closes the exchange, if one does. */
  function Answered(g: Gathered): (ws: seq<Word>) {
    if g.end == None || g.data == [] then []
    else if g.end.value != Sum(g.data) then [Gateway.Word(RESPONSE_NAK, false)]
    else [Gateway.Word(RESPONSE_ACK, false)]
  }

  // ---------------------------------------------------------------- the request

  /** The ninth bit of a word in the buffer, as it would be sent: the low bit of its flag byte. */
  predicate Flagged(buf: seq<byte>, i: nat)
    requires 2 * i + 1 < |buf|
  {
    buf[2 * i + 1] % 2 == 1
  }

  /** What is sent: value and flag bytes as 9-bit words.  Only the first flag is ever written;
      the others are whatever the buffer held. */
  function RequestSent(stale: seq<byte>, request: seq<byte>): (ws: seq<Word>)
    requires |stale| == BUF_SIZE && 0 < |request| < BLOCK_MAX_LENGTH
  {
    seq(|request| + 1, i requires 0 <= i < |request| + 1 =>
      Gateway.Word(if i < |request| then request[i] else Sum(request), i == 0 || Flagged(stale, i)))
  }

  /** The first n words of the buffer, as they are sent. */
  function Sent(bs: seq<byte>, n: nat): (ws: seq<Word>)
    requires 2 * n <= |bs|
  {
    seq(n, i requires 0 <= i < n => Gateway.Word(bs[2 * i], Flagged(bs, i)))
  }

  /** The request is sent as section 2.2 of MDB/ICP wants it, with the ninth bit on the first
      word only, exactly when the buffer holds no stale flag under it. */
  lemma RequestIsRightIff(stale: seq<byte>, request: seq<byte>)
    requires |stale| == BUF_SIZE && 0 < |request| < BLOCK_MAX_LENGTH
    ensures RequestSent(stale, request) == GatewayInvariant.RequestWords(request + [Sum(request)])
       <==> forall i | 1 <= i <= |request| :: !Flagged(stale, i)
  {
    var ws, right := RequestSent(stale, request), GatewayInvariant.RequestWords(request + [Sum(request)]);
    forall i | 0 <= i <= |request| ensures ws[i] == right[i] <==> i == 0 || !Flagged(stale, i) {
      WordIsRightIff(stale, request, i);
    }
    SameSeqIff(ws, right);
  }

  lemma SameSeqIff(a: seq<Word>, b: seq<Word>)
    requires |a| == |b|
    ensures a == b <==> forall i | 0 <= i < |a| :: a[i] == b[i]
  {}

  lemma WordIsRightIff(stale: seq<byte>, request: seq<byte>, i: nat)
    requires |stale| == BUF_SIZE && 0 < |request| < BLOCK_MAX_LENGTH && i <= |request|
    ensures RequestSent(stale, request)[i] == GatewayInvariant.RequestWords(request + [Sum(request)])[i]
       <==> i == 0 || !Flagged(stale, i)
  {}

  /** The bytes of a block read in one piece. */
  function BlockBytes(data: seq<byte>, last: byte): (bs: seq<byte>)
    ensures |bs| == 2 * |data| + 2
  {
    seq(2 * |data| + 2, i requires 0 <= i < 2 * |data| + 2 =>
      if i % 2 == 1 then (if i == 2 * |data| + 1 then 1 else 0)
      else if i / 2 < |data| then data[i / 2] else last)
  }

  lemma BlockBytesAreWords(data: seq<byte>, last: byte)
    ensures WordsOf(BlockBytes(data, last)) == GatewayInvariant.BlockWords(data, last)
  {
    var ws, right := WordsOf(BlockBytes(data, last)), GatewayInvariant.BlockWords(data, last);
    forall i | 0 <= i < |right| ensures ws[i] == right[i] {
      assert 2 * i / 2 == i && (2 * i + 1) % 2 == 1;
    }
  }

  // ---------------------------------------------------------------- what a transaction leaves in the buffer

  predicate HasEnd(bs: seq<byte>)
    requires Even(bs)
  {
    Gather(WordsOf(bs)).end.Some?
  }

  /** The buffer after the reads, each from its start, up to the one that holds the end. */
  function Leftover(buf: seq<byte>, chunks: seq<seq<byte>>): (r: seq<byte>)
    requires |buf| == BUF_SIZE && Readable(chunks)
    ensures |r| == BUF_SIZE
    decreases |chunks|
  {
    if chunks == [] then buf
    else
      var now := chunks[0] + buf[|chunks[0]|..];
      if HasEnd(chunks[0]) then now else Leftover(now, chunks[1..])
  }

  /** The buffer with a request and its checksum put in. */
  function Put(buf: seq<byte>, request: seq<byte>): (r: seq<byte>)
    requires |buf| == BUF_SIZE && 0 < |request| < BLOCK_MAX_LENGTH
    ensures |r| == BUF_SIZE
  {
    seq(BUF_SIZE, i requires 0 <= i < BUF_SIZE =>
      if i == 1 then 1
      else if i % 2 == 1 || i / 2 > |request| then buf[i]
      else if i / 2 < |request| then request[i / 2]
      else Sum(request))
  }

  /** The first k bytes of the request are in. */
  predicate PutSoFar(stale: seq<byte>, request: seq<byte>, k: nat, buf: seq<byte>)
    requires |stale| == BUF_SIZE && k <= |request| < BLOCK_MAX_LENGTH
  {
    && |buf| == BUF_SIZE
    && forall i | 0 <= i < BUF_SIZE ::
         buf[i] == if i == 1 then 1 else if i % 2 == 0 && i / 2 < k then request[i / 2] else stale[i]
  }

  lemma PutIsComplete(stale: seq<byte>, request: seq<byte>, was: seq<byte>, now: seq<byte>)
    requires |stale| == BUF_SIZE && 0 < |request| < BLOCK_MAX_LENGTH
    requires PutSoFar(stale, request, |request|, was) && now == was[2 * |request| := Sum(request)]
    ensures now == Put(stale, request)
  {
    var put, n := Put(stale, request), |request|;
    forall i | 0 <= i < BUF_SIZE ensures now[i] == put[i] {
      if i % 2 == 0 {
        assert i == 2 * (i / 2);
      }
    }
  }

  lemma PutWord(stale: seq<byte>, request: seq<byte>, put: seq<byte>, i: nat)
    requires |stale| == BUF_SIZE && 0 < |request| < BLOCK_MAX_LENGTH && i <= |request| && put == Put(stale, request)
    ensures put[2 * i] == if i < |request| then request[i] else Sum(request)
    ensures Flagged(put, i) <==> i == 0 || Flagged(stale, i)
  {
    assert (2 * i) / 2 == i && (2 * i) % 2 == 0 && (2 * i + 1) % 2 == 1;
  }

  lemma PutIsSent(stale: seq<byte>, request: seq<byte>, put: seq<byte>)
    requires |stale| == BUF_SIZE && 0 < |request| < BLOCK_MAX_LENGTH && put == Put(stale, request)
    ensures Sent(put, |request| + 1) == RequestSent(stale, request)
  {
    var sent, right := Sent(put, |request| + 1), RequestSent(stale, request);
    forall i | 0 <= i < |right| ensures sent[i] == right[i] {
      PutWord(stale, request, put, i);
    }
  }

  /** No flag set but perhaps the first, as in a buffer of zeros. */
  predicate Clean(buf: seq<byte>)
    requires |buf| == BUF_SIZE
  {
    forall i | 1 <= i < BLOCK_MAX_LENGTH :: !Flagged(buf, i)
  }

  lemma PutKeepsClean(buf: seq<byte>, request: seq<byte>)
    requires |buf| == BUF_SIZE && 0 < |request| < BLOCK_MAX_LENGTH && Clean(buf)
    ensures Clean(Put(buf, request))
  {
    forall i | 1 <= i < BLOCK_MAX_LENGTH ensures !Flagged(Put(buf, request), i) {
      assert (2 * i + 1) % 2 == 1;
      assert !Flagged(buf, i);
    }
  }

  // ---------------------------------------------------------------- replies in pieces

  predicate FlagIsOne(bs: seq<byte>, j: nat)
    requires 2 * j + 1 < |bs|
  {
    bs[2 * j + 1] == 1
  }

  predicate FlagIsZero(bs: seq<byte>, j: nat)
    requires 2 * j + 1 < |bs|
  {
    bs[2 * j + 1] == 0
  }

  /** m words without a flag. */
  predicate Open(bs: seq<byte>, m: nat) {
    |bs| == 2 * m && forall j | 0 <= j < m :: FlagIsZero(bs, j)
  }

  /** m words with a flag on the last only. */
  predicate Closing(bs: seq<byte>, m: nat) {
    |bs| == 2 * m && m > 0 && FlagIsOne(bs, m - 1) && forall j | 0 <= j < m - 1 :: FlagIsZero(bs, j)
  }

  lemma BlockIsClosing(data: seq<byte>, last: byte)
    ensures Closing(BlockBytes(data, last), |data| + 1)
  {
    var bs := BlockBytes(data, last);
    forall j | 0 <= j <= |data| ensures if j == |data| then FlagIsOne(bs, j) else FlagIsZero(bs, j) {
      assert (2 * j + 1) % 2 == 1;
    }
  }

  /** What comes before the piece with the end has no flag. */
  lemma ClosingSplits(c: seq<byte>, rest: seq<byte>, m: nat) returns (k: nat)
    requires Closing(c + rest, m) && Even(c) && rest != []
    ensures k < m && Open(c, k) && Closing(rest, m - k)
  {
    k := |c| / 2;
    forall j | 0 <= j < k ensures FlagIsZero(c, j) {
      assert FlagIsZero(c + rest, j);
    }
    forall j | 0 <= j < m - k ensures if j == m - k - 1 then FlagIsOne(rest, j) else FlagIsZero(rest, j) {
      assert if j + k == m - 1 then FlagIsOne(c + rest, j + k) else FlagIsZero(c + rest, j + k);
    }
  }

  lemma OpenHasNoEnd(bs: seq<byte>, m: nat)
    requires Open(bs, m)
    ensures !HasEnd(bs)
  {
    HasEndIff(bs, m);
    forall j | 0 <= j < m ensures !FlagIsOne(bs, j) {
      assert FlagIsZero(bs, j);
    }
  }

  lemma ClosingHasEnd(bs: seq<byte>, m: nat)
    requires Closing(bs, m)
    ensures HasEnd(bs)
  {
    HasEndIff(bs, m);
  }

  lemma OpenKeepsClean(bs: seq<byte>, m: nat, buf: seq<byte>)
    requires Open(bs, m) && |buf| == BUF_SIZE && |bs| <= BUF_SIZE && Clean(buf)
    ensures Clean(bs + buf[|bs|..])
  {
    var now := bs + buf[|bs|..];
    forall i | 1 <= i < BLOCK_MAX_LENGTH ensures !Flagged(now, i) {
      if i < m {
        assert FlagIsZero(bs, i);
      } else {
        assert !Flagged(buf, i);
      }
    }
  }

  /** A reply cut into even reads, of which the last one is not empty: it holds the end. */
  predicate Pieces(cut: seq<seq<byte>>) {
    Readable(cut) && cut != [] && cut[|cut| - 1] != []
  }

  /** However a closing stream is cut, what the buffer holds after it begins with the last
      piece, with its flag; the rest is clean if the buffer was. */
  lemma {:induction false} LastPieceIsLeft(buf: seq<byte>, cut: seq<seq<byte>>, more: seq<seq<byte>>, m: nat)
    returns (x: seq<byte>)
    requires |buf| == BUF_SIZE && Pieces(cut) && Readable(cut + more) && Closing(Flat(cut), m)
    ensures var piece := cut[|cut| - 1];
            && Closing(piece, |piece| / 2) && |x| == BUF_SIZE && (Clean(buf) ==> Clean(x))
            && Leftover(buf, cut + more) == piece + x[|piece|..]
    decreases |cut|
  {
    var c, rest := cut[0], cut[1..];
    assert (cut + more)[0] == c && (cut + more)[1..] == rest + more;
    if rest == [] {
      assert Flat(cut) == c + [] == c;
      ClosingHasEnd(c, m);
      x := buf;
    } else {
      FlatOfPieces(rest);
      var k := ClosingSplits(c, Flat(rest), m);
      OpenHasNoEnd(c, k);
      if Clean(buf) {
        OpenKeepsClean(c, k, buf);
      }
      x := LastPieceIsLeft(c + buf[|c|..], rest, more, m - k);
    }
  }

  lemma {:induction false} FlatOfPieces(cut: seq<seq<byte>>)
    requires Pieces(cut)
    ensures Flat(cut) != []
    decreases |cut|
  {
    if |cut| > 1 {
      FlatOfPieces(cut[1..]);
    }
  }

  lemma FlagOfPiece(piece: seq<byte>, m: nat, x: seq<byte>, i: nat)
    requires Closing(piece, m) && |x| == BUF_SIZE && |piece| <= BUF_SIZE && 1 <= i < BLOCK_MAX_LENGTH
    ensures Flagged(piece + x[|piece|..], i) <==> i == m - 1 || (i >= m && Flagged(x, i))
  {
    if i < m {
      assert if i == m - 1 then FlagIsOne(piece, i) else FlagIsZero(piece, i);
    }
  }

  /** The reply (data, last), cut into even reads and followed by any others. */
  predicate Reply(chunks: seq<seq<byte>>, cut: seq<seq<byte>>, data: seq<byte>, last: byte) {
    Readable(chunks) && cut <= chunks && Pieces(cut) && Flat(cut) == BlockBytes(data, last)
  }

  /** The words of the last piece. */
  function LastWords(cut: seq<seq<byte>>): (k: nat)
    requires cut != []
  {
    |cut[|cut| - 1]| / 2
  }

  /** Two transactions.  The first sends its request from a clean buffer and reads its reply, of
      any length and in any even pieces.  The request of the second is then sent right if and
      only if the piece with the end was a single word, or of more words than that request and
      its sum: otherwise the flag of the reply's last word is sent again. */
  lemma NextRequestIsRightIff(buf: seq<byte>, first: seq<byte>, data: seq<byte>, last: byte,
                              chunks: seq<seq<byte>>, cut: seq<seq<byte>>, request: seq<byte>)
    requires |buf| == BUF_SIZE && Clean(buf) && Reply(chunks, cut, data, last)
    requires 0 < |first| < BLOCK_MAX_LENGTH && 0 < |request| < BLOCK_MAX_LENGTH
    ensures (RequestSent(Leftover(Put(buf, first), chunks), request)
             == GatewayInvariant.RequestWords(request + [Sum(request)]))
       <==> LastWords(cut) == 1 || LastWords(cut) > |request| + 1
  {
    var put, k := Put(buf, first), LastWords(cut);
    PutKeepsClean(buf, first);
    var left := OneFlagIsLeft(put, data, last, chunks, cut, |request|);
    RequestIsRightIff(left, request);
    if 2 <= k <= |request| + 1 {
      assert Flagged(left, k - 1);
    }
  }

  lemma OneFlagIsLeft(buf: seq<byte>, data: seq<byte>, last: byte, chunks: seq<seq<byte>>, cut: seq<seq<byte>>, n: nat)
    returns (left: seq<byte>)
    requires |buf| == BUF_SIZE && Reply(chunks, cut, data, last) && n < BLOCK_MAX_LENGTH
    ensures left == Leftover(buf, chunks)
    ensures 2 <= LastWords(cut) <= n + 1 ==> Flagged(left, LastWords(cut) - 1)
    ensures Clean(buf) ==> forall i | 1 <= i <= n :: Flagged(left, i) <==> i == LastWords(cut) - 1
  {
    var more, piece, k := chunks[|cut|..], cut[|cut| - 1], LastWords(cut);
    assert cut + more == chunks;
    BlockIsClosing(data, last);
    var x := LastPieceIsLeft(buf, cut, more, |data| + 1);
    left := Leftover(buf, chunks);
    forall i | 1 <= i <= n ensures Flagged(left, i) <==> i == k - 1 || (i >= k && Flagged(x, i)) {
      FlagOfPiece(piece, k, x, i);
    }
  }

  /** A reply read in one piece: the second request is right if and only if the reply had no
      data, or more bytes than that request. */
  lemma NextRequestAfterOnePiece(buf: seq<byte>, first: seq<byte>, data: seq<byte>, last: byte,
                                 chunks: seq<seq<byte>>, request: seq<byte>)
    requires |buf| == BUF_SIZE && Clean(buf) && Readable(chunks) && chunks != [] && chunks[0] == BlockBytes(data, last)
    requires 0 < |first| < BLOCK_MAX_LENGTH && 0 < |request| < BLOCK_MAX_LENGTH
    ensures (RequestSent(Leftover(Put(buf, first), chunks), request)
             == GatewayInvariant.RequestWords(request + [Sum(request)]))
       <==> data == [] || |data| > |request|
  {
    var cut := [chunks[0]];
    assert cut[1..] == [] && Flat(cut) == chunks[0] + Flat(cut[1..]);
    NextRequestIsRightIff(buf, first, data, last, chunks, cut, request);
  }

  /** Whatever the buffer held before: after a transaction whose reply ended in a piece of two
      words or more, every request with at least as many words is sent wrong. */
  lemma ReplySpoilsRequest(buf: seq<byte>, first: seq<byte>, data: seq<byte>, last: byte,
                           chunks: seq<seq<byte>>, cut: seq<seq<byte>>, request: seq<byte>)
    requires |buf| == BUF_SIZE && 0 < |first| < BLOCK_MAX_LENGTH && Reply(chunks, cut, data, last)
    requires 2 <= LastWords(cut) <= |request| + 1 <= BLOCK_MAX_LENGTH
    ensures RequestSent(Leftover(Put(buf, first), chunks), request)
         != GatewayInvariant.RequestWords(request + [Sum(request)])
  {
    SpoiledFrom(Put(buf, first), data, last, chunks, cut, request, LastWords(cut));
  }

  lemma SpoiledFrom(put: seq<byte>, data: seq<byte>, last: byte, chunks: seq<seq<byte>>, cut: seq<seq<byte>>,
                    request: seq<byte>, k: nat)
    requires |put| == BUF_SIZE && Reply(chunks, cut, data, last) && k == LastWords(cut)
    requires 2 <= k <= |request| + 1 <= BLOCK_MAX_LENGTH
    ensures RequestSent(Leftover(put, chunks), request) != GatewayInvariant.RequestWords(request + [Sum(request)])
  {
    var left := OneFlagIsLeft(put, data, last, chunks, cut, |request|);
    StaleFlagIsSent(left, request, k - 1);
  }

  lemma StaleFlagIsSent(stale: seq<byte>, request: seq<byte>, i: nat)
    requires |stale| == BUF_SIZE && 1 <= i <= |request| < BLOCK_MAX_LENGTH && Flagged(stale, i)
    ensures RequestSent(stale, request) != GatewayInvariant.RequestWords(request + [Sum(request)])
  {
    RequestIsRightIff(stale, request);
  }

  /** A read put its k bytes at the start of the buffer. */
  predicate Fetched(was: seq<byte>, before: seq<seq<byte>>, k: nat, buf: seq<byte>, after: seq<seq<byte>>)
    requires |was| == |buf| == BUF_SIZE && Readable(before) && Readable(after)
  {
    && k > 0 && k % 2 == 0 && k <= BUF_SIZE && |after| < |before|
    && Flat(before) == buf[..k] + Flat(after)
    && Leftover(was, before) == if HasEnd(buf[..k]) then buf else Leftover(buf, after)
  }

  lemma NothingRead(buf: seq<byte>)
    requires |buf| == BUF_SIZE
    ensures !HasEnd([]) && [] + buf[0..] == buf
  {}

  /** A stream has ended exactly when one of its words has the ninth bit. */
  lemma {:induction false} EndedIff(ws: seq<Word>)
    ensures Gather(ws).end.Some? <==> exists i :: 0 <= i < |ws| && ws[i].ninth
  {
    if ws != [] {
      var n := |ws| - 1;
      EndedIff(ws[..n]);
      if i :| 0 <= i < |ws[..n]| && ws[..n][i].ninth {
        assert ws[i].ninth;
      }
    }
  }

  lemma HasEndIff(bs: seq<byte>, m: nat)
    requires |bs| == 2 * m
    ensures HasEnd(bs) <==> exists j :: 0 <= j < m && FlagIsOne(bs, j)
  {
    EndedIff(WordsOf(bs));
    if j :| 0 <= j < m && FlagIsOne(bs, j) {
      assert WordsOf(bs)[j].ninth;
    }
    if i :| 0 <= i < m && WordsOf(bs)[i].ninth {
      assert FlagIsOne(bs, i);
    }
  }

  /** Only a flag byte of exactly 1 ends a block; any other, odd or even, leaves the word data. */
  lemma FlagMustBeOne(v: byte, f: byte)
    ensures Gather(WordsOf([v, f])) == if f == 1 then Gathered([], Some(v)) else Gathered([v], None)
  {
    assert WordsOf([v, f])[..0] == [];
  }

  // ---------------------------------------------------------------- what a transaction comes to

  /** What was gathered is exactly what arrived, up to the first word with the ninth bit. */
  lemma {:induction false} GatherIsExact(ws: seq<Word>)
    ensures match Gather(ws).end
            case Some(last) => GatewayInvariant.BlockWords(Gather(ws).data, last) <= ws
            case None => ws == GatewayInvariant.DataWords(Gather(ws).data)
  {
    if ws != [] {
      var n := |ws| - 1;
      GatherIsExact(ws[..n]);
      assert ws == ws[..n] + [ws[n]];
    }
  }

  lemma GatherOfBlock(ws: seq<Word>, data: seq<byte>, last: byte)
    requires GatewayInvariant.BlockWords(data, last) <= ws
    ensures Gather(ws) == Gathered(data, Some(last))
  {
    GatherBlock(data, last);
    assert ws[..|data| + 1] == GatewayInvariant.BlockWords(data, last);
    GatherStops(ws, |data| + 1);
  }

  /** A block came first: its data, and the byte with the ninth bit that closed it. */
  ghost predicate Came(ws: seq<Word>, data: seq<byte>, last: byte) {
    GatewayInvariant.BlockWords(data, last) <= ws
  }

  /** What must come of the words that arrived, and what is sent back for them.  A block with data
      is good if and only if it was closed by its sum. */
  ghost predicate RightOutcome(ws: seq<Word>, o: Outcome, sent: seq<Word>) {
    && (forall data, last | Came(ws, data, last) && data != [] && last == Sum(data) ::
          o == Response(data) && sent == [Gateway.Word(0x00, false)])
    && (forall data, last | Came(ws, data, last) && data != [] && last != Sum(data) ::
          o == MdbChecksum(Sum(data), last, data) && sent == [Gateway.Word(0xff, false)])
    && (Came(ws, [], 0x00) ==> o == Response([]) && sent == [])
    && (Came(ws, [], 0xff) ==> o == MdbNak && sent == [])
    && (forall last | Came(ws, [], last) && last != 0x00 && last != 0xff :: o == MdbInvalidResponse(last) && sent == [])
    && ((forall i | 0 <= i < |ws| :: !ws[i].ninth) ==> o == ReceiveTimeout && sent == [])
    && (forall data | o == Response(data) && data != [] :: Came(ws, data, Sum(data)))
  }

  lemma OutcomeIsRight(ws: seq<Word>)
    ensures RightOutcome(ws, Judge(Gather(ws)), Answered(Gather(ws)))
  {
    forall data, last | Came(ws, data, last) ensures Gather(ws) == Gathered(data, Some(last)) {
      GatherOfBlock(ws, data, last);
    }
    EndedIff(ws);
    GatherIsExact(ws);
  }

  // ---------------------------------------------------------------- the program

  class GpioMdb {
    const buf: array<byte>
    var chunks: seq<seq<byte>>
    var wire: seq<Word>

    ghost predicate Valid()
      reads this
    {
      buf.Length == BUF_SIZE && Readable(chunks)
    }

    /** The first part of tx: the request and its checksum in the buffer. */
    method PutRequest(request: seq<byte>)
      requires Valid() && 0 < |request| < BLOCK_MAX_LENGTH
      modifies buf, this`wire
      ensures Valid() && wire == old(wire) + RequestSent(old(buf[..]), request)
      ensures buf[..] == Put(old(buf[..]), request)
    {
      ghost var stale := buf[..];
      buf[WORD_SIZE - 1] := 1;
      for i := 0 to |request|
        invariant wire == old(wire) && PutSoFar(stale, request, i, buf[..])
      {
        buf[i * WORD_SIZE] := request[i];
      }
      ghost var was := buf[..];
      buf[|request| * WORD_SIZE] := Sum(request);
      PutIsComplete(stale, request, was, buf[..]);
      PutIsSent(stale, request, buf[..]);
      wire := wire + Sent(buf[..], |request| + 1);
    }

    /** The next read that finds something; None when the deadline passes. */
    method WaitReceive() returns (n: Option<nat>)
      requires Valid()
      modifies this`chunks, buf
      ensures Valid()
      ensures match n
              case Some(k) => Fetched(old(buf[..]), old(chunks), k, buf[..], chunks)
              case None =>
                && Flat(old(chunks)) == [] && chunks == []
                && Leftover(old(buf[..]), old(chunks)) == buf[..] == old(buf[..])
    {
      while chunks != []
        invariant Valid() && Flat(chunks) == Flat(old(chunks)) && |chunks| <= |old(chunks)|
        invariant buf[..] == old(buf[..]) && Leftover(buf[..], chunks) == Leftover(buf[..], old(chunks))
        decreases |chunks|
      {
        ghost var was := buf[..];
        var r := chunks[0];
        chunks := chunks[1..];
        if |r| > 0 {
          ReadInto(r);
          assert buf[..] == r + was[|r|..] && buf[..|r|] == r;
          return Some(|r|);
        }
        NothingRead(was);
      }
      return None;
    }

    method ReadInto(r: seq<byte>)
      requires |r| <= buf.Length
      modifies buf
      ensures buf[..] == r + old(buf[..])[|r|..]
    {
      for i := 0 to |r|
        invariant forall k | 0 <= k < i :: buf[k] == r[k]
        invariant forall k | i <= k < buf.Length :: buf[k] == old(buf[k])
      {
        buf[i] := r[i];
      }
    }

    /** The receive loop.  What it gathers depends on the bytes that arrive, not on how they are
        cut into reads. */
    method ReceiveLoop() returns (response: seq<byte>, end: Option<byte>)
      requires Valid()
      modifies this`chunks, buf
      ensures Valid()
      ensures Gathered(response, end) == Gather(WordsOf(Flat(old(chunks))))
      ensures buf[..] == Leftover(old(buf[..]), old(chunks))
    {
      ghost var all := Flat(chunks);
      ghost var ws, k := WordsOf(all), 0;
      response, end := [], None;
      while true
        invariant Valid() && Left(all, k, Flat(chunks)) && SoFar(ws, k, response)
        invariant Leftover(buf[..], chunks) == Leftover(old(buf[..]), old(chunks))
        decreases |chunks|
      {
        var more;
        more, response, end, k := NextRead(response, all, ws, k);
        if !more {
          return response, end;
        }
      }
    }

    /** One read, if there is one, and what it adds. */
    method NextRead(before: seq<byte>, ghost all: seq<byte>, ghost ws: seq<Word>, ghost k: nat)
      returns (more: bool, response: seq<byte>, end: Option<byte>, ghost k': nat)
      requires Valid() && Even(all) && ws == WordsOf(all) && Left(all, k, Flat(chunks)) && SoFar(ws, k, before)
      modifies this`chunks, buf
      ensures Valid()
      ensures !more ==>
                && Gathered(response, end) == Gather(ws)
                && buf[..] == Leftover(old(buf[..]), old(chunks))
      ensures more ==>
                && Left(all, k', Flat(chunks)) && SoFar(ws, k', response)
                && Leftover(buf[..], chunks) == Leftover(old(buf[..]), old(chunks))
                && |chunks| < |old(chunks)|
    {
      ghost var left := Flat(chunks);
      var count := WaitReceive();
      if count == None {
        NothingLeft(all, ws, k);
        return false, before, None, k;
      }
      var n := count.value;
      ghost var now, rest := buf[..], Flat(chunks);
      ghost var m := LeftAfter(all, k, left, n, now, rest);
      response, end := Scan(n, before, ws, k, m);
      assert buf[..n] == now[..n];
      more, k' := end == None, k + m;
    }

    /** One read, word by word. */
    method Scan(n: nat, before: seq<byte>, ghost ws: seq<Word>, ghost k: nat, ghost m: nat)
      returns (response: seq<byte>, end: Option<byte>)
      requires n <= buf.Length && n == 2 * m && AreAt(ws, k, m, buf[..])
      requires SoFar(ws, k, before)
      ensures if end.Some? then Gather(ws) == Gathered(response, end) else SoFar(ws, k + m, response)
      ensures end.Some? <==> HasEnd(buf[..n])
    {
      response := before;
      ghost var part := buf[..n];
      HasEndIff(part, m);
      var i := 0;
      ghost var j := 0;
      while i < n
        invariant i == 2 * j && j <= m && SoFar(ws, k + j, response)
        invariant forall h | 0 <= h < j :: !FlagIsOne(part, h)
      {
        var bvalue, bflag := buf[i], buf[i + 1];
        assert ws[k + j] == Gateway.Word(buf[..][2 * j], buf[..][2 * j + 1] == 1);
        NextWord(ws, k + j, response);
        assert FlagIsOne(part, j) <==> bflag == 1;
        if 1 == bflag {
          return response, Some(bvalue);
        }
        response := response + [bvalue];
        i, j := i + 2, j + 1;
      }
      return response, None;
    }

    /** The rest of tx after the request is out. */
    method Receive() returns (o: Outcome)
      requires Valid()
      modifies this`chunks, this`wire, buf
      ensures Valid()
      ensures var g := Gather(WordsOf(Flat(old(chunks))));
              o == Judge(g) && wire == old(wire) + Answered(g)
      ensures RightOutcome(WordsOf(Flat(old(chunks))), o, wire[|old(wire)|..])
      ensures buf[..] == Leftover(old(buf[..]), old(chunks))
    {
      OutcomeIsRight(WordsOf(Flat(chunks)));
      var response, end := ReceiveLoop();
      if end == None {
        return ReceiveTimeout;
      }
      var endByte := end.value;
      if |response| == 0 {
        if endByte == RESPONSE_ACK {
          return Response([]);
        } else if endByte == RESPONSE_NAK {
          return MdbNak;
        }
        return MdbInvalidResponse(endByte);
      }
      var computed := Sum(response);
      if endByte != computed {
        wire := wire + [Gateway.Word(RESPONSE_NAK, false)];
        return MdbChecksum(computed, endByte, response);
      }
      wire := wire + [Gateway.Word(RESPONSE_ACK, false)];
      return Response(response);
    }

    /** A whole transaction. */
    method Tx(request: seq<byte>) returns (o: Outcome)
      requires Valid() && 0 < |request| < BLOCK_MAX_LENGTH
      modifies this`chunks, this`wire, buf
      ensures Valid()
      ensures var g := Gather(WordsOf(Flat(old(chunks))));
              o == Judge(g) && wire == old(wire) + RequestSent(old(buf[..]), request) + Answered(g)
      ensures RightOutcome(WordsOf(Flat(old(chunks))), o, wire[|old(wire)| + |request| + 1..])
      ensures buf[..] == Leftover(Put(old(buf[..]), request), old(chunks))
    {
      PutRequest(request);
      o := Receive();
    }
  }

  // ---------------------------------------------------------------- against the gateway

  /** The receiver against the gateway's decoder, word by word: they see the same data and the
      same end in every stream that the gateway does not refuse. */
  lemma {:induction false} GatherMatchesDecode(ws: seq<Word>)
    ensures match GatewayReceive.Decode(ws)
            case Pending(data) => Gather(ws) == Gathered(data, None)
            case Closed(data, last) => Gather(ws) == Gathered(data, Some(last))
            case Overflow => Gather(ws).end == None && |Gather(ws).data| == MDB_PACKET_SIZE + 1
            case Unexpected(_, _) => Gather(ws).end.Some? || |Gather(ws).data| > MDB_PACKET_SIZE + 1
  {
    if ws != [] {
      GatherMatchesDecode(ws[..|ws| - 1]);
    }
  }

  lemma GatherBlock(data: seq<byte>, last: byte)
    ensures Gather(GatewayInvariant.BlockWords(data, last)) == Gathered(data, Some(last))
  {
    var ws := GatewayInvariant.BlockWords(data, last);
    GatherData(data);
    assert ws[..|data|] == GatewayInvariant.DataWords(data);
  }

  lemma {:induction false} GatherData(data: seq<byte>)
    ensures Gather(GatewayInvariant.DataWords(data)) == Gathered(data, None)
  {
    if data != [] {
      var n := |data| - 1;
      GatherData(data[..n]);
      assert GatewayInvariant.DataWords(data)[..n] == GatewayInvariant.DataWords(data[..n]);
      assert data[..n] + [data[n]] == data;
    }
  }

  /** The two receivers see the same block exactly when it has at most 36 data bytes. */
  lemma SameBlockIff(data: seq<byte>, last: byte)
    ensures var ws := GatewayInvariant.BlockWords(data, last);
            && Gather(ws) == Gathered(data, Some(last))
            && if |data| <= MDB_PACKET_SIZE then GatewayReceive.Decode(ws) == GatewayReceive.Closed(data, last)
               else !GatewayReceive.Decode(ws).Closed?
  {
    GatherBlock(data, last);
    GatherMatchesDecode(GatewayInvariant.BlockWords(data, last));
    if |data| <= MDB_PACKET_SIZE {
      GatewayReceive.DecodeBlock(data, last);
    }
  }

  /** An outcome as the gateway would report it; the gateway reports no bad checksum. */
  function AsPacket(o: Outcome): (p: Option<Packet>) {
    match o
    case Response(data) => if |data| <= 252 then Some(Packet(RESPONSE_MDB_SUCCESS, data)) else None
    case MdbNak => Some(Packet(RESPONSE_MDB_NAK, [RESPONSE_NAK]))
    case MdbInvalidResponse(code) => Some(Packet(RESPONSE_MDB_INVALID_END, [code]))
    case MdbChecksum(_, _, _) => None
    case ReceiveTimeout => None
  }

  /** For every block of at most 36 bytes the outcome and the closing handshake are the
      gateway's, except exactly for data with a wrong sum. */
  lemma AgreesWithGateway(data: Gateway.Block, last: byte)
    ensures var g := Gathered(data, Some(last));
            && (AsPacket(Judge(g)) == Some(GatewayReceive.Report(data, last)) <==> data == [] || last == Sum(data))
            && (Answered(g) == GatewayReceive.Handshake(data, last) <==> data == [] || last == Sum(data))
  {
    if data != [] && last != Sum(data) {
      assert Answered(Gathered(data, Some(last)))[0] != GatewayReceive.Handshake(data, last)[0];
    }
  }
}
