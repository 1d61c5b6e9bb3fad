/** The coin changer's poll reply (section 5.3 of MDB/ICP 4.2): its items, and the credit that
    they give. */
module CoinPoll {
  import opened Bytes
  import opened Currency
  import NominalGroup
  import CurrencyGreedy

  const COIN_TYPE_COUNT: nat := 16

  datatype Status =
    | Zero | Info | Fault | Fatal | Disabled | Busy | WasReset | Credit | Rejected | Escrow
    | ReturnRequest | Dispensed

  datatype Reason =
    | NoReason | NoCredit | Sensor | DoubleArrival | NoStorage | Jam | RomChecksum | CoinRouting
    | CoinJam | Fraud | Slugs | RoutingNotUsed(code: byte) | UnknownItem(code: byte)

  datatype PollItem = PollItem(status: Status, reason: Reason, nominal: nat, count: byte, cashbox: bool)

  function Simple(s: Status, r: Reason): (pi: PollItem) {
    PollItem(s, r, 0, 0, false)
  }

  /** What the changer's setup said of its coin types. */
  type CoinTypes = c: seq<nat> | |c| == COIN_TYPE_COUNT && forall i | 0 <= i < |c| :: c[i] < AMOUNT_LIMIT
    witness seq<nat>(16, _ => 0)

  function CoinTypeNominal(types: CoinTypes, b: byte): (n: nat) {
    if b >= COIN_TYPE_COUNT then 0 else types[b]
  }

  datatype Parsed = Parsed(item: PollItem, skip: bool)

  /** One item, and whether it took the second byte.  Shifts and masks are divisions and
      remainders here. */
  function ParsePollItem(types: CoinTypes, b: byte, b2: byte): (p: Parsed) {
    if b == 0x01 then Parsed(Simple(ReturnRequest, NoReason), false)
    else if b == 0x02 then Parsed(Simple(Busy, NoReason), false)
    else if b == 0x03 then Parsed(Simple(Fault, NoCredit), false)
    else if b == 0x04 then Parsed(Simple(Fatal, Sensor), false)
    else if b == 0x05 then Parsed(Simple(Info, DoubleArrival), false)
    else if b == 0x06 then Parsed(Simple(Fatal, NoStorage), false)
    else if b == 0x07 then Parsed(Simple(Fatal, Jam), false)
    else if b == 0x08 then Parsed(Simple(Fatal, RomChecksum), false)
    else if b == 0x09 then Parsed(Simple(Fault, CoinRouting), false)
    else if b == 0x0a then Parsed(Simple(Busy, NoReason), false)
    else if b == 0x0b then Parsed(Simple(WasReset, NoReason), false)
    else if b == 0x0c then Parsed(Simple(Fatal, CoinJam), false)
    else if b == 0x0d then Parsed(Simple(Fault, Fraud), false)
    else if b / 32 == 1 then Parsed(PollItem(Info, Slugs, 0, b % 32, false), false)
    else if b / 64 == 1 then Parsed(Deposited(types, b), true)
    else if b / 128 == 1 then
      Parsed(PollItem(Dispensed, NoReason, CoinTypeNominal(types, b % 16), (b / 16) % 8, false), true)
    else Parsed(Simple(Fatal, UnknownItem(b)), false)
  }

  function Deposited(types: CoinTypes, b: byte): (pi: PollItem) {
    var n, routing := CoinTypeNominal(types, b % 16), (b / 16) % 4;
    if routing == 0 then PollItem(Credit, NoReason, n, 1, true)
    else if routing == 1 then PollItem(Credit, NoReason, n, 1, false)
    else if routing == 2 then PollItem(Fault, RoutingNotUsed(b), n, 1, false)
    else PollItem(Rejected, NoReason, n, 1, false)
  }

  // ---------------------------------------------------------------- the codes, from the changer's side

  /** 01yyxxxx: a coin of type x, sent to y. */
  function DepositCode(coin: nat, routing: nat): (b: byte)
    requires coin < 16 && routing < 4
  {
    0x40 + 16 * routing + coin
  }

  /** 1yyyxxxx: y coins of type x, dispensed by hand. */
  function DispenseCode(coin: nat, count: nat): (b: byte)
    requires coin < 16 && count < 8
  {
    0x80 + 16 * count + coin
  }

  /** 001xxxxx: x slugs. */
  function SlugCode(count: nat): (b: byte)
    requires count < 32
  {
    0x20 + count
  }

  lemma Digits(coin: nat, high: nat)
    requires coin < 16
    ensures (16 * high + coin) % 16 == coin && (16 * high + coin) / 16 == high
  {}

  /** What a changer encodes is what is read back: coin type, routing and count. */
  lemma CodesAreRead(types: CoinTypes, coin: nat, routing: nat, count: nat, slugs: nat, b2: byte)
    requires coin < 16 && routing < 4 && count < 8 && slugs < 32
    ensures var p := ParsePollItem(types, DepositCode(coin, routing), b2);
            && p.skip && p.item.nominal == types[coin] && p.item.count == 1
            && p.item.status == [Credit, Credit, Fault, Rejected][routing]
            && (p.item.cashbox <==> routing == 0)
            && p.item.reason == (if routing == 2 then RoutingNotUsed(DepositCode(coin, routing)) else NoReason)
    ensures ParsePollItem(types, DispenseCode(coin, count), b2)
         == Parsed(PollItem(Dispensed, NoReason, types[coin], count, false), true)
    ensures ParsePollItem(types, SlugCode(slugs), b2) == Parsed(PollItem(Info, Slugs, 0, slugs, false), false)
  {
    Digits(coin, 4 + routing);
    Digits(coin, 8 + count);
  }

  // ---------------------------------------------------------------- the grammar

  /** An item is two bytes from 0x40 on, one below. */
  function Width(b: byte): (k: nat) {
    if b >= 0x40 then 2 else 1
  }

  /** What follows the first item.  A second byte that is missing is not missed. */
  function AfterItem(bs: seq<byte>): (r: seq<byte>)
    requires bs != []
    ensures |r| < |bs|
  {
    if |bs| < Width(bs[0]) then [] else bs[Width(bs[0])..]
  }

  function Second(bs: seq<byte>): (b: byte) {
    if |bs| > 1 then bs[1] else 0
  }

  function Items(types: CoinTypes, bs: seq<byte>): (items: seq<PollItem>)
    decreases |bs|
  {
    if bs == [] then []
    else [ParsePollItem(types, bs[0], Second(bs)).item] + Items(types, AfterItem(bs))
  }

  /** The parser takes a second byte exactly where the grammar has one: from 0x40 on. */
  lemma SkipIsWidth(types: CoinTypes, b: byte, b2: byte)
    ensures ParsePollItem(types, b, b2).skip <==> b >= 0x40
    ensures Width(b) == if b >= 0x40 then 2 else 1
  {}

  /** The first bytes of the items. */
  function Firsts(bs: seq<byte>): (fs: seq<byte>)
    decreases |bs|
  {
    if bs == [] then [] else [bs[0]] + Firsts(AfterItem(bs))
  }

  function Times(fs: seq<byte>, b: byte): (n: nat) {
    if fs == [] then 0 else (if fs[0] == b then 1 else 0) + Times(fs[1..], b)
  }

  // ---------------------------------------------------------------- what the codes mean

  /** The codes 0x01 to 0x0d, in their order. */
  lemma CodesMean(types: CoinTypes, b: byte, b2: byte)
    requires 0x01 <= b <= 0x0d
    ensures ParsePollItem(types, b, b2).item
         == Simple([ReturnRequest, Busy, Fault, Fatal, Info, Fatal, Fatal, Fatal, Fault,
                    Busy, WasReset, Fatal, Fault][b - 1],
                   [NoReason, NoReason, NoCredit, Sensor, DoubleArrival, NoStorage, Jam, RomChecksum, CoinRouting,
                    NoReason, NoReason, CoinJam, Fraud][b - 1])
  {}

  /** 0x00 and 0x0e to 0x1f mean nothing: fatal, with the code. */
  lemma OtherCodesAreFatal(types: CoinTypes, b: byte, b2: byte)
    requires b == 0 || 0x0d < b < 0x20
    ensures ParsePollItem(types, b, b2).item == Simple(Fatal, UnknownItem(b))
  {}

  /** Which first bytes lead to which status. */
  lemma StatusOfByte(types: CoinTypes, b: byte, b2: byte)
    ensures var s := ParsePollItem(types, b, b2).item.status;
            && (s == ReturnRequest <==> b == 0x01)
            && (s == Busy <==> b in {0x02, 0x0a})
            && (s == WasReset <==> b == 0x0b)
            && (s == Info <==> b == 0x05 || 0x20 <= b < 0x40)
            && (s == Credit <==> 0x40 <= b < 0x60)
            && (s == Fault <==> b in {0x03, 0x09, 0x0d} || 0x60 <= b < 0x70)
            && (s == Rejected <==> 0x70 <= b < 0x80)
            && (s == Dispensed <==> b >= 0x80)
            && (s == Fatal <==> b in {0x00, 0x04, 0x06, 0x07, 0x08, 0x0c} || 0x0d < b < 0x20)
  {}

  ghost predicate ItemOf(types: CoinTypes, pi: PollItem, f: byte) {
    exists b2 :: pi == ParsePollItem(types, f, b2).item
  }

  /** Item by item: what the first byte means. */
  lemma {:induction false} ItemsByFirsts(types: CoinTypes, bs: seq<byte>)
    ensures |Items(types, bs)| == |Firsts(bs)|
    ensures forall i | 0 <= i < |Firsts(bs)| :: ItemOf(types, Items(types, bs)[i], Firsts(bs)[i])
    decreases |bs|
  {
    if bs != [] {
      var rest := AfterItem(bs);
      ItemsByFirsts(types, rest);
      assert ItemOf(types, ParsePollItem(types, bs[0], Second(bs)).item, bs[0]);
      forall i | 0 <= i < |Firsts(bs)| ensures ItemOf(types, Items(types, bs)[i], Firsts(bs)[i]) {
        if i > 0 {
          assert ItemOf(types, Items(types, rest)[i - 1], Firsts(rest)[i - 1]);
        }
      }
    }
  }

  /** The changer is busy exactly when some item begins with 0x02 or 0x0a. */
  lemma BusyIff(types: CoinTypes, bs: seq<byte>)
    ensures (exists i | 0 <= i < |Items(types, bs)| :: Items(types, bs)[i].status == Busy)
       <==> 0x02 in Firsts(bs) || 0x0a in Firsts(bs)
  {
    var items, fs := Items(types, bs), Firsts(bs);
    ItemsByFirsts(types, bs);
    forall i | 0 <= i < |items| ensures items[i].status == Busy <==> fs[i] in {0x02, 0x0a} {
      assert ItemOf(types, items[i], fs[i]);
      var b2 :| items[i] == ParsePollItem(types, fs[i], b2).item;
      StatusOfByte(types, fs[i], b2);
    }
  }

  /** The nominals of the coins that went to the cash box or the tubes: items 0x40 to 0x5f. */
  function Deposits(types: CoinTypes, bs: seq<byte>): (sum: nat)
    decreases |bs|
  {
    if bs == [] then 0
    else (if 0x40 <= bs[0] < 0x60 then types[bs[0] % 16] else 0) + Deposits(types, AfterItem(bs))
  }

  /** What the loop has still to look at, before byte i. */
  function Unread(bs: seq<byte>, i: nat, skip: bool): (r: seq<byte>)
    requires i <= |bs|
  {
    if skip && i < |bs| then bs[i + 1..] else bs[i..]
  }

  lemma NextItem(types: CoinTypes, bs: seq<byte>, i: nat, items: seq<PollItem>, p: Parsed)
    requires i < |bs| && p == ParsePollItem(types, bs[i], if i + 1 < |bs| then bs[i + 1] else 0)
    ensures items + Items(types, bs[i..]) == items + [p.item] + Items(types, Unread(bs, i + 1, p.skip))
  {
    var rest := bs[i..];
    assert rest[0] == bs[i] && Second(rest) == if i + 1 < |bs| then bs[i + 1] else 0;
    assert AfterItem(rest) == Unread(bs, i + 1, p.skip) by {
      SkipIsWidth(types, bs[i], Second(rest));
    }
  }

  // ---------------------------------------------------------------- handling

  datatype Event = Abort | CreditEvent(amount: nat)

  function Length(replies: seq<seq<byte>>): (n: nat) {
    if replies == [] then 0 else |replies[0]| + Length(replies[1..])
  }

  function AllDeposits(types: CoinTypes, replies: seq<seq<byte>>): (sum: nat) {
    if replies == [] then 0 else Deposits(types, replies[0]) + AllDeposits(types, replies[1..])
  }

  predicate Handled(s: Status) {
    s != Zero && s != Disabled && s != Escrow
  }

  function Amount(pi: PollItem): (a: nat) {
    NominalGroup.Cut(pi.nominal * (if pi.count == 0 then 1 else pi.count))
  }

  function EventsOf(pi: PollItem): (es: seq<Event>) {
    match pi.status
    case ReturnRequest => [Abort]
    case Credit => [CreditEvent(Amount(pi))]
    case _ => []
  }

  function Credited(v: Coins, pi: PollItem): (w: Coins) {
    if pi.status == Credit && pi.nominal in v
    then v[pi.nominal := (v[pi.nominal] + pi.count) % COUNT_LIMIT]
    else v
  }

  function CreditedAll(v: Coins, items: seq<PollItem>): (w: Coins) {
    if items == [] then v else CreditedAll(Credited(v, items[0]), items[1..])
  }

  function AllEvents(items: seq<PollItem>): (es: seq<Event>) {
    if items == [] then [] else EventsOf(items[0]) + AllEvents(items[1..])
  }

  function CreditSum(es: seq<Event>): (sum: nat) {
    if es == [] then 0
    else (if es[0].CreditEvent? then es[0].amount else 0) + CreditSum(es[1..])
  }

  /** The events come in the order of the items. */
  lemma {:induction false} EventsInOrder(items: seq<PollItem>, pi: PollItem)
    ensures AllEvents(items + [pi]) == AllEvents(items) + EventsOf(pi)
  {
    if items == [] {
      assert items + [pi] == [pi] && [pi][1..] == [];
    } else {
      assert (items + [pi])[0] == items[0] && (items + [pi])[1..] == items[1..] + [pi];
      EventsInOrder(items[1..], pi);
    }
  }

  function Aborts(es: seq<Event>): (n: nat) {
    if es == [] then 0 else (if es[0].Abort? then 1 else 0) + Aborts(es[1..])
  }

  lemma {:induction false} AbortsAdd(a: seq<Event>, b: seq<Event>)
    ensures Aborts(a + b) == Aborts(a) + Aborts(b)
  {
    if a == [] {
      assert a + b == b;
    } else {
      assert (a + b)[1..] == a[1..] + b;
      AbortsAdd(a[1..], b);
    }
  }

  /** The customer's return requests: as many as items that begin with 0x01. */
  lemma {:induction false} AbortsAreRequests(types: CoinTypes, bs: seq<byte>)
    ensures Aborts(AllEvents(Items(types, bs))) == Times(Firsts(bs), 0x01)
    decreases |bs|
  {
    if bs != [] {
      var pi, rest := ParsePollItem(types, bs[0], Second(bs)).item, AfterItem(bs);
      StatusOfByte(types, bs[0], Second(bs));
      AbortsAreRequests(types, rest);
      FirstItem(types, bs, pi, rest);
      AbortsAdd(EventsOf(pi), AllEvents(Items(types, rest)));
      OneEventAborts(pi);
      assert Firsts(bs)[1..] == Firsts(rest);
    }
  }

  lemma OneEventAborts(pi: PollItem)
    ensures Aborts(EventsOf(pi)) == if pi.status == ReturnRequest then 1 else 0
  {
    assert forall e: Event :: [e][1..] == [];
  }

  /** No item of a changer's reply reaches the panic. */
  lemma {:induction false} ItemsAreHandled(types: CoinTypes, bs: seq<byte>)
    ensures forall i | 0 <= i < |Items(types, bs)| :: Handled(Items(types, bs)[i].status)
    decreases |bs|
  {
    if bs != [] {
      ItemsAreHandled(types, AfterItem(bs));
    }
  }

  /** The credit group of a changer: its nominals, and counts with room for that many coins. */
  ghost predicate CreditGroup(v: Coins, types: CoinTypes, room: nat) {
    && (forall n :: n in v <==> n in types && n > 0)
    && (forall n | n in v :: v[n] + room < COUNT_LIMIT)
  }

  lemma OneItemCredits(v: Coins, types: CoinTypes, room: nat, b: byte, b2: byte)
    requires CreditGroup(v, types, room + 1)
    ensures var pi := ParsePollItem(types, b, b2).item; var w := Credited(v, pi);
            var worth := if 0x40 <= b < 0x60 then types[b % 16] else 0;
            && CreditGroup(w, types, room)
            && TotalOf(w) == TotalOf(v) + worth
            && CreditSum(EventsOf(pi)) == worth
  {
    var pi := ParsePollItem(types, b, b2).item;
    CreditCodes(types, b, b2);
    if pi.status == Credit {
      OneCoinCredits(v, types, room, pi.nominal, pi);
    }
  }

  /** The codes that give credit are 0x40 to 0x5f, one coin each. */
  lemma CreditCodes(types: CoinTypes, b: byte, b2: byte)
    ensures var pi := ParsePollItem(types, b, b2).item;
            && (pi.status == Credit <==> 0x40 <= b < 0x60)
            && (pi.status == Credit ==> pi.nominal == types[b % 16] && pi.count == 1)
  {}

  lemma OneCoinCredits(v: Coins, types: CoinTypes, room: nat, n: nat, pi: PollItem)
    requires CreditGroup(v, types, room + 1) && n in types
    requires pi.status == Credit && pi.nominal == n && pi.count == 1
    ensures CreditGroup(Credited(v, pi), types, room) && TotalOf(Credited(v, pi)) == TotalOf(v) + n
    ensures CreditSum(EventsOf(pi)) == n
  {
    assert Amount(pi) == n && EventsOf(pi)[1..] == [];
    if n > 0 {
      NominalGroup.AddConserves(v, n, 1);
    }
  }

  /** For every reply: the total of the credit, and the sum of the credit events, rise by
      exactly the nominals of the coins that were kept; and the group is still the changer's. */
  lemma {:induction false} CreditRises(v: Coins, types: CoinTypes, bs: seq<byte>, room: nat)
    requires CreditGroup(v, types, |bs| + room)
    ensures var w := CreditedAll(v, Items(types, bs));
            CreditGroup(w, types, room) && TotalOf(w) == TotalOf(v) + Deposits(types, bs)
    ensures CreditSum(AllEvents(Items(types, bs))) == Deposits(types, bs)
    decreases |bs|
  {
    if bs != [] {
      var pi, rest := ParsePollItem(types, bs[0], Second(bs)).item, AfterItem(bs);
      OneItemCredits(v, types, |bs| + room - 1, bs[0], Second(bs));
      CreditRises(Credited(v, pi), types, rest, |bs| + room - 1 - |rest|);
      FirstItem(types, bs, pi, rest);
      CreditSums(EventsOf(pi), AllEvents(Items(types, rest)));
    }
  }

  lemma FirstItem(types: CoinTypes, bs: seq<byte>, pi: PollItem, rest: seq<byte>)
    requires bs != [] && pi == ParsePollItem(types, bs[0], Second(bs)).item && rest == AfterItem(bs)
    ensures var items := Items(types, bs);
            items != [] && items[0] == pi && items[1..] == Items(types, rest)
  {}

  lemma {:induction false} CreditSums(a: seq<Event>, b: seq<Event>)
    ensures CreditSum(a + b) == CreditSum(a) + CreditSum(b)
  {
    if a == [] {
      assert a + b == b;
    } else {
      assert (a + b)[1..] == a[1..] + b;
      CreditSums(a[1..], b);
    }
  }

  // ---------------------------------------------------------------- the program

  class PollResult {
    var failed: bool
    var items: seq<PollItem>

    constructor ()
      ensures !failed && items == []
    {
      failed, items := false, [];
    }

    predicate HasStatus(s: Status)
      reads this
    {
      exists i | 0 <= i < |items| :: items[i].status == s
    }

    function SingleStatus(): (s: Status)
      reads this
    {
      if |items| != 1 then Zero else items[0].status
    }
  }

  class CoinAcceptor {
    var coinTypeCredit: CoinTypes
    var ready: bool

    constructor (types: CoinTypes)
      ensures coinTypeCredit == types && !ready
    {
      coinTypeCredit, ready := types, false;
    }

    method SupportedNominals() returns (ns: seq<nat>)
      ensures forall n :: n in ns <==> n in coinTypeCredit && n > 0
    {
      ns := [];
      for i := 0 to |coinTypeCredit|
        invariant forall n :: n in ns <==> n in coinTypeCredit[..i] && n > 0
      {
        var n := coinTypeCredit[i];
        assert coinTypeCredit[..i + 1] == coinTypeCredit[..i] + [n];
        if n > 0 {
          ns := ns + [n];
        }
      }
      assert coinTypeCredit[..|coinTypeCredit|] == coinTypeCredit;
    }

    /** The reply, or None when the exchange failed.  The items are those of the grammar; the
        ready signal is given when none of them says busy. */
    method CommandPoll(response: Option<seq<byte>>, result: PollResult)
      modifies this`ready, result
      ensures match response
              case None => result.failed && result.items == [] && ready == old(ready)
              case Some(bs) =>
                && !result.failed && result.items == Items(coinTypeCredit, bs)
                && ready == (old(ready) || !result.HasStatus(Busy))
                && ready == (old(ready) || (0x02 !in Firsts(bs) && 0x0a !in Firsts(bs)))
    {
      result.failed := false;
      result.items := [];
      if response == None {
        result.failed := true;
        return;
      }
      var bs := response.value;
      if |bs| == 0 {
        ready := true;
        return;
      }
      result.items := ParseItems(bs);
      BusyIff(coinTypeCredit, bs);
      if !result.HasStatus(Busy) {
        ready := true;
      }
    }

    method ParseItems(bs: seq<byte>) returns (items: seq<PollItem>)
      ensures items == Items(coinTypeCredit, bs)
    {
      items := [];
      var skip := false;
      for i := 0 to |bs|
        invariant items + Items(coinTypeCredit, Unread(bs, i, skip)) == Items(coinTypeCredit, bs)
      {
        if skip {
          skip := false;
          continue;
        }
        var b := bs[i];
        var b2: byte := 0;
        if i + 1 < |bs| {
          b2 := bs[i + 1];
        }
        var p := ParsePollItem(coinTypeCredit, b, b2);
        NextItem(coinTypeCredit, bs, i, items, p);
        skip := p.skip;
        items := items + [p.item];
      }
    }
  }

  class CoinState {
    const credit: NominalGroup.NominalGroup
    var events: seq<Event>

    const hw: CoinAcceptor

    constructor (acceptor: CoinAcceptor)
      ensures fresh(credit) && hw == acceptor && credit.values == map[] && events == []
    {
      hw := acceptor;
      credit := new NominalGroup.NominalGroup();
      events := [];
    }

    /** After the changer's setup: a group of its nominals, and no credit. */
    method Init()
      modifies credit
      ensures CreditGroup(credit.values, hw.coinTypeCredit, COUNT_LIMIT - 1)
      ensures TotalOf(credit.values) == 0
    {
      var ns := hw.SupportedNominals();
      credit.SetValid(ns);
      CurrencyGreedy.ZeroTotal(credit.values);
    }

    /** One poll and the handling of its result: nothing panics, the credit rises by the coins
        that were kept, and the group stays ready for the next poll. */
    method Round(reply: seq<byte>, ghost room: nat) returns (panicked: bool)
      requires CreditGroup(credit.values, hw.coinTypeCredit, |reply| + room)
      modifies this, credit, hw`ready
      ensures !panicked && CreditGroup(credit.values, hw.coinTypeCredit, room)
      ensures TotalOf(credit.values) == TotalOf(old(credit.values)) + Deposits(hw.coinTypeCredit, reply)
      ensures old(events) <= events && CreditSum(events[|old(events)|..]) == Deposits(hw.coinTypeCredit, reply)
      ensures Aborts(events[|old(events)|..]) == Times(Firsts(reply), 0x01)
      ensures hw.ready == (old(hw.ready) || (0x02 !in Firsts(reply) && 0x0a !in Firsts(reply)))
    {
      ghost var v, es, types := credit.values, events, hw.coinTypeCredit;
      var pr := new PollResult();
      hw.CommandPoll(Some(reply), pr);
      ItemsAreHandled(types, reply);
      CreditRises(v, types, reply, room);
      AbortsAreRequests(types, reply);
      panicked := HandlePollResult(pr);
      assert events == es + AllEvents(Items(types, reply));
    }

    /** The poll loop over any replies: the credit rises by the coins kept in all of them. */
    method Rounds(replies: seq<seq<byte>>, ghost room: nat)
      requires CreditGroup(credit.values, hw.coinTypeCredit, Length(replies) + room)
      modifies this, credit, hw`ready
      ensures CreditGroup(credit.values, hw.coinTypeCredit, room)
      ensures TotalOf(credit.values) == TotalOf(old(credit.values)) + AllDeposits(hw.coinTypeCredit, replies)
      ensures old(events) <= events && CreditSum(events[|old(events)|..]) == AllDeposits(hw.coinTypeCredit, replies)
    {
      ghost var types, start, was := hw.coinTypeCredit, TotalOf(credit.values), events;
      for i := 0 to |replies|
        invariant hw.coinTypeCredit == types
        invariant CreditGroup(credit.values, types, Length(replies[i..]) + room)
        invariant TotalOf(credit.values) + AllDeposits(types, replies[i..]) == start + AllDeposits(types, replies)
        invariant was <= events
        invariant CreditSum(events[|was|..]) + AllDeposits(types, replies[i..]) == AllDeposits(types, replies)
      {
        ghost var before := events;
        assert replies[i..][1..] == replies[i + 1..];
        var panicked := Round(replies[i], Length(replies[i + 1..]) + room);
        CreditSums(before[|was|..], events[|before|..]);
        assert events[|was|..] == before[|was|..] + events[|before|..];
      }
    }

    /** The coin handler; false leaves the item to the common code. */
    method HandleItem(pi: PollItem) returns (handled: bool)
      modifies this, credit
      ensures credit.values == Credited(old(credit.values), pi)
      ensures pi.status != Credit || pi.nominal !in credit.values ==> credit.values == old(credit.values)
      ensures pi.status == Credit && pi.nominal in credit.values ==>
                credit.values[pi.nominal] == (old(credit.values)[pi.nominal] + pi.count) % COUNT_LIMIT
      ensures events == old(events) + EventsOf(pi)
      ensures handled == (pi.status in {Dispensed, ReturnRequest, Rejected, WasReset, Credit})
    {
      match pi.status
      case Dispensed =>
        return true;
      case ReturnRequest =>
        events := events + [Abort];
        return true;
      case Rejected =>
        return true;
      case WasReset =>
        return true;
      case Credit =>
        var ok := credit.Add(pi.nominal, pi.count);
        events := events + [CreditEvent(Amount(pi))];
        return true;
      case _ =>
        return false;
    }

    /** It panics exactly when some item has a status that nobody handles. */
    method HandlePollResult(pr: PollResult) returns (panicked: bool)
      modifies this, credit
      ensures panicked <==> exists i | 0 <= i < |pr.items| :: pr.items[i].status in {Zero, Disabled, Escrow}
      ensures !panicked ==> credit.values == CreditedAll(old(credit.values), pr.items)
      ensures !panicked ==> events == old(events) + AllEvents(pr.items)
    {
      ghost var items := pr.items;
      if pr.SingleStatus() == Busy {
        BusyIsIgnored(credit.values, items);
        return false;
      }
      for i := 0 to |pr.items|
        invariant pr.items == items && forall k | 0 <= k < i :: Handled(items[k].status)
        invariant CreditedAll(credit.values, items[i..]) == CreditedAll(old(credit.values), items)
        invariant events + AllEvents(items[i..]) == old(events) + AllEvents(items)
      {
        NextHandled(credit.values, events, items, i);
        var unhandled := HandleOne(pr.items[i]);
        if unhandled {
          return true;
        }
      }
      return false;
    }

    method HandleOne(pi: PollItem) returns (unhandled: bool)
      modifies this, credit
      ensures credit.values == Credited(old(credit.values), pi)
      ensures events == old(events) + EventsOf(pi)
      ensures unhandled == !Handled(pi.status)
    {
      var handled := HandleItem(pi);
      if handled {
        return false;
      }
      match pi.status
      case Info => return false;
      case Fault => return false;
      case Fatal => return false;
      case Busy => return false;
      case _ => return true;
    }
  }

  lemma BusyIsIgnored(v: Coins, items: seq<PollItem>)
    requires |items| == 1 && items[0].status == Busy
    ensures CreditedAll(v, items) == v && AllEvents(items) == []
  {
    assert items[1..] == [];
  }

  lemma NextHandled(v: Coins, es: seq<Event>, items: seq<PollItem>, i: nat)
    requires i < |items|
    ensures CreditedAll(v, items[i..]) == CreditedAll(Credited(v, items[i]), items[i + 1..])
    ensures es + AllEvents(items[i..]) == es + EventsOf(items[i]) + AllEvents(items[i + 1..])
  {
    assert items[i..][1..] == items[i + 1..];
  }
}
