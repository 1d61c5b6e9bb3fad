/** The gateway firmware as a state machine on values: every interrupt handler and every
    main-loop call is one atomic step.  The classes in FirmwareMdb.dfy, FirmwareTwi.dfy
    and FirmwareMain.dfy take these steps on buffers in place; the other Gateway files prove
    what their runs do. */
module Gateway {
  import opened Bytes
  import opened Crc
  import opened Protocol

  const MDB_ACK: byte := 0x00
  const MDB_RET: byte := 0xaa
  const MDB_NAK: byte := 0xff

  /** A 9-bit UART word. */
  datatype Word = Word(value: byte, ninth: bool)

  datatype MdbState = Idle | Error | Send | Recv | RecvEnd | BusReset {
    function Code(): (r: byte) {
      match this
      case Idle => 0
      case Error => 1
      case Send => 2
      case Recv => 3
      case RecvEnd => 4
      case BusReset => 5
    }
  }

  type Block = s: seq<byte> | |s| <= MDB_PACKET_SIZE
  type CommandBuffer = s: seq<byte> | |s| <= COMMAND_MAX_LENGTH
  type ResponseBuffer = s: seq<byte> | |s| <= RESPONSE_MAX_LENGTH
  type TwiStat = s: seq<byte> | |s| == 8 witness [0, 0, 0, 0, 0, 0, 0, 0]

  /** The MDB side.  The last three fields are history: the words received since the receiver
      was last started, the words of the block being sent, and everything ever written to the
      UART data register while the transmitter was on (txen), which is what the bus saw. */
  datatype Link = Link(
    state: MdbState,
    input: Block, checksum: byte, last: byte,
    output: Block, used: byte,
    retry: bool,
    errCode: byte, errState: MdbState, errData: byte,
    udrie: bool, txcie: bool, txen: bool, timer: bool,
    heard: seq<Word>, sending: seq<Word>, wire: seq<Word>)

  /** History of the reply queue: packets accepted so far, those already gone to the host,
      and those in each buffer.  Not intact once a buffer overflowed or the bus failed. */
  datatype Ledger = Ledger(
    accepted: seq<Packet>, consumed: seq<Packet>, reply: seq<Packet>, pending: seq<Packet>,
    intact: bool)

  /** What the I2C hardware is addressed as, if it is. */
  datatype BusMode = Unaddressed | Receiver | Transmitter

  /** The host side: the command buffer, and the double buffer of replies (twi_out, which
      the bus reads, and master_out, which fills up meanwhile).  twea is the bit of TWCR that
      lets the hardware acknowledge, its own address included. */
  datatype Twi = Twi(
    idle: bool, twea: bool, mode: BusMode, input: CommandBuffer,
    reply: ResponseBuffer, used: byte,
    pending: ResponseBuffer,
    stat: TwiStat, ledger: Ledger)

  /** How the main loop goes on: Flash spins without it, Reset with interrupts off as well. */
  datatype Course = Running | Spinning | Stopped

  datatype State = State(link: Link, twi: Twi, mcusr: byte, course: Course) {
    const halted: bool := course != Running
  }

  // ---------------------------------------------------------------- replies (twi.c)

  predicate Fits(t: Twi, p: Packet) {
    |t.pending| + p.Size() <= RESPONSE_MAX_LENGTH
  }

  /** master_out_1, master_out_2 and master_out_n: queue a packet, or report the overflow by
      overwriting the buffer that the bus reads. */
  function Emit(t: Twi, p: Packet): (t': Twi) {
    if Fits(t, p) then
      t.(pending := t.pending + Encode(p),
         ledger := t.ledger.(accepted := t.ledger.accepted + [p], pending := t.ledger.pending + [p]))
    else
      t.(reply := Encode(Packet(RESPONSE_BUFFER_OVERFLOW, [p.Size()])),
         ledger := t.ledger.(intact := false))
  }

  function EmitAll(t: Twi, ps: seq<Packet>): (t': Twi)
    decreases |ps|
  {
    if ps == [] then t else EmitAll(Emit(t, ps[0]), ps[1..])
  }

  /** Buffer_Swap and the clears after it.  The reply swapped out had been read to its end. */
  function Swap(t: Twi): (t': Twi) {
    t.(reply := t.pending, used := 0, pending := [],
       ledger := t.ledger.(consumed := t.ledger.consumed + t.ledger.reply,
                           reply := t.ledger.pending, pending := []))
  }

  // ---------------------------------------------------------------- MDB (mdb.c)

  function FastError(l: Link, code: byte, data: byte): (l': Link) {
    l.(errState := l.state, state := Error, errCode := code, errData := data)
  }

  function StartReceive(l: Link): (l': Link) {
    l.(input := [], checksum := 0, last := 0, timer := true, heard := [])
  }

  function ResetLink(l: Link): (l': Link) {
    l.(timer := false, errCode := 0, input := [], output := [], used := 0,
       checksum := 0, last := 0, state := Idle, retry := false, heard := [], sending := [])
  }

  /** The bus after ws more have been written to the UART, which sends them only with its
      transmitter on. */
  function WireWith(l: Link, ws: seq<Word>): (wire: seq<Word>) {
    if l.txen then l.wire + ws else l.wire
  }

  function Write(l: Link, w: Word): (l': Link) {
    l.(wire := WireWith(l, [w]))
  }

  /** mdb_start_send with the UART ready. */
  function StartSend(l: Link): (l': Link)
    requires l.output != []
  {
    var first := Word(l.output[0], true);
    Write(l, first).(timer := true, state := Send, retry := false, sending := [first],
                     used := 1, udrie := true)
  }

  datatype Verdict = Verdict(link: Link, answer: Option<Packet>)

  function Finished(l: Link, p: Packet): (v: Verdict) {
    Verdict(ResetLink(l), Some(p))
  }

  /** What mdb_step makes of the link: its new state, and the packet to queue, if any. */
  function MdbVerdict(l: Link): (v: Verdict) {
    if l.errCode != 0 then Finished(l, Packet(l.errCode, [l.errState.Code(), l.errData]))
    else if l.state == RecvEnd then
      if l.input == [] then
        if l.last == MDB_ACK then Finished(l, Packet(RESPONSE_MDB_SUCCESS, []))
        else if l.last == MDB_NAK then Finished(l, Packet(RESPONSE_MDB_NAK, [l.last]))
        else Finished(l, Packet(RESPONSE_MDB_INVALID_END, [l.last]))
      else if l.last != l.checksum then
        if l.retry then
          Finished(Write(l, Word(MDB_NAK, false)), Packet(RESPONSE_MDB_INVALID_CHK, [l.last]))
        else
          Verdict(StartReceive(Write(l, Word(MDB_RET, false)).(retry := true)), None)
      else
        Finished(Write(l, Word(MDB_ACK, false)), Packet(RESPONSE_MDB_SUCCESS, l.input))
    else Verdict(l, None)
  }

  function MdbStep(g: State): (g': State) {
    var v := MdbVerdict(g.link);
    g.(link := v.link, twi := if v.answer.Some? then Emit(g.twi, v.answer.value) else g.twi)
  }

  /** USART_RX_vect: err holds the error flags of the status register. */
  function RxIsr(l0: Link, err: byte, w: Word): (l': Link) {
    var l := l0.(timer := false, heard := l0.heard + [w]);
    if err != 0 then FastError(l, RESPONSE_UART_READ_ERROR, err)
    else if l.state != Recv then FastError(l, RESPONSE_UART_READ_UNEXPECTED, w.value)
    else if w.ninth then l.(last := w.value, state := RecvEnd)
    else
      var l1 := l.(checksum := Add8(l.checksum, w.value));
      if |l.input| + 1 > MDB_PACKET_SIZE then
        FastError(l1, RESPONSE_MDB_RECEIVE_OVERFLOW, |l.input|)
      else
        l1.(input := l.input + [w.value], timer := true)
  }

  /** USART_UDRE_vect. */
  function UdreIsr(l0: Link): (l': Link) {
    var l := l0.(timer := false);
    if l.used >= |l.output| then FastError(l, RESPONSE_MDB_SEND_OVERFLOW, l.used)
    else
      var w, n := Word(l.output[l.used], false), l.used + 1;
      var l1 := Write(l, w).(used := n, sending := l.sending + [w], timer := true);
      if n == |l.output| then l1.(udrie := false, txcie := true) else l1
  }

  /** USART_TX_vect. */
  function TxIsr(l: Link): (l': Link) {
    StartReceive(l.(txcie := false)).(state := Recv)
  }

  /** TIMER0_OVF_vect. */
  function TimerIsr(l0: Link): (l': Link) {
    var l := l0.(timer := false);
    match l.state
    case Idle => l
    case BusReset => l.(txen := true)
    case _ => FastError(l, RESPONSE_MDB_TIMEOUT, 5)
  }

  // ---------------------------------------------------------------- commands (main.c)

  /** What master_command leaves in mdb_out: the data and then its sum, each only if it
      fits. */
  function RequestBlock(data: seq<byte>): (b: Block) {
    var kept := if |data| <= MDB_PACKET_SIZE then data else [];
    if |kept| + 1 <= MDB_PACKET_SIZE then kept + [Sum(data)] else kept
  }

  function DebugData(g: State): (d: Data) {
    ['M' as int, 1, g.link.state.Code(), 'T' as int, 8] + g.twi.stat
    + ['U' as int, g.mcusr] + seq<byte>(25, _ => 0)
  }

  /** What a command changes besides the reply queue, and the packets it queues. */
  datatype Effect = Effect(link: Link, mcusr: byte, course: Course, answers: seq<Packet>)

  function Apply(g: State, f: Effect): (g': State) {
    State(f.link, EmitAll(g.twi, f.answers), f.mcusr, f.course)
  }

  function Answer(g: State, ps: seq<Packet>): (f: Effect) {
    Effect(g.link, g.mcusr, g.course, ps)
  }

  const STARTED := Packet(RESPONSE_MDB_STARTED, [])

  /** The line is pulled low until the timer enables the transmitter again. */
  function StartBusReset(l: Link): (l': Link) {
    l.(state := BusReset, txen := false, timer := true)
  }

  /** The dispatch on the command header.  Reset and Flash do not return. */
  function Execute(g: State, header: byte, data: Data, ready: bool): (f: Effect) {
    if header == COMMAND_POLL then
      Answer(g, if data != [] then [Packet(RESPONSE_BAD_PACKET, [1])] else [])
    else if header == COMMAND_CONFIG then
      Answer(g, [Packet(RESPONSE_NOT_IMPLEMENTED, [])]).(mcusr := 0)
    else if header == COMMAND_RESET then Answer(g, []).(course := Stopped)
    else if header == COMMAND_FLASH then Answer(g, []).(course := Spinning)
    else if header == COMMAND_DEBUG then
      Answer(g, [Packet(RESPONSE_DEBUG, DebugData(g))])
    else if header == COMMAND_MDB_BUS_RESET then
      if |data| != 2 then Answer(g, [Packet(RESPONSE_BAD_PACKET, [])])
      else if g.link.state != Idle then Answer(g, [Packet(RESPONSE_MDB_BUSY, [])])
      else
        Answer(g, [STARTED]).(link := StartBusReset(g.link))
    else if header == COMMAND_MDB_TRANSACTION_SIMPLE then
      if g.link.state != Idle then Answer(g, [Packet(RESPONSE_MDB_BUSY, [])])
      else Transaction(g, data, ready)
    else if header == COMMAND_MDB_TRANSACTION_CUSTOM then
      Answer(g, [Packet(RESPONSE_NOT_IMPLEMENTED, [])])
    else
      Answer(g, [Packet(RESPONSE_UNKNOWN_COMMAND, [])])
  }

  function Transaction(g: State, data: Data, ready: bool): (f: Effect) {
    var l := g.link.(output := RequestBlock(data), used := 0);
    if ready then Answer(g, [STARTED]).(link := StartSend(l))
    else Answer(g, [Packet(RESPONSE_UART_SEND_BUSY, [0]), STARTED]).(link := ResetLink(l))
  }

  /** The bytes that master_command claims of the rest of the input. */
  function Claimed(bs: seq<byte>): (n: nat) {
    if |bs| < 3 then |bs| else bs[0]
  }

  /** What master_command finds at the start of the rest of the input. */
  datatype Command = BadFrame | BadCheck(crc: byte) | Command(header: byte, data: Data)

  function CommandAt(bs: seq<byte>): (c: Command)
    requires |bs| < 3 || bs[0] > 0
  {
    if |bs| < 3 || bs[0] > |bs| then BadFrame
    else if !Checks(bs[..bs[0]]) then BadCheck(bs[bs[0] - 1])
    else Command(bs[1], DataAt(bs))
  }

  /** What stands between header and CRC.  A frame of one byte never passes the check, and one
      of two has a header that names no command, so that its data is not looked at. */
  function DataAt(bs: seq<byte>): (data: Data)
    requires |bs| > 0 && bs[0] <= |bs|
  {
    if bs[0] < 3 then [] else bs[2..bs[0] - 1]
  }

  /** Reset and Flash do not return. */
  predicate Stops(c: Command) {
    c.Command? && (c.header == COMMAND_RESET || c.header == COMMAND_FLASH)
  }

  function Perform(g: State, c: Command, ready: bool): (f: Effect) {
    match c
    case BadFrame => Answer(g, [Packet(RESPONSE_BAD_PACKET, [0])])
    case BadCheck(crc) => Answer(g, [Packet(RESPONSE_INVALID_CRC, [crc])])
    case Command(header, data) => Execute(g, header, data, ready)
  }

  /** twi_step and master_command read only what the host wrote.  A claimed length of 0 would
      have them read before and behind it, and one that wraps the 8-bit offset would go on 256
      bytes further. */
  predicate WellFramed(bs: seq<byte>, offset: nat) {
    |bs| < 3
    || (bs[0] > 0
        && if bs[0] > |bs| then offset + bs[0] < 256
           else Stops(CommandAt(bs)) || WellFramed(bs[bs[0]..], offset + bs[0]))
  }

  datatype Placed = Placed(at: nat, command: Command)

  /** The commands in one bus write, each with its offset, up to one that does not return. */
  function Commands(bs: seq<byte>, offset: nat): (cs: seq<Placed>)
    requires WellFramed(bs, offset)
    decreases |bs|
  {
    if bs == [] then []
    else
      [Placed(offset, CommandAt(bs))]
      + (if Claimed(bs) >= |bs| || Stops(CommandAt(bs)) then []
         else Commands(bs[Claimed(bs)..], offset + Claimed(bs)))
  }

  /** One command after the other, up to one that does not return.  The UART-ready flag is
      sampled at each. */
  function PerformAll(g: State, cs: seq<Placed>, ready: nat -> bool): (g': State)
    decreases |cs|
  {
    if cs == [] then g
    else
      var g1 := Apply(g, Perform(g, cs[0].command, ready(cs[0].at)));
      if g1.halted then g1 else PerformAll(g1, cs[1..], ready)
  }

  predicate Consumable(g: State) {
    WellFramed(g.twi.input, 0)
  }

  function TakeInput(g: State, ready: nat -> bool): (g': State)
    requires Consumable(g)
  {
    if |g.twi.input| == 1 then Apply(g, Answer(g, [Packet(RESPONSE_TWI, [g.twi.input[0]])]))
    else PerformAll(g, Commands(g.twi.input, 0), ready)
  }

  function TwiStep(g: State, ready: nat -> bool): (g': State)
    requires Consumable(g)
  {
    Settled(TakeInput(g, ready))
  }

  /** The end of twi_step, once the input has been taken. */
  function Settled(g: State): (g': State) {
    if g.halted then g
    else
      var t := g.twi.(input := []);
      g.(twi := if t.used >= |t.reply| && t.pending != [] then Swap(t) else t)
  }

  lemma PerformOne(g: State, c: Placed, ready: nat -> bool)
    ensures PerformAll(g, [c], ready) == Apply(g, Perform(g, c.command, ready(c.at)))
  {
    assert [c][1..] == [];
  }

  lemma EmitOne(t: Twi, p: Packet)
    ensures EmitAll(t, [p]) == Emit(t, p)
  {
    assert [p][1..] == [];
  }

  // ---------------------------------------------------------------- the I2C interrupt

  datatype TwiEvent =
    | NoInfo
    | BusError
    | WriteAddressed
    | ByteIn(value: byte)
    | ByteInNacked(general: bool)
    | StopSeen
    | ReadAddressed
    | ByteOutAcked
    | LastByteOutAcked
    | ByteOutNacked
    | OtherStatus

  /** What the hardware can report.  It answers its address only with twea set, and what it
      reports of a byte depends on whether twea was set for it. */
  predicate MayReport(mode: BusMode, twea: bool, e: TwiEvent) {
    match e
    case NoInfo => true
    case BusError => true
    case OtherStatus => true
    case WriteAddressed => mode == Unaddressed && twea
    case ByteIn(_) => mode == Receiver && twea
    case ByteInNacked(_) => mode == Receiver && !twea
    case StopSeen => mode == Receiver
    case ReadAddressed => mode == Unaddressed && twea
    case ByteOutAcked => mode == Transmitter && twea
    case LastByteOutAcked => mode == Transmitter && !twea
    case ByteOutNacked => mode == Transmitter
  }

  predicate Possible(t: Twi, e: TwiEvent) {
    MayReport(t.mode, t.twea, e)
  }

  /** The hardware answers its address. */
  predicate Answers(t: Twi) {
    t.mode == Unaddressed && t.twea
  }

  /** What the handler leaves behind: the state, and the byte loaded for the host if it loads
      one. */
  datatype TwiResult = TwiResult(t: Twi, out: Option<byte>)

  function Count(s: TwiStat, i: nat): (s': TwiStat)
    requires i < 8
  {
    s[i := Add8(s[i], 1)]
  }

  /** How what happened on the bus leaves the hardware. */
  function ModeAfter(m: BusMode, e: TwiEvent): (m': BusMode) {
    match e
    case NoInfo => m
    case OtherStatus => m
    case WriteAddressed => Receiver
    case ByteIn(_) => m
    case ReadAddressed => Transmitter
    case ByteOutAcked => m
    case BusError => Unaddressed
    case ByteInNacked(_) => Unaddressed
    case StopSeen => Unaddressed
    case LastByteOutAcked => Unaddressed
    case ByteOutNacked => Unaddressed
  }

  /** TWI_vect.  All but NoInfo write TWCR, and with it twea. */
  function Handled(t: Twi, e: TwiEvent): (r: TwiResult) {
    match e
    case NoInfo => TwiResult(t.(stat := Count(t.stat, 0)), None)
    case BusError =>
      TwiResult(t.(stat := Count(t.stat, 1), input := [], reply := [], used := 0, twea := false,
                   ledger := t.ledger.(intact := false)), None)
    case WriteAddressed => TwiResult(t.(idle := false, input := [], twea := true), None)
    case ByteIn(b) =>
      TwiResult(t.(idle := false, twea := true,
                   input := if |t.input| + 1 > COMMAND_MAX_LENGTH then t.input else t.input + [b]), None)
    case ByteInNacked(general) =>
      TwiResult(t.(stat := Count(t.stat, if general then 3 else 2), idle := false, twea := false), None)
    case StopSeen => TwiResult(t.(stat := Count(t.stat, 6), idle := true, twea := true), None)
    case ReadAddressed =>
      if t.reply == [] then
        TwiResult(t.(stat := Count(t.stat, 7), idle := false, twea := false), Some(0))
      else TwiResult(t.(idle := false, used := 0, twea := true), Some(|t.reply|))
    case ByteOutAcked =>
      if t.used < |t.reply| then
        TwiResult(t.(idle := false, used := t.used + 1, twea := true), Some(t.reply[t.used]))
      else TwiResult(t.(idle := false, twea := false), Some(0))
    case LastByteOutAcked =>
      TwiResult(t.(stat := Count(t.stat, 5), idle := true, reply := [], used := 0, twea := true,
                   ledger := t.ledger.(consumed := t.ledger.consumed + t.ledger.reply, reply := [])), None)
    case ByteOutNacked =>
      TwiResult(t.(stat := Count(t.stat, 4), idle := true, used := 0, twea := false), None)
    case OtherStatus => TwiResult(t.(twea := false), None)
  }

  /** An event on the bus, and the interrupt that it causes. */
  function TwiIsr(t: Twi, e: TwiEvent): (r: TwiResult) {
    Handled(t.(mode := ModeAfter(t.mode, e)), e)
  }

  // ---------------------------------------------------------------- runs

  datatype Event =
    | RxWord(err: byte, w: Word)
    | Udre
    | TxDone
    | TimerOverflow
    | PollMdb
    | PollTwi(ready: nat -> bool)
    | Bus(e: TwiEvent)

  /** A poll of the command buffer needs well-framed input; everything else may happen at
      any time. */
  predicate Admissible(g: State, e: Event) {
    e.PollTwi? && !g.halted && g.twi.idle ==> Consumable(g)
  }

  /** One interrupt or one main-loop call.  Interrupts that are not enabled do not happen. */
  function Step(g: State, e: Event): (g': State)
    requires Admissible(g, e)
  {
    if g.course == Stopped then g
    else
      match e
      case RxWord(err, w) => g.(link := RxIsr(g.link, err, w))
      case Udre => if g.link.udrie then g.(link := UdreIsr(g.link)) else g
      case TxDone => if g.link.txcie then g.(link := TxIsr(g.link)) else g
      case TimerOverflow => if g.link.timer then g.(link := TimerIsr(g.link)) else g
      case PollMdb => if !g.halted && g.link.state != Idle then MdbStep(g) else g
      case PollTwi(ready) => if !g.halted && g.twi.idle then TwiStep(g, ready) else g
      case Bus(b) => if Possible(g.twi, b) then g.(twi := TwiIsr(g.twi, b).t) else g
  }

  predicate AdmissibleRun(g: State, es: seq<Event>)
    decreases |es|
  {
    es == [] || (Admissible(g, es[0]) && AdmissibleRun(Step(g, es[0]), es[1..]))
  }

  function Run(g: State, es: seq<Event>): (g': State)
    requires AdmissibleRun(g, es)
    decreases |es|
  {
    if es == [] then g else Run(Step(g, es[0]), es[1..])
  }

  ghost predicate RunsTo(g: State, es: seq<Event>, g': State) {
    AdmissibleRun(g, es) && Run(g, es) == g'
  }

  /** The state when everything is initialised and nothing has happened. */
  function Blank(mcusr: byte): (g: State) {
    var l := Link(Idle, [], 0, 0, [], 0, false, 0, Idle, 0, false, false, true, false, [], [], []);
    var t := Twi(true, true, Unaddressed, [], [], 0, [], [0, 0, 0, 0, 0, 0, 0, 0],
                 Ledger([], [], [], [], true));
    State(l, t, mcusr, Running)
  }

  /** The state in which main enters its loop: its greeting is queued. */
  function Initial(mcusr: byte): (g: State) {
    var g := Blank(mcusr);
    g.(twi := Emit(g.twi, Packet(RESPONSE_DEBUG, [0xbe, 0xeb, 0xee])))
  }

  lemma {:induction false} RunComposes(g: State, a: seq<Event>, b: seq<Event>)
    requires AdmissibleRun(g, a) && AdmissibleRun(Run(g, a), b)
    ensures AdmissibleRun(g, a + b) && Run(g, a + b) == Run(Run(g, a), b)
    decreases |a|
  {
    if a == [] {
      assert a + b == b;
    } else {
      assert (a + b)[0] == a[0] && (a + b)[1..] == a[1..] + b;
      RunComposes(Step(g, a[0]), a[1..], b);
    }
  }

  lemma RunOne(g: State, e: Event)
    requires Admissible(g, e)
    ensures AdmissibleRun(g, [e]) && Run(g, [e]) == Step(g, e)
  {
    assert [e][1..] == [];
    assert AdmissibleRun(Step(g, e), [e][1..]);
  }

  lemma RunFirst(g: State, es: seq<Event>, g1: State)
    requires es != [] && Admissible(g, es[0]) && g1 == Step(g, es[0]) && AdmissibleRun(g1, es[1..])
    ensures AdmissibleRun(g, es) && Run(g, es) == Run(g1, es[1..])
  {}

  lemma RunOneMore(g: State, es: seq<Event>, e: Event)
    requires AdmissibleRun(g, es) && Admissible(Run(g, es), e)
    ensures AdmissibleRun(g, es + [e]) && Run(g, es + [e]) == Step(Run(g, es), e)
  {
    RunOne(Run(g, es), e);
    RunComposes(g, es, [e]);
  }

  lemma RunTwo(g: State, a: Event, b: Event)
    requires Admissible(g, a) && Admissible(Step(g, a), b)
    ensures AdmissibleRun(g, [a, b]) && Run(g, [a, b]) == Step(Step(g, a), b)
  {
    RunOne(g, a);
    RunOneMore(g, [a], b);
    assert [a] + [b] == [a, b];
  }
}
