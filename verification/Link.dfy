/** One session's reader (`read_manager`) and session loop (`drive_session`), with the inbound
    channel and the byte budget between them. Both are state machines here: a label names one
    step, `Enabled` says when it can be taken and `Apply` what it does. */
module Link {
  import opened Limits

  /** What a text frame turns out to be when the loop parses it. */
  datatype Kind = Command | AppPing | Ignored

  /** What the reader hands the loop. */
  datatype Inbound =
    | Text(len: nat, kind: Kind)
    | Ping
    | Closed
    | Failed
    | Ended

  datatype Reader =
    | Reading
    | WaitBudget(len: nat, kind: Kind)
    | WaitRoom(item: Inbound)
    | Parked

  datatype Write = Pong | AppPong | Refusal(id: nat) | Outbound | Heartbeat

  datatype Loop =
    | Select
    | Routing(len: nat, kind: Kind)
    | Writing(what: Write, held: nat)

  datatype Loss = Silence | ReadError | WriteStalled | WriteError | WorkerStopped

  datatype End =
    | AuthenticatedThenClosed
    | AuthenticatedThenLost(loss: Loss)
    | ShutdownRequested

  /** `read` logs what the reader has read that is meant for the loop, `taken` what the loop has
      received and `begun` the writes it has begun. `free` is what is left of the inbound byte
      budget. */
  datatype Link = Link(
    reader: Reader,
    loop: Loop,
    inbound: seq<Inbound>,
    free: int,
    read: seq<Inbound>,
    taken: seq<Inbound>,
    begun: seq<Write>,
    end: Option<End>)

  datatype Label =
    // the reader
    | ReadPing
    | ReadText(len: nat, kind: Kind)
    | ReadOther
    | ReadTerminal(item: Inbound)
    | GetBudget
    | HandOver
    | Verdict
    // the loop
    | Take
    | RouteDone
    | RouteWrite(what: Write)
    | RouteGone
    | StartWrite(what: Write)
    | WriteOk
    | WriteRefusedAfterClose
    | WriteStalls
    | WriteFails
    // the session
    | ShutdownSeen

  const FRESH := Link(Reading, Select, [], INBOUND_BUDGET_BYTES, [], [], [], None)

  predicate Terminal(i: Inbound) {
    i.Closed? || i.Failed? || i.Ended?
  }

  predicate Enabled(l: Link, step: Label) {
    && l.end.None?
    && match step
       case ReadPing | ReadOther | Verdict => l.reader.Reading?
       case ReadText(len, _) => l.reader.Reading? && len <= MAX_INBOUND_WS_BYTES
       case ReadTerminal(item) => l.reader.Reading? && Terminal(item)
       case GetBudget => l.reader.WaitBudget? && l.reader.len <= l.free
       case HandOver => l.reader.WaitRoom? && |l.inbound| < INBOUND_CHANNEL_SIZE
       case Take => l.loop.Select? && l.inbound != []
       case RouteDone | RouteWrite(_) | RouteGone => l.loop.Routing?
       // the select is biased: an inbound item goes first
       case StartWrite(_) => l.loop.Select? && l.inbound == []
       case WriteOk | WriteStalls | WriteFails => l.loop.Writing?
       case WriteRefusedAfterClose => l.loop.Writing? && Closed in l.read
       case ShutdownSeen => true
  }

  function EndOn(item: Inbound): (e: Option<End>) {
    match item
    case Closed | Ended => Some(AuthenticatedThenClosed)
    case Failed => Some(AuthenticatedThenLost(ReadError))
    case _ => None
  }

  function LoopOn(item: Inbound): Loop {
    match item
    case Text(len, kind) => Routing(len, kind)
    case Ping => Writing(Pong, 0)
    case _ => Select
  }

  function Apply(l: Link, step: Label): Link
    requires Enabled(l, step)
  {
    match step
    case ReadPing =>
      // try_send: a full channel costs the loop this ping
      l.(read := l.read + [Ping],
         inbound := if |l.inbound| < INBOUND_CHANNEL_SIZE then l.inbound + [Ping] else l.inbound)
    case ReadText(len, kind) =>
      l.(read := l.read + [Text(len, kind)], reader := WaitBudget(len, kind))
    case ReadOther => l
    case ReadTerminal(item) => l.(read := l.read + [item], reader := WaitRoom(item))
    case GetBudget =>
      l.(free := l.free - l.reader.len, reader := WaitRoom(Text(l.reader.len, l.reader.kind)))
    case HandOver =>
      l.(inbound := l.inbound + [l.reader.item],
         reader := if l.reader.item.Text? then Reading else Parked)
    case Verdict => l.(end := Some(AuthenticatedThenLost(Silence)))
    case Take =>
      var item := l.inbound[0];
      var loop := LoopOn(item);
      l.(inbound := l.inbound[1..], taken := l.taken + [item], loop := loop, end := EndOn(item),
         begun := if loop.Writing? then l.begun + [loop.what] else l.begun)
    case RouteDone => l.(loop := Select, free := l.free + l.loop.len)
    case RouteWrite(what) => l.(loop := Writing(what, l.loop.len), begun := l.begun + [what])
    case RouteGone => l.(end := Some(AuthenticatedThenLost(WorkerStopped)))
    case StartWrite(what) => l.(loop := Writing(what, 0), begun := l.begun + [what])
    case WriteOk | WriteRefusedAfterClose => l.(loop := Select, free := l.free + l.loop.held)
    case WriteStalls => l.(end := Some(AuthenticatedThenLost(WriteStalled)))
    case WriteFails => l.(end := Some(AuthenticatedThenLost(WriteError)))
    case ShutdownSeen => l.(end := Some(ShutdownRequested))
  }

  // ── What is where ──────────────────────────────────────────────────

  function Bytes(s: seq<Inbound>): nat {
    if s == [] then 0 else Bytes(s[..|s| - 1]) + Cost(s[|s| - 1])
  }

  function Cost(i: Inbound): nat {
    if i.Text? then i.len else 0
  }

  function ReaderBytes(r: Reader): nat {
    if r.WaitRoom? then Cost(r.item) else 0
  }

  function LoopBytes(l: Loop): nat {
    match l
    case Select => 0
    case Routing(len, _) => len
    case Writing(_, held) => held
  }

  /** The item the reader has read and not yet handed over. */
  function InHand(r: Reader): seq<Inbound> {
    match r
    case WaitBudget(len, kind) => [Text(len, kind)]
    case WaitRoom(item) => [item]
    case _ => []
  }

  /** `a` is what is left of `b` once some of its pings are dropped. */
  ghost predicate DropsOnlyPings(a: seq<Inbound>, b: seq<Inbound>) {
    if b == [] then a == []
    else
      || (a != [] && a[|a| - 1] == b[|b| - 1] && DropsOnlyPings(a[..|a| - 1], b[..|b| - 1]))
      || (b[|b| - 1].Ping? && DropsOnlyPings(a, b[..|b| - 1]))
  }

  function Delivered(l: Link): seq<Inbound> {
    l.taken + l.inbound + InHand(l.reader)
  }

  // ── The invariant ──────────────────────────────────────────────────

  /** Every byte of the inbound budget is free, in the reader's hand, in the channel or held by
      the frame the loop is on. */
  predicate BudgetKept(l: Link) {
    l.free + ReaderBytes(l.reader) + Bytes(l.inbound) + LoopBytes(l.loop) == INBOUND_BUDGET_BYTES
  }

  predicate FitsCap(i: Inbound) {
    Cost(i) <= MAX_INBOUND_WS_BYTES
  }

  ghost predicate Bounded(l: Link) {
    && |l.inbound| <= INBOUND_CHANNEL_SIZE
    && (forall i | 0 <= i < |l.inbound| :: FitsCap(l.inbound[i]))
    && (l.reader.WaitBudget? ==> l.reader.len <= MAX_INBOUND_WS_BYTES)
    && (l.reader.WaitRoom? ==> FitsCap(l.reader.item) && !l.reader.item.Ping?)
    && LoopBytes(l.loop) <= MAX_INBOUND_WS_BYTES
    && l.free >= 0
  }

  /** A terminal item is the last thing read, and once read the reader reads no more. */
  ghost predicate TerminalLast(l: Link) {
    && (forall i | 0 <= i < |l.read| - 1 :: !Terminal(l.read[i]))
    && ((l.reader.Parked? || (l.reader.WaitRoom? && Terminal(l.reader.item)))
        <==> (l.read != [] && Terminal(l.read[|l.read| - 1])))
  }

  /** Nothing terminal is left behind the loop: the one it took ended the session, a Close or the end
      of the stream as closed by the manager and a read error as lost. */
  ghost predicate EndMatches(l: Link) {
    && (forall i | 0 <= i < |l.taken| && (l.taken[i].Closed? || l.taken[i].Ended?) ::
          l.end == Some(AuthenticatedThenClosed))
    && (forall i | 0 <= i < |l.taken| && l.taken[i].Failed? :: l.end == Some(AuthenticatedThenLost(ReadError)))
    && (l.end == Some(AuthenticatedThenClosed) ==>
          l.loop.Select? && l.taken != [] && (l.taken[|l.taken| - 1].Closed? || l.taken[|l.taken| - 1].Ended?))
    && (l.end == Some(AuthenticatedThenLost(ReadError)) ==>
          l.taken != [] && l.taken[|l.taken| - 1].Failed?)
    && (l.end == Some(AuthenticatedThenLost(Silence)) ==> l.reader.Reading?)
  }

  ghost predicate Inv(l: Link) {
    && Bounded(l)
    && BudgetKept(l)
    && DropsOnlyPings(Delivered(l), l.read)
    && TerminalLast(l)
    && EndMatches(l)
  }
}
