/** The three ledger tables, the guards of the sealed schema, and one write transaction as a function. */
module LedgerModel {
  import opened Wrappers
  import opened Digits
  import opened Identifiers
  import opened Timestamps
  import opened AuditContracts
  import opened AuditVerifier
  import opened WalRetry

  // ---------------------------------------------------------------- tables
  datatype SessionRow = SessionRow(genesis: string, createdAt: string)

  datatype BlockRow = BlockRow(
    blockId: string, seqNo: nat, prev: string, current: string,
    intent: string, reasoning: string, action: string, createdAt: string)

  datatype EventRow = EventRow(eventId: string, sessionId: string, isTampered: bool, broken: Option<nat>, createdAt: string)

  /** Blocks of a session are held in block_seq order, events in rowid order. */
  datatype Ledger = Ledger(sessions: map<string, SessionRow>, blocks: map<string, seq<BlockRow>>, events: seq<EventRow>)

  const EMPTY_LEDGER := Ledger(map[], map[], [])

  function Rows(l: Ledger, s: string): seq<BlockRow> { if s in l.blocks then l.blocks[s] else [] }

  function RowWithSeq(rows: seq<BlockRow>, n: int): Option<BlockRow> {
    if rows == [] then None
    else if rows[0].seqNo == n then Some(rows[0])
    else RowWithSeq(rows[1..], n)
  }

  function InsertBySeq(rows: seq<BlockRow>, row: BlockRow): seq<BlockRow> {
    if rows == [] || row.seqNo < rows[0].seqNo then [row] + rows
    else [rows[0]] + InsertBySeq(rows[1..], row)
  }

  predicate IsLatched(events: seq<EventRow>, s: string) { LatchedSeq(events, s).Some? }

  /** broken_seq of the earliest tampered verdict of the session. */
  function LatchedSeq(events: seq<EventRow>, s: string): Option<nat> {
    if events == [] then None
    else if events[0].sessionId == s && events[0].isTampered && events[0].broken.Some? then events[0].broken
    else LatchedSeq(events[1..], s)
  }

  function EventCount(events: seq<EventRow>, s: string): nat {
    if events == [] then 0 else (if events[0].sessionId == s then 1 else 0) + EventCount(events[1..], s)
  }

  predicate BlockIdUsed(l: Ledger, id: string) {
    exists s | s in l.blocks :: exists r | r in l.blocks[s] :: r.blockId == id
  }

  // ---------------------------------------------------------------- rows and blocks
  function RowOf(b: Block): BlockRow {
    BlockRow(b.blockId, b.seqNo, b.prev, b.current, b.intent, b.reasoning, b.action, Canonical(b.ts))
  }

  /** A stored row as the immutable block, when the block model accepts it. */
  function LoadRow(s: string, row: BlockRow): Option<Block> {
    var ts := Parse(row.createdAt);
    if !AcceptedByDollar(s) || ts.None? || !InRange(ts.value) then None
    else
      var b := Block(row.blockId, Trimmed(s), row.seqNo, row.prev, row.current, row.intent, row.reasoning, row.action,
                     ts.value);
      if IsSealedFormat(b) then Some(b) else None
  }

  function LoadBlocks(s: string, rows: seq<BlockRow>): Option<seq<Block>> {
    if rows == [] then Some([])
    else
      match LoadRow(s, rows[0])
      case None => None
      case Some(b) =>
        match LoadBlocks(s, rows[1..])
        case None => None
        case Some(rest) => Some([b] + rest)
  }

  function RowsOf(c: seq<Block>): seq<BlockRow> { seq(|c|, i requires 0 <= i < |c| => RowOf(c[i])) }

  lemma LoadOneStored(s: string, b: Block)
    requires IsSessionId(s) && IsSealedFormat(b) && b.sessionId == s
    ensures LoadRow(s, RowOf(b)) == Some(b)
  {
    hide Canonical;
    hide Parse;
    ParseCanonical(b.ts);
  }

  /** A row loads exactly when it is the row of a block of that session in sealed format, and then as that block. */
  lemma LoadRowIff(s: string, row: BlockRow, b: Block)
    requires IsSessionId(s)
    ensures LoadRow(s, row) == Some(b) <==> IsSealedFormat(b) && b.sessionId == s && RowOf(b) == row
  {
    hide Canonical;
    hide Parse;
    hide MatchesId;
    hide IsDigest;
    if LoadRow(s, row) == Some(b) { CanonicalParse(row.createdAt); }
    if IsSealedFormat(b) && b.sessionId == s && RowOf(b) == row { ParseCanonical(b.ts); }
  }

  /** Loading what was stored gives the stored blocks back. */
  lemma {:induction false} LoadStored(s: string, c: seq<Block>)
    requires IsSessionId(s) && Sealed(c) && forall b :: b in c ==> b.sessionId == s
    ensures LoadBlocks(s, RowsOf(c)) == Some(c)
  {
    hide LoadRow;
    hide RowOf;
    hide IsSealedFormat;
    if c != [] {
      assert c[0] in c;
      LoadOneStored(s, c[0]);
      assert RowsOf(c)[1..] == RowsOf(c[1..]);
      forall b | b in c[1..] ensures b in c {}
      LoadStored(s, c[1..]);
      assert c == [c[0]] + c[1..];
    }
  }

  // ---------------------------------------------------------------- faults and errors
  datatype FaultPoint = NoFault | AtBegin | AtSessionInsert | AtInsert | AtCommit

  /** Where the database refuses to proceed in one attempt, and whether the refusal is a lock. */
  datatype Fault = Fault(point: FaultPoint, locked: bool)

  function FaultAt(faults: seq<Fault>, i: nat): Fault { if i < |faults| then faults[i] else Fault(NoFault, false) }

  datatype Guard =
    | OutOfSequence | WrongLink | TimeRegressed | BeforeSession | Latched
    | CleanAfterTampered | BrokenOutOfRange | CheckFailed | DuplicateKey | NoSession

  datatype TxnError = DbLocked | DbOther | BadValue | Integrity(guard: Guard)

  function Raise(f: Fault): TxnError { if f.locked then DbLocked else DbOther }

  datatype FailureClass = TRANSIENT | DETERMINISTIC | BUSINESS | SECURITY

  function ClassifyGuard(g: Guard): FailureClass {
    match g
    case WrongLink => SECURITY
    case CheckFailed => DETERMINISTIC
    case _ => BUSINESS
  }

  // ---------------------------------------------------------------- appending
  datatype Request = Request(sessionId: string, intent: string, reasoning: string, action: string, ts: Option<Utc>)

  function OpenSession(h: Sha256, l: Ledger, s: string, ts: Utc, f: Fault): Result<Ledger, TxnError> {
    if s in l.sessions then Ok(l)
    else if !AcceptedByDollar(s) || !InRange(ts) then Err(BadValue)
    else if f.point == AtSessionInsert then Err(Raise(f))
    else if |s| > 68 || !IsDigest(GenesisHash(h, s)) then Err(Integrity(CheckFailed))
    else Ok(l.(sessions := l.sessions[s := SessionRow(GenesisHash(h, s), Canonical(ts))]))
  }

  function PrevHash(l: Ledger, s: string): string
    requires s in l.sessions
  {
    var rows := Rows(l, s);
    var last := RowWithSeq(rows, |rows| - 1);
    if |rows| > 0 && last.Some? then last.value.current else l.sessions[s].genesis
  }

  /** The sealer's own full match refuses a digest with a final newline as a bad value before the length of the
      preimage is looked at, and the preimage hash is computed twice from equal operands, so the integrity error of
      the sealer is never raised. */
  function SealBlock(h: Sha256, s: string, seqNo: nat, prev: string, req: Request, ts: Utc): Result<Block, TxnError> {
    if !IsDigest(prev) || !IsDigest(req.intent) || !IsDigest(req.reasoning) || !IsDigest(req.action) || !InRange(ts)
       || !AcceptedByDollar(s) then Err(BadValue)
    else
      var b := Block(DeriveId(h, "BLK-", s, seqNo), Trimmed(s), seqNo, prev,
                     h(Material(prev, req.intent, req.reasoning, req.action, ts)),
                     req.intent, req.reasoning, req.action, ts);
      if IsSealedFormat(b) then Ok(b) else Err(BadValue)
  }

  // The hash a new block must link to: the predecessor row, else the session's genesis, else no constraint.
  function ExpectedLink(l: Ledger, s: string, seqNo: nat): Option<string> {
    var pred := RowWithSeq(Rows(l, s), seqNo - 1);
    if pred.Some? then Some(pred.value.current)
    else if s in l.sessions then Some(l.sessions[s].genesis)
    else None
  }

  function InsertGuard(l: Ledger, s: string, row: BlockRow): Option<Guard> {
    var pred := RowWithSeq(Rows(l, s), row.seqNo - 1);
    var link := ExpectedLink(l, s, row.seqNo);
    if row.seqNo != |Rows(l, s)| then Some(OutOfSequence)
    else if link.Some? && row.prev != link.value then Some(WrongLink)
    else if pred.Some? && LexLess(row.createdAt, pred.value.createdAt) then Some(TimeRegressed)
    else if row.seqNo == 0 && s in l.sessions && LexLess(row.createdAt, l.sessions[s].createdAt) then Some(BeforeSession)
    else if IsLatched(l.events, s) then Some(Latched)
    else if BlockIdUsed(l, row.blockId) || RowWithSeq(Rows(l, s), row.seqNo).Some? then Some(DuplicateKey)
    else if s !in l.sessions then Some(NoSession)
    else None
  }

  function WithRow(l: Ledger, s: string, row: BlockRow): Ledger {
    l.(blocks := l.blocks[s := InsertBySeq(Rows(l, s), row)])
  }

  /** One append transaction: the committed ledger, or the error, and the block sealed on the way (if any). */
  datatype TxnResult = TxnResult(outcome: Result<(Ledger, Block), TxnError>, held: Option<Block>)

  function AppendTxn(h: Sha256, l: Ledger, req: Request, ts: Utc, f: Fault): TxnResult {
    if f.point == AtBegin then TxnResult(Err(Raise(f)), None)
    else
      match OpenSession(h, l, req.sessionId, ts, f)
      case Err(e) => TxnResult(Err(e), None)
      case Ok(l1) =>
        assert req.sessionId in l1.sessions;
        match SealBlock(h, req.sessionId, |Rows(l1, req.sessionId)|, PrevHash(l1, req.sessionId), req, ts)
        case Err(e) => TxnResult(Err(e), None)
        case Ok(b) =>
          if f.point == AtInsert then TxnResult(Err(Raise(f)), Some(b))
          else
            match InsertGuard(l1, b.sessionId, RowOf(b))
            case Some(g) => TxnResult(Err(Integrity(g)), Some(b))
            case None =>
              if f.point == AtCommit then TxnResult(Err(Raise(f)), Some(b))
              else TxnResult(Ok((WithRow(l1, b.sessionId, RowOf(b)), b)), Some(b))
  }

  datatype AppendOutcome = AppendOutcome(state: LedgerState, failure: Option<FailureClass>, block: Option<Block>, quarantined: bool)

  /** What the outcome record refuses to be built without. */
  predicate IsOutcome(o: AppendOutcome) {
    if o.state == APPENDED then o.block.Some? && o.failure.None? && !o.quarantined
    else o.state == REJECTED_INVALID && o.failure.Some? && o.quarantined
  }

  datatype AppendReply = Replied(outcome: AppendOutcome) | OperationalRaised

  function Rejected(failure: FailureClass, held: Option<Block>, event: LedgerEvent): AppendReply {
    Replied(AppendOutcome(Transition(SEALED, event), Some(failure), held, true))
  }

  function ReplyFor(e: TxnError, held: Option<Block>): AppendReply {
    match e
    case BadValue => Rejected(DETERMINISTIC, held, VALIDATION_FAIL)
    case Integrity(g) => Rejected(ClassifyGuard(g), held, VALIDATION_FAIL)
    case _ => OperationalRaised
  }

  predicate IsAppended(r: AppendReply) { r.Replied? && r.outcome.state == APPENDED }

  // ---------------------------------------------------------------- one writer, one attempt at a time
  datatype Writer =
    | Idle
    | Trying(req: Request, attempts: nat, held: Option<Block>)
    | Finished(req: Request, attempts: nat, reply: AppendReply)

  function AsAttempt(r: Result<(Ledger, Block), TxnError>): Attempt<(Ledger, Block), TxnError> {
    match r
    case Ok(v) => Done(v)
    case Err(DbLocked) => Locked(DbLocked)
    case Err(e) => Fatal(e)
  }

  /** The next attempt of a writer under the retry policy: the ledger it leaves and where the writer stands. */
  function WriterStep(h: Sha256, l: Ledger, w: Writer, f: Fault): (Ledger, Writer)
    requires w.Trying? && w.attempts <= MAX_RETRIES
  {
    if w.req.ts.None? then (l, Finished(w.req, w.attempts, ReplyFor(BadValue, w.held)))
    else
      var t := AppendTxn(h, l, w.req, w.req.ts.value, f);
      var held := if t.held.Some? then t.held else w.held;
      match Next(w.attempts + 1, AsAttempt(t.outcome))
      case PauseThenRetry(_) => (l, Trying(w.req, w.attempts + 1, held))
      case Stop(Returned(v)) =>
        (v.0, Finished(w.req, w.attempts + 1,
                       Replied(AppendOutcome(Transition(SEALED, WAL_COMMIT), None, Some(v.1), false))))
      case Stop(Raised(e)) => (l, Finished(w.req, w.attempts + 1, ReplyFor(e, held)))
      case Stop(Exhausted(_, _)) =>
        (l, Finished(w.req, w.attempts + 1, Rejected(TRANSIENT, held, WAL_RETRY_EXHAUSTED)))
  }

  /** A whole call: attempts until the writer stops. */
  function AppendFrom(h: Sha256, l: Ledger, w: Writer, faults: seq<Fault>): (r: (Ledger, Writer))
    requires w.Trying? && w.attempts <= MAX_RETRIES
    ensures r.1.Finished?
    decreases MAX_RETRIES - w.attempts
  {
    var (l1, w1) := WriterStep(h, l, w, FaultAt(faults, w.attempts));
    if w1.Trying? then AppendFrom(h, l1, w1, faults) else (l1, w1)
  }

  // ---------------------------------------------------------------- verdicts
  function EventGuard(l: Ledger, a: Audit, e: EventRow): Option<Guard> {
    if !e.isTampered && IsLatched(l.events, a.sessionId) then Some(CleanAfterTampered)
    else if e.isTampered && e.broken.Some? && e.broken.value >= |Rows(l, a.sessionId)| then Some(BrokenOutOfRange)
    else if e.isTampered != e.broken.Some? || (e.broken.Some? && e.broken.value > BLOCK_SEQ_MAX) then Some(CheckFailed)
    else if exists x | x in l.events :: x.eventId == e.eventId then Some(DuplicateKey)
    else if a.sessionId !in l.sessions then Some(NoSession)
    else None
  }

  function EventOf(h: Sha256, l: Ledger, a: Audit): EventRow {
    EventRow(DeriveId(h, "EVT-", a.sessionId, EventCount(l.events, a.sessionId)), a.sessionId, a.isTampered, a.broken,
             Canonical(a.verifiedAt))
  }

  function PersistTxn(h: Sha256, l: Ledger, a: Audit, f: Fault): Result<Ledger, TxnError> {
    if f.point == AtBegin || f.point == AtInsert then Err(Raise(f))
    else
      match EventGuard(l, a, EventOf(h, l, a))
      case Some(g) => Err(Integrity(g))
      case None => if f.point == AtCommit then Err(Raise(f)) else Ok(l.(events := l.events + [EventOf(h, l, a)]))
  }

  function AsPersistAttempt(r: Result<Ledger, TxnError>): Attempt<Ledger, TxnError> {
    match r
    case Ok(l) => Done(l)
    case Err(DbLocked) => Locked(DbLocked)
    case Err(e) => Fatal(e)
  }

  function PersistFrom(h: Sha256, l: Ledger, a: Audit, faults: seq<Fault>, attempts: nat): Outcome<Ledger, TxnError>
    requires attempts <= MAX_RETRIES
    decreases MAX_RETRIES - attempts
  {
    match Next(attempts + 1, AsPersistAttempt(PersistTxn(h, l, a, FaultAt(faults, attempts))))
    case Stop(o) => o
    case PauseThenRetry(_) => PersistFrom(h, l, a, faults, attempts + 1)
  }

  /** What a call to verify_session gives its caller. */
  datatype VerifyReply = Verdict(audit: Audit) | LatchNotPersisted(audit: Audit) | VerifyRaised

  // The audit before it is persisted: load, verify, latch. None when the verdict model refuses the clock.
  function AuditNow(h: Sha256, l: Ledger, s: string, now: Utc): Option<Audit>
    requires s in l.sessions
  {
    var loaded := LoadBlocks(s, Rows(l, s));
    if loaded.None? then
      if InRange(now) then Some(ApplyLatch(FailClosedAudit(s, now), LatchedSeq(l.events, s))) else None
    else
      Some(ApplyLatch(FailClosedSpec(h, s, l.sessions[s].genesis, Some(Items(loaded.value)), Some(now)),
                      LatchedSeq(l.events, s)))
  }

  function VerifySession(h: Sha256, l: Ledger, s: string, now: Utc, faults: seq<Fault>): (Ledger, VerifyReply) {
    if s !in l.sessions then
      (l, if InRange(now) then Verdict(FailClosedAudit(s, now)) else VerifyRaised)
    else
      match AuditNow(h, l, s, now)
      case None => (l, VerifyRaised)
      case Some(a) =>
        match PersistFrom(h, l, a, faults, 0)
        case Returned(l1) => (l1, Verdict(a))
        case Raised(DbOther) => (l, VerifyRaised)
        case _ => (l, if a.isTampered then LatchNotPersisted(a) else VerifyRaised)
  }
}
