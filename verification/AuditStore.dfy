/** The store: tables updated in place by transactions that roll back, under the bounded retry loop. */
module AuditStore {
  import opened Wrappers
  import opened Identifiers
  import opened Timestamps
  import opened AuditContracts
  import opened AuditVerifier
  import opened WalRetry
  import opened LedgerModel
  import opened LedgerRuns
  import opened LedgerReplies

  /** The mutable cell an append fills with the block it sealed, kept across attempts. */
  class Holder {
    var block: Option<Block>
    constructor ()
      ensures block == None
    {
      block := None;
    }
  }

  class TraceKitStore {
    const h: Sha256
    var sessions: map<string, SessionRow>
    var blocks: map<string, seq<BlockRow>>
    var events: seq<EventRow>

    constructor (hash: Sha256)
      ensures Contents() == EMPTY_LEDGER && h == hash
    {
      h := hash;
      sessions, blocks, events := map[], map[], [];
    }

    function Contents(): Ledger
      reads this
    {
      Ledger(sessions, blocks, events)
    }

    /** The statements between BEGIN and COMMIT; rows written so far stay written when it fails. */
    method AppendStatements(req: Request, ts: Utc, f: Fault, holder: Holder) returns (r: Result<Block, TxnError>)
      requires f.point != AtBegin
      modifies this, holder
      ensures events == old(events)
      ensures var t := AppendTxn(h, old(Contents()), req, ts, f);
              && holder.block == (if t.held.Some? then t.held else old(holder.block))
              && r.Ok? == t.outcome.Ok?
              && (r.Ok? ==> t.outcome.value == (Contents(), r.value))
              && (r.Err? ==> t.outcome == Err(r.error))
    {
      hide Canonical;
      hide InsertGuard;
      hide IsSealedFormat;
      hide MatchesId;
      var s := req.sessionId;
      if s !in sessions {
        if !AcceptedByDollar(s) || !InRange(ts) { return Err(BadValue); }
        if f.point == AtSessionInsert { return Err(Raise(f)); }
        if |s| > 68 || !IsDigest(GenesisHash(h, s)) { return Err(Integrity(CheckFailed)); }
        sessions := sessions[s := SessionRow(GenesisHash(h, s), Canonical(ts))];
      }
      assert OpenSession(h, old(Contents()), s, ts, f) == Ok(Contents());
      var genesis := sessions[s].genesis;
      var count := |Rows(Contents(), s)|;
      var prev := genesis;
      if count > 0 {
        var prevRow := RowWithSeq(Rows(Contents(), s), count - 1);
        if prevRow.Some? { prev := prevRow.value.current; }
      }
      assert prev == PrevHash(Contents(), s);
      var sealedBlock := SealBlock(h, s, count, prev, req, ts);
      if sealedBlock.Err? { return Err(sealedBlock.error); }
      var block := sealedBlock.value;
      holder.block := Some(block);
      if f.point == AtInsert { return Err(Raise(f)); }
      var guard := InsertGuard(Contents(), block.sessionId, RowOf(block));
      if guard.Some? { return Err(Integrity(guard.value)); }
      blocks := blocks[block.sessionId := InsertBySeq(Rows(Contents(), block.sessionId), RowOf(block))];
      if f.point == AtCommit { return Err(Raise(f)); }
      return Ok(block);
    }

    /** One transaction: commits exactly what the specification commits, or restores every table. */
    method AppendOnce(req: Request, ts: Utc, f: Fault, holder: Holder) returns (r: Result<Block, TxnError>)
      modifies this, holder
      ensures var t := AppendTxn(h, old(Contents()), req, ts, f);
              && holder.block == (if t.held.Some? then t.held else old(holder.block))
              && r.Ok? == t.outcome.Ok?
              && (r.Ok? ==> t.outcome.value == (Contents(), r.value))
              && (r.Err? ==> t.outcome == Err(r.error) && Contents() == old(Contents()))
    {
      hide OpenSession;
      hide SealBlock;
      hide InsertGuard;
      hide Canonical;
      if f.point == AtBegin { return Err(Raise(f)); }
      var sessionsBefore, blocksBefore := sessions, blocks;
      r := AppendStatements(req, ts, f, holder);
      if r.Err? { sessions, blocks := sessionsBefore, blocksBefore; }
    }

    /** A whole append call: the ledger, the reply and the number of attempts the retry policy prescribes. On the
        tables of a log of appended blocks it answers APPENDED, with the next block, exactly when it must. */
    method AppendDigests(req: Request, faults: seq<Fault>) returns (reply: AppendReply, attempts: nat)
      modifies this
      ensures (Contents(), Finished(req, attempts, reply))
              == AppendFrom(h, old(Contents()), Trying(req, 0, None), faults)
      ensures HexOutput(h) ==>
                forall log :: Kept(h, old(Contents()), log) ==>
                  AnswersCall(h, old(Contents()), log, req, faults, Contents(), reply, attempts)
    {
      hide AppendTxn;
      hide Canonical;
      hide Kept;
      hide AnswersCall;
      hide HexOutput;
      if HexOutput(h) { CallAnswered(h, Contents(), req, faults); }
      var holder := new Holder();
      attempts := 0;
      if req.ts.None? { return ReplyFor(BadValue, None), attempts; }
      while true
        invariant attempts <= MAX_RETRIES
        invariant AppendFrom(h, old(Contents()), Trying(req, 0, None), faults)
                  == AppendFrom(h, Contents(), Trying(req, attempts, holder.block), faults)
        invariant fresh(holder)
        decreases 4 - attempts
      {
        var fault := FaultAt(faults, attempts);
        var r := AppendOnce(req, req.ts.value, fault, holder);
        attempts := attempts + 1;
        match r {
          case Ok(block) =>
            return Replied(AppendOutcome(Transition(SEALED, WAL_COMMIT), None, Some(block), false)), attempts;
          case Err(DbLocked) =>
            if attempts - 1 >= MAX_RETRIES {
              return Rejected(TRANSIENT, holder.block, WAL_RETRY_EXHAUSTED), attempts;
            }
          case Err(e) =>
            return ReplyFor(e, holder.block), attempts;
        }
      }
    }

    method LoadSession(s: string) returns (r: Option<seq<Block>>)
      ensures r == LoadBlocks(s, Rows(Contents(), s))
    {
      var rows := Rows(Contents(), s);
      var loaded: seq<Block> := [];
      assert rows[0..] == rows && forall rest: seq<Block> :: [] + rest == rest;
      for i := 0 to |rows|
        invariant LoadBlocks(s, rows)
                  == match LoadBlocks(s, rows[i..])
                     case None => None
                     case Some(rest) => Some(loaded + rest)
      {
        var b := LoadRow(s, rows[i]);
        assert rows[i..][1..] == rows[i + 1..];
        if b.None? { return None; }
        assert forall rest: seq<Block> :: loaded + ([b.value] + rest) == (loaded + [b.value]) + rest;
        loaded := loaded + [b.value];
      }
      assert rows[|rows|..] == [] && loaded + [] == loaded;
      return Some(loaded);
    }

    method PersistOnce(a: Audit, f: Fault) returns (r: Result<(), TxnError>)
      modifies `events
      ensures var t := PersistTxn(h, old(Contents()), a, f);
              && r.Ok? == t.Ok?
              && Contents() == (if t.Ok? then t.value else old(Contents()))
              && (r.Err? ==> t == Err(r.error))
    {
      if f.point == AtBegin || f.point == AtInsert { return Err(Raise(f)); }
      var row := EventOf(h, Contents(), a);
      var guard := EventGuard(Contents(), a, row);
      if guard.Some? { return Err(Integrity(guard.value)); }
      if f.point == AtCommit { return Err(Raise(f)); }
      events := events + [row];
      return Ok(());
    }

    /** Audits a stored session, applies the latch and stores the verdict before it is returned. */
    method Verify(s: string, now: Utc, faults: seq<Fault>) returns (reply: VerifyReply)
      modifies `events
      ensures (Contents(), reply) == VerifySession(h, old(Contents()), s, now, faults)
      ensures IsSessionId(s) ==> (reply.Verdict? <==> GivesVerdict(h, old(Contents()), s, now, faults))
    {
      hide GivesVerdict;
      hide IsSessionId;
      hide FailClosedSpec;
      hide FailClosedAudit;
      hide ApplyLatch;
      hide LatchedSeq;
      hide InRange;
      hide Rows;
      if IsSessionId(s) { VerdictIff(h, Contents(), s, now, faults); }
      hide PersistTxn;
      hide AuditOf;
      hide LoadBlocks;
      if s !in sessions {
        if InRange(now) { return Verdict(FailClosedAudit(s, now)); }
        return VerifyRaised;
      }
      var loaded := LoadSession(s);
      var audit: Audit;
      if loaded.None? {
        if !InRange(now) { return VerifyRaised; }
        audit := FailClosedAudit(s, now);
      } else {
        audit := VerifyFailClosed(h, s, sessions[s].genesis, Some(Items(loaded.value)), Some(now));
      }
      audit := ApplyLatch(audit, LatchedSeq(events, s));
      var attempts := 0;
      while true
        invariant attempts <= MAX_RETRIES
        invariant Contents() == old(Contents())
        invariant PersistFrom(h, Contents(), audit, faults, 0) == PersistFrom(h, Contents(), audit, faults, attempts)
        decreases 4 - attempts
      {
        var r := PersistOnce(audit, FaultAt(faults, attempts));
        attempts := attempts + 1;
        match r {
          case Ok(_) => return Verdict(audit);
          case Err(DbLocked) =>
            if attempts - 1 >= MAX_RETRIES {
              return if audit.isTampered then LatchNotPersisted(audit) else VerifyRaised;
            }
          case Err(DbOther) => return VerifyRaised;
          case Err(_) => return if audit.isTampered then LatchNotPersisted(audit) else VerifyRaised;
        }
      }
    }
  }
}
