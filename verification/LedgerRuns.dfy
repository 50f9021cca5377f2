/** Whole runs of the ledger: any number of writers, lock faults at any point, verifications and offline edits. */
module LedgerRuns {
  import opened Wrappers
  import opened Digits
  import opened Identifiers
  import opened Timestamps
  import opened AuditContracts
  import opened AuditVerifier
  import opened WalRetry
  import opened LedgerModel

  /** appended is the history of blocks whose append call returned APPENDED, oldest first. */
  datatype System = System(ledger: Ledger, writers: map<nat, Writer>, appended: seq<Block>)

  datatype Step =
    | Start(w: nat, req: Request)
    | Try(w: nat, fault: Fault)
    | Check(session: string, now: Utc, faults: seq<Fault>)
    | EditBlocks(session: string, rows: seq<BlockRow>)

  const INITIAL := System(EMPTY_LEDGER, map[], [])

  function WriterOf(sys: System, w: nat): Writer { if w in sys.writers then sys.writers[w] else Idle }

  function Logged(log: seq<Block>, w: Writer): seq<Block> {
    if w.Finished? && IsAppended(w.reply) && w.reply.outcome.block.Some? then log + [w.reply.outcome.block.value] else log
  }

  function Apply(h: Sha256, sys: System, step: Step): System {
    match step
    case Start(w, req) =>
      if WriterOf(sys, w).Trying? then sys else sys.(writers := sys.writers[w := Trying(req, 0, None)])
    case Try(w, fault) =>
      var writer := WriterOf(sys, w);
      if !writer.Trying? || writer.attempts > MAX_RETRIES then sys
      else
        var (l1, w1) := WriterStep(h, sys.ledger, writer, fault);
        System(l1, sys.writers[w := w1], Logged(sys.appended, w1))
    case Check(s, now, faults) => sys.(ledger := VerifySession(h, sys.ledger, s, now, faults).0)
    case EditBlocks(s, rows) => sys.(ledger := sys.ledger.(blocks := sys.ledger.blocks[s := rows]))
  }

  function Run(h: Sha256, sys: System, steps: seq<Step>): System
    decreases |steps|
  {
    if steps == [] then sys else Run(h, Apply(h, sys, steps[0]), steps[1..])
  }

  function OfSession(log: seq<Block>, s: string): seq<Block> {
    if log == [] then []
    else OfSession(log[..|log| - 1], s) + (if log[|log| - 1].sessionId == s then [log[|log| - 1]] else [])
  }

  // ---------------------------------------------------------------- what every ledger keeps
  ghost predicate SessionKept(h: Sha256, l: Ledger, log: seq<Block>, s: string) {
    var c := OfSession(log, s);
    && Rows(l, s) == RowsOf(c)
    && Clean(h, s, c) && Sealed(c) && (forall b :: b in c ==> b.sessionId == s)
    && (s in l.sessions <==> c != [])
    && (s in l.sessions ==> IsSessionId(s) && l.sessions[s].genesis == GenesisHash(h, s))
  }

  /** The tables hold exactly the history of APPENDED calls, session by session, as clean sealed chains. */
  ghost predicate Kept(h: Sha256, l: Ledger, log: seq<Block>) {
    && (forall s :: SessionKept(h, l, log, s))
    && (forall e :: e in l.events ==> !e.isTampered)
  }

  ghost predicate WriterBounded(w: Writer) {
    match w
    case Idle => true
    case Trying(_, n, _) => n <= 3
    case Finished(_, n, r) => n <= 4 && (r.Replied? ==> IsOutcome(r.outcome))
  }

  ghost predicate Invariant(h: Sha256, sys: System) {
    && Kept(h, sys.ledger, sys.appended)
    && forall w :: w in sys.writers ==> WriterBounded(sys.writers[w])
  }

  // ---------------------------------------------------------------- rows of a clean chain
  lemma {:induction false} RowWithSeqOf(c: seq<Block>, off: nat, n: int)
    requires forall i :: 0 <= i < |c| ==> c[i].seqNo == off + i
    ensures RowWithSeq(RowsOf(c), n) == if off <= n < off + |c| then Some(RowOf(c[n - off])) else None
  {
    hide Canonical;
    if c != [] {
      assert RowsOf(c)[1..] == RowsOf(c[1..]);
      RowWithSeqOf(c[1..], off + 1, n);
    }
  }

  lemma {:induction false} InsertAtEnd(c: seq<Block>, off: nat, b: Block)
    requires forall i :: 0 <= i < |c| ==> c[i].seqNo == off + i
    requires b.seqNo == off + |c|
    ensures InsertBySeq(RowsOf(c), RowOf(b)) == RowsOf(c + [b])
  {
    hide Canonical;
    if c == [] {
      assert RowsOf(c + [b]) == [RowOf(b)];
    } else {
      assert RowsOf(c)[1..] == RowsOf(c[1..]);
      InsertAtEnd(c[1..], off + 1, b);
      assert c + [b] == [c[0]] + (c[1..] + [b]);
      assert RowsOf(c + [b]) == [RowOf(c[0])] + RowsOf(c[1..] + [b]);
    }
  }

  lemma SeqNosOf(h: Sha256, s: string, c: seq<Block>)
    requires Clean(h, s, c)
    ensures forall i :: 0 <= i < |c| ==> c[i].seqNo == i
  {
    forall i | 0 <= i < |c| ensures c[i].seqNo == i { assert LinkedAt(h, s, c, i); }
  }

  // What the stored rows of a kept session say about the next block.
  lemma NextSlot(h: Sha256, l: Ledger, log: seq<Block>, s: string)
    requires SessionKept(h, l, log, s)
    ensures var c := OfSession(log, s);
            && RowWithSeq(Rows(l, s), |c| - 1) == (if c == [] then None else Some(RowOf(c[|c| - 1])))
            && (s in l.sessions ==> PrevHash(l, s) == Head(h, s, c))
  {
    hide Canonical;
    var c := OfSession(log, s);
    SeqNosOf(h, s, c);
    RowWithSeqOf(c, 0, |c| - 1);
  }

  // ---------------------------------------------------------------- a committed append
  ghost predicate SameEntry<V>(m: map<string, V>, n: map<string, V>, x: string) {
    (x in m <==> x in n) && (x in n ==> m[x] == n[x])
  }

  lemma OpenedSession(h: Sha256, l: Ledger, s: string, ts: Utc, f: Fault)
    requires OpenSession(h, l, s, ts, f).Ok?
    ensures var l1 := OpenSession(h, l, s, ts, f).value;
            && l1.blocks == l.blocks && l1.events == l.events && s in l1.sessions
            && (s in l.sessions ==> l1 == l)
            && (s !in l.sessions ==> AcceptedByDollar(s) && l1.sessions[s].genesis == GenesisHash(h, s))
            && (forall x :: x != s ==> SameEntry(l1.sessions, l.sessions, x))
  {
  }

  lemma SealedBlockShape(h: Sha256, s: string, n: nat, prev: string, req: Request, ts: Utc)
    requires SealBlock(h, s, n, prev, req, ts).Ok?
    ensures var b := SealBlock(h, s, n, prev, req, ts).value;
            && IsSealedFormat(b) && AcceptedByDollar(s) && b.sessionId == Trimmed(s) && IsSessionId(b.sessionId)
            && b.blockId == DeriveId(h, "BLK-", s, n) && b.seqNo == n && b.prev == prev && b.current == BlockHash(h, b)
            && b.intent == req.intent && b.reasoning == req.reasoning && b.action == req.action && b.ts == ts
  {
    hide Canonical;
  }

  lemma GuardPassed(l: Ledger, s: string, row: BlockRow)
    requires InsertGuard(l, s, row) == None
    ensures row.seqNo == |Rows(l, s)| && s in l.sessions && !IsLatched(l.events, s)
    ensures var pred := RowWithSeq(Rows(l, s), row.seqNo - 1);
            && row.prev == (if pred.Some? then pred.value.current else l.sessions[s].genesis)
            && (pred.Some? ==> !LexLess(row.createdAt, pred.value.createdAt))
  {
    hide LexLess;
    hide BlockIdUsed;
  }

  // An id with a final newline cannot slip a block into the session it trims to.
  lemma OneSession(h: Sha256, l: Ledger, log: seq<Block>, s: string, t: string)
    requires SessionKept(h, l, log, s) && SessionKept(h, l, log, t)
    requires AcceptedByDollar(s) && t == Trimmed(s)
    requires |Rows(l, s)| == |Rows(l, t)| && (t in l.sessions || t == s)
    ensures s == t
  {
    hide Clean;
    hide RowOf;
    assert |Rows(l, s)| == |OfSession(log, s)| && |Rows(l, t)| == |OfSession(log, t)|;
    if OfSession(log, s) != [] { assert OfSession(log, s)[0] in OfSession(log, s); }
  }

  /** What a committed transaction did: one sealed block of the requested session, linked to its head. */
  lemma CommittedAppend(h: Sha256, l: Ledger, log: seq<Block>, req: Request, ts: Utc, f: Fault)
    requires Kept(h, l, log)
    requires AppendTxn(h, l, req, ts, f).outcome.Ok?
    ensures var (l2, b) := AppendTxn(h, l, req, ts, f).outcome.value;
            var s := req.sessionId;
            var c := OfSession(log, s);
            && IsSessionId(s) && b.sessionId == s && IsSealedFormat(b) && b.blockId == DeriveId(h, "BLK-", s, |c|)
            && b.intent == req.intent && b.reasoning == req.reasoning && b.action == req.action && b.ts == ts
            && Fits(h, s, b, |c|, Head(h, s, c), if c == [] then None else Some(c[|c| - 1]))
            && l2.blocks == l.blocks[s := RowsOf(c + [b])] && l2.events == l.events
            && s in l2.sessions && l2.sessions[s].genesis == GenesisHash(h, s)
            && (forall x :: x != s ==> SameEntry(l2.sessions, l.sessions, x))
  {
    hide Canonical;
    hide LexLess;
    hide Material;
    hide InsertGuard;
    hide SealBlock;
    hide OpenSession;
    hide Clean;
    hide MatchesId;
    hide IsSealedFormat;
    hide RowWithSeq;
    hide InsertBySeq;
    hide Trimmed;
    hide AcceptedByDollar;
    hide Before;
    var s := req.sessionId;
    assert SessionKept(h, l, log, s);
    var l1 := OpenSession(h, l, s, ts, f).value;
    OpenedSession(h, l, s, ts, f);
    assert Rows(l1, s) == Rows(l, s);
    var b := SealBlock(h, s, |Rows(l1, s)|, PrevHash(l1, s), req, ts).value;
    SealedBlockShape(h, s, |Rows(l1, s)|, PrevHash(l1, s), req, ts);
    GuardPassed(l1, b.sessionId, RowOf(b));
    var t := b.sessionId;
    assert SessionKept(h, l, log, t);
    assert Rows(l1, t) == Rows(l, t) && |Rows(l, t)| == |OfSession(log, t)|;
    assert t == s || SameEntry(l1.sessions, l.sessions, t);
    OneSession(h, l, log, s, t);
    var c := OfSession(log, s);
    NextSlot(h, l, log, s);
    assert |Rows(l, s)| == |c|;
    SeqNosOf(h, s, c);
    InsertAtEnd(c, 0, b);
    if c != [] { CanonicalOrder(b.ts, c[|c| - 1].ts); }
  }

  lemma {:induction false} KeptAfterAppend(h: Sha256, l: Ledger, log: seq<Block>, req: Request, ts: Utc, f: Fault)
    requires Kept(h, l, log)
    requires AppendTxn(h, l, req, ts, f).outcome.Ok?
    ensures var (l2, b) := AppendTxn(h, l, req, ts, f).outcome.value;
            Kept(h, l2, log + [b])
  {
    hide AppendTxn;
    hide Canonical;
    hide Material;
    hide MatchesId;
    hide IsDigest;
    CommittedAppend(h, l, log, req, ts, f);
    var (l2, b) := AppendTxn(h, l, req, ts, f).outcome.value;
    var log2 := log + [b];
    assert log2[..|log2| - 1] == log;
    forall x ensures SessionKept(h, l2, log2, x) {
      assert SessionKept(h, l, log, x);
      var c := OfSession(log, x);
      if x == b.sessionId {
        assert OfSession(log2, x) == c + [b];
        ExtendClean(h, x, c, b);
        assert Sealed(c + [b]);
        assert Rows(l2, x) == RowsOf(c + [b]);
      } else {
        assert OfSession(log2, x) == c;
        assert SameEntry(l2.sessions, l.sessions, x);
      }
    }
  }

  // ---------------------------------------------------------------- one step
  /** Exactly one block enters exactly one session, and the writer returns it as APPENDED. */
  ghost predicate AddsOne(h: Sha256, before: System, after: System, w: nat) {
    var reply := WriterOf(after, w);
    && reply.Finished? && IsAppended(reply.reply) && reply.reply.outcome.block.Some?
    && (var b := reply.reply.outcome.block.value;
        && after.appended == before.appended + [b]
        && after.ledger.blocks
           == before.ledger.blocks[b.sessionId := RowsOf(OfSession(before.appended, b.sessionId) + [b])]
        && after.ledger.events == before.ledger.events
        && b.sessionId == reply.req.sessionId && b.intent == reply.req.intent && b.reasoning == reply.req.reasoning
        && b.action == reply.req.action && Some(b.ts) == reply.req.ts)
  }

  ghost predicate AddsNothing(before: System, after: System, w: nat) {
    var reply := WriterOf(after, w);
    && after.ledger == before.ledger && after.appended == before.appended
    && (reply.Finished? ==> !IsAppended(reply.reply))
  }

  lemma AttemptOutcome(h: Sha256, l: Ledger, w: Writer, f: Fault)
    requires w.Trying? && w.attempts <= MAX_RETRIES
    ensures var (l1, w1) := WriterStep(h, l, w, f);
            && WriterBounded(w1) && !w1.Idle? && w1.req == w.req
            && (w1.Finished? && IsAppended(w1.reply) ==>
                  && w.req.ts.Some? && AppendTxn(h, l, w.req, w.req.ts.value, f).outcome.Ok?
                  && w1.reply.outcome.block.Some?
                  && AppendTxn(h, l, w.req, w.req.ts.value, f).outcome.value == (l1, w1.reply.outcome.block.value))
            && (!(w1.Finished? && IsAppended(w1.reply)) ==> l1 == l)
  {
    hide AppendTxn;
  }

  /** Every attempt of every writer either commits one block and says so, or leaves the tables untouched. */
  lemma AttemptAddsOneOrNothing(h: Sha256, sys: System, w: nat, fault: Fault)
    requires Invariant(h, sys) && WriterOf(sys, w).Trying?
    ensures var after := Apply(h, sys, Try(w, fault));
            && Invariant(h, after)
            && (AddsOne(h, sys, after, w) || AddsNothing(sys, after, w))
            && (forall x :: x != w ==> WriterOf(after, x) == WriterOf(sys, x))
  {
    hide WriterStep;
    hide AppendTxn;
    hide Kept;
    hide Fits;
    hide Canonical;
    var writer := WriterOf(sys, w);
    AttemptOutcome(h, sys.ledger, writer, fault);
    var (l1, w1) := WriterStep(h, sys.ledger, writer, fault);
    if w1.Finished? && IsAppended(w1.reply) {
      KeptAfterAppend(h, sys.ledger, sys.appended, writer.req, writer.req.ts.value, fault);
      CommittedAppend(h, sys.ledger, sys.appended, writer.req, writer.req.ts.value, fault);
    }
  }

  /** A whole append call on a kept ledger: at most four attempts, one sealed block when it says APPENDED,
      and otherwise the very same tables. */
  lemma {:induction false} AppendCallAddsOneOrNothing(h: Sha256, l: Ledger, log: seq<Block>, w: Writer, faults: seq<Fault>)
    requires Kept(h, l, log) && w.Trying? && w.attempts <= MAX_RETRIES
    ensures var (l2, w2) := AppendFrom(h, l, w, faults);
            && w2.attempts <= 4 && (w2.reply.Replied? ==> IsOutcome(w2.reply.outcome))
            && (if IsAppended(w2.reply)
                then w2.reply.outcome.block.Some? && Kept(h, l2, log + [w2.reply.outcome.block.value])
                else l2 == l)
    decreases MAX_RETRIES - w.attempts
  {
    hide WriterStep;
    hide AppendTxn;
    hide Kept;
    hide Canonical;
    AttemptOutcome(h, l, w, FaultAt(faults, w.attempts));
    var (l1, w1) := WriterStep(h, l, w, FaultAt(faults, w.attempts));
    if w1.Trying? {
      AttemptCounts(h, l, w, FaultAt(faults, w.attempts));
      AppendCallAddsOneOrNothing(h, l1, log, w1, faults);
    } else if IsAppended(w1.reply) {
      KeptAfterAppend(h, l, log, w.req, w.req.ts.value, FaultAt(faults, w.attempts));
    }
  }

  lemma AttemptCounts(h: Sha256, l: Ledger, w: Writer, f: Fault)
    requires w.Trying? && w.attempts <= MAX_RETRIES && WriterStep(h, l, w, f).1.Trying?
    ensures WriterStep(h, l, w, f).1.attempts == w.attempts + 1
  {
    hide AppendTxn;
  }

  // ---------------------------------------------------------------- verification on kept ledgers
  lemma LatchedNeedsTampered(events: seq<EventRow>, s: string)
    requires forall e :: e in events ==> !e.isTampered
    ensures LatchedSeq(events, s) == None
  {
    if events != [] {
      assert events[0] in events;
      forall e | e in events[1..] ensures e in events {}
      LatchedNeedsTampered(events[1..], s);
    }
  }

  /** A kept ledger verifies clean: the audit covers exactly the blocks appended to the session. */
  lemma KeptVerifiesClean(h: Sha256, l: Ledger, log: seq<Block>, s: string, now: Utc)
    requires Kept(h, l, log) && s in l.sessions
    ensures AuditNow(h, l, s, now)
            == Some(Audit(s, |OfSession(log, s)|, false, None, SafeStamp(Some(now))))
  {
    hide Clean;
    hide Canonical;
    assert SessionKept(h, l, log, s);
    var c := OfSession(log, s);
    LoadStored(s, c);
    LatchedNeedsTampered(l.events, s);
    CleanVerifies(h, s, c, SafeStamp(Some(now)));
  }

  lemma {:induction false} PersistKeeps(h: Sha256, l: Ledger, a: Audit, faults: seq<Fault>, attempts: nat)
    requires attempts <= MAX_RETRIES
    ensures var o := PersistFrom(h, l, a, faults, attempts);
            o.Returned? ==> o.value == l.(events := l.events + [EventOf(h, l, a)]) && EventGuard(l, a, EventOf(h, l, a)) == None
    decreases MAX_RETRIES - attempts
  {
    hide EventOf;
    hide EventGuard;
    if attempts < MAX_RETRIES { PersistKeeps(h, l, a, faults, attempts + 1); }
  }

  lemma CheckKeepsInvariant(h: Sha256, sys: System, s: string, now: Utc, faults: seq<Fault>)
    requires Invariant(h, sys)
    ensures Invariant(h, Apply(h, sys, Check(s, now, faults)))
    ensures var r := VerifySession(h, sys.ledger, s, now, faults).1;
            r.Verdict? && s in sys.ledger.sessions ==>
              !r.audit.isTampered && r.audit.total == |OfSession(sys.appended, s)|
  {
    hide AuditNow;
    hide EventGuard;
    hide Canonical;
    hide Clean;
    hide PersistFrom;
    hide FailClosedAudit;
    var l := sys.ledger;
    if s in l.sessions {
      KeptVerifiesClean(h, l, sys.appended, s, now);
      var a := AuditNow(h, l, s, now).value;
      PersistKeeps(h, l, a, faults, 0);
      var l2 := VerifySession(h, l, s, now, faults).0;
      assert l2.blocks == l.blocks && l2.sessions == l.sessions;
      forall x ensures SessionKept(h, l2, sys.appended, x) { assert SessionKept(h, l, sys.appended, x); }
    }
  }

  ghost predicate Online(steps: seq<Step>) { forall x :: x in steps ==> !x.EditBlocks? }

  /** Over every interleaving of writers, faults, retries and verifications the invariant holds. */
  lemma {:induction false} RunKeepsInvariant(h: Sha256, sys: System, steps: seq<Step>)
    requires Invariant(h, sys) && Online(steps)
    ensures Invariant(h, Run(h, sys, steps))
    decreases |steps|
  {
    hide Kept;
    hide VerifySession;
    hide WriterStep;
    if steps != [] {
      var step := steps[0];
      assert step in steps;
      match step {
        case Start(w, req) =>
        case Try(w, fault) =>
          if WriterOf(sys, w).Trying? { AttemptAddsOneOrNothing(h, sys, w, fault); }
        case Check(s, now, faults) => CheckKeepsInvariant(h, sys, s, now, faults);
      }
      forall x | x in steps[1..] ensures x in steps {}
      RunKeepsInvariant(h, Apply(h, sys, step), steps[1..]);
    }
  }

  /** Every ledger a run can reach verifies clean, with the total equal to the number of APPENDED calls. */
  lemma ReachableLedgerVerifiesClean(h: Sha256, steps: seq<Step>, s: string, now: Utc)
    requires Online(steps)
    ensures var sys := Run(h, INITIAL, steps);
            && Invariant(h, sys)
            && (s in sys.ledger.sessions ==>
                  AuditNow(h, sys.ledger, s, now)
                  == Some(Audit(s, |OfSession(sys.appended, s)|, false, None, SafeStamp(Some(now)))))
  {
    hide AuditNow;
    assert Invariant(h, INITIAL) by {
      forall s ensures SessionKept(h, EMPTY_LEDGER, [], s) { assert RowsOf([]) == []; }
    }
    RunKeepsInvariant(h, INITIAL, steps);
    var sys := Run(h, INITIAL, steps);
    if s in sys.ledger.sessions { KeptVerifiesClean(h, sys.ledger, sys.appended, s, now); }
  }

  // ---------------------------------------------------------------- the tamper latch, with offline edits
  lemma {:induction false} LatchedSeqPrefix(events: seq<EventRow>, more: seq<EventRow>, s: string)
    ensures LatchedSeq(events + more, s)
            == if LatchedSeq(events, s).Some? then LatchedSeq(events, s) else LatchedSeq(more, s)
  {
    if events == [] {
      assert events + more == more;
    } else {
      assert (events + more)[1..] == events[1..] + more;
      LatchedSeqPrefix(events[1..], more, s);
    }
  }

  /** Verdicts are only ever added, sessions are never removed. */
  lemma StepOnlyAddsVerdicts(h: Sha256, sys: System, step: Step)
    ensures var after := Apply(h, sys, step).ledger;
            && (exists more :: after.events == sys.ledger.events + more)
            && sys.ledger.sessions.Keys <= after.sessions.Keys
  {
    hide AuditNow;
    hide EventGuard;
    hide PersistFrom;
    hide AppendTxn;
    hide FailClosedAudit;
    var l, after := sys.ledger, Apply(h, sys, step).ledger;
    assert l.events == l.events + [];
    match step {
      case Start(_, _) =>
      case EditBlocks(_, _) =>
      case Check(s, now, faults) =>
        if s in l.sessions && AuditNow(h, l, s, now).Some? {
          PersistKeeps(h, l, AuditNow(h, l, s, now).value, faults, 0);
        }
      case Try(w, fault) =>
        var writer := WriterOf(sys, w);
        if writer.Trying? && writer.attempts <= MAX_RETRIES {
          AttemptOutcome(h, l, writer, fault);
          if after != l { AppendOnlyAdds(h, l, writer.req, writer.req.ts.value, fault); }
        }
    }
  }

  lemma AppendOnlyAdds(h: Sha256, l: Ledger, req: Request, ts: Utc, f: Fault)
    requires AppendTxn(h, l, req, ts, f).outcome.Ok?
    ensures var (l2, b) := AppendTxn(h, l, req, ts, f).outcome.value;
            l2.events == l.events && l.sessions.Keys <= l2.sessions.Keys
  {
    hide SealBlock;
    hide InsertGuard;
    hide Canonical;
  }

  lemma {:induction false} LatchSurvivesRun(h: Sha256, sys: System, steps: seq<Step>, s: string)
    requires s in sys.ledger.sessions && LatchedSeq(sys.ledger.events, s).Some?
    ensures var after := Run(h, sys, steps).ledger;
            s in after.sessions && LatchedSeq(after.events, s) == LatchedSeq(sys.ledger.events, s)
    decreases |steps|
  {
    hide Apply;
    if steps != [] {
      var next := Apply(h, sys, steps[0]);
      StepOnlyAddsVerdicts(h, sys, steps[0]);
      var more :| next.ledger.events == sys.ledger.events + more;
      LatchedSeqPrefix(sys.ledger.events, more, s);
      LatchSurvivesRun(h, next, steps[1..], s);
    }
  }

  /** A returned tampered verdict has been stored: the session is latched at the first stored position. */
  lemma TamperedVerdictLatches(h: Sha256, l: Ledger, s: string, now: Utc, faults: seq<Fault>)
    requires IsSessionId(s) && s in l.sessions
    requires var r := VerifySession(h, l, s, now, faults).1; r.Verdict? && r.audit.isTampered
    ensures var (l2, r) := VerifySession(h, l, s, now, faults);
            LatchedSeq(l2.events, s)
            == if LatchedSeq(l.events, s).Some? then LatchedSeq(l.events, s) else r.audit.broken
    ensures VerifySession(h, l, s, now, faults).1.audit.broken.Some?
  {
    hide PersistFrom;
    hide Canonical;
    hide LoadBlocks;
    hide FirstBroken;
    hide EventGuard;
    hide LatchedSeq;
    var a := AuditNow(h, l, s, now).value;
    PersistKeeps(h, l, a, faults, 0);
    assert a.sessionId == s && a.isTampered == a.broken.Some?;
    var e := EventOf(h, l, a);
    LatchedSeqPrefix(l.events, [e], s);
    LatchedSeqOne(e, s);
  }

  lemma LatchedSeqOne(e: EventRow, s: string)
    requires e.sessionId == s && e.isTampered && e.broken.Some?
    ensures LatchedSeq([e], s) == e.broken
  {
  }

  /** Once a tampered verdict for a session has been returned, every verdict returned later is tampered, whatever
      was done to the block rows in between; if those rows read clean again, it names the first stored position. */
  lemma LatchIsForever(h: Sha256, sys: System, s: string, now: Utc, faults: seq<Fault>, steps: seq<Step>,
                       later: Utc, laterFaults: seq<Fault>)
    requires IsSessionId(s) && s in sys.ledger.sessions
    requires var r := VerifySession(h, sys.ledger, s, now, faults).1; r.Verdict? && r.audit.isTampered
    ensures var first := VerifySession(h, sys.ledger, s, now, faults).1.audit.broken;
            var position := if LatchedSeq(sys.ledger.events, s).Some? then LatchedSeq(sys.ledger.events, s) else first;
            var end := Run(h, Apply(h, sys, Check(s, now, faults)), steps).ledger;
            var r := VerifySession(h, end, s, later, laterFaults).1;
            r.Verdict? ==>
              && r.audit.isTampered
              && (ReadsClean(h, end, s, later) ==> r.audit.broken == position)
  {
    hide *;
    ApplyCheck(h, sys, s, now, faults);
    TamperedVerdictLatches(h, sys.ledger, s, now, faults);
    var mid := Apply(h, sys, Check(s, now, faults));
    StepOnlyAddsVerdicts(h, sys, Check(s, now, faults));
    LatchSurvivesRun(h, mid, steps, s);
    var end := Run(h, mid, steps).ledger;
    VerdictIsAudit(h, end, s, later, laterFaults);
    LatchedAudit(h, end, s, later);
  }

  lemma ApplyCheck(h: Sha256, sys: System, s: string, now: Utc, faults: seq<Fault>)
    ensures Apply(h, sys, Check(s, now, faults)).ledger == VerifySession(h, sys.ledger, s, now, faults).0
  {
    hide VerifySession;
  }

  lemma VerdictIsAudit(h: Sha256, l: Ledger, s: string, now: Utc, faults: seq<Fault>)
    requires s in l.sessions
    ensures var r := VerifySession(h, l, s, now, faults).1;
            r.Verdict? ==> AuditNow(h, l, s, now) == Some(r.audit)
  {
    hide AuditNow;
    hide PersistFrom;
  }

  /** The rows of the session load and pass the audit on their own. */
  ghost predicate ReadsClean(h: Sha256, l: Ledger, s: string, now: Utc) {
    var loaded := LoadBlocks(s, Rows(l, s));
    s in l.sessions && loaded.Some? && !FailClosedSpec(h, s, l.sessions[s].genesis, Some(Items(loaded.value)), Some(now)).isTampered
  }

  lemma LatchedAudit(h: Sha256, l: Ledger, s: string, now: Utc)
    requires s in l.sessions && LatchedSeq(l.events, s).Some?
    ensures var a := AuditNow(h, l, s, now);
            a.Some? ==> a.value.isTampered && (ReadsClean(h, l, s, now) ==> a.value.broken == LatchedSeq(l.events, s))
  {
    hide FailClosedSpec;
    hide LatchedSeq;
    hide LoadBlocks;
  }

  /** A latched session accepts no block, from any writer, under any faults. */
  lemma LatchedSessionRefusesBlocks(h: Sha256, l: Ledger, w: Writer, f: Fault)
    requires w.Trying? && w.attempts <= MAX_RETRIES
    requires AcceptedByDollar(w.req.sessionId) && LatchedSeq(l.events, Trimmed(w.req.sessionId)).Some?
    ensures WriterStep(h, l, w, f).0 == l
    ensures WriterStep(h, l, w, f).1.Finished? ==> !IsAppended(WriterStep(h, l, w, f).1.reply)
  {
    hide LatchedSeq;
    hide SealBlock;
    hide OpenSession;
    hide InsertGuard;
    hide Canonical;
    hide WriterStep;
    AttemptOutcome(h, l, w, f);
    if w.req.ts.Some? && AppendTxn(h, l, w.req, w.req.ts.value, f).outcome.Ok? {
      var s, ts := w.req.sessionId, w.req.ts.value;
      OpenedSession(h, l, s, ts, f);
      var l1 := OpenSession(h, l, s, ts, f).value;
      SealedBlockShape(h, s, |Rows(l1, s)|, PrevHash(l1, s), w.req, ts);
      var b := SealBlock(h, s, |Rows(l1, s)|, PrevHash(l1, s), w.req, ts).value;
      GuardPassed(l1, b.sessionId, RowOf(b));
      assert false;
    }
  }
}
