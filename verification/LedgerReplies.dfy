/** What a call answers: exactly when an append succeeds, which failure class it gets otherwise, and exactly when a
    verdict is returned. */
module LedgerReplies {
  import opened Wrappers
  import opened Digits
  import opened Identifiers
  import opened Timestamps
  import opened AuditContracts
  import opened AuditVerifier
  import opened WalRetry
  import opened LedgerModel
  import opened LedgerRuns

  // ---------------------------------------------------------------- appending
  /** The chain of the request's session so far. */
  function ChainOf(log: seq<Block>, req: Request): seq<Block> { OfSession(log, req.sessionId) }

  /** The id the next block of the session gets. */
  function NextId(h: Sha256, log: seq<Block>, req: Request): string {
    "BLK-" + First16(h(req.sessionId + "|" + Decimal(|ChainOf(log, req)|)))
  }

  /** Nothing is wrong with the request itself, and the session has room for one more block. */
  predicate WellFormed(log: seq<Block>, req: Request) {
    && AcceptedByDollar(req.sessionId) && |req.sessionId| <= 68
    && IsDigest(req.intent) && IsDigest(req.reasoning) && IsDigest(req.action)
    && req.ts.Some? && InRange(req.ts.value) && |ChainOf(log, req)| <= BLOCK_SEQ_MAX
  }

  /** What the log so far must not contradict: the time does not decrease, and the derived block id is free. */
  ghost predicate Continues(h: Sha256, log: seq<Block>, req: Request)
    requires req.ts.Some?
  {
    && (forall b :: b in ChainOf(log, req) ==> !Before(req.ts.value, b.ts))
    && (forall b :: b in log ==> b.blockId != NextId(h, log, req))
  }

  ghost predicate Appendable(h: Sha256, log: seq<Block>, req: Request) {
    WellFormed(log, req) && IsSessionId(req.sessionId) && Continues(h, log, req)
  }

  /** The block an append adds: every field of it. */
  ghost predicate IsNextBlock(h: Sha256, log: seq<Block>, req: Request, b: Block) {
    var c := ChainOf(log, req);
    && b.blockId == NextId(h, log, req) && b.sessionId == req.sessionId && b.seqNo == |c|
    && b.prev == (if c == [] then h("TRACEKIT-GENESIS|" + req.sessionId) else c[|c| - 1].current)
    && b.intent == req.intent && b.reasoning == req.reasoning && b.action == req.action && Some(b.ts) == req.ts
    && b.current == h(b.prev + b.intent + b.reasoning + b.action + Canonical(b.ts))
  }

  /** The database refuses this attempt on its way; the session row is written only for a new session. */
  predicate Hits(f: Fault, newSession: bool) { f.point != NoFault && (f.point == AtSessionInsert ==> newSession) }

  lemma {:induction false} InSession(log: seq<Block>, s: string, b: Block)
    ensures b in OfSession(log, s) <==> b in log && b.sessionId == s
  {
    if log != [] {
      InSession(log[..|log| - 1], s, b);
      assert b in log <==> b in log[..|log| - 1] || b == log[|log| - 1];
    }
  }

  lemma UsedIsLogged(h: Sha256, l: Ledger, log: seq<Block>, id: string)
    requires Kept(h, l, log) && BlockIdUsed(l, id)
    ensures exists b :: b in log && b.blockId == id
  {
    hide Clean;
    hide Canonical;
    hide IsSealedFormat;
    var s :| s in l.blocks && exists r | r in l.blocks[s] :: r.blockId == id;
    var r :| r in l.blocks[s] && r.blockId == id;
    assert SessionKept(h, l, log, s);
    var c := OfSession(log, s);
    assert l.blocks[s] == RowsOf(c);
    var i :| 0 <= i < |c| && RowOf(c[i]) == r;
    InSession(log, s, c[i]);
  }

  lemma LoggedIsUsed(h: Sha256, l: Ledger, log: seq<Block>, b: Block)
    requires Kept(h, l, log) && b in log
    ensures BlockIdUsed(l, b.blockId)
  {
    hide Clean;
    hide Canonical;
    hide IsSealedFormat;
    var s := b.sessionId;
    InSession(log, s, b);
    assert SessionKept(h, l, log, s);
    var c := OfSession(log, s);
    var i :| 0 <= i < |c| && c[i] == b;
    assert RowsOf(c)[i] == RowOf(b) && RowOf(b) in Rows(l, s);
  }

  /** A block id is taken exactly when some appended block has it. */
  lemma BlockIdUsedIff(h: Sha256, l: Ledger, log: seq<Block>, id: string)
    requires Kept(h, l, log)
    ensures BlockIdUsed(l, id) <==> exists b :: b in log && b.blockId == id
  {
    hide BlockIdUsed;
    hide Kept;
    if BlockIdUsed(l, id) { UsedIsLogged(h, l, log, id); }
    if b :| b in log && b.blockId == id { LoggedIsUsed(h, l, log, b); }
  }

  lemma ContinuesLast(h: Sha256, log: seq<Block>, req: Request)
    requires Clean(h, req.sessionId, ChainOf(log, req)) && req.ts.Some?
    ensures var c := ChainOf(log, req);
            (forall b :: b in c ==> !Before(req.ts.value, b.ts)) <==> c == [] || !Before(req.ts.value, c[|c| - 1].ts)
  {
    var c := ChainOf(log, req);
    if c != [] {
      LastIsLatest(h, req.sessionId, c, |c| - 1);
      assert c[|c| - 1] in c;
    }
  }

  lemma DerivedId(h: Sha256, s: string, n: nat)
    requires HexOutput(h)
    ensures MatchesId("BLK-", DeriveId(h, "BLK-", s, n))
  {
    var d := h(s + "|" + Decimal(n));
    assert IsDigest(d);
    assert forall i :: 0 <= i < 64 ==> IsHexChar(d[i]);
  }

  // Opening the session of a well-formed request.
  lemma Opens(h: Sha256, l: Ledger, log: seq<Block>, req: Request, f: Fault)
    requires Kept(h, l, log) && HexOutput(h) && WellFormed(log, req)
    ensures var s := req.sessionId; var c := ChainOf(log, req);
            && (f.point == AtSessionInsert && c == [] ==> OpenSession(h, l, s, req.ts.value, f) == Err(Raise(f)))
            && (!(f.point == AtSessionInsert && c == []) ==>
                  var r := OpenSession(h, l, s, req.ts.value, f);
                  && r.Ok? && s in r.value.sessions && r.value.blocks == l.blocks && r.value.events == l.events
                  && r.value.sessions[s].genesis == GenesisHash(h, s)
                  && (c != [] ==> r.value == l)
                  && (c == [] ==> r.value.sessions[s].createdAt == Canonical(req.ts.value))
                  && (forall t :: t != s ==> SameEntry(r.value.sessions, l.sessions, t)))
  {
    hide Canonical;
    hide Clean;
    assert SessionKept(h, l, log, req.sessionId);
  }

  lemma Seals(h: Sha256, req: Request, n: nat, prev: string)
    requires HexOutput(h) && AcceptedByDollar(req.sessionId) && req.ts.Some? && IsDigest(prev)
    ensures SealBlock(h, req.sessionId, n, prev, req, req.ts.value).Ok? <==>
              && n <= BLOCK_SEQ_MAX && InRange(req.ts.value)
              && IsDigest(req.intent) && IsDigest(req.reasoning) && IsDigest(req.action)
    ensures SealBlock(h, req.sessionId, n, prev, req, req.ts.value).Err? ==>
              SealBlock(h, req.sessionId, n, prev, req, req.ts.value) == Err(BadValue)
  {
    hide Canonical;
    hide MatchesId;
    hide IsHexChar;
    hide DeriveId;
    DerivedId(h, req.sessionId, n);
    if InRange(req.ts.value) { assert IsDigest(h(Material(prev, req.intent, req.reasoning, req.action, req.ts.value))); }
  }

  lemma HeadIsDigest(h: Sha256, s: string, c: seq<Block>)
    requires HexOutput(h) && Sealed(c)
    ensures IsDigest(Head(h, s, c))
  {
    if c != [] { assert c[|c| - 1] in c; } else { assert IsDigest(h(GenesisMaterial(s))); }
  }

  // What the guards say about the next row of a kept session.
  lemma GuardAnswers(h: Sha256, l: Ledger, log: seq<Block>, l1: Ledger, s: string, b: Block)
    requires Kept(h, l, log) && IsSessionId(s) && b.sessionId == s && b.seqNo == |OfSession(log, s)|
    requires b.prev == Head(h, s, OfSession(log, s))
    requires l1.blocks == l.blocks && l1.events == l.events && s in l1.sessions
    requires l1.sessions[s].genesis == GenesisHash(h, s)
    requires OfSession(log, s) == [] ==> l1.sessions[s].createdAt == Canonical(b.ts)
    ensures var c := OfSession(log, s); var g := InsertGuard(l1, s, RowOf(b));
            && (g == None <==>
                  && (c == [] || !Before(b.ts, c[|c| - 1].ts))
                  && (forall x :: x in log ==> x.blockId != b.blockId))
            && (g.Some? ==> g == Some(TimeRegressed) || g == Some(DuplicateKey))
  {
    hide Canonical;
    hide LexLess;
    hide Kept;
    hide MatchesId;
    hide Before;
    hide RowWithSeq;
    hide ExpectedLink;
    hide IsLatched;
    hide BlockIdUsed;
    var c := OfSession(log, s);
    NextSlotOpen(h, l, log, l1, s);
    BlockIdUsedIff(h, l, log, b.blockId);
    SameIds(l, l1, b.blockId);
    if c == [] { LexIrreflexive(Canonical(b.ts)); } else { CanonicalOrder(b.ts, c[|c| - 1].ts); }
  }

  lemma SameIds(l: Ledger, l1: Ledger, id: string)
    requires l1.blocks == l.blocks
    ensures BlockIdUsed(l1, id) <==> BlockIdUsed(l, id)
  {
  }

  // The next slot of an open kept session: it is free, its link is the head, and the session is not latched.
  lemma NextSlotOpen(h: Sha256, l: Ledger, log: seq<Block>, l1: Ledger, s: string)
    requires Kept(h, l, log) && IsSessionId(s) && s in l1.sessions && l1.blocks == l.blocks && l1.events == l.events
    requires l1.sessions[s].genesis == GenesisHash(h, s)
    ensures var c := OfSession(log, s);
            && |Rows(l1, s)| == |c| && RowWithSeq(Rows(l1, s), |c|) == None && !IsLatched(l1.events, s)
            && RowWithSeq(Rows(l1, s), |c| - 1) == (if c == [] then None else Some(RowOf(c[|c| - 1])))
            && ExpectedLink(l1, s, |c|) == Some(Head(h, s, c))
  {
    hide Canonical;
    hide Clean;
    hide IsSealedFormat;
    assert SessionKept(h, l, log, s);
    NextSlot(h, l, log, s);
    SlotFree(h, l, log, s);
    LatchedNeedsTampered(l.events, s);
  }

  lemma SlotFree(h: Sha256, l: Ledger, log: seq<Block>, s: string)
    requires SessionKept(h, l, log, s)
    ensures RowWithSeq(Rows(l, s), |OfSession(log, s)|) == None
    ensures |Rows(l, s)| == |OfSession(log, s)|
  {
    hide Canonical;
    SeqNosOf(h, s, OfSession(log, s));
    RowWithSeqOf(OfSession(log, s), 0, |OfSession(log, s)|);
  }

  /** One attempt at an acceptable request commits exactly when the database lets it, and otherwise raises what the
      database raised. */
  lemma AppendableAttempt(h: Sha256, l: Ledger, log: seq<Block>, req: Request, f: Fault)
    requires Kept(h, l, log) && HexOutput(h) && Appendable(h, log, req)
    ensures var o := AppendTxn(h, l, req, req.ts.value, f).outcome;
            if Hits(f, ChainOf(log, req) == []) then o == Err(Raise(f)) else o.Ok?
  {
    hide Canonical;
    hide Clean;
    hide InsertGuard;
    hide OpenSession;
    hide SealBlock;
    hide IsSealedFormat;
    hide MatchesId;
    hide Before;
    hide HexOutput;
    var s, c, ts := req.sessionId, ChainOf(log, req), req.ts.value;
    assert SessionKept(h, l, log, s);
    Opens(h, l, log, req, f);
    if f.point != AtBegin && !(f.point == AtSessionInsert && c == []) {
      var l1 := OpenSession(h, l, s, ts, f).value;
      assert Rows(l1, s) == Rows(l, s);
      NextSlot(h, l, log, s);
      assert PrevHash(l1, s) == Head(h, s, c);
      SlotFree(h, l, log, s);
      HeadIsDigest(h, s, c);
      Seals(h, req, |c|, Head(h, s, c));
      SealedBlockShape(h, s, |c|, Head(h, s, c), req, ts);
      var b := SealBlock(h, s, |c|, Head(h, s, c), req, ts).value;
      assert b.sessionId == s;
      assert c == [] || !Before(ts, c[|c| - 1].ts) by { if c != [] { assert c[|c| - 1] in c; } }
      GuardAnswers(h, l, log, l1, s, b);
    }
  }

  /** An attempt commits exactly on an acceptable request the database lets through, and then adds the next block. */
  lemma AttemptSucceedsIff(h: Sha256, l: Ledger, log: seq<Block>, req: Request, f: Fault)
    requires Kept(h, l, log) && HexOutput(h) && req.ts.Some?
    ensures var o := AppendTxn(h, l, req, req.ts.value, f).outcome;
            && (o.Ok? <==> Appendable(h, log, req) && !Hits(f, ChainOf(log, req) == []))
            && (o.Ok? ==> IsNextBlock(h, log, req, o.value.1))
  {
    hide AppendTxn;
    hide Canonical;
    hide Clean;
    hide Hits;
    if Appendable(h, log, req) { AppendableAttempt(h, l, log, req, f); }
    if AppendTxn(h, l, req, req.ts.value, f).outcome.Ok? { CommittedIsNext(h, l, log, req, f); }
  }

  lemma CommittedIsNext(h: Sha256, l: Ledger, log: seq<Block>, req: Request, f: Fault)
    requires Kept(h, l, log) && HexOutput(h) && req.ts.Some?
    requires AppendTxn(h, l, req, req.ts.value, f).outcome.Ok?
    ensures Appendable(h, log, req) && IsNextBlock(h, log, req, AppendTxn(h, l, req, req.ts.value, f).outcome.value.1)
  {
    hide Canonical;
    hide Clean;
    hide Before;
    hide MatchesId;
    var s, ts := req.sessionId, req.ts.value;
    CommittedAppend(h, l, log, req, ts, f);
    CommittedFresh(h, l, log, req, f);
    assert SessionKept(h, l, log, s);
    ContinuesLast(h, log, req);
    hide AppendTxn;
    hide Kept;
    var b := AppendTxn(h, l, req, ts, f).outcome.value.1;
    assert BlockMaterial(b) == b.prev + b.intent + b.reasoning + b.action + Canonical(b.ts);
    assert GenesisMaterial(s) == "TRACEKIT-GENESIS|" + s;
    assert |s| <= 68 by { SessionIdLength(s); }
  }

  lemma SessionIdLength(s: string)
    requires IsSessionId(s)
    ensures |s| <= 68
  {
  }

  lemma CommittedFresh(h: Sha256, l: Ledger, log: seq<Block>, req: Request, f: Fault)
    requires Kept(h, l, log) && req.ts.Some? && AppendTxn(h, l, req, req.ts.value, f).outcome.Ok?
    ensures var b := AppendTxn(h, l, req, req.ts.value, f).outcome.value.1;
            forall x :: x in log ==> x.blockId != b.blockId
  {
    hide Kept;
    hide Canonical;
    hide SealBlock;
    var s, ts := req.sessionId, req.ts.value;
    var b := AppendTxn(h, l, req, ts, f).outcome.value.1;
    OpenedSession(h, l, s, ts, f);
    var l1 := OpenSession(h, l, s, ts, f).value;
    assert InsertGuard(l1, b.sessionId, RowOf(b)) == None;
    assert !BlockIdUsed(l1, b.blockId);
    assert BlockIdUsed(l1, b.blockId) <==> BlockIdUsed(l, b.blockId);
    BlockIdUsedIff(h, l, log, b.blockId);
  }

  // ---------------------------------------------------------------- refusals
  // An id that only Python's `$` accepts never has a session of its own.
  lemma NoSessionOfItsOwn(h: Sha256, l: Ledger, log: seq<Block>, s: string)
    requires Kept(h, l, log) && !IsSessionId(s)
    ensures s !in l.sessions && OfSession(log, s) == [] && Rows(l, s) == []
  {
    hide Clean;
    hide Canonical;
    assert SessionKept(h, l, log, s);
  }

  lemma NewlineRefused(h: Sha256, l: Ledger, log: seq<Block>, req: Request, f: Fault)
    requires Kept(h, l, log) && HexOutput(h) && WellFormed(log, req) && !IsSessionId(req.sessionId) && f.point == NoFault
    ensures var o := AppendTxn(h, l, req, req.ts.value, f).outcome;
            o.Err? && o.error.Integrity? && ClassifyGuard(o.error.guard) == BUSINESS
  {
    hide Canonical;
    hide Clean;
    hide LexLess;
    hide OpenSession;
    hide SealBlock;
    hide MatchesId;
    hide BlockIdUsed;
    hide HexOutput;
    var s, ts := req.sessionId, req.ts.value;
    var t := Trimmed(s);
    NoSessionOfItsOwn(h, l, log, s);
    assert SessionKept(h, l, log, t);
    Opens(h, l, log, req, f);
    var l1 := OpenSession(h, l, s, ts, f).value;
    assert Rows(l1, s) == [] && PrevHash(l1, s) == GenesisHash(h, s);
    HeadIsDigest(h, s, []);
    Seals(h, req, 0, GenesisHash(h, s));
    SealedBlockShape(h, s, 0, GenesisHash(h, s), req, ts);
    LatchedNeedsTampered(l.events, t);
    assert t != s && SameEntry(l1.sessions, l.sessions, t);
    assert Rows(l1, t) == Rows(l, t);
    if OfSession(log, t) == [] { assert Rows(l, t) == []; } else { assert |Rows(l, t)| == |OfSession(log, t)|; }
  }

  lemma MalformedRefused(h: Sha256, l: Ledger, log: seq<Block>, req: Request, f: Fault)
    requires Kept(h, l, log) && HexOutput(h) && req.ts.Some? && !WellFormed(log, req) && f.point == NoFault
    ensures var o := AppendTxn(h, l, req, req.ts.value, f).outcome;
            o == Err(BadValue) || o == Err(Integrity(CheckFailed))
  {
    hide Canonical;
    hide Clean;
    hide InsertGuard;
    hide SealBlock;
    hide MatchesId;
    hide HexOutput;
    var s, ts, c := req.sessionId, req.ts.value, ChainOf(log, req);
    assert SessionKept(h, l, log, s);
    if !IsSessionId(s) { NoSessionOfItsOwn(h, l, log, s); }
    if OpenSession(h, l, s, ts, f).Ok? {
      OpenedSession(h, l, s, ts, f);
      OpenedShort(h, l, log, s, ts, f);
      var l1 := OpenSession(h, l, s, ts, f).value;
      assert Rows(l1, s) == Rows(l, s);
      SlotFree(h, l, log, s);
      OpenedHead(h, l, log, s, ts, f);
      HeadIsDigest(h, s, c);
      Seals(h, req, |c|, Head(h, s, c));
    }
  }

  lemma OpenedShort(h: Sha256, l: Ledger, log: seq<Block>, s: string, ts: Utc, f: Fault)
    requires Kept(h, l, log) && OpenSession(h, l, s, ts, f).Ok?
    ensures AcceptedByDollar(s) && |s| <= 68
  {
    hide Canonical;
    hide Clean;
    assert SessionKept(h, l, log, s);
  }

  lemma OpenedHead(h: Sha256, l: Ledger, log: seq<Block>, s: string, ts: Utc, f: Fault)
    requires Kept(h, l, log) && OpenSession(h, l, s, ts, f).Ok?
    ensures s in OpenSession(h, l, s, ts, f).value.sessions
    ensures PrevHash(OpenSession(h, l, s, ts, f).value, s) == Head(h, s, OfSession(log, s))
  {
    hide Canonical;
    hide Clean;
    assert SessionKept(h, l, log, s);
    OpenedSession(h, l, s, ts, f);
    NextSlot(h, l, log, s);
    SlotFree(h, l, log, s);
  }

  lemma LateRefused(h: Sha256, l: Ledger, log: seq<Block>, req: Request, f: Fault)
    requires Kept(h, l, log) && HexOutput(h) && WellFormed(log, req) && IsSessionId(req.sessionId) && f.point == NoFault
    requires !Continues(h, log, req)
    ensures var o := AppendTxn(h, l, req, req.ts.value, f).outcome;
            o == Err(Integrity(TimeRegressed)) || o == Err(Integrity(DuplicateKey))
  {
    hide Canonical;
    hide Clean;
    hide InsertGuard;
    hide OpenSession;
    hide SealBlock;
    hide IsSealedFormat;
    hide MatchesId;
    hide Before;
    hide HexOutput;
    var s, c, ts := req.sessionId, ChainOf(log, req), req.ts.value;
    assert SessionKept(h, l, log, s);
    Opens(h, l, log, req, f);
    var l1 := OpenSession(h, l, s, ts, f).value;
    assert Rows(l1, s) == Rows(l, s);
    OpenedHead(h, l, log, s, ts, f);
    SlotFree(h, l, log, s);
    HeadIsDigest(h, s, c);
    Seals(h, req, |c|, Head(h, s, c));
    SealedBlockShape(h, s, |c|, Head(h, s, c), req, ts);
    var b := SealBlock(h, s, |c|, Head(h, s, c), req, ts).value;
    ContinuesLast(h, log, req);
    GuardAnswers(h, l, log, l1, s, b);
  }

  /** A refused request: DETERMINISTIC when something is wrong with it on its own, BUSINESS when it is out of place. */
  function RefusalClass(log: seq<Block>, req: Request): FailureClass {
    if WellFormed(log, req) then BUSINESS else DETERMINISTIC
  }

  lemma RefusedAttempt(h: Sha256, l: Ledger, log: seq<Block>, req: Request, f: Fault, held: Option<Block>)
    requires Kept(h, l, log) && HexOutput(h) && req.ts.Some? && !Appendable(h, log, req) && f.point == NoFault
    ensures var t := AppendTxn(h, l, req, req.ts.value, f);
            && t.outcome.Err? && !t.outcome.error.DbLocked?
            && ReplyFor(t.outcome.error, held)
               == Replied(AppendOutcome(REJECTED_INVALID, Some(RefusalClass(log, req)), held, true))
  {
    hide AppendTxn;
    hide WellFormed;
    hide Kept;
    hide HexOutput;
    if !WellFormed(log, req) {
      MalformedRefused(h, l, log, req, f);
    } else if !IsSessionId(req.sessionId) {
      NewlineRefused(h, l, log, req, f);
    } else {
      LateRefused(h, l, log, req, f);
    }
  }

  // ---------------------------------------------------------------- whole calls
  /** The first j attempts meet a lock. */
  predicate LockedUntil(faults: seq<Fault>, newSession: bool, j: nat) {
    forall i: nat :: i < j ==> FaultAt(faults, i).locked && Hits(FaultAt(faults, i), newSession)
  }

  /** At most three attempts are locked out and the next one is let through. */
  ghost predicate LetThrough(faults: seq<Fault>, newSession: bool, j: nat) {
    j <= 3 && LockedUntil(faults, newSession, j) && !Hits(FaultAt(faults, j), newSession)
  }

  ghost predicate SomeLetThrough(faults: seq<Fault>, newSession: bool) { exists j :: LetThrough(faults, newSession, j) }

  ghost predicate CallSucceeds(h: Sha256, log: seq<Block>, req: Request, faults: seq<Fault>) {
    Appendable(h, log, req) && SomeLetThrough(faults, ChainOf(log, req) == [])
  }

  lemma LockedAttempt(h: Sha256, l: Ledger, w: Writer, f: Fault)
    requires w.Trying? && w.attempts <= MAX_RETRIES && w.req.ts.Some?
    ensures var o := AppendTxn(h, l, w.req, w.req.ts.value, f).outcome;
            var (l1, w1) := WriterStep(h, l, w, f);
            && (o == Err(DbLocked) && w.attempts < 3 ==> l1 == l && w1.Trying? && w1.req == w.req && w1.attempts == w.attempts + 1)
            && (o == Err(DbLocked) && w.attempts == 3 ==>
                  l1 == l && w1.Finished? && w1.attempts == 4 && w1.reply.Replied?
                  && w1.reply.outcome.state == REJECTED_INVALID && w1.reply.outcome.failure == Some(TRANSIENT))
            && (o == Err(DbOther) ==> l1 == l && w1 == Finished(w.req, w.attempts + 1, OperationalRaised))
            && (o.Ok? ==> (l1, w1) == (o.value.0, Finished(w.req, w.attempts + 1,
                                                           Replied(AppendOutcome(APPENDED, None, Some(o.value.1), false)))))
  {
    hide AppendTxn;
  }

  /** An acceptable request: APPENDED after j + 1 attempts when j <= 3 of them were locked out first, TRANSIENT after
      four locks, and the database's own error otherwise. */
  lemma {:induction false} AppendableCall(h: Sha256, l: Ledger, log: seq<Block>, w: Writer, faults: seq<Fault>, j: nat)
    requires Kept(h, l, log) && HexOutput(h) && w.Trying? && Appendable(h, log, w.req)
    requires w.attempts <= j <= 3 && LockedUntil(faults, ChainOf(log, w.req) == [], j)
    ensures var (l2, w2) := AppendFrom(h, l, w, faults);
            var f := FaultAt(faults, j);
            if !Hits(f, ChainOf(log, w.req) == []) then
              w2.attempts == j + 1 && IsAppended(w2.reply) && w2.reply.outcome.block.Some?
              && IsNextBlock(h, log, w.req, w2.reply.outcome.block.value)
            else if !f.locked then l2 == l && w2.attempts == j + 1 && w2.reply == OperationalRaised
            else j == 3 ==> l2 == l && w2.attempts == 4 && w2.reply.Replied? && w2.reply.outcome.failure == Some(TRANSIENT)
    decreases j - w.attempts
  {
    hide AppendTxn;
    hide WriterStep;
    hide Kept;
    hide HexOutput;
    assert w.req.ts.Some?;
    hide Appendable;
    hide IsNextBlock;
    hide Hits;
    var f := FaultAt(faults, w.attempts);
    AttemptSucceedsIff(h, l, log, w.req, f);
    AppendableAttempt(h, l, log, w.req, f);
    LockedAttempt(h, l, w, f);
    if w.attempts < j {
      AppendableCall(h, l, log, WriterStep(h, l, w, f).1, faults, j);
    }
  }

  lemma {:induction false} NeverAppends(h: Sha256, l: Ledger, log: seq<Block>, w: Writer, faults: seq<Fault>)
    requires Kept(h, l, log) && HexOutput(h) && w.Trying? && w.attempts <= 3 && !Appendable(h, log, w.req)
    ensures !IsAppended(AppendFrom(h, l, w, faults).1.reply)
    decreases 3 - w.attempts
  {
    hide AppendTxn;
    hide WriterStep;
    hide Kept;
    hide HexOutput;
    hide Appendable;
    var f := FaultAt(faults, w.attempts);
    AttemptOutcome(h, l, w, f);
    if w.req.ts.Some? { AttemptSucceedsIff(h, l, log, w.req, f); }
    var (l1, w1) := WriterStep(h, l, w, f);
    if w1.Trying? {
      AttemptCounts(h, l, w, f);
      NeverAppends(h, l1, log, w1, faults);
    }
  }

  /** The faults either let an attempt through, or stop the call before. */
  lemma FirstUnlocked(faults: seq<Fault>, newSession: bool) returns (j: nat)
    ensures j <= 3 && LockedUntil(faults, newSession, j)
    ensures j == 3 || !FaultAt(faults, j).locked || !Hits(FaultAt(faults, j), newSession)
  {
    j := 0;
    while j < 3 && FaultAt(faults, j).locked && Hits(FaultAt(faults, j), newSession)
      invariant j <= 3 && LockedUntil(faults, newSession, j)
    {
      j := j + 1;
    }
  }

  /** APPENDED with the next block after j locked attempts, or the very same tables. */
  ghost predicate AnswersCall(h: Sha256, l: Ledger, log: seq<Block>, req: Request, faults: seq<Fault>, l2: Ledger,
                              reply: AppendReply, attempts: nat)
  {
    if CallSucceeds(h, log, req, faults) then
      && IsAppended(reply) && reply.outcome.block.Some? && IsNextBlock(h, log, req, reply.outcome.block.value)
      && Kept(h, l2, log + [reply.outcome.block.value])
      && attempts >= 1 && LetThrough(faults, ChainOf(log, req) == [], attempts - 1)
    else !IsAppended(reply) && l2 == l
  }

  /** A call answers APPENDED exactly on an acceptable request of which at most three attempts are locked out and the
      next is let through. */
  lemma CallSucceedsIff(h: Sha256, l: Ledger, log: seq<Block>, req: Request, faults: seq<Fault>)
    requires Kept(h, l, log) && HexOutput(h)
    ensures var (l2, w2) := AppendFrom(h, l, Trying(req, 0, None), faults);
            AnswersCall(h, l, log, req, faults, l2, w2.reply, w2.attempts)
  {
    hide Kept;
    hide HexOutput;
    hide Appendable;
    hide IsNextBlock;
    hide AppendFrom;
    hide Hits;
    hide OfSession;
    var w := Trying(req, 0, None);
    AppendCallAddsOneOrNothing(h, l, log, w, faults);
    if Appendable(h, log, req) {
      var opens := ChainOf(log, req) == [];
      var j := FirstUnlocked(faults, opens);
      AppendableCall(h, l, log, w, faults, j);
      if k :| LetThrough(faults, opens, k) {}
      if !Hits(FaultAt(faults, j), opens) { assert LetThrough(faults, opens, j); }
    } else {
      NeverAppends(h, l, log, w, faults);
    }
  }

  /** With no fault a refused call is answered at once, with the class of the refusal and the tables untouched. */
  lemma RefusedCall(h: Sha256, l: Ledger, log: seq<Block>, req: Request, faults: seq<Fault>)
    requires Kept(h, l, log) && HexOutput(h) && !Appendable(h, log, req) && FaultAt(faults, 0).point == NoFault
    ensures var (l2, w2) := AppendFrom(h, l, Trying(req, 0, None), faults);
            && l2 == l && w2.reply.Replied?
            && w2.reply.outcome.state == REJECTED_INVALID && w2.reply.outcome.quarantined
            && w2.reply.outcome.failure == Some(RefusalClass(log, req))
  {
    hide AppendTxn;
    hide Kept;
    hide HexOutput;
    var w, f := Trying(req, 0, None), FaultAt(faults, 0);
    if req.ts.Some? {
      var t := AppendTxn(h, l, req, req.ts.value, f);
      RefusedAttempt(h, l, log, req, f, if t.held.Some? then t.held else None);
    }
  }

  // ---------------------------------------------------------------- verdicts
  /** The number of events of a session, from the first row to the last. */
  function EventsOf(events: seq<EventRow>, s: string): nat {
    if events == [] then 0
    else EventsOf(events[..|events| - 1], s) + if events[|events| - 1].sessionId == s then 1 else 0
  }

  lemma {:induction false} EventCountSnoc(events: seq<EventRow>, n: nat, s: string)
    requires n < |events|
    ensures EventCount(events[..n + 1], s) == EventCount(events[..n], s) + if events[n].sessionId == s then 1 else 0
    decreases n
  {
    assert events[..n + 1][0] == events[0] && events[..n + 1][1..] == events[1..][..n];
    if n > 0 {
      assert events[..n][0] == events[0] && events[..n][1..] == events[1..][..n - 1];
      EventCountSnoc(events[1..], n - 1, s);
    } else {
      assert EventCount([], s) == 0;
    }
  }

  lemma {:induction false} EventsCounted(events: seq<EventRow>, s: string)
    ensures EventCount(events, s) == EventsOf(events, s)
  {
    if events != [] {
      var n := |events| - 1;
      EventsCounted(events[..n], s);
      EventCountSnoc(events, n, s);
      assert events[..n + 1] == events;
    }
  }

  function NextEventId(h: Sha256, l: Ledger, s: string): string {
    "EVT-" + First16(h(s + "|" + Decimal(EventsOf(l.events, s))))
  }

  /** The tables take the verdict: a reported position has a block row, and the derived event id is free. */
  ghost predicate Recordable(h: Sha256, l: Ledger, s: string, a: Audit) {
    && (a.isTampered ==> a.broken.Some? && a.broken.value < |Rows(l, s)| && a.broken.value <= BLOCK_SEQ_MAX)
    && (forall e :: e in l.events ==> e.eventId != NextEventId(h, l, s))
  }

  predicate StopsVerdict(f: Fault) { f.point == AtBegin || f.point == AtInsert || f.point == AtCommit }

  predicate LockedVerdict(faults: seq<Fault>, j: nat) {
    forall i: nat :: i < j ==> FaultAt(faults, i).locked && StopsVerdict(FaultAt(faults, i))
  }

  ghost predicate VerdictLetThrough(faults: seq<Fault>, j: nat) {
    j <= 3 && LockedVerdict(faults, j) && !StopsVerdict(FaultAt(faults, j))
  }

  lemma PersistAttempt(h: Sha256, l: Ledger, a: Audit, f: Fault)
    requires a.sessionId in l.sessions && a.isTampered == a.broken.Some?
    requires IsLatched(l.events, a.sessionId) ==> a.isTampered
    ensures var r := PersistTxn(h, l, a, f);
            && (r.Ok? <==> Recordable(h, l, a.sessionId, a) && !StopsVerdict(f))
            && (Recordable(h, l, a.sessionId, a) && StopsVerdict(f) ==> r == Err(Raise(f)))
  {
    hide Canonical;
    EventsCounted(l.events, a.sessionId);
    var e := EventOf(h, l, a);
    assert e.eventId == NextEventId(h, l, a.sessionId);
    assert (exists x | x in l.events :: x.eventId == e.eventId) <==> !(forall x :: x in l.events ==> x.eventId != e.eventId);
  }

  lemma {:induction false} PersistSucceedsFrom(h: Sha256, l: Ledger, a: Audit, faults: seq<Fault>, n: nat, j: nat)
    requires a.sessionId in l.sessions && a.isTampered == a.broken.Some?
    requires IsLatched(l.events, a.sessionId) ==> a.isTampered
    requires Recordable(h, l, a.sessionId, a) && n <= j <= 3 && LockedVerdict(faults, j)
    ensures !StopsVerdict(FaultAt(faults, j)) ==> PersistFrom(h, l, a, faults, n).Returned?
    ensures StopsVerdict(FaultAt(faults, j)) && (j == 3 || !FaultAt(faults, j).locked) ==>
              !PersistFrom(h, l, a, faults, n).Returned?
    decreases j - n
  {
    hide PersistTxn;
    hide Recordable;
    PersistAttempt(h, l, a, FaultAt(faults, n));
    if n < j { PersistSucceedsFrom(h, l, a, faults, n + 1, j); }
  }

  lemma {:induction false} PersistNever(h: Sha256, l: Ledger, a: Audit, faults: seq<Fault>, n: nat)
    requires a.sessionId in l.sessions && a.isTampered == a.broken.Some? && n <= 3
    requires IsLatched(l.events, a.sessionId) ==> a.isTampered
    requires !Recordable(h, l, a.sessionId, a)
    ensures !PersistFrom(h, l, a, faults, n).Returned?
    decreases 3 - n
  {
    hide PersistTxn;
    hide Recordable;
    PersistAttempt(h, l, a, FaultAt(faults, n));
    if n < 3 { PersistNever(h, l, a, faults, n + 1); }
  }

  lemma AuditedSession(h: Sha256, l: Ledger, s: string, now: Utc)
    requires IsSessionId(s) && s in l.sessions && AuditNow(h, l, s, now).Some?
    ensures var a := AuditNow(h, l, s, now).value;
            a.sessionId == s && a.isTampered == a.broken.Some? && (IsLatched(l.events, s) ==> a.isTampered)
  {
    hide FirstBroken;
    hide LoadBlocks;
    hide LatchedSeq;
    hide Canonical;
    hide GenesisHash;
  }

  /** There is a verdict, the tables take it, and at most three attempts to write it are locked out; for an unknown
      session, the clock is in range. */
  ghost predicate GivesVerdict(h: Sha256, l: Ledger, s: string, now: Utc, faults: seq<Fault>) {
    if s !in l.sessions then InRange(now)
    else var a := AuditNow(h, l, s, now);
         a.Some? && Recordable(h, l, s, a.value) && exists j :: VerdictLetThrough(faults, j)
  }

  /** A verdict is returned exactly then. */
  lemma VerdictIff(h: Sha256, l: Ledger, s: string, now: Utc, faults: seq<Fault>)
    requires IsSessionId(s)
    ensures VerifySession(h, l, s, now, faults).1.Verdict? <==> GivesVerdict(h, l, s, now, faults)
  {
    hide AuditNow;
    hide PersistFrom;
    hide Recordable;
    hide StopsVerdict;
    if s in l.sessions && AuditNow(h, l, s, now).Some? {
      var a := AuditNow(h, l, s, now).value;
      AuditedSession(h, l, s, now);
      if Recordable(h, l, s, a) {
        var j := FirstVerdictUnlocked(faults);
        PersistSucceedsFrom(h, l, a, faults, 0, j);
        if k :| VerdictLetThrough(faults, k) {}
        if !StopsVerdict(FaultAt(faults, j)) { assert VerdictLetThrough(faults, j); }
      } else {
        PersistNever(h, l, a, faults, 0);
      }
    }
  }

  lemma FirstVerdictUnlocked(faults: seq<Fault>) returns (j: nat)
    ensures j <= 3 && LockedVerdict(faults, j)
    ensures j == 3 || !FaultAt(faults, j).locked || !StopsVerdict(FaultAt(faults, j))
  {
    j := 0;
    while j < 3 && FaultAt(faults, j).locked && StopsVerdict(FaultAt(faults, j))
      invariant j <= 3 && LockedVerdict(faults, j)
    {
      j := j + 1;
    }
  }

  /** A session written only by the store gets a clean verdict with its full count exactly when the derived event id
      is free and the write is let through. */
  lemma KeptVerdictIff(h: Sha256, l: Ledger, log: seq<Block>, s: string, now: Utc, faults: seq<Fault>)
    requires Kept(h, l, log) && s in l.sessions
    ensures VerifySession(h, l, s, now, faults).1
              == Verdict(Audit(s, |OfSession(log, s)|, false, None, if InRange(now) then now else TIMESTAMP_MIN)) <==>
              (forall e :: e in l.events ==> e.eventId != NextEventId(h, l, s)) && exists j :: VerdictLetThrough(faults, j)
  {
    KeptVerifiesClean(h, l, log, s, now);
    assert SessionKept(h, l, log, s);
    VerdictIff(h, l, s, now, faults);
    VerdictIsAudit(h, l, s, now, faults);
    hide AuditNow;
    hide VerifySession;
    hide Kept;
  }

  /** Whatever a ledger holds, the first block of a session never predates it, and no block predates the one before. */
  lemma NeverBackInTime(h: Sha256, l: Ledger, req: Request, f: Fault)
    requires req.ts.Some? && AppendTxn(h, l, req, req.ts.value, f).outcome.Ok?
    ensures var (l2, b) := AppendTxn(h, l, req, req.ts.value, f).outcome.value;
            var before := RowWithSeq(Rows(l, b.sessionId), b.seqNo - 1);
            && b.ts == req.ts.value && b.sessionId in l2.sessions
            && (b.seqNo == 0 ==> !LexLess(Canonical(b.ts), l2.sessions[b.sessionId].createdAt))
            && (before.Some? ==> !LexLess(Canonical(b.ts), before.value.createdAt))
  {
    hide Canonical;
    hide LexLess;
    hide SealBlock;
    hide OpenSession;
    hide RowWithSeq;
    hide BlockIdUsed;
    hide ExpectedLink;
    hide IsLatched;
    var s, ts := req.sessionId, req.ts.value;
    OpenedSession(h, l, s, ts, f);
    var l1 := OpenSession(h, l, s, ts, f).value;
    SealedBlockShape(h, s, |Rows(l1, s)|, PrevHash(l1, s), req, ts);
    var b := SealBlock(h, s, |Rows(l1, s)|, PrevHash(l1, s), req, ts).value;
    assert InsertGuard(l1, b.sessionId, RowOf(b)) == None;
  }

  // ---------------------------------------------------------------- for every log a ledger corresponds to
  lemma CallAnswered(h: Sha256, l: Ledger, req: Request, faults: seq<Fault>)
    requires HexOutput(h)
    ensures var (l2, w2) := AppendFrom(h, l, Trying(req, 0, None), faults);
            forall log :: Kept(h, l, log) ==> AnswersCall(h, l, log, req, faults, l2, w2.reply, w2.attempts)
  {
    hide Kept;
    hide AnswersCall;
    hide AppendFrom;
    forall log | Kept(h, l, log)
      ensures var (l2, w2) := AppendFrom(h, l, Trying(req, 0, None), faults);
              AnswersCall(h, l, log, req, faults, l2, w2.reply, w2.attempts)
    {
      CallSucceedsIff(h, l, log, req, faults);
    }
  }
}
