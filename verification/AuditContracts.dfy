/** Contracts of the hash-chained ledger: digests, sealed blocks, the audit verdict and its state machine. */
module AuditContracts {
  import opened Wrappers
  import opened Digits
  import opened Identifiers
  import opened Timestamps

  // ---------------------------------------------------------------- text patterns
  const BLOCK_SEQ_MAX := 1000000
  const TOTAL_BLOCKS_MAX := 1000001
  const GENESIS_DOMAIN := "TRACEKIT-GENESIS|"

  predicate IsSessionId(s: string) { MatchesId("SES-", s) }

  // An unanchored-at-newline match: Python's `$` also accepts one final newline.
  predicate AcceptedByDollar(s: string) {
    IsSessionId(s) || (|s| > 0 && s[|s| - 1] == '\n' && IsSessionId(s[..|s| - 1]))
  }

  // What the immutable models store for an accepted session id: outer whitespace removed.
  function Trimmed(s: string): (t: string)
    requires AcceptedByDollar(s)
    ensures IsSessionId(t) && (s == t || s == t + "\n")
  {
    if IsSessionId(s) then s else s[..|s| - 1]
  }

  // ---------------------------------------------------------------- hashing
  function GenesisMaterial(sessionId: string): string { GENESIS_DOMAIN + sessionId }

  function GenesisHash(h: Sha256, sessionId: string): string { h(GenesisMaterial(sessionId)) }

  /** The fixed-width preimage of a block: four digests and a canonical timestamp. */
  function Material(prev: string, intent: string, reasoning: string, action: string, ts: Stamp): string {
    prev + intent + reasoning + action + Canonical(ts)
  }

  function First16(s: string): string { if |s| <= 16 then s else s[..16] }

  function DeriveId(h: Sha256, prefix: string, sessionId: string, n: nat): string {
    prefix + First16(h(sessionId + "|" + Decimal(n)))
  }

  /** The preimage determines its five operands. */
  lemma MaterialInjective(p1: string, i1: string, r1: string, a1: string, t1: Stamp,
                          p2: string, i2: string, r2: string, a2: string, t2: Stamp)
    requires IsDigest(p1) && IsDigest(i1) && IsDigest(r1) && IsDigest(a1)
    requires IsDigest(p2) && IsDigest(i2) && IsDigest(r2) && IsDigest(a2)
    requires Material(p1, i1, r1, a1, t1) == Material(p2, i2, r2, a2, t2)
    ensures p1 == p2 && i1 == i2 && r1 == r2 && a1 == a2 && t1 == t2
  {
    var m1, m2 := Material(p1, i1, r1, a1, t1), Material(p2, i2, r2, a2, t2);
    assert m1[..64] == p1 && m2[..64] == p2;
    assert m1[64..128] == i1 && m2[64..128] == i2;
    assert m1[128..192] == r1 && m2[128..192] == r2;
    assert m1[192..256] == a1 && m2[192..256] == a2;
    assert m1[256..] == Canonical(t1) && m2[256..] == Canonical(t2);
    CanonicalInjective(t1, t2);
  }

  /** Where each operand stands in the preimage. */
  lemma MaterialLayout(p: string, i: string, r: string, a: string, t: Stamp)
    requires IsDigest(p) && IsDigest(i) && IsDigest(r) && IsDigest(a)
    ensures var m := Material(p, i, r, a, t);
            && |m| == 283 && m[..64] == p && m[64..128] == i && m[128..192] == r && m[192..256] == a
            && Parse(m[256..]) == Some(t)
  {
    hide Canonical;
    hide Parse;
    ParseCanonical(t);
    var m := Material(p, i, r, a, t);
    assert m[..64] == p;
    assert m[64..128] == i;
    assert m[128..192] == r;
    assert m[192..256] == a;
    assert m[256..] == Canonical(t);
  }

  /** No block preimage is a genesis preimage: 283 characters against at most 86. */
  lemma GenesisDomainSeparated(sessionId: string, p: string, i: string, r: string, a: string, t: Stamp)
    requires AcceptedByDollar(sessionId)
    requires IsDigest(p) && IsDigest(i) && IsDigest(r) && IsDigest(a)
    ensures |Material(p, i, r, a, t)| == 283 && |GenesisMaterial(sessionId)| <= 86
    ensures GenesisMaterial(sessionId) != Material(p, i, r, a, t)
  {
  }

  // ---------------------------------------------------------------- sealed blocks
  datatype Block = Block(
    blockId: string, sessionId: string, seqNo: nat, prev: string, current: string,
    intent: string, reasoning: string, action: string, ts: Stamp)

  predicate HasDigests(b: Block) {
    IsDigest(b.prev) && IsDigest(b.current) && IsDigest(b.intent) && IsDigest(b.reasoning) && IsDigest(b.action)
  }

  /** What the immutable block model accepts. */
  predicate IsSealedFormat(b: Block) {
    MatchesId("BLK-", b.blockId) && IsSessionId(b.sessionId) && b.seqNo <= BLOCK_SEQ_MAX && HasDigests(b)
  }

  function BlockMaterial(b: Block): string { Material(b.prev, b.intent, b.reasoning, b.action, b.ts) }

  function BlockHash(h: Sha256, b: Block): string { h(BlockMaterial(b)) }

  /** Equal in everything the hash covers and in its place; only the block id may differ. */
  predicate SameHashedFields(a: Block, b: Block) {
    && a.sessionId == b.sessionId && a.seqNo == b.seqNo && a.prev == b.prev
    && a.intent == b.intent && a.reasoning == b.reasoning && a.action == b.action && a.ts == b.ts
  }

  lemma BlockMaterialInjective(a: Block, b: Block)
    requires HasDigests(a) && HasDigests(b)
    requires BlockMaterial(a) == BlockMaterial(b)
    ensures a.prev == b.prev && a.intent == b.intent && a.reasoning == b.reasoning && a.action == b.action
            && a.ts == b.ts
  {
    MaterialInjective(a.prev, a.intent, a.reasoning, a.action, a.ts, b.prev, b.intent, b.reasoning, b.action, b.ts);
  }

  // ---------------------------------------------------------------- structural validation
  datatype Item = Dto(block: Block) | Foreign

  datatype SequenceError = NotABlock | NotContiguous | SecondSession | TimeDecreased

  predicate StepIsMonotonic(blocks: seq<Item>, i: nat)
    requires i < |blocks|
  {
    && blocks[i].Dto? && blocks[i].block.seqNo == i
    && (i > 0 ==> blocks[i - 1].Dto? && blocks[i].block.sessionId == blocks[i - 1].block.sessionId
                  && NotAfter(blocks[i - 1].block.ts, blocks[i].block.ts))
  }

  /** Position k is the first offence, and e says which of the four rules it breaks first. */
  predicate FirstOffence(blocks: seq<Item>, k: nat, e: SequenceError) {
    && k < |blocks| && !StepIsMonotonic(blocks, k) && (forall j :: 0 <= j < k ==> StepIsMonotonic(blocks, j))
    && (e == NotABlock <==> blocks[k].Foreign?)
    && (e == NotContiguous <==> blocks[k].Dto? && blocks[k].block.seqNo != k)
    && (e == SecondSession <==> blocks[k].Dto? && blocks[k].block.seqNo == k && k > 0 && blocks[k - 1].Dto?
                                && blocks[k].block.sessionId != blocks[k - 1].block.sessionId)
  }

  /** Accepts exactly the one-session, contiguous, time-ordered sequences, and names the first offence. */
  method ValidateBlockSequence(blocks: seq<Item>) returns (r: Result<(), SequenceError>)
    ensures r.Ok? <==> forall i :: 0 <= i < |blocks| ==> StepIsMonotonic(blocks, i)
    ensures r.Err? ==> exists k :: FirstOffence(blocks, k, r.error)
  {
    var previous: Option<Block> := None;
    for expected := 0 to |blocks|
      invariant forall j :: 0 <= j < expected ==> StepIsMonotonic(blocks, j)
      invariant expected == 0 ==> previous == None
      invariant expected > 0 ==> blocks[expected - 1].Dto? && previous == Some(blocks[expected - 1].block)
    {
      if blocks[expected].Foreign? {
        assert FirstOffence(blocks, expected, NotABlock);
        return Err(NotABlock);
      }
      var block := blocks[expected].block;
      if block.seqNo != expected {
        assert FirstOffence(blocks, expected, NotContiguous);
        return Err(NotContiguous);
      }
      if previous.Some? {
        if block.sessionId != previous.value.sessionId {
          assert FirstOffence(blocks, expected, SecondSession);
          return Err(SecondSession);
        }
        if Before(block.ts, previous.value.ts) {
          assert FirstOffence(blocks, expected, TimeDecreased);
          return Err(TimeDecreased);
        }
      }
      previous := Some(block);
    }
    return Ok(());
  }

  // ---------------------------------------------------------------- verdicts
  datatype Audit = Audit(sessionId: string, total: nat, isTampered: bool, broken: Option<nat>, verifiedAt: Stamp)

  predicate IsConsistentVerdict(a: Audit) {
    && IsSessionId(a.sessionId) && a.total <= TOTAL_BLOCKS_MAX
    && (a.broken.Some? ==> a.broken.value <= BLOCK_SEQ_MAX && a.broken.value < a.total)
    && a.isTampered == a.broken.Some?
  }

  // ---------------------------------------------------------------- ledger state machine
  datatype LedgerState =
    | RECEIVED | INTENT_CAPTURED | REASONING_CAPTURED | ACTION_CAPTURED | SEALED | APPENDED
    | VERIFYING | VERIFIED_CLEAN | TAMPER_DETECTED | REJECTED_INVALID

  datatype LedgerEvent =
    | INTENT_OK | REASONING_OK | ACTION_OK | SEAL_OK | WAL_COMMIT | VERIFY_START
    | CHAIN_INTACT | CHAIN_BROKEN | VALIDATION_FAIL | WAL_RETRY_EXHAUSTED

  predicate IsTerminal(s: LedgerState) { s in {VERIFIED_CLEAN, TAMPER_DETECTED, REJECTED_INVALID} }

  function Transition(s: LedgerState, e: LedgerEvent): LedgerState {
    if IsTerminal(s) then s
    else match (s, e)
      case (RECEIVED, INTENT_OK) => INTENT_CAPTURED
      case (INTENT_CAPTURED, REASONING_OK) => REASONING_CAPTURED
      case (REASONING_CAPTURED, ACTION_OK) => ACTION_CAPTURED
      case (ACTION_CAPTURED, SEAL_OK) => SEALED
      case (SEALED, WAL_COMMIT) => APPENDED
      case (APPENDED, VERIFY_START) => VERIFYING
      case (VERIFYING, CHAIN_INTACT) => VERIFIED_CLEAN
      case (VERIFYING, CHAIN_BROKEN) => TAMPER_DETECTED
      case (_, _) => REJECTED_INVALID
  }

  function RunEvents(s: LedgerState, events: seq<LedgerEvent>): LedgerState
    decreases |events|
  {
    if events == [] then s else RunEvents(Transition(s, events[0]), events[1..])
  }

  const CLEAN_PATH: seq<LedgerEvent> :=
    [INTENT_OK, REASONING_OK, ACTION_OK, SEAL_OK, WAL_COMMIT, VERIFY_START, CHAIN_INTACT]

  lemma {:induction false} TerminalAbsorbs(s: LedgerState, events: seq<LedgerEvent>)
    requires IsTerminal(s)
    ensures RunEvents(s, events) == s
    decreases |events|
  {
    if events != [] { TerminalAbsorbs(s, events[1..]); }
  }

  /** A run from RECEIVED ends VERIFIED_CLEAN exactly when it starts with the seven steps in order. */
  lemma OnlyPathToClean(events: seq<LedgerEvent>)
    ensures RunEvents(RECEIVED, events) == VERIFIED_CLEAN <==> CLEAN_PATH <= events
  {
    CleanFrom(RECEIVED, CLEAN_PATH, events);
  }

  // The state that still has exactly `rest` to go before VERIFIED_CLEAN.
  ghost predicate Awaits(s: LedgerState, rest: seq<LedgerEvent>) {
    match s
    case RECEIVED => rest == CLEAN_PATH
    case INTENT_CAPTURED => rest == CLEAN_PATH[1..]
    case REASONING_CAPTURED => rest == CLEAN_PATH[2..]
    case ACTION_CAPTURED => rest == CLEAN_PATH[3..]
    case SEALED => rest == CLEAN_PATH[4..]
    case APPENDED => rest == CLEAN_PATH[5..]
    case VERIFYING => rest == CLEAN_PATH[6..]
    case VERIFIED_CLEAN => rest == []
    case _ => false
  }

  lemma {:induction false} CleanFrom(s: LedgerState, rest: seq<LedgerEvent>, events: seq<LedgerEvent>)
    requires Awaits(s, rest)
    ensures RunEvents(s, events) == VERIFIED_CLEAN <==> rest <= events
    decreases |events|
  {
    if s == VERIFIED_CLEAN {
      TerminalAbsorbs(s, events);
    } else if events != [] {
      var t := Transition(s, events[0]);
      if events[0] == rest[0] {
        CleanFrom(t, rest[1..], events[1..]);
        assert rest == [rest[0]] + rest[1..] && events == [events[0]] + events[1..];
      } else {
        TerminalAbsorbs(t, events[1..]);
      }
    }
  }
}
