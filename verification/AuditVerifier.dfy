/** The backward audit of a hash chain, what it detects exactly, and what it cannot see. */
module AuditVerifier {
  import opened Wrappers
  import opened Identifiers
  import opened Timestamps
  import opened AuditContracts

  const FAIL_CLOSED_TOTAL := 1
  const INVALID_SESSION_ID := "SES-INVALID"

  datatype VerifyError = BadSessionId | BadVerdict

  /** The five checks at one position, against the hash its link must carry and the block before it. */
  predicate Fits(h: Sha256, sessionId: string, b: Block, position: nat, expectedPrev: string, previous: Option<Block>) {
    && b.sessionId == sessionId
    && b.seqNo == position
    && b.prev == expectedPrev
    && b.current == BlockHash(h, b)
    && (previous.Some? ==> NotAfter(previous.value.ts, b.ts))
  }

  predicate ConsistentAt(h: Sha256, sessionId: string, genesis: string, chain: seq<Item>, i: nat)
    requires i < |chain|
  {
    && chain[i].Dto?
    && (i > 0 ==> chain[i - 1].Dto?)
    && Fits(h, sessionId, chain[i].block, i, if i == 0 then genesis else chain[i - 1].block.current,
            if i == 0 then None else Some(chain[i - 1].block))
  }

  /** The least inconsistent position at or after i, or the length when there is none. */
  function FirstBroken(h: Sha256, sessionId: string, genesis: string, chain: seq<Item>, i: nat): (k: nat)
    requires i <= |chain|
    ensures i <= k <= |chain|
    ensures forall j :: i <= j < k ==> ConsistentAt(h, sessionId, genesis, chain, j)
    ensures k < |chain| ==> !ConsistentAt(h, sessionId, genesis, chain, k)
    decreases |chain| - i
  {
    if i == |chain| || !ConsistentAt(h, sessionId, genesis, chain, i) then i
    else FirstBroken(h, sessionId, genesis, chain, i + 1)
  }

  function Verdict(sessionId: string, total: nat, broken: Option<nat>, at: Stamp): Result<Audit, VerifyError>
    requires AcceptedByDollar(sessionId)
  {
    var a := Audit(Trimmed(sessionId), total, broken.Some?, broken, at);
    if IsConsistentVerdict(a) then Ok(a) else Err(BadVerdict)
  }

  function AuditOf(h: Sha256, sessionId: string, genesis: string, chain: seq<Item>, at: Stamp)
    : Result<Audit, VerifyError>
  {
    if !AcceptedByDollar(sessionId) then Err(BadSessionId)
    else if genesis != GenesisHash(h, sessionId) then Verdict(sessionId, FAIL_CLOSED_TOTAL, Some(0), at)
    else
      var k := FirstBroken(h, sessionId, genesis, chain, 0);
      if k < |chain| then Verdict(sessionId, k + 1, Some(k), at) else Verdict(sessionId, |chain|, None, at)
  }

  /** One pass that carries the expected link and the previous block. */
  method VerifyChain(h: Sha256, sessionId: string, genesis: string, chain: seq<Item>, at: Stamp)
    returns (r: Result<Audit, VerifyError>)
    ensures r == AuditOf(h, sessionId, genesis, chain, at)
  {
    hide AcceptedByDollar;
    hide GenesisHash;
    hide Fits;
    if !AcceptedByDollar(sessionId) { return Err(BadSessionId); }
    if genesis != GenesisHash(h, sessionId) { return Verdict(sessionId, FAIL_CLOSED_TOTAL, Some(0), at); }
    var expectedPrev := genesis;
    var previous: Option<Block> := None;
    for position := 0 to |chain|
      invariant position == 0 ==> expectedPrev == genesis && previous == None
      invariant position > 0 ==> chain[position - 1].Dto? && previous == Some(chain[position - 1].block)
                                 && expectedPrev == chain[position - 1].block.current
      invariant FirstBroken(h, sessionId, genesis, chain, 0) == FirstBroken(h, sessionId, genesis, chain, position)
    {
      var consistent := chain[position].Dto?
                        && Fits(h, sessionId, chain[position].block, position, expectedPrev, previous);
      if !consistent {
        return Verdict(sessionId, position + 1, Some(position), at);
      }
      expectedPrev := chain[position].block.current;
      previous := Some(chain[position].block);
    }
    return Verdict(sessionId, |chain|, None, at);
  }

  /** The verdict names the least inconsistent position, and is clean exactly when there is none;
      it is refused only when every position a block can be numbered with is consistent. */
  lemma AuditNamesLeastBroken(h: Sha256, sessionId: string, chain: seq<Item>, at: Stamp)
    requires IsSessionId(sessionId)
    ensures var g := GenesisHash(h, sessionId);
            var r := AuditOf(h, sessionId, g, chain, at);
            && (r.Err? ==> |chain| > TOTAL_BLOCKS_MAX
                           && forall j :: 0 <= j <= BLOCK_SEQ_MAX ==> ConsistentAt(h, sessionId, g, chain, j))
            && (r.Ok? ==>
                  && IsConsistentVerdict(r.value) && r.value.sessionId == sessionId
                  && (!r.value.isTampered <==> forall i :: 0 <= i < |chain| ==> ConsistentAt(h, sessionId, g, chain, i))
                  && (!r.value.isTampered ==> r.value.total == |chain|)
                  && (r.value.isTampered ==>
                        (var k := r.value.broken.value;
                         && k < |chain| && r.value.total == k + 1
                         && !ConsistentAt(h, sessionId, g, chain, k)
                         && forall j :: 0 <= j < k ==> ConsistentAt(h, sessionId, g, chain, j))))
  {
    var g := GenesisHash(h, sessionId);
    var k := FirstBroken(h, sessionId, g, chain, 0);
    assert k < |chain| ==> !ConsistentAt(h, sessionId, g, chain, k);
  }

  // ---------------------------------------------------------------- fail-closed wrapper
  function FailClosedAudit(sessionId: string, at: Stamp): (a: Audit)
    ensures IsConsistentVerdict(a) && a.isTampered && a.broken == Some(0) && a.total == 1
  {
    Audit(if IsSessionId(sessionId) then sessionId else INVALID_SESSION_ID, FAIL_CLOSED_TOTAL, true, Some(0), at)
  }

  /** Never fails: a timestamp out of range is replaced, a non-iterable chain (None) or any error is tampered. */
  method VerifyFailClosed(h: Sha256, sessionId: string, genesis: string, chain: Option<seq<Item>>, at: Option<DateTime>)
    returns (a: Audit)
    ensures IsConsistentVerdict(a)
    ensures a == FailClosedSpec(h, sessionId, genesis, chain, at)
  {
    var ts := SafeStamp(at);
    if chain.None? { return FailClosedAudit(sessionId, ts); }
    var r := VerifyChain(h, sessionId, genesis, chain.value, ts);
    match r {
      case Ok(audit) => a := audit;
      case Err(_) => a := FailClosedAudit(sessionId, ts);
    }
  }

  function SafeStamp(at: Option<DateTime>): Stamp {
    if at.Some? && IsCalendar(at.value) && InRange(at.value) then at.value else TIMESTAMP_MIN
  }

  function FailClosedSpec(h: Sha256, sessionId: string, genesis: string, chain: Option<seq<Item>>, at: Option<DateTime>): Audit {
    var ts := SafeStamp(at);
    if chain.None? then FailClosedAudit(sessionId, ts)
    else match AuditOf(h, sessionId, genesis, chain.value, ts)
      case Ok(audit) => audit
      case Err(_) => FailClosedAudit(sessionId, ts)
  }

  /** A clean fail-closed verdict is earned: every position of the chain is consistent with the genesis. */
  lemma CleanIsNeverGuessed(h: Sha256, sessionId: string, genesis: string, chain: Option<seq<Item>>, at: Option<DateTime>)
    requires !FailClosedSpec(h, sessionId, genesis, chain, at).isTampered
    ensures chain.Some? && AcceptedByDollar(sessionId) && genesis == GenesisHash(h, sessionId)
    ensures forall i :: 0 <= i < |chain.value| ==> ConsistentAt(h, sessionId, genesis, chain.value, i)
  {
    assert FirstBroken(h, sessionId, genesis, chain.value, 0) == |chain.value|;
  }

  /** Beyond position 1000000 the verdict model refuses the report, so the wrapper answers position 0 instead. */
  lemma FarBreakReportedAtZero(h: Sha256, sessionId: string, chain: seq<Item>, at: Stamp)
    requires IsSessionId(sessionId)
    ensures var g := GenesisHash(h, sessionId);
            var k := FirstBroken(h, sessionId, g, chain, 0);
            k < |chain| ==>
              FailClosedSpec(h, sessionId, g, Some(chain), Some(at)).broken == Some(if k <= BLOCK_SEQ_MAX then k else 0)
  {
  }

  // ---------------------------------------------------------------- the latch rule
  function ApplyLatch(a: Audit, latched: Option<nat>): Audit {
    if latched.None? || a.isTampered then a
    else Audit(a.sessionId, if a.total > latched.value + 1 then a.total else latched.value + 1, true,
               latched, a.verifiedAt)
  }

  lemma LatchedIsNeverClean(a: Audit, latched: Option<nat>)
    requires IsConsistentVerdict(a) && (latched.Some? ==> latched.value <= BLOCK_SEQ_MAX)
    ensures IsConsistentVerdict(ApplyLatch(a, latched))
    ensures ApplyLatch(a, latched).isTampered <==> a.isTampered || latched.Some?
    ensures latched.Some? && !a.isTampered ==> ApplyLatch(a, latched).broken == latched
    ensures var t := ApplyLatch(a, latched).total;
            t >= a.total && (latched.Some? && !a.isTampered ==> t > latched.value && (t == a.total || t == latched.value + 1))
    ensures ApplyLatch(ApplyLatch(a, latched), latched) == ApplyLatch(a, latched)
  {
  }

  // ---------------------------------------------------------------- clean chains of sealed blocks
  function Head(h: Sha256, sessionId: string, c: seq<Block>): string {
    if c == [] then GenesisHash(h, sessionId) else c[|c| - 1].current
  }

  predicate LinkedAt(h: Sha256, sessionId: string, c: seq<Block>, i: nat)
    requires i < |c|
  {
    Fits(h, sessionId, c[i], i, Head(h, sessionId, c[..i]), if i == 0 then None else Some(c[i - 1]))
  }

  /** The block model guarantees the format of every block it builds. */
  ghost predicate Sealed(c: seq<Block>) { forall b :: b in c ==> IsSealedFormat(b) }

  ghost predicate Clean(h: Sha256, sessionId: string, c: seq<Block>) {
    forall i :: 0 <= i < |c| ==> LinkedAt(h, sessionId, c, i)
  }

  function Items(c: seq<Block>): seq<Item> { seq(|c|, i requires 0 <= i < |c| => Dto(c[i])) }

  lemma ItemsAgree(h: Sha256, sessionId: string, c: seq<Block>, i: nat)
    requires i < |c|
    ensures ConsistentAt(h, sessionId, GenesisHash(h, sessionId), Items(c), i) <==> LinkedAt(h, sessionId, c, i)
  {
    if i > 0 { assert c[..i][i - 1] == c[i - 1]; }
  }

  /** The position the audit reports for a chain of blocks, or the length when it is clean. */
  function Reported(h: Sha256, sessionId: string, c: seq<Block>): nat {
    FirstBroken(h, sessionId, GenesisHash(h, sessionId), Items(c), 0)
  }

  lemma ReportedIs(h: Sha256, sessionId: string, c: seq<Block>, k: nat)
    requires k <= |c|
    requires forall j :: 0 <= j < k ==> LinkedAt(h, sessionId, c, j)
    requires k < |c| ==> !LinkedAt(h, sessionId, c, k)
    ensures Reported(h, sessionId, c) == k
  {
    var r := Reported(h, sessionId, c);
    if r < k { ItemsAgree(h, sessionId, c, r); }
    if k < r { ItemsAgree(h, sessionId, c, k); }
  }

  lemma CleanIffReportedLength(h: Sha256, sessionId: string, c: seq<Block>)
    ensures Clean(h, sessionId, c) <==> Reported(h, sessionId, c) == |c|
  {
    forall i | 0 <= i < |c| { ItemsAgree(h, sessionId, c, i); }
  }

  /** The block belongs to the session, stands at its number, links to the block before it or to the genesis, and is
      sealed over its link and its own fields. */
  predicate BlockIntact(h: Sha256, s: string, c: seq<Block>, i: nat)
    requires i < |c|
  {
    && c[i].sessionId == s && c[i].seqNo == i
    && c[i].prev == (if i == 0 then h("TRACEKIT-GENESIS|" + s) else c[i - 1].current)
    && c[i].current == h(c[i].prev + c[i].intent + c[i].reasoning + c[i].action + Canonical(c[i].ts))
  }

  /** Every block is intact, and none is earlier than any block before it. */
  ghost predicate ChainIntact(h: Sha256, s: string, c: seq<Block>) {
    && (forall i :: 0 <= i < |c| ==> BlockIntact(h, s, c, i))
    && (forall i, j :: 0 <= i < j < |c| ==> !Before(c[j].ts, c[i].ts))
  }

  /** In a clean chain the last block is the latest. */
  lemma {:induction false} LastIsLatest(h: Sha256, s: string, c: seq<Block>, n: nat)
    requires Clean(h, s, c) && n < |c|
    ensures forall i :: 0 <= i <= n ==> !Before(c[n].ts, c[i].ts)
    decreases n
  {
    assert LinkedAt(h, s, c, n);
    if n > 0 {
      LastIsLatest(h, s, c, n - 1);
      forall i | 0 <= i <= n ensures !Before(c[n].ts, c[i].ts) {
        if i < n { assert !Before(c[n - 1].ts, c[i].ts) && !Before(c[n].ts, c[n - 1].ts); }
      }
    }
  }

  lemma LinkedMeans(h: Sha256, s: string, c: seq<Block>, i: nat)
    requires i < |c|
    ensures LinkedAt(h, s, c, i) <==> BlockIntact(h, s, c, i) && (i > 0 ==> !Before(c[i].ts, c[i - 1].ts))
  {
    hide Canonical;
    hide Before;
    assert GenesisMaterial(s) == "TRACEKIT-GENESIS|" + s;
    assert c[..i] == [] <==> i == 0;
    if i > 0 { assert c[..i][i - 1] == c[i - 1]; }
    assert BlockMaterial(c[i]) == c[i].prev + c[i].intent + c[i].reasoning + c[i].action + Canonical(c[i].ts);
  }

  /** The audit finds nothing exactly when the chain is intact as a whole. */
  lemma CleanIffIntact(h: Sha256, s: string, c: seq<Block>)
    ensures Reported(h, s, c) == |c| <==> ChainIntact(h, s, c)
  {
    hide LinkedAt;
    hide Canonical;
    hide Before;
    CleanIffReportedLength(h, s, c);
    hide BlockIntact;
    if ChainIntact(h, s, c) {
      forall i | 0 <= i < |c| ensures LinkedAt(h, s, c, i) {
        LinkedMeans(h, s, c, i);
        if i > 0 { assert !Before(c[i].ts, c[i - 1].ts); }
      }
    }
    if Clean(h, s, c) {
      forall i | 0 <= i < |c| ensures BlockIntact(h, s, c, i) { LinkedMeans(h, s, c, i); }
      forall i, j | 0 <= i < j < |c| ensures !Before(c[j].ts, c[i].ts) { LastIsLatest(h, s, c, j); }
    }
  }

  /** A clean chain passes the audit with its full length, whatever the clock says. */
  lemma CleanVerifies(h: Sha256, sessionId: string, c: seq<Block>, at: Stamp)
    requires IsSessionId(sessionId) && Clean(h, sessionId, c) && Sealed(c)
    ensures AuditOf(h, sessionId, GenesisHash(h, sessionId), Items(c), at)
            == Ok(Audit(sessionId, |c|, false, None, at))
  {
    CleanIffReportedLength(h, sessionId, c);
    if |c| > 0 { assert LinkedAt(h, sessionId, c, |c| - 1) && c[|c| - 1] in c; }
  }

  /** Sealing a block on top of a clean chain keeps it clean. */
  lemma ExtendClean(h: Sha256, sessionId: string, c: seq<Block>, b: Block)
    requires Clean(h, sessionId, c)
    requires Fits(h, sessionId, b, |c|, Head(h, sessionId, c), if c == [] then None else Some(c[|c| - 1]))
    ensures Clean(h, sessionId, c + [b])
  {
    var d := c + [b];
    forall i | 0 <= i < |d| ensures LinkedAt(h, sessionId, d, i) {
      if i < |c| {
        assert LinkedAt(h, sessionId, c, i);
        assert d[..i] == c[..i];
      } else {
        assert d[..i] == c;
      }
    }
  }

  // ---------------------------------------------------------------- tamper evidence
  ghost predicate Collision(h: Sha256, x: string, y: string) { x != y && h(x) == h(y) }

  /** The preimages an honest recomputation of the chain hashes. */
  function Preimages(sessionId: string, c: seq<Block>): set<string> {
    {GenesisMaterial(sessionId)} + set b | b in c :: BlockMaterial(b)
  }

  ghost predicate CollisionAcross(h: Sha256, xs: set<string>, ys: set<string>) {
    exists x, y :: x in xs && y in ys && Collision(h, x, y)
  }

  predicate SameChain(c: seq<Block>, d: seq<Block>) {
    && |c| == |d|
    && forall i :: 0 <= i < |c| ==> SameHashedFields(c[i], d[i]) && c[i].current == d[i].current
  }

  lemma PrefixClean(h: Sha256, sessionId: string, c: seq<Block>, n: nat)
    requires Clean(h, sessionId, c) && n <= |c|
    ensures Clean(h, sessionId, c[..n])
    ensures Sealed(c) ==> Sealed(c[..n])
  {
    forall i | 0 <= i < n ensures LinkedAt(h, sessionId, c[..n], i) {
      assert LinkedAt(h, sessionId, c, i);
      assert c[..n][..i] == c[..i];
    }
  }

  // One link back from equal heads: the last blocks agree or their preimages collide.
  lemma LastLinkAgrees(h: Sha256, sessionId: string, c: seq<Block>, d: seq<Block>)
    requires c != [] && d != [] && Clean(h, sessionId, c) && Clean(h, sessionId, d) && Sealed(c) && Sealed(d)
    requires c[|c| - 1].current == d[|d| - 1].current
    ensures var a, b := c[|c| - 1], d[|d| - 1];
            || Collision(h, BlockMaterial(a), BlockMaterial(b))
            || (&& a.intent == b.intent && a.reasoning == b.reasoning && a.action == b.action && a.ts == b.ts
                && a.sessionId == b.sessionId && a.prev == b.prev && a.seqNo == |c| - 1 && b.seqNo == |d| - 1
                && Head(h, sessionId, c[..|c| - 1]) == Head(h, sessionId, d[..|d| - 1]))
  {
    hide Material;
    var a, b := c[|c| - 1], d[|d| - 1];
    assert a in c && b in d;
    assert LinkedAt(h, sessionId, c, |c| - 1) && LinkedAt(h, sessionId, d, |d| - 1);
    if BlockMaterial(a) == BlockMaterial(b) { BlockMaterialInjective(a, b); }
  }

  /** Two clean chains of one session with the same head are the same chain, or exhibit a hash collision. */
  lemma {:induction false} HeadDeterminesChain(h: Sha256, sessionId: string, c: seq<Block>, d: seq<Block>)
    requires IsSessionId(sessionId) && Clean(h, sessionId, c) && Clean(h, sessionId, d) && Sealed(c) && Sealed(d)
    requires Head(h, sessionId, c) == Head(h, sessionId, d)
    ensures SameChain(c, d) || CollisionAcross(h, Preimages(sessionId, c), Preimages(sessionId, d))
    decreases |c|
  {
    hide Material;
    if c == [] && d == [] {
    } else if c == [] {
      GenesisIsNoBlock(h, sessionId, d);
      assert Collision(h, GenesisMaterial(sessionId), BlockMaterial(d[|d| - 1]));
    } else if d == [] {
      GenesisIsNoBlock(h, sessionId, c);
      assert Collision(h, BlockMaterial(c[|c| - 1]), GenesisMaterial(sessionId));
    } else {
      LastLinkAgrees(h, sessionId, c, d);
      var m, n := |c| - 1, |d| - 1;
      if !Collision(h, BlockMaterial(c[m]), BlockMaterial(d[n])) {
        PrefixClean(h, sessionId, c, m);
        PrefixClean(h, sessionId, d, n);
        PreimagesOfPrefix(sessionId, c, m);
        PreimagesOfPrefix(sessionId, d, n);
        HeadDeterminesChain(h, sessionId, c[..m], d[..n]);
        if SameChain(c[..m], d[..n]) { SameChainExtends(c, d); }
      }
    }
  }

  lemma SameChainExtends(c: seq<Block>, d: seq<Block>)
    requires c != [] && d != [] && SameChain(c[..|c| - 1], d[..|d| - 1])
    requires SameHashedFields(c[|c| - 1], d[|d| - 1]) && c[|c| - 1].current == d[|d| - 1].current
    ensures SameChain(c, d)
  {
    forall i | 0 <= i < |c| - 1 ensures SameHashedFields(c[i], d[i]) && c[i].current == d[i].current {
      assert c[..|c| - 1][i] == c[i] && d[..|d| - 1][i] == d[i];
    }
  }

  lemma GenesisIsNoBlock(h: Sha256, sessionId: string, c: seq<Block>)
    requires IsSessionId(sessionId) && c != [] && Clean(h, sessionId, c) && Sealed(c)
    ensures var b := c[|c| - 1];
            BlockMaterial(b) != GenesisMaterial(sessionId) && b.current == h(BlockMaterial(b))
  {
    var b := c[|c| - 1];
    assert LinkedAt(h, sessionId, c, |c| - 1) && b in c;
    GenesisDomainSeparated(sessionId, b.prev, b.intent, b.reasoning, b.action, b.ts);
  }

  lemma PreimagesOfPrefix(sessionId: string, c: seq<Block>, n: nat)
    requires n <= |c|
    ensures Preimages(sessionId, c[..n]) <= Preimages(sessionId, c)
  {
    forall b | b in c[..n] ensures b in c {
      var i :| 0 <= i < n && c[..n][i] == b;
      assert c[i] == b;
    }
  }

  /** With the head kept elsewhere, cutting the tail of a clean chain is exposed (or a collision is). */
  lemma AnchorExposesTruncation(h: Sha256, sessionId: string, c: seq<Block>, n: nat)
    requires IsSessionId(sessionId) && Clean(h, sessionId, c) && Sealed(c) && n < |c|
    ensures Head(h, sessionId, c[..n]) != Head(h, sessionId, c)
            || CollisionAcross(h, Preimages(sessionId, c), Preimages(sessionId, c[..n]))
  {
    PrefixClean(h, sessionId, c, n);
    if Head(h, sessionId, c[..n]) == Head(h, sessionId, c) {
      HeadDeterminesChain(h, sessionId, c, c[..n]);
    }
  }

  /** Without an anchor it is invisible: every prefix of a clean chain verifies clean. */
  lemma TruncationVerifiesClean(h: Sha256, sessionId: string, c: seq<Block>, n: nat)
    requires IsSessionId(sessionId) && Clean(h, sessionId, c) && n <= |c|
    ensures Reported(h, sessionId, c[..n]) == n
  {
    PrefixClean(h, sessionId, c, n);
    CleanIffReportedLength(h, sessionId, c[..n]);
  }

  lemma BeforeEdit(h: Sha256, sessionId: string, c: seq<Block>, k: nat, b: Block, d: seq<Block>)
    requires Clean(h, sessionId, c) && k < |c| && d == c[k := b]
    ensures forall j :: 0 <= j < k ==> LinkedAt(h, sessionId, d, j)
    ensures LinkedAt(h, sessionId, d, k)
            <==> Fits(h, sessionId, b, k, Head(h, sessionId, c[..k]), if k == 0 then None else Some(c[k - 1]))
  {
    assert d[..k] == c[..k];
    forall j | 0 <= j < k ensures LinkedAt(h, sessionId, d, j) {
      assert LinkedAt(h, sessionId, c, j);
      assert d[..j] == c[..j];
    }
  }

  // From k + 1 on an edit of block k matters only through its hash and its time.
  lemma AfterEdit(h: Sha256, sessionId: string, c: seq<Block>, k: nat, b: Block, j: nat)
    requires Clean(h, sessionId, c) && k < j < |c|
    requires b.current == c[k].current && b.ts == c[k].ts
    ensures LinkedAt(h, sessionId, c[k := b], j)
  {
    var d := c[k := b];
    assert LinkedAt(h, sessionId, c, j);
    assert d[..j][j - 1] == d[j - 1] && c[..j][j - 1] == c[j - 1];
  }

  /** Editing block k without re-sealing it is reported exactly at k, unless only the unhashed id changed. */
  lemma UnsealedEditReportedThere(h: Sha256, sessionId: string, c: seq<Block>, k: nat, b: Block)
    requires Clean(h, sessionId, c) && k < |c| && b.current == c[k].current
    requires HasDigests(b) && HasDigests(c[k])
    ensures Collision(h, BlockMaterial(c[k]), BlockMaterial(b))
            || Reported(h, sessionId, c[k := b]) == if SameHashedFields(b, c[k]) then |c| else k
  {
    hide Material;
    var d := c[k := b];
    assert LinkedAt(h, sessionId, c, k);
    BeforeEdit(h, sessionId, c, k, b, d);
    if SameHashedFields(b, c[k]) {
      forall j | k < j < |c| ensures LinkedAt(h, sessionId, d, j) { AfterEdit(h, sessionId, c, k, b, j); }
      forall j | 0 <= j < |d| ensures LinkedAt(h, sessionId, d, j) { if j == k {} }
      ReportedIs(h, sessionId, d, |c|);
    } else if BlockMaterial(b) == BlockMaterial(c[k]) {
      BlockMaterialInjective(b, c[k]);
      ReportedIs(h, sessionId, d, k);
    } else if h(BlockMaterial(b)) != b.current {
      ReportedIs(h, sessionId, d, k);
    }
  }

  /** Editing block k and re-sealing only it moves the report to k + 1; on the last block it stays unseen. */
  lemma ResealedEditReportedNext(h: Sha256, sessionId: string, c: seq<Block>, k: nat, b: Block)
    requires Clean(h, sessionId, c) && k < |c| && HasDigests(b) && HasDigests(c[k])
    requires Fits(h, sessionId, b, k, Head(h, sessionId, c[..k]), if k == 0 then None else Some(c[k - 1]))
    ensures Collision(h, BlockMaterial(c[k]), BlockMaterial(b))
            || Reported(h, sessionId, c[k := b]) == if SameHashedFields(b, c[k]) then |c| else k + 1
  {
    hide Material;
    var d := c[k := b];
    assert LinkedAt(h, sessionId, c, k);
    BeforeEdit(h, sessionId, c, k, b, d);
    if BlockMaterial(b) == BlockMaterial(c[k]) {
      BlockMaterialInjective(b, c[k]);
      UnsealedEditReportedThere(h, sessionId, c, k, b);
    } else if h(BlockMaterial(b)) != h(BlockMaterial(c[k])) {
      if k + 1 < |c| {
        assert LinkedAt(h, sessionId, c, k + 1);
        assert d[..k + 1][k] == b && c[..k + 1][k] == c[k];
        assert !LinkedAt(h, sessionId, d, k + 1);
      }
      ReportedIs(h, sessionId, d, k + 1);
    }
  }
}
