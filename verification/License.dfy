/** Licence keys: issued with a private exponent, verified offline with the public key. */
module License {
  import opened Wrappers
  import opened PyText
  import opened RsaMath
  import opened Bytes
  import opened Base64Url

  const KEY_BYTES := 256
  const SECOND := 1000000
  const DAY := 86400 * SECOND

  datatype Tier = TEAM_TRIAL | TEAM_PRO | ENTERPRISE

  datatype Status = ACTIVE | UNLICENSED | EXPIRED | REVOKED | QUARANTINED

  datatype Payload = Payload(id: string, org: string, tier: Tier, iat: string, exp: string, maxDevs: int, maxRepos: int)

  predicate IsPayload(p: Payload) {
    && 4 <= |p.id| <= 64 && 1 <= |p.org| <= 128 && 10 <= |p.iat| <= 40 && 10 <= |p.exp| <= 40
    && 1 <= p.maxDevs <= 5000 && 1 <= p.maxRepos <= 1000
  }

  /** The hash, the clock's text form and the JSON form of a payload. Times are microseconds since some epoch. */
  datatype Codec = Codec(
    hash: seq<byte> -> seq<byte>,
    stamp: int -> Option<string>,
    parseStamp: string -> Option<int>,
    dump: Payload -> seq<byte>,
    load: seq<byte> -> Option<Payload>)

  function WholeSecond(t: int): int { t - t % SECOND }

  /** Dumping and loading are inverse, and a printed time is read back at second precision. */
  ghost predicate Faithful(c: Codec) {
    && (forall b :: |c.hash(b)| == 32)
    && (forall p :: c.dump(p) != [] && c.load(c.dump(p)) == Some(p))
    && (forall t :: c.stamp(t).Some? ==> c.parseStamp(c.stamp(t).value) == Some(WholeSecond(t)))
  }

  // ---------------------------------------------------------------- encoded message
  // "CTXFW-LIC-V1:" in ASCII.
  const DOMAIN: seq<byte> := [67, 84, 88, 70, 87, 45, 76, 73, 67, 45, 86, 49, 58]
  const DIGEST_INFO: seq<byte> :=
    [0x30, 0x31, 0x30, 0x0d, 0x06, 0x09, 0x60, 0x86, 0x48, 0x01, 0x65, 0x03, 0x04, 0x02, 0x01, 0x05, 0x00, 0x04, 0x20]

  function Repeat(b: byte, n: nat): (r: seq<byte>)
    ensures |r| == n
  {
    if n == 0 then [] else [b] + Repeat(b, n - 1)
  }

  /** EMSA-PKCS1-v1_5 (section 9.2 of RFC 8017) over the domain-separated payload. */
  function EncodedMessage(c: Codec, payload: seq<byte>): seq<byte> {
    var t := DIGEST_INFO + c.hash(DOMAIN + payload);
    [0, 1] + (if |t| + 3 <= KEY_BYTES then Repeat(255, KEY_BYTES - |t| - 3) else []) + [0] + t
  }

  function Emsa(c: Codec, payload: seq<byte>): nat { FromBytes(EncodedMessage(c, payload)) }

  lemma {:induction false} Repeated(b: byte, n: nat)
    ensures forall i :: 0 <= i < n ==> Repeat(b, n)[i] == b
  {
    if n > 0 { Repeated(b, n - 1); }
  }

  /** 00 01, 202 bytes ff, 00, the nineteen bytes that name SHA-256, and the digest of the domain and the payload. */
  lemma EncodedMessageLayout(c: Codec, payload: seq<byte>)
    requires Faithful(c)
    ensures var em := EncodedMessage(c, payload);
      && |em| == 256 && em[0] == 0 && em[1] == 1 && (forall i :: 2 <= i < 204 ==> em[i] == 255) && em[204] == 0
      && em[205..224] == DIGEST_INFO && em[224..] == c.hash(DOMAIN + payload)
  {
    Repeated(255, 202);
    hide Repeat;
    var digest, fill := c.hash(DOMAIN + payload), Repeat(255, 202);
    assert |DIGEST_INFO| == 19;
    FiveParts([0, 1], fill, [0], DIGEST_INFO, digest);
  }

  lemma FiveParts(a: seq<byte>, fill: seq<byte>, z: seq<byte>, info: seq<byte>, digest: seq<byte>)
    ensures var em := a + fill + z + (info + digest); var n := |a| + |fill| + |z|;
      && em[..|a|] == a && (forall i :: 0 <= i < |fill| ==> em[|a| + i] == fill[i])
      && em[|a| + |fill|..n] == z && em[n..n + |info|] == info && em[n + |info|..] == digest
  {
    var head, em := a + fill + z, a + fill + z + (info + digest);
    assert em == head + (info + digest);
    assert em[..|head|] == head;
  }

  /** A modulus of exactly 256 bytes. */
  ghost predicate FullSize(n: nat) { exists b: seq<byte> :: |b| == KEY_BYTES && b[0] != 0 && FromBytes(b) == n }

  /** The encoded message fills the key and starts with a zero byte, so it is below every full-size modulus. */
  lemma EncodedMessageFits(c: Codec, payload: seq<byte>, n: nat)
    requires Faithful(c) && FullSize(n)
    ensures |EncodedMessage(c, payload)| == KEY_BYTES && Emsa(c, payload) < n
  {
    EncodedMessageLayout(c, payload);
    hide EncodedMessage;
    hide FromBytes;
    var b: seq<byte> :| |b| == KEY_BYTES && b[0] != 0 && FromBytes(b) == n;
    FirstByteDecides(EncodedMessage(c, payload), b);
  }

  /** One signed number stands for one payload, unless two hashed texts collide. */
  lemma EmsaInjective(c: Codec, a: seq<byte>, b: seq<byte>)
    requires Faithful(c) && Emsa(c, a) == Emsa(c, b)
    ensures a == b || (DOMAIN + a != DOMAIN + b && c.hash(DOMAIN + a) == c.hash(DOMAIN + b))
  {
    EncodedMessageLayout(c, a);
    EncodedMessageLayout(c, b);
    hide EncodedMessage;
    hide FromBytes;
    FromBytesInjective(EncodedMessage(c, a), EncodedMessage(c, b));
    if DOMAIN + a == DOMAIN + b { assert a == (DOMAIN + a)[|DOMAIN|..] == (DOMAIN + b)[|DOMAIN|..] == b; }
  }

  // ---------------------------------------------------------------- issuing
  const PREFIXES := ["CTXFW-LIC-", "CTXFW-TEAM-TRIAL-", "CTXFW-TEAM-PRO-", "CTXFW-ENTERPRISE-"]

  function PrefixFor(t: Tier): string {
    match t
    case TEAM_TRIAL => "CTXFW-TEAM-TRIAL-"
    case TEAM_PRO => "CTXFW-TEAM-PRO-"
    case ENTERPRISE => "CTXFW-ENTERPRISE-"
  }

  /** What the issuer is asked for. An empty id asks for one derived from shortDigest. */
  datatype Order = Order(
    org: string, tier: Option<Tier>, days: int, licenseId: string, shortDigest: string,
    maxDevs: int, maxRepos: int, now: int)

  function DaysOf(o: Order): int { if o.days < 1 then 1 else o.days }

  function ExpiryOf(o: Order): int { o.now + DaysOf(o) * DAY }

  /** None where the payload model or the clock refuses the order. */
  function PayloadOf(c: Codec, o: Order): Option<Payload> {
    if o.tier.None? || c.stamp(o.now).None? || c.stamp(ExpiryOf(o)).None? then None
    else
      var id := if o.licenseId == "" then "LIC-" + o.shortDigest else o.licenseId;
      var p := Payload(id, Strip(o.org), o.tier.value, c.stamp(o.now).value, c.stamp(ExpiryOf(o)).value, o.maxDevs, o.maxRepos);
      if IsPayload(p) then Some(p) else None
  }

  datatype PublicKey = PublicKey(n: nat, e: nat)

  function SignatureText(c: Codec, n: nat, d: nat, payload: seq<byte>): string
    requires n > 0
  {
    Encode(ToBytes(PowMod(Emsa(c, payload), d, n), KEY_BYTES))
  }

  /** None stands for a raised error: no usable private key, or an order the models refuse. */
  function IssueLicenseKey(c: Codec, n: nat, d: Option<nat>, o: Order): Option<string>
    requires n > 0
  {
    if d.None? || PayloadOf(c, o).None? then None
    else
      var bytes := c.dump(PayloadOf(c, o).value);
      Some(PrefixFor(o.tier.value) + Encode(bytes) + "." + SignatureText(c, n, d.value, bytes))
  }

  // ---------------------------------------------------------------- what a valid key is
  /** The key is a known prefix, the payload, a dot and a signature of the payload. */
  ghost predicate SignedBy(c: Codec, k: PublicKey, key: string, prefix: string, a: string, b: string, payload: seq<byte>)
    requires k.n > 0
  {
    && prefix in PREFIXES && key == prefix + (a + "." + b)
    && a != "" && b != "" && '.' !in a && '.' !in b
    && Decode(a) == Some(payload)
    && Decode(b).Some? && |Decode(b).value| == KEY_BYTES
    && PowMod(FromBytes(Decode(b).value), k.e, k.n) == Emsa(c, payload)
  }

  ghost predicate Authentic(c: Codec, k: PublicKey, key: string, payload: seq<byte>)
    requires k.n > 0
  {
    exists prefix, a, b :: SignedBy(c, k, key, prefix, a, b, payload)
  }

  /** A signed payload that loads, is within bounds and carries a readable expiry. */
  ghost predicate Accepted(c: Codec, k: PublicKey, key: string, payload: seq<byte>, p: Payload, exp: int)
    requires k.n > 0
  {
    Authentic(c, k, key, payload) && c.load(payload) == Some(p) && IsPayload(p) && c.parseStamp(p.exp) == Some(exp)
  }

  datatype Verification = Verification(
    status: Status, licenseId: Option<string>, org: Option<string>, tier: Option<Tier>, expiresAt: Option<string>,
    daysRemaining: Option<int>, maxDevs: int, maxRepos: int)

  function Refused(s: Status): Verification { Verification(s, None, None, None, None, None, 0, 0) }

  function About(p: Payload, s: Status, daysRemaining: int): Verification {
    Verification(s, Some(p.id), Some(p.org), Some(p.tier), Some(p.exp), Some(daysRemaining), p.maxDevs, p.maxRepos)
  }

  /** A day counts as remaining as soon as one whole second of it remains. */
  function DaysLeft(exp: int, now: int): int {
    ((if exp > now then exp - now else 0) + 86399 * SECOND) / DAY
  }

  function Judgement(p: Payload, exp: int, now: int, revoked: set<string>): Verification {
    if now > exp then About(p, EXPIRED, 0)
    else if p.id in revoked then About(p, REVOKED, 0)
    else About(p, ACTIVE, DaysLeft(exp, now))
  }

  /** The only result verification may give a resolved key. */
  ghost predicate IsVerdict(c: Codec, k: PublicKey, key: string, now: int, revoked: set<string>, r: Verification)
    requires k.n > 0
  {
    && (key == "" ==> r == Refused(UNLICENSED))
    && (forall payload, p, exp :: Accepted(c, k, key, payload, p, exp) ==> r == Judgement(p, exp, now, revoked))
    && (key != "" && (forall payload, p, exp :: !Accepted(c, k, key, payload, p, exp)) ==> r == Refused(QUARANTINED))
  }

  lemma PrefixUnique(key: string, p: string, q: string)
    requires p in PREFIXES && q in PREFIXES && p <= key && q <= key
    ensures p == q
  {
    assert p[6] == key[6] && q[6] == key[6];
    if p[6] == 'T' { assert p[11] == key[11] && q[11] == key[11]; }
  }

  lemma SplitTwo(a: string, b: string)
    requires '.' !in a && '.' !in b
    ensures SplitOn(a + "." + b, '.') == [a, b]
  {
    hide SplitOn;
    assert [a, b][1..] == [b] && Join([b], '.') == b && Join([a, b], '.') == a + "." + b;
    SplitJoin([a, b], '.');
  }

  /** The parts a signed key is made of can be read off the key. */
  lemma SignedParts(c: Codec, k: PublicKey, key: string, p: string, a: string, b: string, payload: seq<byte>, prefix: string)
    requires k.n > 0 && SignedBy(c, k, key, p, a, b, payload)
    requires prefix in PREFIXES && prefix <= key
    ensures p == prefix && SplitOn(key[|prefix|..], '.') == [a, b]
  {
    hide Decode;
    hide Emsa;
    hide PowMod;
    hide SplitOn;
    assert p <= key;
    PrefixUnique(key, p, prefix);
    assert key[|prefix|..] == a + "." + b;
    SplitTwo(a, b);
  }

  /** Verification with its staged early returns. An explicit key that is blank falls back to the configured one. */
  method VerifyLicenseKey(c: Codec, k: PublicKey, explicitKey: string, configured: string, now: int, revoked: set<string>)
    returns (r: Verification)
    requires k.n > 0
    ensures IsVerdict(c, k, if Strip(explicitKey) != "" then Strip(explicitKey) else configured, now, revoked, r)
    ensures r.status == UNLICENSED || r.status == QUARANTINED ==>
              && r.maxDevs == 0 && r.maxRepos == 0 && r.daysRemaining == None
              && r.licenseId == None && r.org == None && r.tier == None && r.expiresAt == None
  {
    hide Strip;
    hide SignedBy;
    hide Decode;
    hide IsPayload;
    var key := if Strip(explicitKey) != "" then Strip(explicitKey) else configured;
    if key == "" {
      NothingSigned(c, k, key);
      return Refused(UNLICENSED);
    }
    var prefix := "";
    for i := 0 to |PREFIXES|
      invariant prefix == "" ==> forall j :: 0 <= j < i ==> !(PREFIXES[j] <= key)
      invariant prefix != "" ==> prefix in PREFIXES && prefix <= key
    {
      if PREFIXES[i] <= key {
        prefix := PREFIXES[i];
        break;
      }
    }
    if prefix == "" {
      NothingSigned(c, k, key);
      return Refused(QUARANTINED);
    }
    var parts := SplitOn(key[|prefix|..], '.');
    r := VerifyParts(c, k, key, prefix, parts, now, revoked);
  }

  lemma NothingSigned(c: Codec, k: PublicKey, key: string)
    requires k.n > 0 && forall p :: p in PREFIXES ==> !(p <= key)
    ensures forall payload :: !Authentic(c, k, key, payload)
  {
    forall payload, prefix, a, b ensures !SignedBy(c, k, key, prefix, a, b, payload) {
      assert key == prefix + (a + "." + b) ==> prefix <= key;
    }
  }

  /** Which payload, if any, the two parts authenticate. */
  ghost predicate PartsSign(c: Codec, k: PublicKey, parts: seq<string>, payload: seq<byte>)
    requires k.n > 0
  {
    && |parts| == 2 && parts[0] != "" && parts[1] != ""
    && Decode(parts[0]) == Some(payload) && Decode(parts[1]).Some? && |Decode(parts[1]).value| == KEY_BYTES
    && PowMod(FromBytes(Decode(parts[1]).value), k.e, k.n) == Emsa(c, payload)
  }

  lemma AuthenticByParts(c: Codec, k: PublicKey, key: string, prefix: string, payload: seq<byte>)
    requires k.n > 0 && prefix in PREFIXES && prefix <= key
    ensures Authentic(c, k, key, payload) <==> PartsSign(c, k, SplitOn(key[|prefix|..], '.'), payload)
  {
    hide Decode;
    hide Emsa;
    hide PowMod;
    hide SplitOn;
    var parts := SplitOn(key[|prefix|..], '.');
    if Authentic(c, k, key, payload) {
      var p, a, b :| SignedBy(c, k, key, p, a, b, payload);
      SignedParts(c, k, key, p, a, b, payload, prefix);
    }
    if PartsSign(c, k, parts, payload) {
      SplitNoSeparator(key[|prefix|..], '.');
      JoinSplit(key[|prefix|..], '.');
      var a, b := parts[0], parts[1];
      assert parts[1..] == [b] && Join([b], '.') == b && Join(parts, '.') == a + "." + b;
      assert a in parts && b in parts;
      assert key == prefix + key[|prefix|..];
      assert SignedBy(c, k, key, prefix, a, b, payload);
    }
  }

  method VerifyParts(c: Codec, k: PublicKey, key: string, prefix: string, parts: seq<string>, now: int, revoked: set<string>)
    returns (r: Verification)
    requires k.n > 0 && prefix in PREFIXES && prefix <= key && parts == SplitOn(key[|prefix|..], '.')
    ensures IsVerdict(c, k, key, now, revoked, r)
    ensures r.status == UNLICENSED || r.status == QUARANTINED ==> r == Refused(r.status)
  {
    hide Decode;
    hide SplitOn;
    hide IsPayload;
    hide Authentic;
    hide Emsa;
    hide PowMod;
    hide FromBytes;
    hide DaysLeft;
    forall payload { AuthenticByParts(c, k, key, prefix, payload); }
    if |parts| != 2 || parts[0] == "" || parts[1] == "" { return Refused(QUARANTINED); }
    var payload, sig := Decode(parts[0]), Decode(parts[1]);
    if payload.None? || sig.None? { return Refused(QUARANTINED); }
    if |sig.value| != KEY_BYTES { return Refused(QUARANTINED); }
    if PowMod(FromBytes(sig.value), k.e, k.n) != Emsa(c, payload.value) { return Refused(QUARANTINED); }
    var dto := c.load(payload.value);
    if dto.None? || !IsPayload(dto.value) { return Refused(QUARANTINED); }
    var exp := c.parseStamp(dto.value.exp);
    if exp.None? { return Refused(QUARANTINED); }
    assert Accepted(c, k, key, payload.value, dto.value, exp.value);
    if now > exp.value { return About(dto.value, EXPIRED, 0); }
    if dto.value.id in revoked { return About(dto.value, REVOKED, 0); }
    return About(dto.value, ACTIVE, DaysLeft(exp.value, now));
  }

  /** A signed payload is accepted under each of the four prefixes: which one is written is not signed. */
  lemma AnyPrefix(c: Codec, k: PublicKey, key: string, prefix: string, a: string, b: string, payload: seq<byte>)
    requires k.n > 0 && SignedBy(c, k, key, prefix, a, b, payload)
    ensures Authentic(c, k, "CTXFW-LIC-" + (a + "." + b), payload)
    ensures Authentic(c, k, "CTXFW-TEAM-TRIAL-" + (a + "." + b), payload)
    ensures Authentic(c, k, "CTXFW-TEAM-PRO-" + (a + "." + b), payload)
    ensures Authentic(c, k, "CTXFW-ENTERPRISE-" + (a + "." + b), payload)
  {
    hide Decode;
    hide Emsa;
    hide PowMod;
    assert SignedBy(c, k, "CTXFW-LIC-" + (a + "." + b), "CTXFW-LIC-", a, b, payload);
    assert SignedBy(c, k, "CTXFW-TEAM-TRIAL-" + (a + "." + b), "CTXFW-TEAM-TRIAL-", a, b, payload);
    assert SignedBy(c, k, "CTXFW-TEAM-PRO-" + (a + "." + b), "CTXFW-TEAM-PRO-", a, b, payload);
    assert SignedBy(c, k, "CTXFW-ENTERPRISE-" + (a + "." + b), "CTXFW-ENTERPRISE-", a, b, payload);
  }

  /** Whatever the arithmetic says, a signature of another length than the key's 256 bytes is refused. */
  lemma OnlyFullSignatures(c: Codec, k: PublicKey, prefix: string, a: string, b: string, payload: seq<byte>)
    requires k.n > 0 && prefix in PREFIXES && '.' !in a && '.' !in b
    requires Authentic(c, k, prefix + (a + "." + b), payload)
    ensures Decode(b).Some? && |Decode(b).value| == 256 && Decode(a) == Some(payload)
  {
    hide Decode;
    hide Emsa;
    hide PowMod;
    hide SplitOn;
    var key := prefix + (a + "." + b);
    var p, x, y :| SignedBy(c, k, key, p, x, y, payload);
    SignedParts(c, k, key, p, x, y, payload, prefix);
    assert key[|prefix|..] == a + "." + b;
    SplitTwo(a, b);
  }

  /** One signature text vouches for one payload, whatever key it is placed in, unless two hashed texts collide. */
  lemma SignatureBindsPayload(
      c: Codec, k: PublicKey, b: string,
      key1: string, prefix1: string, a1: string, payload1: seq<byte>,
      key2: string, prefix2: string, a2: string, payload2: seq<byte>)
    requires Faithful(c) && k.n > 0
    requires SignedBy(c, k, key1, prefix1, a1, b, payload1) && SignedBy(c, k, key2, prefix2, a2, b, payload2)
    ensures payload1 == payload2
            || (DOMAIN + payload1 != DOMAIN + payload2 && c.hash(DOMAIN + payload1) == c.hash(DOMAIN + payload2))
  {
    hide Decode;
    hide Emsa;
    hide PowMod;
    EmsaInjective(c, payload1, payload2);
  }

  // ---------------------------------------------------------------- round trip
  ghost predicate LicenceKeys(kp: KeyPair) { ValidKeyPair(kp) && FullSize(kp.N()) && kp.N() > 0 }

  lemma FullSizeFits(n: nat)
    requires FullSize(n)
    ensures n < Pow(256, KEY_BYTES)
  {
    hide Pow;
    hide FromBytes;
    var b: seq<byte> :| |b| == KEY_BYTES && b[0] != 0 && FromBytes(b) == n;
    FromBytesBound(b);
  }

  /** The signature block of an issued key decodes to the encoded message under the public exponent. */
  lemma SignatureVerifies(c: Codec, kp: KeyPair, payload: seq<byte>)
    requires Faithful(c) && LicenceKeys(kp)
    ensures var text := SignatureText(c, kp.N(), kp.d, payload);
      && text != "" && '.' !in text && Decode(text).Some? && |Decode(text).value| == KEY_BYTES
      && PowMod(FromBytes(Decode(text).value), kp.e, kp.N()) == Emsa(c, payload)
  {
    hide Decode;
    hide Encode;
    hide Emsa;
    hide Pow;
    hide ValidKeyPair;
    hide FullSize;
    EncodedMessageFits(c, payload, kp.N());
    FullSizeFits(kp.N());
    var m := Emsa(c, payload);
    var s := PowMod(m, kp.d, kp.N());
    var block := ToBytes(s, KEY_BYTES);
    FromToBytes(s, KEY_BYTES);
    DecodeEncode(block);
    EncodedShape(block);
    ExponentiationsCancel(kp, m);
  }

  /** A key issued with the private half of a key pair is accepted by the public half, with the ordered payload. */
  lemma IssuedIsAccepted(c: Codec, kp: KeyPair, o: Order, key: string)
    requires Faithful(c) && LicenceKeys(kp)
    requires IssueLicenseKey(c, kp.N(), Some(kp.d), o) == Some(key)
    ensures PayloadOf(c, o).Some?
    ensures var p := PayloadOf(c, o).value;
      Accepted(c, PublicKey(kp.N(), kp.e), key, c.dump(p), p, WholeSecond(ExpiryOf(o)))
    ensures Strip(key) == key && key != ""
    ensures match o.tier.value
            case TEAM_TRIAL => "CTXFW-TEAM-TRIAL-" <= key
            case TEAM_PRO => "CTXFW-TEAM-PRO-" <= key
            case ENTERPRISE => "CTXFW-ENTERPRISE-" <= key
  {
    hide Decode;
    hide Encode;
    hide Emsa;
    hide Pow;
    hide Strip;
    hide ValidKeyPair;
    hide PowMod;
    hide IsPayload;
    hide FullSize;
    hide SplitOn;
    var p := PayloadOf(c, o).value;
    var bytes := c.dump(p);
    IssuedText(c, kp, p.tier, bytes, key);
    assert c.parseStamp(p.exp) == Some(WholeSecond(ExpiryOf(o)));
  }

  /** A key is issued exactly with a private key, a known tier, dates the clock can print, and an id, organisation and
      limits within bounds. */
  lemma IssuesIff(c: Codec, n: nat, d: Option<nat>, o: Order)
    requires n > 0
    ensures IssueLicenseKey(c, n, d, o).Some? <==>
              var id := if o.licenseId == "" then "LIC-" + o.shortDigest else o.licenseId;
              var iat, exp := c.stamp(o.now), c.stamp(o.now + (if o.days < 1 then 1 else o.days) * 86400000000);
              && d.Some? && o.tier.Some? && iat.Some? && exp.Some?
              && 4 <= |id| <= 64 && 1 <= |Strip(o.org)| <= 128 && 10 <= |iat.value| <= 40 && 10 <= |exp.value| <= 40
              && 1 <= o.maxDevs <= 5000 && 1 <= o.maxRepos <= 1000
  {
    hide Strip;
    hide Encode;
    hide SignatureText;
    assert ExpiryOf(o) == o.now + (if o.days < 1 then 1 else o.days) * 86400000000;
  }

  lemma IssuedText(c: Codec, kp: KeyPair, tier: Tier, bytes: seq<byte>, key: string)
    requires Faithful(c) && LicenceKeys(kp) && bytes != []
    requires key == PrefixFor(tier) + Encode(bytes) + "." + SignatureText(c, kp.N(), kp.d, bytes)
    ensures Authentic(c, PublicKey(kp.N(), kp.e), key, bytes)
    ensures Strip(key) == key && key != ""
  {
    hide Decode;
    hide Encode;
    hide Emsa;
    hide PowMod;
    hide ToBytes;
    hide Strip;
    hide LicenceKeys;
    hide Faithful;
    assert kp.N() > 0 by { LicenceKeysPositive(kp); }
    var prefix, a, b := PrefixFor(tier), Encode(bytes), SignatureText(c, kp.N(), kp.d, bytes);
    SignatureVerifies(c, kp, bytes);
    DecodeEncode(bytes);
    EncodedShape(bytes);
    EncodedShape(ToBytes(PowMod(Emsa(c, bytes), kp.d, kp.N()), KEY_BYTES));
    assert key == prefix + (a + "." + b) by { Grouped(prefix, a, b); }
    assert SignedBy(c, PublicKey(kp.N(), kp.e), key, prefix, a, b, bytes);
    assert key[0] == 'C' && key[|key| - 1] == b[|b| - 1] && b[|b| - 1] in b;
    StripIdentity(key);
  }

  lemma Grouped(prefix: string, a: string, b: string)
    ensures prefix + a + "." + b == prefix + (a + "." + b)
  {
  }

  lemma LicenceKeysPositive(kp: KeyPair)
    requires LicenceKeys(kp)
    ensures kp.N() > 0
  {}

  /** Issuing and then verifying: the same licence comes back, active until its expiry second unless revoked. */
  lemma IssueThenVerify(c: Codec, kp: KeyPair, o: Order, key: string, now: int, revoked: set<string>, r: Verification)
    requires Faithful(c) && LicenceKeys(kp)
    requires IssueLicenseKey(c, kp.N(), Some(kp.d), o) == Some(key)
    requires IsVerdict(c, PublicKey(kp.N(), kp.e), Strip(key), now, revoked, r)
    ensures var id := if o.licenseId == "" then "LIC-" + o.shortDigest else o.licenseId;
      var days := if o.days < 1 then 1 else o.days;
      var expiry := o.now + days * 86400000000;
      var lastSecond := expiry - expiry % 1000000;
      && r.licenseId == Some(id) && r.org == Some(Strip(o.org)) && r.tier == o.tier
      && r.maxDevs == o.maxDevs && r.maxRepos == o.maxRepos
      && r.status == (if now > lastSecond then EXPIRED else if id in revoked then REVOKED else ACTIVE)
      && r.expiresAt == c.stamp(expiry)
      && (r.status != ACTIVE ==> r.daysRemaining == Some(0))
      && (r.status == ACTIVE && now == o.now ==> r.daysRemaining == Some(days))
      && (r.status == ACTIVE ==>
            && r.daysRemaining.Some?
            && (r.daysRemaining.value - 1) * 86400000000 + 1000000 <= lastSecond - now
               < r.daysRemaining.value * 86400000000 + 1000000)
  {
    hide IsPayload;
    hide ValidKeyPair;
    hide FullSize;
    hide Strip;
    hide Authentic;
    hide IssueLicenseKey;
    hide DaysLeft;
    IssuedIsAccepted(c, kp, o, key);
    var p, exp := PayloadOf(c, o).value, WholeSecond(ExpiryOf(o));
    assert r == Judgement(p, exp, now, revoked);
    if r.status == ACTIVE {
      DaysLeftBounds(exp, now);
      if now == o.now { DaysAtIssue(o); }
    }
  }

  lemma DaysLeftBounds(exp: int, now: int)
    requires now <= exp
    ensures (DaysLeft(exp, now) - 1) * DAY + SECOND <= exp - now < DaysLeft(exp, now) * DAY + SECOND
  {}

  lemma DaysAtIssue(o: Order)
    ensures DaysLeft(WholeSecond(ExpiryOf(o)), o.now) == DaysOf(o)
  {
    var t := ExpiryOf(o);
    assert 0 <= t % SECOND < SECOND;
    assert t - o.now == DaysOf(o) * DAY;
  }

  // ---------------------------------------------------------------- the public modulus
  const PUBLIC_MODULUS :=
    0x5ee7cba92ca23c19a01eb21a8307f2e9fcff902970af0c8ee2be3247119ca55b_2fa09df6e9f1b1edb3124590056e46676893d9009c9f3301acc884d6b160a9a4_e954f9f79aa5ea7453c9ed385dd2a8eab4b299590665ab8d08e54af336f60d74_c54968e047a7ed7d0f0d9f4ced728584e1337ba54bd7ab3c79348cdf51b2d39b_d27c83236d2a58ab4e431cbf7f4839b0813ed8aabac5adec84065a40d1906748_b4ff18516f12efb656dbf8bb5cbc33911aa19ba842277f4680a002b0dae4b77a_0adf2d50f8cbbd67fe44b0d2b836028f1967174840ee03803fe43b6c47c47183_d67e2506b6c404a4ae825857c2ca8d624e1909b204242543a91621d9fcf69c39

  /** A number between the two powers is written with exactly that many bytes. */
  lemma {:induction false} LeadingByte(n: nat, width: nat)
    requires width > 0 && Pow(256, width - 1) <= n < Pow(256, width)
    ensures ToBytes(n, width)[0] != 0
  {
    if width == 1 {
      assert Pow(256, 0) == 1;
      assert ToBytes(n / 256, 0) == [];
    } else {
      assert Pow(256, width - 2) <= n / 256 < Pow(256, width - 1);
      LeadingByte(n / 256, width - 1);
    }
  }

  lemma Square(w: nat)
    ensures Pow(256, w + w) == Pow(256, w) * Pow(256, w)
  {
    PowAdd(256, w, w);
  }

  /** The published modulus has 256 bytes, so every encoded message is below it. */
  lemma PublicModulusIsFullSize()
    ensures FullSize(PUBLIC_MODULUS)
  {
    hide Pow;
    hide FromBytes;
    hide ToBytes;
    assert Pow(256, 1) == 256 by { PowOne(256); }
    Square(1);
    Square(2);
    Square(4);
    Square(8);
    Square(16);
    Square(32);
    Square(64);
    Square(128);
    PowAdd(256, 255, 1);
    LeadingByte(PUBLIC_MODULUS, KEY_BYTES);
    FromToBytes(PUBLIC_MODULUS, KEY_BYTES);
  }

  lemma PowOne(b: int)
    ensures Pow(b, 1) == b
  {
    assert Pow(b, 0) == 1;
  }
}
