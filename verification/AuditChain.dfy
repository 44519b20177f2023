/**
 The hash-chained audit log: events and their signed preimage
 (crates/qfc-audit/src/event.rs), and what the chain head commits to.

 SHA-256, ed25519 and the JSON writer are parameters. Commitment is stated as
 "equal, or here is a collision", so no assumption about the hash is needed.
 */
module AuditChain {
  import opened Bytes
  import opened Outcomes
  import opened WalletTypes

  const ZERO: Hash := [0, 0, 0, 0, 0, 0, 0, 0, 0, 0, 0, 0, 0, 0, 0, 0, 0, 0, 0, 0, 0, 0, 0, 0, 0, 0, 0, 0, 0, 0, 0, 0]

  datatype Actor = Requester(id: string) | Approver(id: string) | System | Enclave

  datatype AuditKind =
    | WalletCreated | WalletRevoked | SigningRequested | SigningEvaluated | QuorumNotified | QuorumApprovalReceived
    | QuorumApprovalRejected | QuorumTimedOut | QuorumThresholdReached | PolicyDecisionSigned | SigningAttempted
    | SigningSucceeded | SigningFailed | PolicyChanged | ApproverSetChanged | SystemError | EnclaveAttested

  datatype AuditEvent = AuditEvent(
    eventId: Ulid, prevEventHash: Hash, timestampUnixMs: int, actor: Actor, kind: AuditKind,
    requestId: Option<Ulid>, walletId: Option<Ulid>, details: Json, serverSignature: Bytes)

  datatype Draft = Draft(actor: Actor, kind: AuditKind, requestId: Option<Ulid>, walletId: Option<Ulid>, details: Json)

  function KindByte(k: AuditKind): byte {
    match k
    case WalletCreated => 1
    case WalletRevoked => 2
    case SigningRequested => 3
    case SigningEvaluated => 4
    case QuorumNotified => 5
    case QuorumApprovalReceived => 6
    case QuorumApprovalRejected => 7
    case QuorumTimedOut => 8
    case SigningAttempted => 9
    case SigningSucceeded => 10
    case SigningFailed => 11
    case PolicyChanged => 12
    case ApproverSetChanged => 13
    case SystemError => 14
    case EnclaveAttested => 15
    case QuorumThresholdReached => 16
    case PolicyDecisionSigned => 17
  }

  /** The primitives the log is built from. */
  datatype Crypto = Crypto(
    hash: Bytes -> Hash,
    publicKey: Bytes -> Bytes,
    sign: (Bytes, Bytes) -> Bytes,
    validKey: Bytes -> bool,
    verify: (Bytes, Bytes, Bytes) -> bool,
    json: Json -> Bytes)

  /** Signatures made with a key are 64 bytes and verify under its well-formed public key. */
  ghost predicate SignsAndVerifies(c: Crypto, key: Bytes) {
    && |c.publicKey(key)| == 32 && c.validKey(c.publicKey(key))
    && forall m {:trigger c.sign(key, m)} :: |c.sign(key, m)| == 64 && c.verify(c.publicKey(key), m, c.sign(key, m))
  }

  ghost predicate JsonInjective(c: Crypto) {
    forall x, y :: c.json(x) == c.json(y) ==> x == y
  }

  /** The bytes a server signature covers. */
  function Preimage(c: Crypto, prev: Hash, id: Ulid, kind: AuditKind, details: Json): Bytes {
    prev + id + [0x7c, KindByte(kind), 0x7c] + c.json(details)
  }

  method SigningPreimage(c: Crypto, prev: Hash, id: Ulid, kind: AuditKind, details: Json) returns (buf: Bytes)
    ensures buf == Preimage(c, prev, id, kind, details)
  {
    buf := prev;
    buf := buf + id;
    buf := buf + [0x7c];
    buf := buf + [KindByte(kind)];
    buf := buf + [0x7c];
    buf := buf + c.json(details);
  }

  function PreimageOf(c: Crypto, e: AuditEvent): Bytes {
    Preimage(c, e.prevEventHash, e.eventId, e.kind, e.details)
  }

  /** What is hashed to advance the chain: the preimage, then the signature. */
  function HashInput(c: Crypto, e: AuditEvent): Bytes {
    PreimageOf(c, e) + e.serverSignature
  }

  function NextHead(c: Crypto, e: AuditEvent): Hash {
    c.hash(HashInput(c, e))
  }

  function Head(c: Crypto, log: seq<AuditEvent>): Hash {
    if log == [] then ZERO else NextHead(c, log[|log| - 1])
  }

  /** The event a sink builds from a draft: linked to the head it read, and signed. */
  function Stamp(c: Crypto, key: Bytes, prev: Hash, draft: Draft, id: Ulid, now: int): AuditEvent {
    AuditEvent(id, prev, now, draft.actor, draft.kind, draft.requestId, draft.walletId, draft.details,
               c.sign(key, Preimage(c, prev, id, draft.kind, draft.details)))
  }

  datatype AuditError = Io | Serde | CryptoError

  /** `verify_event`: key and signature lengths, a well-formed key, then the signature. */
  function VerifyEvent(c: Crypto, e: AuditEvent, vk: Bytes): Outcome<bool, AuditError> {
    if |vk| != 32 || !c.validKey(vk) || |e.serverSignature| != 64 then Err(CryptoError)
    else Ok(c.verify(vk, PreimageOf(c, e), e.serverSignature))
  }

  predicate Verified(c: Crypto, e: AuditEvent, vk: Bytes) {
    VerifyEvent(c, e, vk) == Ok(true)
  }

  /**
   An event verifies if and only if key and signature have their lengths, the key is
   well formed, and the signature is over the link, the id, the kind and the details.
   */
  lemma VerifiedExactly(c: Crypto, e: AuditEvent, vk: Bytes)
    ensures Verified(c, e, vk)
            <==> && |vk| == 32 && c.validKey(vk) && |e.serverSignature| == 64
                 && c.verify(vk, e.prevEventHash + e.eventId + AsciiOf("|") + [KindByte(e.kind)] + AsciiOf("|")
                                 + c.json(e.details), e.serverSignature)
  {
    hide KindByte;
    assert AsciiOf("|") == [0x7c];
    assert PreimageOf(c, e) == e.prevEventHash + e.eventId + AsciiOf("|") + [KindByte(e.kind)] + AsciiOf("|")
                               + c.json(e.details);
  }

  lemma StampVerifies(c: Crypto, key: Bytes, prev: Hash, draft: Draft, id: Ulid, now: int)
    requires SignsAndVerifies(c, key)
    ensures Verified(c, Stamp(c, key, prev, draft, id, now), c.publicKey(key))
  {
    hide Preimage;
    var e := Stamp(c, key, prev, draft, id, now);
    assert e.serverSignature == c.sign(key, PreimageOf(c, e));
  }

  /** An emitted event carries the draft's own fields, the id and clock it was given, and the head it was linked to. */
  ghost predicate Carries(e: AuditEvent, prev: Hash, draft: Draft, id: Ulid, now: int) {
    && e.eventId == id && e.timestampUnixMs == now && e.prevEventHash == prev
    && e.actor == draft.actor && e.kind == draft.kind && e.details == draft.details
    && e.requestId == draft.requestId && e.walletId == draft.walletId
  }

  lemma StampFields(c: Crypto, key: Bytes, prev: Hash, draft: Draft, id: Ulid, now: int)
    ensures Carries(Stamp(c, key, prev, draft, id, now), prev, draft, id, now)
  {
  }

  /** Every event carries the head of the events before it and a good signature. */
  ghost predicate Accepted(c: Crypto, vk: Bytes, log: seq<AuditEvent>) {
    forall i :: 0 <= i < |log| ==> log[i].prevEventHash == Head(c, log[..i]) && Verified(c, log[i], vk)
  }

  lemma AcceptedPrefix(c: Crypto, vk: Bytes, log: seq<AuditEvent>)
    requires log != [] && Accepted(c, vk, log)
    ensures Accepted(c, vk, log[..|log| - 1])
    ensures log[|log| - 1].prevEventHash == Head(c, log[..|log| - 1]) && Verified(c, log[|log| - 1], vk)
  {
    hide Verified, Head;
    var init := log[..|log| - 1];
    forall i | 0 <= i < |init|
      ensures init[i].prevEventHash == Head(c, init[..i]) && Verified(c, init[i], vk)
    {
      assert init[..i] == log[..i];
      assert log[i] == init[i];
    }
  }

  lemma AcceptedExtend(c: Crypto, vk: Bytes, log: seq<AuditEvent>, e: AuditEvent)
    requires Accepted(c, vk, log) && e.prevEventHash == Head(c, log) && Verified(c, e, vk)
    ensures Accepted(c, vk, log + [e]) && Head(c, log + [e]) == NextHead(c, e)
  {
    hide Verified;
    var more := log + [e];
    forall i | 0 <= i < |more|
      ensures more[i].prevEventHash == Head(c, more[..i]) && Verified(c, more[i], vk)
    {
      if i < |log| {
        assert more[..i] == log[..i] && more[i] == log[i];
      } else {
        assert more[..i] == log;
      }
    }
  }

  // ------------------------------------------------------------ commitment

  predicate Collision(c: Crypto, x: Bytes, y: Bytes) {
    x != y && c.hash(x) == c.hash(y)
  }

  /** Two events agree on all the preimage and the signature cover. */
  predicate SameCovered(c: Crypto, a: AuditEvent, b: AuditEvent) {
    && a.prevEventHash == b.prevEventHash && a.eventId == b.eventId && a.kind == b.kind
    && c.json(a.details) == c.json(b.details) && a.serverSignature == b.serverSignature
  }

  lemma KindByteInjective(a: AuditKind, b: AuditKind)
    requires KindByte(a) == KindByte(b)
    ensures a == b
  {
  }

  /** The hash input determines every covered field. */
  lemma HashInputBinds(c: Crypto, a: AuditEvent, b: AuditEvent)
    requires HashInput(c, a) == HashInput(c, b)
    requires |a.serverSignature| == |b.serverSignature|
    ensures SameCovered(c, a, b)
  {
    hide KindByte;
    var x, y := HashInput(c, a), HashInput(c, b);
    var n := |PreimageOf(c, a)|;
    assert |x| == |y|;
    assert |PreimageOf(c, b)| == n;
    assert x[n..] == a.serverSignature && y[n..] == b.serverSignature;
    assert x[..32] == a.prevEventHash && y[..32] == b.prevEventHash;
    assert x[32..58] == a.eventId && y[32..58] == b.eventId;
    assert x[59] == KindByte(a.kind) && y[59] == KindByte(b.kind);
    assert x[61..n] == c.json(a.details) && y[61..n] == c.json(b.details);
    KindByteInjective(a.kind, b.kind);
  }

  /** Events with equal chain contribution are equal where covered, or collide. */
  lemma NextHeadBinds(c: Crypto, vk: Bytes, a: AuditEvent, b: AuditEvent)
    requires Verified(c, a, vk) && Verified(c, b, vk)
    requires NextHead(c, a) == NextHead(c, b)
    ensures SameCovered(c, a, b) || Collision(c, HashInput(c, a), HashInput(c, b))
  {
    hide HashInput, SameCovered;
    if HashInput(c, a) == HashInput(c, b) {
      HashInputBinds(c, a, b);
    }
  }

  ghost predicate Agree(c: Crypto, a: seq<AuditEvent>, b: seq<AuditEvent>) {
    |a| == |b| && forall i :: 0 <= i < |a| ==> SameCovered(c, a[i], b[i])
  }

  /** Some pair of events, counted from the end of both logs, exhibits a hash collision. */
  ghost predicate Collide(c: Crypto, a: seq<AuditEvent>, b: seq<AuditEvent>)
    requires |a| <= |b|
  {
    exists i :: 0 <= i < |a| && Collision(c, HashInput(c, a[i]), HashInput(c, b[i + |b| - |a|]))
  }

  lemma CollideAtLast(c: Crypto, a: seq<AuditEvent>, b: seq<AuditEvent>)
    requires 0 < |a| <= |b|
    ensures Collision(c, HashInput(c, a[|a| - 1]), HashInput(c, b[|b| - 1])) ==> Collide(c, a, b)
    ensures Collide(c, a[..|a| - 1], b[..|b| - 1]) ==> Collide(c, a, b)
  {
    hide Collision, HashInput;
    var a', b' := a[..|a| - 1], b[..|b| - 1];
    if Collision(c, HashInput(c, a[|a| - 1]), HashInput(c, b[|b| - 1])) {
      assert Collision(c, HashInput(c, a[|a| - 1]), HashInput(c, b[|a| - 1 + |b| - |a|]));
    }
    if i :| 0 <= i < |a'| && Collision(c, HashInput(c, a'[i]), HashInput(c, b'[i + |b'| - |a'|])) {
      assert Collision(c, HashInput(c, a[i]), HashInput(c, b[i + |b| - |a|]));
    }
  }

  lemma AgreeAtLast(c: Crypto, a: seq<AuditEvent>, b: seq<AuditEvent>)
    requires 0 < |a| == |b|
    requires Agree(c, a[..|a| - 1], b[..|b| - 1]) && SameCovered(c, a[|a| - 1], b[|b| - 1])
    ensures Agree(c, a, b)
  {
    hide SameCovered;
    forall i | 0 <= i < |a| ensures SameCovered(c, a[i], b[i]) {
      if i < |a| - 1 { assert SameCovered(c, a[..|a| - 1][i], b[..|b| - 1][i]); }
    }
  }

  /**
   The anchored pair of head and count commits to the log: two accepted logs
   that share it agree at every position on every covered field, or some
   position exhibits a hash collision.
   */
  lemma {:induction false} HeadCommits(c: Crypto, vk: Bytes, a: seq<AuditEvent>, b: seq<AuditEvent>)
    requires Accepted(c, vk, a) && Accepted(c, vk, b)
    requires |a| == |b| && Head(c, a) == Head(c, b)
    ensures Agree(c, a, b) || Collide(c, a, b)
    decreases |a|
  {
    if a != [] {
      hide Verified, HashInput, SameCovered, Accepted, Agree, Collide;
      var n := |a| - 1;
      AcceptedPrefix(c, vk, a);
      AcceptedPrefix(c, vk, b);
      NextHeadBinds(c, vk, a[n], b[n]);
      CollideAtLast(c, a, b);
      if SameCovered(c, a[n], b[n]) {
        SameCoveredPrev(c, a[n], b[n]);
        HeadCommits(c, vk, a[..n], b[..n]);
        if Agree(c, a[..n], b[..n]) { AgreeAtLast(c, a, b); }
      }
    }
  }

  lemma SameCoveredPrev(c: Crypto, a: AuditEvent, b: AuditEvent)
    requires SameCovered(c, a, b)
    ensures a.prevEventHash == b.prevEventHash
  {
  }

  /** With an injective JSON writer, agreement on the written details is agreement on the details. */
  lemma SameDetails(c: Crypto, a: AuditEvent, b: AuditEvent)
    requires JsonInjective(c) && SameCovered(c, a, b)
    ensures a.details == b.details
  {
  }

  /**
   Without the count the head still commits, up to one more escape: logs of
   different lengths with one head exhibit a collision between events counted
   from the end, or an event whose contribution hashes to the genesis value.
   */
  lemma {:induction false} HeadFixesLength(c: Crypto, vk: Bytes, a: seq<AuditEvent>, b: seq<AuditEvent>)
    requires Accepted(c, vk, a) && Accepted(c, vk, b)
    requires |a| < |b| && Head(c, a) == Head(c, b)
    ensures Collide(c, a, b) || HitsGenesis(c, b)
    decreases |a|
  {
    hide Verified, HashInput, SameCovered, Accepted, Collide;
    if a == [] {
      assert NextHead(c, b[|b| - 1]) == ZERO;
    } else {
      var m, n := |a| - 1, |b| - 1;
      AcceptedPrefix(c, vk, a);
      AcceptedPrefix(c, vk, b);
      NextHeadBinds(c, vk, a[m], b[n]);
      CollideAtLast(c, a, b);
      if SameCovered(c, a[m], b[n]) {
        SameCoveredPrev(c, a[m], b[n]);
        HeadFixesLength(c, vk, a[..m], b[..n]);
        if k :| 0 <= k < n && NextHead(c, b[..n][k]) == ZERO {
          assert NextHead(c, b[k]) == ZERO;
        }
      }
    }
  }

  /** Some event's chain contribution is the genesis value: a preimage of 32 zero bytes. */
  ghost predicate HitsGenesis(c: Crypto, log: seq<AuditEvent>) {
    exists k :: 0 <= k < |log| && NextHead(c, log[k]) == ZERO
  }

  /** The converse: timestamp, actor, request id and wallet id are not committed to. */
  lemma {:induction false} UncoveredFieldsFree(c: Crypto, vk: Bytes, a: seq<AuditEvent>, b: seq<AuditEvent>)
    requires Accepted(c, vk, a) && |a| == |b|
    requires forall i :: 0 <= i < |a| ==> SameCovered(c, a[i], b[i])
    ensures Accepted(c, vk, b) && Head(c, a) == Head(c, b)
  {
    forall i | 0 <= i < |b|
      ensures b[i].prevEventHash == Head(c, b[..i]) && Verified(c, b[i], vk)
    {
      assert SameCovered(c, a[i], b[i]);
      assert a[i].prevEventHash == Head(c, a[..i]);
      if i > 0 {
        assert SameCovered(c, a[i - 1], b[i - 1]);
      }
    }
    if a != [] {
      assert SameCovered(c, a[|a| - 1], b[|a| - 1]);
    }
  }

  // ------------------------------------------------------------ replay

  /** The replay loop over decoded events: chain link, then signature, at each step. */
  function Replay(c: Crypto, vk: Bytes, log: seq<AuditEvent>, prev: Hash): Outcome<nat, AuditError> {
    if log == [] then Ok(0)
    else if log[0].prevEventHash != prev then Err(CryptoError)
    else
      var v := VerifyEvent(c, log[0], vk);
      if v != Ok(true) then Err(CryptoError)
      else
        var rest := Replay(c, vk, log[1..], NextHead(c, log[0]));
        if rest.Ok? then Ok(rest.value + 1) else rest
  }

  /** Replay succeeds exactly on accepted logs, and then returns their length. */
  lemma {:induction false} ReplayFrom(c: Crypto, vk: Bytes, done: seq<AuditEvent>, todo: seq<AuditEvent>)
    requires Accepted(c, vk, done)
    ensures Replay(c, vk, todo, Head(c, done)).Ok? <==> Accepted(c, vk, done + todo)
    ensures Replay(c, vk, todo, Head(c, done)).Ok? ==> Replay(c, vk, todo, Head(c, done)) == Ok(|todo|)
    decreases |todo|
  {
    hide HashInput, PreimageOf, Head, Accepted, NextHead;
    if todo == [] {
      assert done + todo == done;
    } else {
      var e, all := todo[0], done + todo;
      assert all[|done|] == e && all[..|done|] == done;
      if Accepted(c, vk, all) { AcceptedAt(c, vk, all, |done|); }
      if e.prevEventHash == Head(c, done) && Verified(c, e, vk) {
        AcceptedExtend(c, vk, done, e);
        ReplayFrom(c, vk, done + [e], todo[1..]);
        assert (done + [e]) + todo[1..] == all;
      }
    }
  }

  lemma AcceptedAt(c: Crypto, vk: Bytes, log: seq<AuditEvent>, i: nat)
    requires Accepted(c, vk, log) && i < |log|
    ensures log[i].prevEventHash == Head(c, log[..i]) && Verified(c, log[i], vk)
  {
  }

  lemma ReplayExactly(c: Crypto, vk: Bytes, log: seq<AuditEvent>)
    ensures Replay(c, vk, log, ZERO) == Ok(|log|) <==> Accepted(c, vk, log)
    ensures Replay(c, vk, log, ZERO).Ok? ==> Replay(c, vk, log, ZERO) == Ok(|log|)
  {
    hide Replay, Accepted;
    assert Accepted(c, vk, []) by { AcceptedNone(c, vk); }
    assert [] + log == log;
    ReplayFrom(c, vk, [], log);
  }

  lemma AcceptedNone(c: Crypto, vk: Bytes)
    ensures Accepted(c, vk, [])
  {
  }
}
