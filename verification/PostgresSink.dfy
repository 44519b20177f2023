/**
 The Postgres-backed audit sink (crates/qfc-audit/src/postgres.rs): concurrent
 emits, each a transaction that takes an advisory lock, reads the chain head,
 inserts one row and commits or aborts. The database is a state machine; rows
 are kept in commit order and queries sort them by (timestamp, event id).
 */
module PostgresSink {
  import opened Bytes
  import opened Outcomes
  import opened WalletTypes
  import opened AuditChain

  // ------------------------------------------------------------ the query order

  predicate LexLess(a: Bytes, b: Bytes) {
    b != [] && (a == [] || a[0] < b[0] || (a[0] == b[0] && LexLess(a[1..], b[1..])))
  }

  lemma {:induction false} LexOrder(a: Bytes, b: Bytes)
    ensures a == b ==> !LexLess(a, b)
    ensures a != b ==> (LexLess(a, b) <==> !LexLess(b, a))
  {
    if a != [] && b != [] {
      LexOrder(a[1..], b[1..]);
      assert a == [a[0]] + a[1..] && b == [b[0]] + b[1..];
    }
  }

  lemma {:induction false} LexTrans(a: Bytes, b: Bytes, c: Bytes)
    requires LexLess(a, b) && LexLess(b, c)
    ensures LexLess(a, c)
  {
    if a != [] && a[0] == b[0] && b[0] == c[0] {
      LexTrans(a[1..], b[1..], c[1..]);
    }
  }

  /** ORDER BY timestamp_unix_ms, event_id. */
  predicate Before(a: AuditEvent, b: AuditEvent) {
    a.timestampUnixMs < b.timestampUnixMs || (a.timestampUnixMs == b.timestampUnixMs && LexLess(a.eventId, b.eventId))
  }

  lemma BeforeOrder(a: AuditEvent, b: AuditEvent)
    ensures a.eventId != b.eventId ==> (Before(a, b) <==> !Before(b, a))
    ensures a.eventId == b.eventId && a.timestampUnixMs == b.timestampUnixMs ==> !Before(a, b)
  {
    LexOrder(a.eventId, b.eventId);
  }

  lemma BeforeTrans(a: AuditEvent, b: AuditEvent, c: AuditEvent)
    requires Before(a, b) && Before(b, c)
    ensures Before(a, c)
  {
    if a.timestampUnixMs == b.timestampUnixMs == c.timestampUnixMs {
      LexTrans(a.eventId, b.eventId, c.eventId);
    }
  }

  /** At position k, the first where they differ, the left id has the smaller byte. */
  predicate SmallerAt(a: Bytes, b: Bytes, k: nat) {
    k < |a| && k < |b| && a[..k] == b[..k] && a[k] < b[k]
  }

  lemma {:induction false} LexExactly(a: Bytes, b: Bytes)
    requires |a| == |b|
    ensures LexLess(a, b) <==> exists k: nat :: SmallerAt(a, b, k)
  {
    if a != [] {
      LexExactly(a[1..], b[1..]);
      if a[0] == b[0] {
        forall k: nat ensures SmallerAt(a[1..], b[1..], k) <==> SmallerAt(a, b, k + 1) { SmallerAtTail(a, b, k); }
        if LexLess(a, b) {
          var k: nat :| SmallerAt(a[1..], b[1..], k);
          assert SmallerAt(a, b, k + 1);
        }
        if k: nat :| SmallerAt(a, b, k) {
          assert k > 0;
          assert SmallerAt(a[1..], b[1..], k - 1);
        }
      } else {
        if LexLess(a, b) { assert SmallerAt(a, b, 0); }
        if k: nat :| SmallerAt(a, b, k) {
          if k > 0 { assert a[..k][0] == b[..k][0]; }
        }
      }
    }
  }

  lemma SmallerAtTail(a: Bytes, b: Bytes, k: nat)
    requires a != [] && b != [] && a[0] == b[0]
    ensures SmallerAt(a[1..], b[1..], k) <==> SmallerAt(a, b, k + 1)
  {
    if k < |a| - 1 && k < |b| - 1 {
      assert a[..k + 1] == [a[0]] + a[1..][..k] && b[..k + 1] == [b[0]] + b[1..][..k];
    }
  }

  /** The smaller timestamp; at equal ones, the smaller byte where the ids first differ. */
  ghost predicate Precedes(a: AuditEvent, b: AuditEvent) {
    || a.timestampUnixMs < b.timestampUnixMs
    || (a.timestampUnixMs == b.timestampUnixMs && exists k: nat :: SmallerAt(a.eventId, b.eventId, k))
  }

  lemma BeforeExactly(a: AuditEvent, b: AuditEvent)
    ensures Before(a, b) <==> Precedes(a, b)
  {
    LexExactly(a.eventId, b.eventId);
  }

  /** ORDER BY ... DESC LIMIT 1. */
  function Latest(rows: seq<AuditEvent>): (m: AuditEvent)
    requires rows != []
    ensures m in rows
  {
    var last := rows[|rows| - 1];
    if |rows| == 1 then last
    else
      var m := Latest(rows[..|rows| - 1]);
      if Before(m, last) then last else m
  }

  function InsertRow(sorted: seq<AuditEvent>, r: AuditEvent): (out: seq<AuditEvent>) {
    if sorted == [] || !Before(r, sorted[|sorted| - 1]) then sorted + [r]
    else InsertRow(sorted[..|sorted| - 1], r) + [sorted[|sorted| - 1]]
  }

  function Sorted(rows: seq<AuditEvent>): (out: seq<AuditEvent>) {
    if rows == [] then [] else InsertRow(Sorted(rows[..|rows| - 1]), rows[|rows| - 1])
  }

  ghost predicate Ascending(rows: seq<AuditEvent>) {
    forall i, j :: 0 <= i < j < |rows| ==> Before(rows[i], rows[j])
  }

  ghost predicate DistinctIds(rows: seq<AuditEvent>) {
    forall i, j :: 0 <= i < j < |rows| ==> rows[i].eventId != rows[j].eventId
  }

  lemma AscendingPrefix(rows: seq<AuditEvent>, k: nat)
    requires Ascending(rows) && k <= |rows|
    ensures Ascending(rows[..k])
  {
    hide Before;
    forall i, j | 0 <= i < j < k ensures Before(rows[..k][i], rows[..k][j]) {
      assert Before(rows[i], rows[j]);
    }
  }

  lemma {:induction false} InsertPermutes(sorted: seq<AuditEvent>, r: AuditEvent)
    ensures multiset(InsertRow(sorted, r)) == multiset(sorted) + multiset{r}
  {
    hide Before;
    if sorted != [] {
      var n := |sorted| - 1;
      assert sorted == sorted[..n] + [sorted[n]];
      InsertPermutes(sorted[..n], r);
    }
  }

  lemma AscendingSnoc(rows: seq<AuditEvent>, last: AuditEvent)
    requires Ascending(rows) && forall x :: x in rows ==> Before(x, last)
    ensures Ascending(rows + [last])
  {
    hide Before;
    var more := rows + [last];
    forall i, j | 0 <= i < j < |more| ensures Before(more[i], more[j]) {
      assert more[i] == rows[i];
    }
  }

  lemma {:induction false} InsertKeeps(sorted: seq<AuditEvent>, r: AuditEvent)
    requires Ascending(sorted) && forall x :: x in sorted ==> x.eventId != r.eventId
    ensures Ascending(InsertRow(sorted, r))
  {
    hide Before;
    if sorted == [] {
      assert InsertRow(sorted, r) == [r];
    } else {
      var n := |sorted| - 1;
      var last, init := sorted[n], sorted[..n];
      AscendingPrefix(sorted, n);
      BeforeOrder(r, last);
      if Before(r, last) {
        InsertKeeps(init, r);
        InsertPermutes(init, r);
        var out := InsertRow(init, r);
        forall x | x in out ensures Before(x, last) {
          assert x in multiset(out);
          if x != r {
            assert x in multiset(init);
            var k :| 0 <= k < n && init[k] == x;
            assert Before(sorted[k], sorted[n]);
          }
        }
        AscendingSnoc(out, last);
      } else {
        forall x | x in sorted ensures Before(x, r) {
          var i :| 0 <= i <= n && sorted[i] == x;
          if i < n {
            assert Before(sorted[i], sorted[n]);
            BeforeTrans(sorted[i], last, r);
          }
        }
        AscendingSnoc(sorted, r);
      }
    }
  }

  lemma {:induction false} SortedIsSorted(rows: seq<AuditEvent>)
    requires DistinctIds(rows)
    ensures Ascending(Sorted(rows)) && multiset(Sorted(rows)) == multiset(rows)
    ensures |Sorted(rows)| == |rows|
  {
    hide InsertRow, Ascending;
    if rows == [] {
      assert Ascending([]) by { AscendingNone(); }
    } else {
      var n := |rows| - 1;
      var init, r := rows[..n], rows[n];
      SortedIsSorted(init);
      assert rows == init + [r];
      var s := Sorted(init);
      forall x | x in s ensures x.eventId != r.eventId {
        assert x in multiset(s);
        assert x in multiset(init);
        var k :| 0 <= k < n && init[k] == x;
        assert rows[k].eventId != rows[n].eventId;
      }
      InsertKeeps(s, r);
      InsertPermutes(s, r);
      assert |multiset(Sorted(rows))| == |Sorted(rows)|;
    }
  }

  lemma AscendingNone()
    ensures Ascending([])
  {
  }

  lemma {:induction false} SortedOfAscending(rows: seq<AuditEvent>)
    requires Ascending(rows) && DistinctIds(rows)
    ensures Sorted(rows) == rows
  {
    hide Before;
    if rows != [] {
      var n := |rows| - 1;
      SortedOfAscending(rows[..n]);
      if n > 0 {
        assert Before(rows[n - 1], rows[n]);
        BeforeOrder(rows[n - 1], rows[n]);
      }
      assert rows == rows[..n] + [rows[n]];
    }
  }

  lemma {:induction false} LatestOfAscending(rows: seq<AuditEvent>)
    requires rows != [] && Ascending(rows)
    ensures Latest(rows) == rows[|rows| - 1]
  {
    hide Before;
    if |rows| > 1 {
      var n := |rows| - 1;
      var m := Latest(rows[..n]);
      var k :| 0 <= k < n && rows[..n][k] == m;
      assert Before(rows[k], rows[n]);
    }
  }

  /** The replay query returns every row once, by ascending timestamp, and by ascending id within one. */
  lemma QueryOrder(rows: seq<AuditEvent>)
    requires DistinctIds(rows)
    ensures multiset(Sorted(rows)) == multiset(rows)
    ensures forall i, j :: 0 <= i < j < |Sorted(rows)| ==> Precedes(Sorted(rows)[i], Sorted(rows)[j])
  {
    hide Before, Sorted, Precedes;
    SortedIsSorted(rows);
    var s := Sorted(rows);
    forall i, j | 0 <= i < j < |s| ensures Precedes(s[i], s[j]) {
      assert Before(s[i], s[j]);
      BeforeExactly(s[i], s[j]);
    }
  }

  /** The head query returns the row that all others precede. */
  lemma {:induction false} HeadQuery(rows: seq<AuditEvent>)
    requires rows != [] && DistinctIds(rows)
    ensures Latest(rows) in rows && forall r :: r in rows && r != Latest(rows) ==> Precedes(r, Latest(rows))
  {
    hide Before, Precedes;
    var n := |rows| - 1;
    if n > 0 {
      var init, last := rows[..n], rows[n];
      HeadQuery(init);
      var m := Latest(init);
      var k :| 0 <= k < n && init[k] == m;
      assert rows[k].eventId != rows[n].eventId;
      BeforeOrder(m, last);
      BeforeExactly(m, last);
      BeforeExactly(last, m);
      forall r | r in rows && r != Latest(rows) ensures Precedes(r, Latest(rows)) {
        assert rows == init + [last];
        if r in init && r != m && Before(m, last) {
          BeforeExactly(r, m);
          BeforeTrans(r, m, last);
          BeforeExactly(r, last);
        }
      }
    }
  }

  // ------------------------------------------------------------ reading rows back

  /** `kind_from_byte`: the stored kind column, decoded. */
  function KindFromByte(b: byte): Option<AuditKind> {
    match b
    case 1 => Some(WalletCreated)
    case 2 => Some(WalletRevoked)
    case 3 => Some(SigningRequested)
    case 4 => Some(SigningEvaluated)
    case 5 => Some(QuorumNotified)
    case 6 => Some(QuorumApprovalReceived)
    case 7 => Some(QuorumApprovalRejected)
    case 8 => Some(QuorumTimedOut)
    case 9 => Some(SigningAttempted)
    case 10 => Some(SigningSucceeded)
    case 11 => Some(SigningFailed)
    case 12 => Some(PolicyChanged)
    case 13 => Some(ApproverSetChanged)
    case 14 => Some(SystemError)
    case 15 => Some(EnclaveAttested)
    case 16 => Some(QuorumThresholdReached)
    case _ => None
  }

  predicate Readable(e: AuditEvent) {
    KindFromByte(KindByte(e.kind)) == Some(e.kind)
  }

  /** The kind column inverts for every kind but one: byte 17 is written and never read back. */
  lemma KindColumnExactly(k: AuditKind)
    ensures KindFromByte(KindByte(k)) == if k == PolicyDecisionSigned then None else Some(k)
  {
  }

  /** `fetch_chain_head`. */
  function FetchHead(c: Crypto, rows: seq<AuditEvent>): Outcome<Hash, AuditError> {
    if rows == [] then Ok(ZERO)
    else if !Readable(Latest(rows)) then Err(Serde)
    else Ok(NextHead(c, Latest(rows)))
  }

  function ReplayRows(c: Crypto, vk: Bytes, rows: seq<AuditEvent>, prev: Hash): Outcome<nat, AuditError> {
    if rows == [] then Ok(0)
    else if !Readable(rows[0]) then Err(Serde)
    else if rows[0].prevEventHash != prev then Err(CryptoError)
    else if VerifyEvent(c, rows[0], vk) != Ok(true) then Err(CryptoError)
    else
      var rest := ReplayRows(c, vk, rows[1..], NextHead(c, rows[0]));
      if rest.Ok? then Ok(rest.value + 1) else rest
  }

  ghost predicate AllReadable(rows: seq<AuditEvent>) {
    forall i :: 0 <= i < |rows| ==> Readable(rows[i])
  }

  lemma {:induction false} ReplayRowsIsReplay(c: Crypto, vk: Bytes, rows: seq<AuditEvent>, prev: Hash)
    ensures ReplayRows(c, vk, rows, prev).Ok? <==> AllReadable(rows) && Replay(c, vk, rows, prev).Ok?
    ensures ReplayRows(c, vk, rows, prev).Ok? ==> ReplayRows(c, vk, rows, prev) == Replay(c, vk, rows, prev)
  {
    hide Readable, VerifyEvent, NextHead;
    if rows != [] {
      ReplayRowsIsReplay(c, vk, rows[1..], NextHead(c, rows[0]));
      assert AllReadable(rows) <==> Readable(rows[0]) && AllReadable(rows[1..]) by {
        assert rows == [rows[0]] + rows[1..];
      }
    }
  }

  /** The replay loop over the query result. */
  method ReplayVerifyPostgres(c: Crypto, vk: Bytes, rows: seq<AuditEvent>) returns (r: Outcome<nat, AuditError>)
    ensures r == ReplayRows(c, vk, Sorted(rows), ZERO)
  {
    hide Sorted, Readable, VerifyEvent, NextHead;
    var sorted := Sorted(rows);
    var prev, n := ZERO, 0;
    for i := 0 to |sorted|
      invariant var rest := ReplayRows(c, vk, sorted[i..], prev);
                (if rest.Ok? then Ok(n + rest.value) else rest) == ReplayRows(c, vk, sorted, ZERO)
    {
      assert sorted[i..][1..] == sorted[i + 1..];
      var event := sorted[i];
      if !Readable(event) {
        return Err(Serde);
      }
      if event.prevEventHash != prev {
        return Err(CryptoError);
      }
      var v := VerifyEvent(c, event, vk);
      if v != Ok(true) {
        return Err(CryptoError);
      }
      prev := NextHead(c, event);
      n := n + 1;
    }
    return Ok(n);
  }

  // ------------------------------------------------------------ the state machine

  type TxId = nat

  datatype Tx =
    | Begun(draft: Draft)
    | Locked(draft: Draft)
    | HeadRead(draft: Draft, prev: Hash)
    | Inserted(event: AuditEvent)

  datatype Db = Db(rows: seq<AuditEvent>, lock: Option<TxId>, txs: map<TxId, Tx>)

  datatype Action =
    | Begin(t: TxId, draft: Draft)
    | Lock(t: TxId)
    | ReadHead(t: TxId)
    | Insert(t: TxId, id: Ulid, now: int)
    | Commit(t: TxId)
    | Abort(t: TxId)

  function Close(db: Db, t: TxId): Db {
    db.(txs := db.txs - {t}, lock := if db.lock == Some(t) then None else db.lock)
  }

  predicate HasId(rows: seq<AuditEvent>, id: Ulid) {
    exists i :: 0 <= i < |rows| && rows[i].eventId == id
  }

  /** One scheduler step; an action that is not enabled changes nothing. */
  function Next(c: Crypto, key: Bytes, db: Db, a: Action): Db {
    match a
    case Begin(t, draft) => if t in db.txs then db else db.(txs := db.txs[t := Begun(draft)])
    case Lock(t) =>
      if t in db.txs && db.txs[t].Begun? && db.lock.None?
      then db.(lock := Some(t), txs := db.txs[t := Locked(db.txs[t].draft)]) else db
    case ReadHead(t) =>
      if !(t in db.txs && db.txs[t].Locked?) then db
      else
        var head := FetchHead(c, db.rows);
        if head.Ok? then db.(txs := db.txs[t := HeadRead(db.txs[t].draft, head.value)]) else Close(db, t)
    case Insert(t, id, now) =>
      if !(t in db.txs && db.txs[t].HeadRead?) then db
      else if HasId(db.rows, id) then Close(db, t)
      else db.(txs := db.txs[t := Inserted(Stamp(c, key, db.txs[t].prev, db.txs[t].draft, id, now))])
    case Commit(t) =>
      if t in db.txs && db.txs[t].Inserted?
      then Close(db.(rows := db.rows + [db.txs[t].event]), t) else db
    case Abort(t) => if t in db.txs then Close(db, t) else db
  }

  function Run(c: Crypto, key: Bytes, db: Db, actions: seq<Action>): Db
    decreases |actions|
  {
    if actions == [] then db else Run(c, key, Next(c, key, db, actions[0]), actions[1..])
  }

  const EMPTY := Db([], None, map[])

  // ------------------------------------------------------------ linear history

  /** Each row links to the head of the rows committed before it, is signed, and has its own id. */
  ghost predicate Linear(c: Crypto, key: Bytes, rows: seq<AuditEvent>) {
    && DistinctIds(rows)
    && forall k :: 0 <= k < |rows| ==>
         FetchHead(c, rows[..k]) == Ok(rows[k].prevEventHash) && Verified(c, rows[k], c.publicKey(key))
  }

  ghost predicate TxFits(c: Crypto, key: Bytes, db: Db, t: TxId)
    requires t in db.txs
  {
    var tx := db.txs[t];
    && (tx.Begun? || db.lock == Some(t))
    && (tx.HeadRead? ==> FetchHead(c, db.rows) == Ok(tx.prev))
    && (tx.Inserted? ==>
          && FetchHead(c, db.rows) == Ok(tx.event.prevEventHash)
          && Verified(c, tx.event, c.publicKey(key)) && !HasId(db.rows, tx.event.eventId))
  }

  ghost predicate Inv(c: Crypto, key: Bytes, db: Db) {
    Linear(c, key, db.rows) && forall t :: t in db.txs ==> TxFits(c, key, db, t)
  }

  lemma LinearExtend(c: Crypto, key: Bytes, rows: seq<AuditEvent>, e: AuditEvent)
    requires Linear(c, key, rows) && FetchHead(c, rows) == Ok(e.prevEventHash)
    requires Verified(c, e, c.publicKey(key)) && !HasId(rows, e.eventId)
    ensures Linear(c, key, rows + [e])
  {
    hide FetchHead, Verified;
    var more := rows + [e];
    forall k | 0 <= k < |more|
      ensures FetchHead(c, more[..k]) == Ok(more[k].prevEventHash) && Verified(c, more[k], c.publicKey(key))
    {
      if k < |rows| {
        assert more[..k] == rows[..k] && more[k] == rows[k];
      } else {
        assert more[..k] == rows;
      }
    }
  }

  lemma NextKeepsInv(c: Crypto, key: Bytes, db: Db, a: Action)
    requires SignsAndVerifies(c, key) && Inv(c, key, db)
    ensures Inv(c, key, Next(c, key, db, a))
  {
    hide FetchHead, Verified, Linear, SignsAndVerifies, HasId, Stamp;
    var next := Next(c, key, db, a);
    if a.Commit? && a.t in db.txs && db.txs[a.t].Inserted? {
      assert TxFits(c, key, db, a.t);
      LinearExtend(c, key, db.rows, db.txs[a.t].event);
    }
    if a.Insert? && a.t in db.txs && db.txs[a.t].HeadRead? {
      StampVerifies(c, key, db.txs[a.t].prev, db.txs[a.t].draft, a.id, a.now);
      StampFields(c, key, db.txs[a.t].prev, db.txs[a.t].draft, a.id, a.now);
    }
    forall t | t in next.txs ensures TxFits(c, key, next, t) {
      if t in db.txs { assert TxFits(c, key, db, t); }
      if a.t in db.txs { assert TxFits(c, key, db, a.t); }
    }
  }

  /** Under every interleaving the committed rows form one linear history: no two emits share a head. */
  lemma {:induction false} RunsKeepInv(c: Crypto, key: Bytes, db: Db, actions: seq<Action>)
    requires SignsAndVerifies(c, key) && Inv(c, key, db)
    ensures Inv(c, key, Run(c, key, db, actions))
    decreases |actions|
  {
    hide Inv, Next, SignsAndVerifies;
    if actions != [] {
      NextKeepsInv(c, key, db, actions[0]);
      RunsKeepInv(c, key, Next(c, key, db, actions[0]), actions[1..]);
    }
  }

  // ------------------------------------------------------------ when replay accepts

  /** In key order, the head read before row k is that of row k - 1, whose kind was readable. */
  lemma HeadInOrder(c: Crypto, rows: seq<AuditEvent>, k: nat)
    requires Ascending(rows) && 0 < k <= |rows|
    ensures FetchHead(c, rows[..k]) == if Readable(rows[k - 1]) then Ok(NextHead(c, rows[k - 1])) else Err(Serde)
  {
    hide Before, Latest;
    AscendingPrefix(rows, k);
    LatestOfAscending(rows[..k]);
  }

  /** Rows committed in key order are an accepted log, and all but the last are readable. */
  lemma OrderedIsAccepted(c: Crypto, key: Bytes, rows: seq<AuditEvent>)
    requires Linear(c, key, rows) && Ascending(rows)
    ensures Accepted(c, c.publicKey(key), rows)
    ensures forall i :: 0 <= i < |rows| - 1 ==> Readable(rows[i])
  {
    hide Verified, Ascending, Readable, NextHead, FetchHead, Linear;
    forall k | 0 <= k < |rows|
      ensures rows[k].prevEventHash == Head(c, rows[..k]) && Verified(c, rows[k], c.publicKey(key))
    {
      LinkedInOrder(c, key, rows, k);
    }
    forall i | 0 <= i < |rows| - 1 ensures Readable(rows[i]) {
      LinkedInOrder(c, key, rows, i + 1);
    }
  }

  lemma LinkedInOrder(c: Crypto, key: Bytes, rows: seq<AuditEvent>, k: nat)
    requires Linear(c, key, rows) && Ascending(rows) && k < |rows|
    ensures rows[k].prevEventHash == Head(c, rows[..k]) && Verified(c, rows[k], c.publicKey(key))
    ensures k > 0 ==> Readable(rows[k - 1])
  {
    hide Verified, Ascending, Readable, NextHead, Latest, FetchHead, Linear;
    LinearAt(c, key, rows, k);
    if k > 0 {
      HeadInOrder(c, rows, k);
    } else {
      NoHead(c, rows[..k]);
    }
  }

  lemma LinearAt(c: Crypto, key: Bytes, rows: seq<AuditEvent>, k: nat)
    requires Linear(c, key, rows) && k < |rows|
    ensures FetchHead(c, rows[..k]) == Ok(rows[k].prevEventHash) && Verified(c, rows[k], c.publicKey(key))
  {
    hide FetchHead, Verified, DistinctIds;
  }

  lemma NoHead(c: Crypto, rows: seq<AuditEvent>)
    requires rows == []
    ensures FetchHead(c, rows) == Ok(ZERO)
  {
  }

  /**
   When every new key sorts after the committed ones, replay accepts the table
   with its full count, exactly unless the last row has the unreadable kind.
   */
  lemma OrderedReplay(c: Crypto, key: Bytes, rows: seq<AuditEvent>)
    requires Linear(c, key, rows) && Ascending(rows)
    ensures ReplayRows(c, c.publicKey(key), Sorted(rows), ZERO).Ok?
            <==> rows == [] || rows[|rows| - 1].kind != PolicyDecisionSigned
    ensures ReplayRows(c, c.publicKey(key), Sorted(rows), ZERO).Ok? ==>
              ReplayRows(c, c.publicKey(key), Sorted(rows), ZERO) == Ok(|rows|)
  {
    hide Ascending, Accepted, Replay, ReplayRows, Sorted, KindByte, KindFromByte;
    var vk := c.publicKey(key);
    SortedOfAscending(rows);
    OrderedIsAccepted(c, key, rows);
    ReplayExactly(c, vk, rows);
    ReplayRowsIsReplay(c, vk, rows, ZERO);
    if rows != [] {
      KindColumnExactly(rows[|rows| - 1].kind);
    }
  }

  ghost predicate RowsCollide(c: Crypto, rows: seq<AuditEvent>) {
    exists i, j :: 0 <= i < |rows| && 0 <= j < |rows| && Collision(c, HashInput(c, rows[i]), HashInput(c, rows[j]))
  }

  /** The first row that does not sort after its predecessor in commit order. */
  lemma {:induction false} FirstDisorder(rows: seq<AuditEvent>) returns (k: nat)
    requires DistinctIds(rows) && !Ascending(rows)
    ensures 0 < k < |rows| && Ascending(rows[..k]) && Before(rows[k], rows[k - 1])
  {
    hide Before;
    var n := |rows| - 1;
    if !Ascending(rows[..n]) {
      k := FirstDisorder(rows[..n]);
      assert rows[..n][..k] == rows[..k];
    } else {
      k := n;
      forall i, j | 0 <= i < j < n ensures Before(rows[i], rows[j]) {
        assert Before(rows[..n][i], rows[..n][j]);
      }
      var i :| 0 <= i < n && !Before(rows[i], rows[n]);
      BeforeOrder(rows[i], rows[n]);
      if i < n - 1 {
        assert Before(rows[..n][i], rows[..n][n - 1]);
        BeforeTrans(rows[n], rows[i], rows[n - 1]);
      }
    }
  }

  /**
   The converse: if replay accepts, the commits were in key order, or the rows
   exhibit a hash collision or a preimage of the genesis value.
   */
  lemma AcceptedOnlyInOrder(c: Crypto, key: Bytes, rows: seq<AuditEvent>)
    requires Linear(c, key, rows)
    requires ReplayRows(c, c.publicKey(key), Sorted(rows), ZERO).Ok?
    ensures Ascending(rows) || RowsCollide(c, rows) || HitsGenesis(c, rows)
  {
    hide ReplayRows, Replay, Sorted, Verified, NextHead, Readable, Accepted, Ascending;
    if !Ascending(rows) {
      var vk, sorted := c.publicKey(key), Sorted(rows);
      ReplayRowsIsReplay(c, vk, sorted, ZERO);
      ReplayExactly(c, vk, sorted);
      SortedIsSorted(rows);
      var k := FirstDisorder(rows);
      assert FetchHead(c, rows[..k]) == Ok(rows[k].prevEventHash);
      LatestOfAscending(rows[..k]);
      assert rows[k].prevEventHash == NextHead(c, rows[k - 1]);
      assert rows[k] in multiset(sorted);
      var q :| 0 <= q < |sorted| && sorted[q] == rows[k];
      AcceptedAt(c, vk, sorted, q);
      DisorderCollides(c, vk, rows, sorted, k, q);
    }
  }

  lemma DisorderCollides(c: Crypto, vk: Bytes, rows: seq<AuditEvent>, sorted: seq<AuditEvent>, k: nat, q: nat)
    requires 0 < k < |rows| && q < |sorted| && sorted[q] == rows[k] && Before(rows[k], rows[k - 1])
    requires Ascending(sorted) && multiset(sorted) == multiset(rows) && DistinctIds(rows)
    requires rows[k].prevEventHash == NextHead(c, rows[k - 1]) == Head(c, sorted[..q])
    requires Verified(c, rows[k - 1], vk) && Accepted(c, vk, sorted)
    ensures RowsCollide(c, rows) || HitsGenesis(c, rows)
  {
    hide Verified, HashInput, Accepted, Before;
    if q == 0 {
      assert NextHead(c, rows[k - 1]) == ZERO;
    } else {
      var prior := sorted[q - 1];
      assert Before(prior, sorted[q]);
      assert prior in multiset(rows);
      var j :| 0 <= j < |rows| && rows[j] == prior;
      BeforeTrans(prior, rows[k], rows[k - 1]);
      if j == k - 1 { BeforeOrder(prior, prior); }
      assert prior.eventId != rows[k - 1].eventId;
      AcceptedAt(c, vk, sorted, q - 1);
      NextHeadBinds(c, vk, prior, rows[k - 1]);
      assert !SameCovered(c, prior, rows[k - 1]);
      assert Collision(c, HashInput(c, rows[j]), HashInput(c, rows[k - 1]));
    }
  }

  /**
   Both directions at once, over any interleaving from the empty table: replay
   accepts exactly when commits came in key order and the last kind is readable,
   up to an exhibited hash accident.
   */
  lemma ReplayAcceptsExactly(c: Crypto, key: Bytes, actions: seq<Action>)
    requires SignsAndVerifies(c, key)
    ensures var rows := Run(c, key, EMPTY, actions).rows;
            RowsCollide(c, rows) || HitsGenesis(c, rows)
            || (ReplayRows(c, c.publicKey(key), Sorted(rows), ZERO) == Ok(|rows|)
                <==> Ascending(rows) && (rows == [] || rows[|rows| - 1].kind != PolicyDecisionSigned))
  {
    hide Linear, Ascending, ReplayRows, Sorted, SignsAndVerifies, RowsCollide, HitsGenesis, Run;
    assert Inv(c, key, EMPTY) by { EmptyInv(c, key); }
    RunsKeepInv(c, key, EMPTY, actions);
    var rows := Run(c, key, EMPTY, actions).rows;
    if Ascending(rows) { OrderedReplay(c, key, rows); }
    if ReplayRows(c, c.publicKey(key), Sorted(rows), ZERO).Ok? { AcceptedOnlyInOrder(c, key, rows); }
  }

  lemma EmptyInv(c: Crypto, key: Bytes)
    ensures Inv(c, key, EMPTY)
  {
  }

  // ------------------------------------------------------------ the unreadable kind

  /** Once the latest row has the unreadable kind, no transaction ever commits again. */
  lemma {:induction false} UnreadableHeadSticks(c: Crypto, key: Bytes, db: Db, actions: seq<Action>)
    requires SignsAndVerifies(c, key) && Inv(c, key, db)
    requires db.rows != [] && Latest(db.rows).kind == PolicyDecisionSigned
    ensures Run(c, key, db, actions).rows == db.rows
    decreases |actions|
  {
    hide Linear, SignsAndVerifies, Latest;
    if actions != [] {
      var a := actions[0];
      KindColumnExactly(PolicyDecisionSigned);
      if a.Commit? && a.t in db.txs && db.txs[a.t].Inserted? {
        assert false;
      }
      NextKeepsInv(c, key, db, a);
      UnreadableHeadSticks(c, key, Next(c, key, db, a), actions[1..]);
    }
  }

  // ------------------------------------------------------------ uncontended emits, and two that go wrong

  /** The five steps of one emit, run without interference. */
  function EmitActions(t: TxId, draft: Draft, id: Ulid, now: int): seq<Action> {
    [Begin(t, draft), Lock(t), ReadHead(t), Insert(t, id, now), Commit(t)]
  }

  lemma {:induction false} RunConcat(c: Crypto, key: Bytes, db: Db, a: seq<Action>, b: seq<Action>)
    ensures Run(c, key, db, a + b) == Run(c, key, Run(c, key, db, a), b)
    decreases |a|
  {
    hide Next;
    if a == [] {
      assert a + b == b;
    } else {
      assert (a + b)[1..] == a[1..] + b;
      RunConcat(c, key, Next(c, key, db, a[0]), a[1..], b);
    }
  }

  lemma RunFive(c: Crypto, key: Bytes, db: Db, a: seq<Action>)
    requires |a| == 5
    ensures Run(c, key, db, a)
            == Next(c, key, Next(c, key, Next(c, key, Next(c, key, Next(c, key, db, a[0]), a[1]), a[2]), a[3]), a[4])
  {
    hide Next;
    var d1 := Next(c, key, db, a[0]);
    var d2 := Next(c, key, d1, a[1]);
    var d3 := Next(c, key, d2, a[2]);
    var d4 := Next(c, key, d3, a[3]);
    assert a[1..][1..] == a[2..] && a[2..][1..] == a[3..] && a[3..][1..] == a[4..] && a[4..][1..] == [];
    assert Run(c, key, d4, a[4..]) == Next(c, key, d4, a[4]);
    assert Run(c, key, d3, a[3..]) == Run(c, key, d4, a[4..]);
    assert Run(c, key, d2, a[2..]) == Run(c, key, d3, a[3..]);
    assert Run(c, key, d1, a[1..]) == Run(c, key, d2, a[2..]);
  }

  /** An emit that runs alone on a readable table with a new id appends its row. */
  lemma EmitAlone(c: Crypto, key: Bytes, rows: seq<AuditEvent>, t: TxId, draft: Draft, id: Ulid, now: int)
    requires FetchHead(c, rows).Ok? && !HasId(rows, id)
    ensures Run(c, key, Db(rows, None, map[]), EmitActions(t, draft, id, now))
            == Db(rows + [Stamp(c, key, FetchHead(c, rows).value, draft, id, now)], None, map[])
  {
    hide FetchHead, HasId, Stamp;
    RunFive(c, key, Db(rows, None, map[]), EmitActions(t, draft, id, now));
  }

  /** One emit of the unreadable kind into an empty table: it commits, and replay fails. */
  lemma UnreadableEmit(c: Crypto, key: Bytes, draft: Draft, id: Ulid, now: int)
    requires SignsAndVerifies(c, key) && draft.kind == PolicyDecisionSigned
    ensures var rows := Run(c, key, EMPTY, EmitActions(0, draft, id, now)).rows;
            && rows == [Stamp(c, key, ZERO, draft, id, now)]
            && !ReplayRows(c, c.publicKey(key), Sorted(rows), ZERO).Ok?
  {
    hide Run, ReplayRows, Sorted, SignsAndVerifies, EmitActions;
    assert FetchHead(c, []) == Ok(ZERO);
    EmitAlone(c, key, [], 0, draft, id, now);
    var rows := Run(c, key, EMPTY, EmitActions(0, draft, id, now)).rows;
    assert rows == [Stamp(c, key, ZERO, draft, id, now)];
    EmptyInv(c, key);
    RunsKeepInv(c, key, EMPTY, EmitActions(0, draft, id, now));
    assert Ascending(rows);
    OrderedReplay(c, key, rows);
  }

  // ------------------------------------------------------------ emits one after another

  /** One emit: its transaction, what it records, and the id and clock value it gets. */
  datatype Emit = Emit(t: TxId, draft: Draft, id: Ulid, now: int)

  /** The emits run one after another. */
  function Sequential(emits: seq<Emit>): seq<Action> {
    if emits == [] then []
    else
      var e := emits[|emits| - 1];
      Sequential(emits[..|emits| - 1]) + EmitActions(e.t, e.draft, e.id, e.now)
  }

  ghost predicate NewIds(emits: seq<Emit>) {
    forall i, j :: 0 <= i < j < |emits| ==> emits[i].id != emits[j].id
  }

  /** Every emit but perhaps the last has a kind that can be read back. */
  ghost predicate ReadableKinds(emits: seq<Emit>) {
    forall i :: 0 <= i < |emits| - 1 ==> emits[i].draft.kind != PolicyDecisionSigned
  }

  /** The clock rises from emit to emit, or stands still while the ids rise. */
  ghost predicate Rising(emits: seq<Emit>) {
    forall i, j :: 0 <= i < j < |emits| ==>
                     || emits[i].now < emits[j].now
                     || (emits[i].now == emits[j].now && exists k: nat :: SmallerAt(emits[i].id, emits[j].id, k))
  }

  /** Row i records emit i. */
  ghost predicate Records(rows: seq<AuditEvent>, emits: seq<Emit>) {
    |rows| == |emits| && forall i :: 0 <= i < |rows| ==> RecordsOne(rows[i], emits[i])
  }

  ghost predicate RecordsOne(e: AuditEvent, emit: Emit) {
    Carries(e, e.prevEventHash, emit.draft, emit.id, emit.now)
  }

  lemma {:induction false} SequentialRecords(c: Crypto, key: Bytes, emits: seq<Emit>)
    requires NewIds(emits) && ReadableKinds(emits)
    ensures var db := Run(c, key, EMPTY, Sequential(emits));
            db.lock == None && db.txs == map[] && Records(db.rows, emits)
    decreases |emits|
  {
    hide Run, EmitActions, FetchHead, RecordsOne;
    if emits == [] {
      assert Run(c, key, EMPTY, []) == EMPTY by { RunNone(c, key, EMPTY); }
    } else {
      var n := |emits| - 1;
      var init, e := emits[..n], emits[n];
      SequentialRecords(c, key, init);
      var db := Run(c, key, EMPTY, Sequential(init));
      assert db == Db(db.rows, None, map[]);
      RunConcat(c, key, EMPTY, Sequential(init), EmitActions(e.t, e.draft, e.id, e.now));
      RecordedReady(c, db.rows, emits);
      EmitAlone(c, key, db.rows, e.t, e.draft, e.id, e.now);
      var event := Stamp(c, key, FetchHead(c, db.rows).value, e.draft, e.id, e.now);
      StampRecords(c, key, FetchHead(c, db.rows).value, e);
      forall i | 0 <= i <= n ensures RecordsOne((db.rows + [event])[i], emits[i]) {
        if i < n { assert RecordsOne(db.rows[i], init[i]); }
      }
    }
  }

  lemma RunNone(c: Crypto, key: Bytes, db: Db)
    ensures Run(c, key, db, []) == db
  {
  }

  lemma StampRecords(c: Crypto, key: Bytes, prev: Hash, e: Emit)
    ensures RecordsOne(Stamp(c, key, prev, e.draft, e.id, e.now), e)
  {
    StampFields(c, key, prev, e.draft, e.id, e.now);
  }

  /** After all emits but the last, the head can be read and the last id is new. */
  lemma RecordedReady(c: Crypto, rows: seq<AuditEvent>, emits: seq<Emit>)
    requires emits != [] && Records(rows, emits[..|emits| - 1]) && NewIds(emits) && ReadableKinds(emits)
    ensures FetchHead(c, rows).Ok? && !HasId(rows, emits[|emits| - 1].id)
  {
    hide Latest, NextHead, KindByte, KindFromByte;
    var n := |emits| - 1;
    forall i | 0 <= i < |rows| ensures rows[i].eventId == emits[i].id && rows[i].kind == emits[i].draft.kind {
      assert RecordsOne(rows[i], emits[..n][i]);
    }
    if rows != [] {
      var k :| 0 <= k < |rows| && rows[k] == Latest(rows);
      KindColumnExactly(rows[k].kind);
    }
  }

  lemma RisingExactly(rows: seq<AuditEvent>, emits: seq<Emit>)
    requires Records(rows, emits)
    ensures Ascending(rows) <==> Rising(emits)
  {
    hide Before;
    forall i, j | 0 <= i < j < |rows|
      ensures Before(rows[i], rows[j])
              <==> || emits[i].now < emits[j].now
                   || (emits[i].now == emits[j].now && exists k: nat :: SmallerAt(emits[i].id, emits[j].id, k))
    {
      assert RecordsOne(rows[i], emits[i]) && RecordsOne(rows[j], emits[j]);
      BeforeExactly(rows[i], rows[j]);
    }
  }

  /**
   Emits that run one after another, with new ids: each leaves its row, and replay
   accepts the table with its full count when the clock rises and the last kind can be
   read back, and otherwise only at a hash accident among the rows.
   */
  lemma SequentialReplay(c: Crypto, key: Bytes, emits: seq<Emit>)
    requires SignsAndVerifies(c, key) && NewIds(emits) && ReadableKinds(emits)
    ensures var rows := Run(c, key, EMPTY, Sequential(emits)).rows;
            var replay := ReplayRows(c, c.publicKey(key), Sorted(rows), ZERO);
            var fine := Rising(emits) && (emits == [] || emits[|emits| - 1].draft.kind != PolicyDecisionSigned);
            && Records(rows, emits)
            && (fine ==> replay == Ok(|emits|))
            && (!fine && replay.Ok? ==> RowsCollide(c, rows) || HitsGenesis(c, rows))
  {
    hide Linear, Ascending, ReplayRows, Sorted, SignsAndVerifies, RowsCollide, HitsGenesis, Run, Rising;
    SequentialRecords(c, key, emits);
    var rows := Run(c, key, EMPTY, Sequential(emits)).rows;
    RisingExactly(rows, emits);
    EmptyInv(c, key);
    RunsKeepInv(c, key, EMPTY, Sequential(emits));
    if rows != [] { assert RecordsOne(rows[|rows| - 1], emits[|rows| - 1]); }
    if Ascending(rows) { OrderedReplay(c, key, rows); }
    if ReplayRows(c, c.publicKey(key), Sorted(rows), ZERO).Ok? { AcceptedOnlyInOrder(c, key, rows); }
  }

  /**
   Two emits in one millisecond, the second with the smaller event id: each
   follows the protocol to the letter, the table is out of order, and replay
   rejects it short of a hash accident.
   */
  lemma SameMillisecondDisorder(c: Crypto, key: Bytes, draft: Draft, hi: Ulid, lo: Ulid, k: nat, now: int)
    requires SignsAndVerifies(c, key) && SmallerAt(lo, hi, k) && draft.kind != PolicyDecisionSigned
    ensures var rows := Run(c, key, EMPTY, EmitActions(0, draft, hi, now) + EmitActions(1, draft, lo, now)).rows;
            && |rows| == 2 && !Ascending(rows)
            && (ReplayRows(c, c.publicKey(key), Sorted(rows), ZERO).Ok? ==>
                  RowsCollide(c, rows) || HitsGenesis(c, rows))
  {
    hide ReplayRows, Sorted, SignsAndVerifies, RowsCollide, HitsGenesis, Run, Linear, LexLess, KindByte, KindFromByte;
    var a, b := EmitActions(0, draft, hi, now), EmitActions(1, draft, lo, now);
    var first := Stamp(c, key, ZERO, draft, hi, now);
    EmitAlone(c, key, [], 0, draft, hi, now);
    KindColumnExactly(draft.kind);
    assert [] + [first] == [first];
    assert Latest([first]) == first;
    LexExactly(lo, hi);
    LexOrder(lo, hi);
    EmitAlone(c, key, [first], 1, draft, lo, now);
    RunConcat(c, key, EMPTY, a, b);
    var rows := Run(c, key, EMPTY, a + b).rows;
    assert !Before(rows[0], rows[1]) by { BeforeOrder(rows[0], rows[1]); assert Before(rows[1], rows[0]); }
    EmptyInv(c, key);
    RunsKeepInv(c, key, EMPTY, a + b);
    if ReplayRows(c, c.publicKey(key), Sorted(rows), ZERO).Ok? { AcceptedOnlyInOrder(c, key, rows); }
  }
}
