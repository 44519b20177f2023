/**
 The in-memory approval store (crates/qfc-quorum/src/store/memory.rs). A call to
 `record_approval` takes two locks one after the other: it enters the approval in
 the main map under the first and in the per-request index under the second. Other
 calls can run in between, and a call can be dropped while it waits for the second.

 `list_for_request` holds the index lock while it waits for the map, so it sees the
 index and the map of the moment it gets both: one step of the model.
 */
module ApprovalStore {
  import opened Bytes
  import opened WalletTypes
  import opened ApprovalPreimage

  /** A request and the approver's registry id. */
  type Key = (Ulid, Ulid)

  datatype Entry = Entry(approvalId: Ulid, approval: SignedApproval)

  type Index = map<Ulid, seq<(Ulid, Ulid)>>

  datatype Outcome = Inserted | AlreadyRecorded | DuplicateApproval

  /** What a call finds at its key under the first lock, when it finds something. */
  function Collision(entry: Entry, approval: SignedApproval): Outcome {
    if entry.approvalId == approval.approvalId then AlreadyRecorded else DuplicateApproval
  }

  function Row(byRequest: Index, r: Ulid): seq<(Ulid, Ulid)> {
    if r in byRequest then byRequest[r] else []
  }

  /** The approvals behind an index row, entries without one skipped. */
  function Lookup(inner: map<Key, Entry>, r: Ulid, row: seq<(Ulid, Ulid)>): seq<SignedApproval> {
    if row == [] then []
    else
      var last := row[|row| - 1];
      Lookup(inner, r, row[..|row| - 1]) + if (r, last.0) in inner then [inner[(r, last.0)].approval] else []
  }

  /** The map after the section under the first lock: a first entry stays for ever. */
  function MapAfter(inner: map<Key, Entry>, approval: SignedApproval, approver: Ulid): map<Key, Entry> {
    var key := (approval.requestId, approver);
    if key in inner then inner else inner[key := Entry(approval.approvalId, approval)]
  }

  /** The index after the section under the second lock. */
  function IndexAfter(byRequest: Index, key: Key, approvalId: Ulid): Index {
    byRequest[key.0 := Row(byRequest, key.0) + [(key.1, approvalId)]]
  }

  // ------------------------------------------------------------ the store

  class MemoryApprovalStore {
    var inner: map<Key, Entry>
    var byRequest: Index

    constructor ()
      ensures inner == map[] && byRequest == map[]
    {
      inner, byRequest := map[], map[];
    }

    /** The section under the first lock; None when the call goes on to the second. */
    method EnterMap(approval: SignedApproval, approver: Ulid) returns (outcome: Option<Outcome>)
      modifies this`inner
      ensures inner == MapAfter(old(inner), approval, approver)
      ensures var key := (approval.requestId, approver);
              outcome == if key in old(inner) then Some(Collision(old(inner)[key], approval)) else None
    {
      var key := (approval.requestId, approver);
      if key in inner {
        if inner[key].approvalId == approval.approvalId {
          return Some(AlreadyRecorded);
        } else {
          return Some(DuplicateApproval);
        }
      }
      inner := inner[key := Entry(approval.approvalId, approval)];
      return None;
    }

    /** The section under the second lock. */
    method EnterIndex(approval: SignedApproval, approver: Ulid)
      modifies this`byRequest
      ensures byRequest == IndexAfter(old(byRequest), (approval.requestId, approver), approval.approvalId)
    {
      var r := approval.requestId;
      if r !in byRequest {
        byRequest := byRequest[r := []];
      }
      byRequest := byRequest[r := byRequest[r] + [(approver, approval.approvalId)]];
    }

    method RecordApproval(approval: SignedApproval, approver: Ulid) returns (outcome: Outcome)
      modifies this
      ensures var key := (approval.requestId, approver);
              if key in old(inner) then
                outcome == Collision(old(inner)[key], approval) && inner == old(inner) && byRequest == old(byRequest)
              else
                && outcome == Inserted && inner == MapAfter(old(inner), approval, approver)
                && byRequest == IndexAfter(old(byRequest), key, approval.approvalId)
    {
      var found := EnterMap(approval, approver);
      if found.Some? {
        return found.value;
      }
      EnterIndex(approval, approver);
      return Inserted;
    }

    method ListForRequest(r: Ulid) returns (out: seq<SignedApproval>)
      ensures out == Lookup(inner, r, Row(byRequest, r))
    {
      if r !in byRequest {
        return [];
      }
      var list := byRequest[r];
      out := [];
      for i := 0 to |list|
        invariant out == Lookup(inner, r, list[..i])
      {
        assert list[..i + 1][..i] == list[..i] && list[..i + 1][i] == list[i];
        if (r, list[i].0) in inner {
          out := out + [inner[(r, list[i].0)].approval];
        }
      }
      assert list[..|list|] == list;
    }
  }

  // ------------------------------------------------------------ interleaved calls

  /** The store, the calls between their two locks, and the calls dropped there. */
  datatype Sys = Sys(inner: map<Key, Entry>, byRequest: Index, inFlight: set<Key>, dropped: set<Key>)

  datatype Action =
    | Begin(approval: SignedApproval, approver: Ulid)
    | Finish(key: Key)
    | Drop(key: Key)

  const EMPTY := Sys(map[], map[], {}, {})

  predicate Enabled(s: Sys, a: Action) {
    match a
    case Begin(_, _) => true
    case Finish(key) => key in s.inFlight && key in s.inner
    case Drop(key) => key in s.inFlight
  }

  function Next(s: Sys, a: Action): Sys
    requires Enabled(s, a)
  {
    match a
    case Begin(approval, approver) =>
      var key := (approval.requestId, approver);
      s.(inner := MapAfter(s.inner, approval, approver),
         inFlight := if key in s.inner then s.inFlight else s.inFlight + {key})
    case Finish(key) =>
      s.(byRequest := IndexAfter(s.byRequest, key, s.inner[key].approvalId), inFlight := s.inFlight - {key})
    case Drop(key) => s.(inFlight := s.inFlight - {key}, dropped := s.dropped + {key})
  }

  /** What `list_for_request` answers in a state. */
  function Listed(s: Sys, r: Ulid): seq<SignedApproval> {
    Lookup(s.inner, r, Row(s.byRequest, r))
  }

  ghost predicate Indexed(s: Sys, key: Key) {
    exists i :: 0 <= i < |Row(s.byRequest, key.0)| && Row(s.byRequest, key.0)[i].0 == key.1
  }

  /** A row names each approver once, with the approval the map holds. */
  ghost predicate RowSound(s: Sys, r: Ulid) {
    var row := Row(s.byRequest, r);
    && (forall i, j :: 0 <= i < j < |row| ==> row[i].0 != row[j].0)
    && forall i :: 0 <= i < |row| ==> (r, row[i].0) in s.inner && s.inner[(r, row[i].0)].approvalId == row[i].1
  }

  /** Every map entry is indexed, in flight or dropped, and exactly one of these. */
  ghost predicate Accounted(s: Sys, key: Key) {
    && (key in s.inner <==> Indexed(s, key) || key in s.inFlight || key in s.dropped)
    && !(Indexed(s, key) && key in s.inFlight) && !(Indexed(s, key) && key in s.dropped)
    && !(key in s.inFlight && key in s.dropped)
    && (key in s.inner ==> s.inner[key].approval.requestId == key.0
                           && s.inner[key].approval.approvalId == s.inner[key].approvalId)
  }

  ghost predicate Sound(s: Sys) {
    (forall r :: RowSound(s, r)) && (forall key :: Accounted(s, key))
  }

  lemma EmptySound()
    ensures Sound(EMPTY)
  {
  }

  lemma BeginStaysSound(s: Sys, approval: SignedApproval, approver: Ulid)
    requires Sound(s)
    ensures Sound(Next(s, Begin(approval, approver)))
  {
    var n, k := Next(s, Begin(approval, approver)), (approval.requestId, approver);
    forall r ensures RowSound(n, r) {
      assert RowSound(s, r);
      assert Accounted(s, k);
    }
    forall key ensures Accounted(n, key) {
      assert Accounted(s, key);
      assert Indexed(n, key) <==> Indexed(s, key);
    }
  }

  /** Finishing a call appends its approver to one row and leaves the others. */
  lemma FinishIndexes(s: Sys, k: Key, key: Key)
    requires Enabled(s, Finish(k))
    ensures Indexed(Next(s, Finish(k)), key) <==> Indexed(s, key) || key == k
  {
    var n := Next(s, Finish(k));
    var row, row' := Row(s.byRequest, key.0), Row(n.byRequest, key.0);
    if key.0 == k.0 {
      assert row' == row + [(k.1, s.inner[k].approvalId)];
      assert row'[|row|].0 == k.1;
      forall i | 0 <= i < |row| ensures row'[i] == row[i] {
      }
    } else {
      assert row' == row;
    }
  }

  lemma FinishStaysSound(s: Sys, k: Key)
    requires Sound(s) && Enabled(s, Finish(k))
    ensures Sound(Next(s, Finish(k)))
  {
    var n := Next(s, Finish(k));
    forall r ensures RowSound(n, r) {
      assert RowSound(s, r) && Accounted(s, k);
      assert forall i :: 0 <= i < |Row(s.byRequest, k.0)| ==> Row(s.byRequest, k.0)[i].0 != k.1;
    }
    forall key ensures Accounted(n, key) {
      assert Accounted(s, key) && Accounted(s, k);
      FinishIndexes(s, k, key);
    }
  }

  lemma DropStaysSound(s: Sys, k: Key)
    requires Sound(s) && Enabled(s, Drop(k))
    ensures Sound(Next(s, Drop(k)))
  {
    var n := Next(s, Drop(k));
    forall r ensures RowSound(n, r) {
      assert RowSound(s, r);
    }
    forall key ensures Accounted(n, key) {
      assert Accounted(s, key);
      assert Indexed(n, key) <==> Indexed(s, key);
    }
  }

  lemma NextStaysSound(s: Sys, a: Action)
    requires Sound(s) && Enabled(s, a)
    ensures Sound(Next(s, a))
  {
    hide Sound, Next;
    match a {
      case Begin(approval, approver) => BeginStaysSound(s, approval, approver);
      case Finish(key) => FinishStaysSound(s, key);
      case Drop(key) => DropStaysSound(s, key);
    }
  }

  ghost predicate Runs(s: Sys, actions: seq<Action>, t: Sys)
    decreases |actions|
  {
    if actions == [] then s == t
    else Enabled(s, actions[0]) && Runs(Next(s, actions[0]), actions[1..], t)
  }

  lemma {:induction false} RunsStaySound(s: Sys, actions: seq<Action>, t: Sys)
    requires Sound(s) && Runs(s, actions, t)
    ensures Sound(t)
    decreases |actions|
  {
    hide Sound, Next;
    if actions != [] {
      NextStaysSound(s, actions[0]);
      RunsStaySound(Next(s, actions[0]), actions[1..], t);
    }
  }

  // ------------------------------------------------------------ what a listing says

  lemma {:induction false} LookupOfSoundRow(inner: map<Key, Entry>, r: Ulid, row: seq<(Ulid, Ulid)>)
    requires forall i :: 0 <= i < |row| ==> (r, row[i].0) in inner
    ensures |Lookup(inner, r, row)| == |row|
    ensures forall i :: 0 <= i < |row| ==> Lookup(inner, r, row)[i] == inner[(r, row[i].0)].approval
  {
    if row != [] {
      LookupOfSoundRow(inner, r, row[..|row| - 1]);
    }
  }

  /** The i-th listed approval came from a distinct approver, and is what that approver's first call recorded. */
  ghost predicate ListsExactly(s: Sys, r: Ulid) {
    var row, listed := Row(s.byRequest, r), Listed(s, r);
    && |listed| == |row|
    && (forall i, j :: 0 <= i < j < |row| ==> row[i].0 != row[j].0)
    && (forall i :: 0 <= i < |row| ==> (r, row[i].0) in s.inner && listed[i] == s.inner[(r, row[i].0)].approval)
    && forall key :: key in s.inner && key.0 == r && key !in s.inFlight && key !in s.dropped ==> Indexed(s, key)
  }

  /**
   In every reachable state a listing holds at most one approval per approver, and
   holds one for every entry of the request except those in flight or dropped.
   */
  lemma ListingExact(actions: seq<Action>, s: Sys, r: Ulid)
    requires Runs(EMPTY, actions, s)
    ensures ListsExactly(s, r)
    ensures forall key :: key in s.inFlight || key in s.dropped ==> key in s.inner && !Indexed(s, key)
  {
    hide Runs, Lookup, Indexed;
    EmptySound();
    RunsStaySound(EMPTY, actions, s);
    assert RowSound(s, r);
    LookupOfSoundRow(s.inner, r, Row(s.byRequest, r));
    forall key: Key | key in s.inner && key.0 == r && key !in s.inFlight && key !in s.dropped ensures Indexed(s, key) {
      assert Accounted(s, key);
    }
    forall key: Key | key in s.inFlight || key in s.dropped ensures key in s.inner && !Indexed(s, key) {
      assert Accounted(s, key);
    }
  }

  /** The documented promise of a listing: every approval on record for the request. */
  ghost predicate ListsAllOnRecord(s: Sys, r: Ulid) {
    forall key :: key in s.inner && key.0 == r ==> Indexed(s, key)
  }

  /** That promise holds exactly when no call for the request is between its locks or was dropped there. */
  lemma ListsAllExactly(actions: seq<Action>, s: Sys, r: Ulid)
    requires Runs(EMPTY, actions, s)
    ensures ListsAllOnRecord(s, r) <==> forall key :: key in s.inFlight + s.dropped ==> key.0 != r
  {
    hide Runs, Lookup, Indexed;
    ListingExact(actions, s, r);
  }

  /** A call between its locks, or dropped there, is on record and not in the listing. */
  lemma OneCallUnlisted(a: SignedApproval, x: Ulid)
    ensures var r, key := a.requestId, (a.requestId, x);
            exists s, t ::
              && Runs(EMPTY, [Begin(a, x)], s) && Listed(s, r) == [] && !ListsAllOnRecord(s, r)
              && Runs(EMPTY, [Begin(a, x), Drop(key)], t) && Listed(t, r) == [] && !ListsAllOnRecord(t, r)
  {
    var r, key := a.requestId, (a.requestId, x);
    var s := Next(EMPTY, Begin(a, x));
    var t := Next(s, Drop(key));
    assert [Begin(a, x)][1..] == [] && [Begin(a, x), Drop(key)][1..] == [Drop(key)] && [Drop(key)][1..] == [];
    assert Runs(s, [], s) && Runs(t, [], t) && Runs(s, [Drop(key)], t);
    assert Runs(EMPTY, [Begin(a, x)], s) && Runs(EMPTY, [Begin(a, x), Drop(key)], t);
    assert key in s.inner && !Indexed(s, key) && key in t.inner && !Indexed(t, key);
  }

  // ------------------------------------------------------------ entries are for ever

  /** Everything recorded stays as it was, rows only grow at their end, drops are final. */
  ghost predicate Extends(s: Sys, t: Sys) {
    && (forall key :: key in s.inner ==> key in t.inner && t.inner[key] == s.inner[key])
    && (forall r :: Row(s.byRequest, r) <= Row(t.byRequest, r))
    && s.dropped <= t.dropped
  }

  lemma NextExtends(s: Sys, a: Action)
    requires Enabled(s, a)
    ensures Extends(s, Next(s, a))
  {
  }

  lemma ExtendsTransitive(s: Sys, t: Sys, u: Sys)
    requires Extends(s, t) && Extends(t, u)
    ensures Extends(s, u)
  {
    forall r ensures Row(s.byRequest, r) <= Row(u.byRequest, r) {
      assert Row(s.byRequest, r) <= Row(t.byRequest, r) <= Row(u.byRequest, r);
    }
  }

  lemma {:induction false} RunsExtend(s: Sys, actions: seq<Action>, t: Sys)
    requires Runs(s, actions, t)
    ensures Extends(s, t)
    decreases |actions|
  {
    hide Next, Extends;
    if actions == [] {
      SelfExtends(s);
    } else {
      NextExtends(s, actions[0]);
      RunsExtend(Next(s, actions[0]), actions[1..], t);
      ExtendsTransitive(s, Next(s, actions[0]), t);
    }
  }

  lemma SelfExtends(s: Sys)
    ensures Extends(s, s)
  {
  }

  lemma {:induction false} RunsCompose(s: Sys, a: seq<Action>, t: Sys, b: seq<Action>, u: Sys)
    requires Runs(s, a, t) && Runs(t, b, u)
    ensures Runs(s, a + b, u)
    decreases |a|
  {
    hide Next;
    if a == [] {
      assert a + b == b;
    } else {
      assert (a + b)[1..] == a[1..] + b;
      RunsCompose(Next(s, a[0]), a[1..], t, b, u);
    }
  }

  /** A later listing begins with the earlier one, entry for entry. */
  lemma ListingsGrow(before: seq<Action>, s: Sys, after: seq<Action>, t: Sys, r: Ulid)
    requires Runs(EMPTY, before, s) && Runs(s, after, t)
    ensures Listed(s, r) <= Listed(t, r)
  {
    hide Runs, Lookup, Indexed;
    RunsCompose(EMPTY, before, s, after, t);
    ListingExact(before, s, r);
    ListingExact(before + after, t, r);
    RunsExtend(s, after, t);
    var row, row' := Row(s.byRequest, r), Row(t.byRequest, r);
    assert row <= row';
    forall i | 0 <= i < |row| ensures Listed(s, r)[i] == Listed(t, r)[i] {
      assert row[i] == row'[i];
    }
  }

  /** Once a call that inserted has returned, its approval is in every later listing. */
  lemma ReturnedIsListed(before: seq<Action>, s: Sys, key: Key, after: seq<Action>, t: Sys)
    requires Runs(EMPTY, before, s) && Enabled(s, Finish(key)) && Runs(Next(s, Finish(key)), after, t)
    ensures s.inner[key].approval in Listed(t, key.0)
  {
    hide Lookup, Indexed;
    var n := Next(s, Finish(key));
    assert Runs(n, [], n) && [Finish(key)][1..] == [];
    assert Runs(s, [Finish(key)], n);
    hide Runs;
    RunsCompose(EMPTY, before, s, [Finish(key)], n);
    RunsCompose(EMPTY, before + [Finish(key)], n, after, t);
    ListingExact(before + [Finish(key)] + after, t, key.0);
    RunsExtend(n, after, t);
    FinishRow(s, key);
    var row, row' := Row(n.byRequest, key.0), Row(t.byRequest, key.0);
    assert row <= row';
    assert row'[|row| - 1] == row[|row| - 1] == (key.1, s.inner[key].approvalId);
    assert Listed(t, key.0)[|row| - 1] == t.inner[key].approval == n.inner[key].approval;
  }

  /** A dropped call is on record for ever, never listed, and its retry is told so. */
  lemma DroppedStaysUnlisted(before: seq<Action>, s: Sys, after: seq<Action>, t: Sys, key: Key)
    requires Runs(EMPTY, before, s) && Runs(s, after, t) && key in s.dropped
    ensures key in s.inner && key in t.inner && !Indexed(t, key)
    ensures Collision(t.inner[key], s.inner[key].approval) == AlreadyRecorded
  {
    hide Runs, Lookup, Indexed;
    RunsCompose(EMPTY, before, s, after, t);
    RunsExtend(s, after, t);
    ListingExact(before, s, key.0);
    ListingExact(before + after, t, key.0);
    EmptySound();
    RunsStaySound(EMPTY, before, s);
    assert Accounted(s, key);
  }

  lemma FinishRow(s: Sys, key: Key)
    requires Enabled(s, Finish(key))
    ensures Row(Next(s, Finish(key)).byRequest, key.0) == Row(s.byRequest, key.0) + [(key.1, s.inner[key].approvalId)]
  {
  }

  lemma EmptyRow(r: Ulid)
    ensures Row(EMPTY.byRequest, r) == []
  {
  }
}
