/**
 The order of listings and the fate of re-submissions in the in-memory approval store
 (crates/qfc-quorum/src/store/memory.rs), read off the run of calls alone.
 */
module ApprovalOrder {
  import opened Bytes
  import opened WalletTypes
  import opened ApprovalPreimage
  import opened ApprovalStore

  // ------------------------------------------------------------ the order of a listing

  /** The positions below n that satisfy p, ascending. */
  function Pick(n: nat, p: nat -> bool): (ks: seq<nat>)
    ensures Ascending(ks)
    ensures forall i :: 0 <= i < |ks| ==> ks[i] < n && p(ks[i])
    ensures forall k: nat :: k < n && p(k) ==> k in ks
  {
    if n == 0 then [] else Pick(n - 1, p) + if p(n - 1) then [n - 1] else []
  }

  predicate Ascending(ks: seq<nat>) {
    forall i, j :: 0 <= i < j < |ks| ==> ks[i] < ks[j]
  }

  /** An ascending sequence is determined by its elements. */
  lemma {:induction false} AscendingUnique(a: seq<nat>, b: seq<nat>)
    requires Ascending(a) && Ascending(b) && forall k :: k in a <==> k in b
    ensures a == b
  {
    if b != [] {
      NotEmpty(b, a);
    }
    if a != [] {
      NotEmpty(a, b);
      var x, y := a[|a| - 1], b[|b| - 1];
      assert x in b && y in a;
      assert x == y;
      var a', b' := a[..|a| - 1], b[..|b| - 1];
      assert a == a' + [x] && b == b' + [y];
      forall k ensures k in a' <==> k in b' {
        assert k in a' ==> k in a && k != x;
        assert k in b' ==> k in b && k != y;
      }
      AscendingUnique(a', b');
    }
  }

  lemma NotEmpty(a: seq<nat>, b: seq<nat>)
    requires a != [] && forall k :: k in a ==> k in b
    ensures b != []
  {
    assert a[0] in b;
  }

  predicate BeginsAt(actions: seq<Action>, k: nat, key: Key) {
    k < |actions| && actions[k].Begin? && (actions[k].approval.requestId, actions[k].approver) == key
  }

  /** The call that enters the map under a key is the first one begun for it. */
  ghost predicate EntersAt(actions: seq<Action>, k: nat, key: Key) {
    BeginsAt(actions, k, key) && forall j :: 0 <= j < k ==> !BeginsAt(actions, j, key)
  }

  predicate FinishesAt(actions: seq<Action>, k: nat, key: Key) {
    k < |actions| && actions[k] == Finish(key)
  }

  lemma RunsSplitLast(s: Sys, actions: seq<Action>, t: Sys) returns (mid: Sys)
    requires actions != [] && Runs(s, actions, t)
    ensures Runs(s, actions[..|actions| - 1], mid)
    ensures Enabled(mid, actions[|actions| - 1]) && t == Next(mid, actions[|actions| - 1])
    decreases |actions|
  {
    hide Next, Enabled;
    var n := |actions| - 1;
    if n == 0 {
      mid := s;
      assert Runs(Next(s, actions[0]), [], t) by { assert actions[1..] == []; }
      assert actions[..0] == [];
    } else {
      mid := RunsSplitLast(Next(s, actions[0]), actions[1..], t);
      assert actions[..n][0] == actions[0] && actions[..n][1..] == actions[1..][..n - 1];
      assert actions[1..][n - 1] == actions[n];
    }
  }

  /** The map holds, under each key that was ever begun, the approval of the first call for it. */
  lemma {:induction false} MapHoldsFirst(actions: seq<Action>, s: Sys, key: Key)
    requires Runs(EMPTY, actions, s)
    ensures key in s.inner <==> exists k: nat :: EntersAt(actions, k, key)
    ensures forall k: nat :: EntersAt(actions, k, key) ==>
              key in s.inner && s.inner[key] == Entry(actions[k].approval.approvalId, actions[k].approval)
    decreases |actions|
  {
    if actions != [] {
      var n := |actions| - 1;
      var mid := RunsSplitLast(EMPTY, actions, s);
      MapHoldsFirst(actions[..n], mid, key);
      hide Runs;
      forall k: nat | EntersAt(actions, k, key)
        ensures key in s.inner && s.inner[key] == Entry(actions[k].approval.approvalId, actions[k].approval)
      {
        EntersPrefix(actions, n, k, key);
        assert k < n ==> actions[..n][k] == actions[k];
      }
      if key in mid.inner {
        var k: nat :| EntersAt(actions[..n], k, key);
        EntersPrefix(actions, n, k, key);
        assert EntersAt(actions, k, key);
      } else {
        EntersPrefix(actions, n, n, key);
        assert key in s.inner ==> EntersAt(actions, n, key);
      }
    }
  }

  /** A key enters within the first n actions, or at action n when it has not entered before. */
  lemma EntersPrefix(actions: seq<Action>, n: nat, k: nat, key: Key)
    requires n == |actions| - 1
    ensures EntersAt(actions, k, key)
            <==> EntersAt(actions[..n], k, key)
                 || (k == n && BeginsAt(actions, n, key) && forall j: nat :: !EntersAt(actions[..n], j, key))
  {
    forall j: nat | j < n ensures BeginsAt(actions[..n], j, key) <==> BeginsAt(actions, j, key) {
    }
    if k == n && (forall j: nat :: !EntersAt(actions[..n], j, key)) {
      NothingBegun(actions[..n], key, n);
    }
  }

  lemma {:induction false} NothingBegun(actions: seq<Action>, key: Key, n: nat)
    requires n <= |actions| && forall j: nat :: !EntersAt(actions, j, key)
    ensures forall j :: 0 <= j < n ==> !BeginsAt(actions, j, key)
  {
    if n > 0 {
      NothingBegun(actions, key, n - 1);
      assert !EntersAt(actions, n - 1, key);
    }
  }

  /** The approvers of the finished calls of a request, in the order they finished. */
  ghost function FinishOrder(actions: seq<Action>, r: Ulid): seq<Ulid> {
    var ks := FinishPositions(actions, r, |actions|);
    seq(|ks|, i requires 0 <= i < |ks| => actions[ks[i]].key.1)
  }

  ghost function FinishPositions(actions: seq<Action>, r: Ulid, n: nat): (ks: seq<nat>)
    requires n <= |actions|
    ensures Ascending(ks)
    ensures forall i :: 0 <= i < |ks| ==> ks[i] < n && actions[ks[i]].Finish? && actions[ks[i]].key.0 == r
    ensures forall k: nat :: k < n && actions[k].Finish? && actions[k].key.0 == r ==> k in ks
  {
    Pick(n, (k: nat) => k < |actions| && actions[k].Finish? && actions[k].key.0 == r)
  }

  function Approvers(row: seq<(Ulid, Ulid)>): (xs: seq<Ulid>)
    ensures |xs| == |row| && forall i :: 0 <= i < |row| ==> xs[i] == row[i].0
  {
    seq(|row|, i requires 0 <= i < |row| => row[i].0)
  }

  lemma RowAfter(s: Sys, a: Action, r: Ulid)
    requires Enabled(s, a)
    ensures Row(Next(s, a).byRequest, r)
            == Row(s.byRequest, r) + if a.Finish? && a.key.0 == r then [(a.key.1, s.inner[a.key].approvalId)] else []
  {
  }

  lemma FinishPositionsStep(actions: seq<Action>, r: Ulid, n: nat)
    requires n < |actions|
    ensures FinishPositions(actions, r, n + 1)
            == FinishPositions(actions, r, n) + if actions[n].Finish? && actions[n].key.0 == r then [n] else []
  {
  }

  lemma EmptyRun(s: Sys)
    requires Runs(EMPTY, [], s)
    ensures s == EMPTY
  {
  }

  lemma NoPositions(actions: seq<Action>, r: Ulid)
    ensures FinishPositions(actions, r, 0) == []
  {
  }

  lemma {:induction false} RowPrefix(actions: seq<Action>, r: Ulid, n: nat, s: Sys)
    requires n <= |actions| && Runs(EMPTY, actions[..n], s)
    ensures var ks := FinishPositions(actions, r, n);
            |Row(s.byRequest, r)| == |ks|
            && forall i :: 0 <= i < |ks| ==> Row(s.byRequest, r)[i].0 == actions[ks[i]].key.1
  {
    hide Runs, Next, Row, FinishPositions, Enabled;
    if n == 0 {
      assert actions[..0] == [];
      EmptyRun(s);
      EmptyRow(r);
      NoPositions(actions, r);
    } else {
      var mid := RunsSplitLast(EMPTY, actions[..n], s);
      assert actions[..n][..n - 1] == actions[..n - 1] && actions[..n][n - 1] == actions[n - 1];
      RowPrefix(actions, r, n - 1, mid);
      RowAfter(mid, actions[n - 1], r);
      FinishPositionsStep(actions, r, n - 1);
    }
  }

  /** In every run, a row names the approvers of the request's finished calls, in the order they finished. */
  lemma RowIsFinishOrder(actions: seq<Action>, s: Sys, r: Ulid)
    requires Runs(EMPTY, actions, s)
    ensures Approvers(Row(s.byRequest, r)) == FinishOrder(actions, r)
  {
    hide Runs, FinishPositions;
    assert actions[..|actions|] == actions;
    RowPrefix(actions, r, |actions|, s);
  }

  /** The approvers of the finished calls of a request, in the order they entered the map. */
  ghost function EntryOrder(actions: seq<Action>, r: Ulid): seq<Ulid> {
    var ks := EntryPositions(actions, r);
    seq(|ks|, i requires 0 <= i < |ks| => actions[ks[i]].approver)
  }

  ghost predicate EntryOf(actions: seq<Action>, r: Ulid, k: nat) {
    k < |actions| && actions[k].Begin? && EntersAt(actions, k, (r, actions[k].approver))
    && exists j: nat :: FinishesAt(actions, j, (r, actions[k].approver))
  }

  ghost function EntryPositions(actions: seq<Action>, r: Ulid): (ks: seq<nat>)
    ensures Ascending(ks) && forall k: nat :: k in ks <==> EntryOf(actions, r, k)
  {
    Pick(|actions|, (k: nat) => EntryOf(actions, r, k))
  }

  /** Calls of the request finish in the order they began: a condition on the run alone. */
  ghost predicate FinishInOrder(actions: seq<Action>, r: Ulid) {
    forall i: nat, j: nat, k: nat, l: nat, x: Ulid, y: Ulid ::
      && FinishesAt(actions, i, (r, x)) && FinishesAt(actions, j, (r, y)) && i < j
      && EntersAt(actions, k, (r, x)) && EntersAt(actions, l, (r, y))
      ==> k < l
  }

  ghost predicate Enters(actions: seq<Action>, key: Key) {
    exists k: nat :: EntersAt(actions, k, key)
  }

  /** Every approver whose call finished had entered. */
  ghost predicate FinishedEntered(actions: seq<Action>, r: Ulid) {
    forall i :: 0 <= i < |FinishOrder(actions, r)| ==> Enters(actions, (r, FinishOrder(actions, r)[i]))
  }

  /** The one position at which a key enters. */
  ghost function EntryPosition(actions: seq<Action>, key: Key): (k: nat)
    requires Enters(actions, key)
    ensures EntersAt(actions, k, key) && forall l: nat :: EntersAt(actions, l, key) ==> l == k
  {
    var k: nat :| EntersAt(actions, k, key);
    assert forall l: nat :: EntersAt(actions, l, key) ==> !(l < k) && !(k < l);
    k
  }

  lemma ListedEntered(actions: seq<Action>, s: Sys, r: Ulid)
    requires Runs(EMPTY, actions, s)
    ensures FinishedEntered(actions, r)
  {
    hide Runs, Lookup, Indexed, FinishOrder, EntersAt;
    RowIsFinishOrder(actions, s, r);
    ListingExact(actions, s, r);
    var row, xs := Row(s.byRequest, r), FinishOrder(actions, r);
    assert Approvers(row) == xs;
    forall i | 0 <= i < |xs| ensures Enters(actions, (r, xs[i])) {
      MapHoldsFirst(actions, s, (r, row[i].0));
    }
  }

  /** Where the finished calls of a request entered, in the order they finished. */
  ghost function EntriesByFinish(actions: seq<Action>, r: Ulid): (ks: seq<nat>)
    requires FinishedEntered(actions, r)
    ensures |ks| == |FinishOrder(actions, r)|
    ensures forall i :: 0 <= i < |ks| ==> ks[i] == EntryPosition(actions, (r, FinishOrder(actions, r)[i]))
  {
    var xs := FinishOrder(actions, r);
    seq(|xs|, i requires 0 <= i < |xs| => EntryPosition(actions, (r, xs[i])))
  }

  lemma FinishOrderAt(actions: seq<Action>, r: Ulid)
    ensures var fs, xs := FinishPositions(actions, r, |actions|), FinishOrder(actions, r);
            |xs| == |fs| && forall i :: 0 <= i < |xs| ==> FinishesAt(actions, fs[i], (r, xs[i]))
    ensures forall k: nat, x: Ulid :: FinishesAt(actions, k, (r, x)) ==>
              exists i :: 0 <= i < |FinishOrder(actions, r)| && FinishPositions(actions, r, |actions|)[i] == k
                          && FinishOrder(actions, r)[i] == x
  {
    hide FinishPositions;
    var fs := FinishPositions(actions, r, |actions|);
    forall k: nat, x: Ulid | FinishesAt(actions, k, (r, x))
      ensures exists i :: 0 <= i < |FinishOrder(actions, r)| && fs[i] == k && FinishOrder(actions, r)[i] == x
    {
      var i :| 0 <= i < |fs| && fs[i] == k;
      assert FinishOrder(actions, r)[i] == x;
    }
  }

  /** By finish or by entry, the same calls are meant. */
  lemma SameCalls(actions: seq<Action>, s: Sys, r: Ulid)
    requires Runs(EMPTY, actions, s)
    requires FinishedEntered(actions, r)
    ensures forall k: nat :: k in EntriesByFinish(actions, r) <==> k in EntryPositions(actions, r)
  {
    hide Runs, FinishPositions, FinishOrder, EntersAt;
    FinishOrderAt(actions, r);
    var xs, ks := FinishOrder(actions, r), EntriesByFinish(actions, r);
    forall k: nat | k in ks ensures EntryOf(actions, r, k) {
      var i :| 0 <= i < |ks| && ks[i] == k;
      EntersBegins(actions, k, (r, xs[i]));
    }
    forall k: nat | EntryOf(actions, r, k) ensures k in ks {
      var x := actions[k].approver;
      var j: nat :| FinishesAt(actions, j, (r, x));
      var i :| 0 <= i < |xs| && xs[i] == x;
      assert ks[i] == EntryPosition(actions, (r, x)) == k;
    }
  }

  lemma EntersBegins(actions: seq<Action>, k: nat, key: Key)
    requires EntersAt(actions, k, key)
    ensures BeginsAt(actions, k, key)
  {
  }

  /**
   A listing is in the order of entry into the map if and only if the request's
   finished calls finished in the order they began.
   */
  lemma EntryOrderExactly(actions: seq<Action>, s: Sys, r: Ulid)
    requires Runs(EMPTY, actions, s)
    ensures Approvers(Row(s.byRequest, r)) == EntryOrder(actions, r) <==> FinishInOrder(actions, r)
  {
    hide Runs, FinishPositions, FinishOrder, EntersAt, EntryOf;
    RowIsFinishOrder(actions, s, r);
    ListedEntered(actions, s, r);
    SameCalls(actions, s, r);
    if FinishInOrder(actions, r) {
      InOrderMeansEntryOrder(actions, r);
    }
    if FinishOrder(actions, r) == EntryOrder(actions, r) {
      EntryOrderMeansInOrder(actions, r);
    }
  }

  lemma InOrderMeansEntryOrder(actions: seq<Action>, r: Ulid)
    requires FinishedEntered(actions, r)
    requires forall k: nat :: k in EntriesByFinish(actions, r) <==> k in EntryPositions(actions, r)
    requires FinishInOrder(actions, r)
    ensures FinishOrder(actions, r) == EntryOrder(actions, r)
  {
    hide FinishPositions, FinishOrder, EntersAt, EntryOf;
    FinishOrderAt(actions, r);
    var fs, xs := FinishPositions(actions, r, |actions|), FinishOrder(actions, r);
    var ks, es := EntriesByFinish(actions, r), EntryPositions(actions, r);
    forall i, j | 0 <= i < j < |ks| ensures ks[i] < ks[j] {
      assert FinishesAt(actions, fs[i], (r, xs[i])) && FinishesAt(actions, fs[j], (r, xs[j]));
    }
    AscendingUnique(ks, es);
    forall i | 0 <= i < |ks| ensures actions[ks[i]].Begin? && actions[ks[i]].approver == xs[i] {
      EntersBegins(actions, ks[i], (r, xs[i]));
    }
  }

  lemma EntryOrderMeansInOrder(actions: seq<Action>, r: Ulid)
    requires FinishOrder(actions, r) == EntryOrder(actions, r)
    ensures FinishInOrder(actions, r)
  {
    hide FinishOrder, EntryOrder, EntersAt, FinishesAt;
    forall i: nat, j: nat, k: nat, l: nat, x: Ulid, y: Ulid
      | FinishesAt(actions, i, (r, x)) && FinishesAt(actions, j, (r, y)) && i < j
        && EntersAt(actions, k, (r, x)) && EntersAt(actions, l, (r, y))
      ensures k < l
    {
      PairInOrder(actions, r, i, j, k, l, x, y);
    }
  }

  lemma PairInOrder(actions: seq<Action>, r: Ulid, i: nat, j: nat, k: nat, l: nat, x: Ulid, y: Ulid)
    requires FinishOrder(actions, r) == EntryOrder(actions, r)
    requires FinishesAt(actions, i, (r, x)) && FinishesAt(actions, j, (r, y)) && i < j
    requires EntersAt(actions, k, (r, x)) && EntersAt(actions, l, (r, y))
    ensures k < l
  {
    hide FinishPositions, FinishOrder, EntryOrder, EntersAt, FinishesAt, EntryOf;
    FinishOrderAt(actions, r);
    var fs, xs := FinishPositions(actions, r, |actions|), FinishOrder(actions, r);
    var a :| 0 <= a < |xs| && fs[a] == i && xs[a] == x;
    var b :| 0 <= b < |xs| && fs[b] == j && xs[b] == y;
    EntryOrderAt(actions, r, a, k);
    EntryOrderAt(actions, r, b, l);
    assert a < b;
  }

  lemma EntryOrderAt(actions: seq<Action>, r: Ulid, i: nat, k: nat)
    requires i < |EntryOrder(actions, r)| && EntersAt(actions, k, (r, EntryOrder(actions, r)[i]))
    ensures i < |EntryPositions(actions, r)| && EntryPositions(actions, r)[i] == k
  {
    hide Pick;
    var e := EntryPositions(actions, r)[i];
    assert e in EntryPositions(actions, r);
    assert EntryOf(actions, r, e);
  }

  /** Rows are in the order calls finish, which need not be the order they entered the map. */
  lemma FinishOrderCounts(a: SignedApproval, x: Ulid, b: SignedApproval, y: Ulid)
    requires a.requestId == b.requestId && x != y
    ensures var r := a.requestId;
            exists s :: Runs(EMPTY, [Begin(a, x), Begin(b, y), Finish((r, y)), Finish((r, x))], s)
                        && Row(s.byRequest, r) == [(y, b.approvalId), (x, a.approvalId)]
  {
    hide Row;
    var r := a.requestId;
    var s1 := Next(EMPTY, Begin(a, x));
    var s2 := Next(s1, Begin(b, y));
    var s3 := Next(s2, Finish((r, y)));
    var s4 := Next(s3, Finish((r, x)));
    FinishRow(s2, (r, y));
    FinishRow(s3, (r, x));
    EmptyRow(r);
    var actions := [Begin(a, x), Begin(b, y), Finish((r, y)), Finish((r, x))];
    assert actions[1..] == [Begin(b, y), Finish((r, y)), Finish((r, x))];
    assert actions[1..][1..] == [Finish((r, y)), Finish((r, x))];
    assert actions[1..][1..][1..] == [Finish((r, x))];
    assert actions[1..][1..][1..][1..] == [];
    assert Runs(s4, [], s4);
    assert Runs(s3, [Finish((r, x))], s4);
    assert Runs(s2, [Finish((r, y)), Finish((r, x))], s4);
    assert Runs(s1, [Begin(b, y), Finish((r, y)), Finish((r, x))], s4);
    assert Runs(EMPTY, actions, s4);
  }

  // ------------------------------------------------------------ re-submission

  /** What a call is told under the first lock; None when it goes on to the second. */
  function Told(s: Sys, approval: SignedApproval, approver: Ulid): Option<Outcome> {
    var key := (approval.requestId, approver);
    if key in s.inner then Some(Collision(s.inner[key], approval)) else None
  }

  /**
   In every run, a call for a key that was begun before changes nothing, whatever it
   carries; it is refused exactly when its id differs from that of the first call.
   */
  lemma ResubmissionExact(actions: seq<Action>, s: Sys, first: nat, approval: SignedApproval, approver: Ulid)
    requires Runs(EMPTY, actions, s) && EntersAt(actions, first, (approval.requestId, approver))
    ensures Next(s, Begin(approval, approver)) == s
    ensures Told(s, approval, approver)
            == Some(if approval.approvalId == actions[first].approval.approvalId then AlreadyRecorded
                    else DuplicateApproval)
    ensures s.inner[(approval.requestId, approver)].approval == actions[first].approval
  {
    hide Runs;
    MapHoldsFirst(actions, s, (approval.requestId, approver));
  }

  /**
   An approval re-sent under its id with the opposite decision: reported as
   recorded, while the first stays listed.
   */
  lemma FlippedIsAlreadyRecorded(a: SignedApproval, x: Ulid)
    ensures var key := (a.requestId, x);
            var flipped := a.(decision := if a.decision == Approve then Reject else Approve);
            exists s :: && Runs(EMPTY, [Begin(a, x), Finish(key), Begin(flipped, x)], s)
                        && Told(s, flipped, x) == Some(AlreadyRecorded) && Listed(s, a.requestId) == [a]
  {
    var key, r := (a.requestId, x), a.requestId;
    var flipped := a.(decision := if a.decision == Approve then Reject else Approve);
    var s1 := Next(EMPTY, Begin(a, x));
    var s2 := Next(s1, Finish(key));
    assert Next(s2, Begin(flipped, x)) == s2;
    var actions := [Begin(a, x), Finish(key), Begin(flipped, x)];
    assert actions[1..] == [Finish(key), Begin(flipped, x)];
    assert actions[1..][1..] == [Begin(flipped, x)] && actions[1..][1..][1..] == [];
    assert Runs(s2, [], s2) && Runs(s2, [Begin(flipped, x)], s2);
    assert Runs(s1, [Finish(key), Begin(flipped, x)], s2);
    assert Runs(EMPTY, actions, s2);
    LookupOfSoundRow(s2.inner, r, Row(s2.byRequest, r));
    assert Listed(s2, r) == [a];
  }
}
