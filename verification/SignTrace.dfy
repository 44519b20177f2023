/**
 The audit trace of signing (crates/qfc-server-wallet/src/service.rs, `sign`): what
 one call writes to the log, and what any interleaving of calls leaves there. Every
 answer from outside (registry, policy, approvers, store, enclave, and each audit
 write) is free; an audit write that fails may or may not have reached the log.
 */
module SignTrace {
  import opened Bytes
  import opened WalletTypes

  datatype Verdict = Allow | Deny | Quorum

  /** An audit event of a signing call; the evaluation carries the decision it reports. */
  datatype Sym =
    | Requested | Evaluated(verdict: Verdict)
    | Notified | Received | Rejected | Reached | TimedOut
    | DecisionSigned | Attempted | Succeeded | Failed

  // ------------------------------------------------------------ the grammar

  /** The ways a signing request can go when nothing cuts it short. */
  datatype Story =
    | DeniedStory
    | TimedOutStory
    | RejectedStory(votes: seq<bool>)
    | SignedStory(quorum: Option<nat>, decisionSigned: bool, ok: bool)
  {
    predicate Possible() {
      RejectedStory? ==> false in votes
    }
  }

  /** One event per collected vote. */
  function Ballots(votes: seq<bool>): (s: seq<Sym>)
    ensures |s| == |votes|
  {
    seq(|votes|, i requires 0 <= i < |votes| => if votes[i] then Received else Rejected)
  }

  const ASKED := [Requested, Evaluated(Quorum), Notified]

  /** Requested and cleared, by the policy alone or by n approvals. */
  function Clearance(quorum: Option<nat>): seq<Sym> {
    match quorum
    case None => [Requested, Evaluated(Allow)]
    case Some(n) => ASKED + seq(n, _ => Received) + [Reached]
  }

  function Sealed(quorum: Option<nat>, decisionSigned: bool): seq<Sym> {
    Clearance(quorum) + if decisionSigned then [DecisionSigned] else []
  }

  function Text(story: Story): seq<Sym> {
    match story
    case DeniedStory => [Requested, Evaluated(Deny)]
    case TimedOutStory => ASKED + [TimedOut]
    case RejectedStory(votes) => ASKED + Ballots(votes)
    case SignedStory(quorum, signed, ok) => Sealed(quorum, signed) + [Attempted, if ok then Succeeded else Failed]
  }

  ghost predicate InGrammar(w: seq<Sym>) {
    exists story: Story :: story.Possible() && w <= Text(story)
  }

  lemma PrefixOf(w: seq<Sym>, story: Story)
    requires story.Possible() && w <= Text(story)
    ensures InGrammar(w)
  {
  }

  // ------------------------------------------------------------ one call, step by step

  /** Where a call stands between two of its audit writes. */
  datatype Pc =
    | Entered
    | Evaluating
    | Deciding(verdict: Verdict)
    | Collecting
    | Recording(votes: seq<bool>, done: nat)
    | Cleared
    | Fetching
    | Attempting
    | Returned(signature: bool)

  /** An audit write: it succeeds and the call goes on, or it fails, written or not, and the call returns. */
  ghost predicate Emits(sym: Sym, next: Pc, emitted: Option<Sym>, to: Pc) {
    || (emitted == Some(sym) && to == next)
    || (to == Returned(false) && (emitted == None || emitted == Some(sym)))
  }

  ghost predicate GivesUp(emitted: Option<Sym>, to: Pc) {
    emitted == None && to == Returned(false)
  }

  ghost predicate Moves(emitted: Option<Sym>, to: Pc, next: Pc) {
    emitted == None && to == next
  }

  /** One step of `sign`: from where, what it writes, to where. */
  ghost predicate Step(from: Pc, emitted: Option<Sym>, to: Pc) {
    match from
    case Entered => GivesUp(emitted, to) || Emits(Requested, Evaluating, emitted, to)
    case Evaluating => GivesUp(emitted, to) || exists v :: Emits(Evaluated(v), Deciding(v), emitted, to)
    case Deciding(Allow) => Moves(emitted, to, Cleared)
    case Deciding(Deny) => GivesUp(emitted, to)
    case Deciding(Quorum) => GivesUp(emitted, to) || Emits(Notified, Collecting, emitted, to)
    case Collecting =>
      || GivesUp(emitted, to) || Emits(TimedOut, Returned(false), emitted, to)
      || (emitted == None && to.Recording? && to.done == 0)
    case Recording(votes, done) =>
      if done < |votes| then
        Emits(if votes[done] then Received else Rejected, Recording(votes, done + 1), emitted, to)
      else if false in votes then GivesUp(emitted, to)
      else Emits(Reached, Cleared, emitted, to)
    case Cleared => GivesUp(emitted, to) || Moves(emitted, to, Fetching) || Emits(DecisionSigned, Fetching, emitted, to)
    case Fetching => GivesUp(emitted, to) || Emits(Attempted, Attempting, emitted, to)
    case Attempting =>
      || Emits(Succeeded, Returned(true), emitted, to)
      || Emits(Failed, Returned(false), emitted, to)
    case Returned(_) => false
  }

  function Written(emitted: Option<Sym>): seq<Sym> {
    if emitted.Some? then [emitted.value] else []
  }

  /** What a call's place says about everything it has written. */
  ghost predicate Consistent(pc: Pc, w: seq<Sym>) {
    match pc
    case Entered => w == []
    case Evaluating => w == [Requested]
    case Deciding(v) => w == [Requested, Evaluated(v)]
    case Collecting => w == ASKED
    case Recording(votes, done) => done <= |votes| && w == ASKED + Ballots(votes[..done])
    case Cleared => exists quorum :: w == Clearance(quorum)
    case Fetching => exists quorum, signed :: w == Sealed(quorum, signed)
    case Attempting => exists quorum, signed :: w == Sealed(quorum, signed) + [Attempted]
    case Returned(true) => exists quorum, signed :: w == Text(SignedStory(quorum, signed, true))
    case Returned(false) => InGrammar(w)
  }

  lemma BallotStep(votes: seq<bool>, done: nat)
    requires done < |votes|
    ensures Ballots(votes[..done + 1]) == Ballots(votes[..done]) + [if votes[done] then Received else Rejected]
  {
  }

  lemma BallotsAllYes(votes: seq<bool>)
    requires false !in votes
    ensures Ballots(votes) == seq(|votes|, _ => Received)
  {
    forall i | 0 <= i < |votes| ensures votes[i] {
      assert votes[i] in votes;
    }
  }

  lemma BallotsPrefix(votes: seq<bool>, done: nat)
    requires done <= |votes|
    ensures Ballots(votes[..done]) <= Ballots(votes)
  {
  }

  /** Wherever a call stands, what it has written can still be completed to a word of the grammar. */
  lemma ConsistentInGrammar(pc: Pc, w: seq<Sym>)
    requires Consistent(pc, w)
    ensures InGrammar(w)
  {
    hide InGrammar, Ballots;
    match pc {
      case Entered => PrefixOf(w, DeniedStory);
      case Evaluating => PrefixOf(w, DeniedStory);
      case Deciding(v) =>
        match v {
          case Allow => PrefixOf(w, SignedStory(None, false, true));
          case Deny => PrefixOf(w, DeniedStory);
          case Quorum => PrefixOf(w, TimedOutStory);
        }
      case Collecting => PrefixOf(w, TimedOutStory);
      case Recording(votes, done) =>
        BallotsPrefix(votes, done);
        if false in votes {
          PrefixOf(w, RejectedStory(votes));
        } else {
          BallotsAllYes(votes);
          PrefixOf(w, SignedStory(Some(|votes|), false, true));
        }
      case Cleared =>
        var quorum :| w == Clearance(quorum);
        PrefixOf(w, SignedStory(quorum, false, true));
      case Fetching =>
        var quorum, signed :| w == Sealed(quorum, signed);
        PrefixOf(w, SignedStory(quorum, signed, true));
      case Attempting =>
        var quorum, signed :| w == Sealed(quorum, signed) + [Attempted];
        PrefixOf(w, SignedStory(quorum, signed, true));
      case Returned(true) =>
        var quorum, signed :| w == Text(SignedStory(quorum, signed, true));
        PrefixOf(w, SignedStory(quorum, signed, true));
      case Returned(false) =>
    }
  }

  /** A write that goes through leaves a consistent place; so does one that is lost or ends the call. */
  lemma EmitsConsistent(w: seq<Sym>, sym: Sym, next: Pc, emitted: Option<Sym>, to: Pc)
    requires InGrammar(w) && Consistent(next, w + [sym]) && Emits(sym, next, emitted, to)
    ensures Consistent(to, w + Written(emitted))
  {
    hide InGrammar, Ballots, Text;
    ConsistentInGrammar(next, w + [sym]);
    if emitted.None? {
      assert w + [] == w;
    }
  }

  lemma StopsConsistent(w: seq<Sym>, emitted: Option<Sym>, to: Pc)
    requires InGrammar(w) && GivesUp(emitted, to)
    ensures Consistent(to, w + Written(emitted))
  {
    hide InGrammar, Ballots, Text;
    assert w + [] == w;
  }

  lemma EarlyStep(from: Pc, w: seq<Sym>, emitted: Option<Sym>, to: Pc)
    requires Consistent(from, w) && Step(from, emitted, to)
    requires from.Entered? || from.Evaluating? || from.Deciding?
    ensures Consistent(to, w + Written(emitted))
  {
    hide InGrammar, Ballots, Text;
    ConsistentInGrammar(from, w);
    assert w + [] == w;
    if GivesUp(emitted, to) {
      StopsConsistent(w, emitted, to);
    } else {
      match from {
        case Entered =>
          EmitsConsistent(w, Requested, Evaluating, emitted, to);
        case Evaluating =>
          var v :| Emits(Evaluated(v), Deciding(v), emitted, to);
          EmitsConsistent(w, Evaluated(v), Deciding(v), emitted, to);
        case Deciding(v) =>
          if v == Allow {
            assert w == Clearance(None);
          } else {
            EmitsConsistent(w, Notified, Collecting, emitted, to);
          }
      }
    }
  }

  lemma QuorumStep(from: Pc, w: seq<Sym>, emitted: Option<Sym>, to: Pc)
    requires Consistent(from, w) && Step(from, emitted, to)
    requires from.Collecting? || from.Recording?
    ensures Consistent(to, w + Written(emitted))
  {
    hide InGrammar, Text;
    ConsistentInGrammar(from, w);
    assert w + [] == w;
    if GivesUp(emitted, to) {
      StopsConsistent(w, emitted, to);
    } else {
      match from {
        case Collecting =>
          if to.Recording? {
            assert to.votes[..0] == [] && Ballots([]) == [];
            assert ASKED + [] == ASKED;
          } else {
            TimedOutInGrammar();
            EmitsConsistent(w, TimedOut, Returned(false), emitted, to);
          }
        case Recording(votes, done) =>
          if done < |votes| {
            BallotStep(votes, done);
            var ballot := if votes[done] then Received else Rejected;
            assert ASKED + Ballots(votes[..done]) + [ballot] == ASKED + (Ballots(votes[..done]) + [ballot]);
            EmitsConsistent(w, ballot, Recording(votes, done + 1), emitted, to);
          } else {
            assert votes[..done] == votes;
            BallotsAllYes(votes);
            assert w + [Reached] == Clearance(Some(|votes|));
            EmitsConsistent(w, Reached, Cleared, emitted, to);
          }
      }
    }
  }

  lemma TimedOutInGrammar()
    ensures Consistent(Returned(false), ASKED + [TimedOut])
  {
    PrefixOf(ASKED + [TimedOut], TimedOutStory);
  }

  lemma SigningStep(from: Pc, w: seq<Sym>, emitted: Option<Sym>, to: Pc)
    requires Consistent(from, w) && Step(from, emitted, to)
    requires from.Cleared? || from.Fetching? || from.Attempting?
    ensures Consistent(to, w + Written(emitted))
  {
    hide InGrammar, Ballots, Clearance;
    ConsistentInGrammar(from, w);
    assert w + [] == w;
    if GivesUp(emitted, to) {
      StopsConsistent(w, emitted, to);
    } else {
      match from {
        case Cleared =>
          var quorum :| w == Clearance(quorum);
          assert w == Sealed(quorum, false) && w + [DecisionSigned] == Sealed(quorum, true);
          if to != Fetching || emitted.Some? {
            EmitsConsistent(w, DecisionSigned, Fetching, emitted, to);
          }
        case Fetching =>
          var quorum, signed :| w == Sealed(quorum, signed);
          assert w + [Attempted] == Sealed(quorum, signed) + [Attempted];
          EmitsConsistent(w, Attempted, Attempting, emitted, to);
        case Attempting =>
          var quorum, signed :| w == Sealed(quorum, signed) + [Attempted];
          assert w + [Succeeded] == Text(SignedStory(quorum, signed, true));
          assert w + [Failed] == Text(SignedStory(quorum, signed, false));
          PrefixOf(w + [Failed], SignedStory(quorum, signed, false));
          if Emits(Succeeded, Returned(true), emitted, to) {
            EmitsConsistent(w, Succeeded, Returned(true), emitted, to);
          } else {
            EmitsConsistent(w, Failed, Returned(false), emitted, to);
          }
      }
    }
  }

  lemma StepConsistent(from: Pc, w: seq<Sym>, emitted: Option<Sym>, to: Pc)
    requires Consistent(from, w) && Step(from, emitted, to)
    ensures Consistent(to, w + Written(emitted))
  {
    hide Consistent;
    if from.Entered? || from.Evaluating? || from.Deciding? {
      EarlyStep(from, w, emitted, to);
    } else if from.Collecting? || from.Recording? {
      QuorumStep(from, w, emitted, to);
    } else {
      SigningStep(from, w, emitted, to);
    }
  }

  // ------------------------------------------------------------ what the grammar means

  lemma NoVetoInClearance(quorum: Option<nat>, signed: bool)
    ensures forall s :: s in Sealed(quorum, signed) ==>
                          s !in [Evaluated(Deny), Rejected, TimedOut, Attempted, Succeeded]
  {
    var w := Sealed(quorum, signed);
    forall i | 0 <= i < |w| ensures w[i] !in [Evaluated(Deny), Rejected, TimedOut, Attempted, Succeeded] {
    }
  }

  lemma NoAttemptInVotes(votes: seq<bool>)
    ensures Attempted !in ASKED + Ballots(votes)
  {
  }

  lemma AttemptPastClearance(w: seq<Sym>, clear: seq<Sym>, end: seq<Sym>)
    requires w <= clear + end && |end| == 2 && end[0] == Attempted && Attempted !in clear && Attempted in w
    ensures clear + [Attempted] <= w
  {
    var i :| 0 <= i < |w| && w[i] == Attempted;
    assert w[i] == (clear + end)[i];
    assert i >= |clear|;
  }

  /** No signing is attempted after a denial, a rejection or a timeout, nor does one come after. */
  lemma AttemptedOnlyWhenCleared(w: seq<Sym>)
    requires InGrammar(w) && Attempted in w
    ensures Evaluated(Deny) !in w && Rejected !in w && TimedOut !in w
    ensures exists quorum, signed :: Sealed(quorum, signed) + [Attempted] <= w
  {
    hide Sealed, Ballots;
    var story: Story :| story.Possible() && w <= Text(story);
    match story {
      case RejectedStory(votes) => NoAttemptInVotes(votes); assert false;
      case SignedStory(quorum, signed, ok) =>
        NoVetoInClearance(quorum, signed);
        var clear, end := Sealed(quorum, signed), [Attempted, if ok then Succeeded else Failed];
        AttemptPastClearance(w, clear, end);
        forall j | 0 <= j < |w| ensures w[j] in clear || w[j] in end {
          assert w[j] == (clear + end)[j];
        }
        assert clear + [Attempted] <= w;
      case _ => assert false;
    }
  }

  /** A signature is returned only with a complete word that ends in success. */
  lemma SignatureNeedsSuccess(w: seq<Sym>)
    requires Consistent(Returned(true), w)
    ensures w != [] && w[|w| - 1] == Succeeded
    ensures exists story: Story :: story.SignedStory? && w == Text(story)
  {
    var quorum, signed :| w == Text(SignedStory(quorum, signed, true));
    assert w == Text(SignedStory(quorum, signed, true));
  }

  // ------------------------------------------------------------ interleaved calls

  datatype Event = Event(request: Ulid, sym: Sym)

  /** The calls that have begun, and the log they share. */
  datatype State = State(calls: map<Ulid, Pc>, log: seq<Event>)

  datatype Action = Begin(request: Ulid) | Act(request: Ulid, emitted: Option<Sym>, to: Pc)

  /** A new call has a new request id; a running call takes one of its steps. */
  ghost predicate Enabled(s: State, a: Action) {
    match a
    case Begin(request) => request !in s.calls
    case Act(request, emitted, to) => request in s.calls && Step(s.calls[request], emitted, to)
  }

  function Next(s: State, a: Action): State {
    match a
    case Begin(request) => s.(calls := s.calls[request := Entered])
    case Act(request, emitted, to) =>
      State(s.calls[request := to], s.log + if emitted.Some? then [Event(request, emitted.value)] else [])
  }

  /** One request's events, in log order. */
  function TraceOf(log: seq<Event>, request: Ulid): seq<Sym> {
    if log == [] then []
    else
      var last := log[|log| - 1];
      TraceOf(log[..|log| - 1], request) + if last.request == request then [last.sym] else []
  }

  ghost predicate Sound(s: State) {
    && (forall c :: c in s.calls ==> Consistent(s.calls[c], TraceOf(s.log, c)))
    && forall c :: c !in s.calls ==> TraceOf(s.log, c) == []
  }

  lemma TraceAfter(s: State, a: Action, c: Ulid)
    ensures TraceOf(Next(s, a).log, c)
            == TraceOf(s.log, c) + if a.Act? && a.request == c then Written(a.emitted) else []
  {
    if a.Act? && a.emitted.Some? {
      assert Next(s, a).log[..|s.log|] == s.log;
    } else {
      assert Next(s, a).log == s.log && TraceOf(s.log, c) + [] == TraceOf(s.log, c);
    }
  }

  lemma NextStaysSound(s: State, a: Action)
    requires Sound(s) && Enabled(s, a)
    ensures Sound(Next(s, a))
  {
    hide Consistent, TraceOf, Step;
    var n := Next(s, a);
    forall c | c in n.calls ensures Consistent(n.calls[c], TraceOf(n.log, c)) {
      TraceAfter(s, a, c);
      assert TraceOf(s.log, c) + [] == TraceOf(s.log, c);
      if a.Act? && a.request == c {
        StepConsistent(s.calls[c], TraceOf(s.log, c), a.emitted, a.to);
      } else if a.Begin? && a.request == c {
        StartConsistent();
      }
    }
    forall c | c !in n.calls ensures TraceOf(n.log, c) == [] {
      TraceAfter(s, a, c);
    }
  }

  lemma StartConsistent()
    ensures Consistent(Entered, [])
  {
  }

  ghost predicate Runs(s: State, actions: seq<Action>, t: State)
    decreases |actions|
  {
    if actions == [] then s == t
    else Enabled(s, actions[0]) && Runs(Next(s, actions[0]), actions[1..], t)
  }

  lemma {:induction false} RunsStaySound(s: State, actions: seq<Action>, t: State)
    requires Sound(s) && Runs(s, actions, t)
    ensures Sound(t)
    decreases |actions|
  {
    hide Sound, Next, Enabled;
    if actions != [] {
      NextStaysSound(s, actions[0]);
      RunsStaySound(Next(s, actions[0]), actions[1..], t);
    }
  }

  const EMPTY := State(map[], [])

  lemma EmptySound()
    ensures Sound(EMPTY)
  {
  }

  /**
   The audit law. After any interleaving of signing calls, each request's events are a
   prefix of a word of the grammar; an attempt is in it only past a clearance; and a
   call that returned a signature has a complete word ending in success.
   */
  lemma AuditLaw(actions: seq<Action>, s: State, c: Ulid)
    requires Runs(EMPTY, actions, s)
    ensures var w := TraceOf(s.log, c);
            && InGrammar(w)
            && (Attempted in w ==> Evaluated(Deny) !in w && Rejected !in w && TimedOut !in w)
            && (c in s.calls && s.calls[c] == Returned(true) ==>
                  exists story: Story :: story.SignedStory? && story.ok && w == Text(story))
  {
    hide Runs, TraceOf, InGrammar, Text, Clearance;
    EmptySound();
    RunsStaySound(EMPTY, actions, s);
    var w := TraceOf(s.log, c);
    if c in s.calls {
      ConsistentInGrammar(s.calls[c], w);
    } else {
      StartConsistent();
      ConsistentInGrammar(Entered, w);
    }
    if Attempted in w {
      AttemptedOnlyWhenCleared(w);
    }
    if c in s.calls && s.calls[c] == Returned(true) {
      var quorum, signed :| w == Text(SignedStory(quorum, signed, true));
      assert SignedStory(quorum, signed, true).SignedStory?;
    }
  }

  // ------------------------------------------------------------ the call itself

  datatype Write = Kept | Lost | KeptButFailed

  class AuditLog {
    var log: seq<Event>

    method Emit(request: Ulid, sym: Sym, write: Write) returns (ok: bool)
      modifies this
      ensures ok == write.Kept?
      ensures log == old(log) + if write.Lost? then [] else [Event(request, sym)]
    {
      if write.Lost? {
        return false;
      }
      log := log + [Event(request, sym)];
      return write.Kept?;
    }
  }

  datatype Collected = Votes(votes: seq<bool>) | Timeout | CollectFailed
  datatype PolicySigner = NoSigner | Signs | SignFails

  /** Everything a call asks of the rest of the system; the k-th audit write fares as `audit(k)` says. */
  datatype World = World(
    walletActive: bool, policy: Option<Verdict>, notified: bool, collected: Collected, signer: PolicySigner,
    sharesFetched: bool, enclaveSigns: bool, audit: nat -> Write)

  /** Cleared by the policy, or by a quorum without a rejection. */
  predicate ClearedBy(world: World) {
    && world.walletActive && world.policy.Some?
    && match world.policy.value
       case Allow => true
       case Deny => false
       case Quorum => world.notified && world.collected.Votes? && false !in world.collected.votes
  }

  predicate Favourable(world: World) {
    ClearedBy(world) && !world.signer.SignFails? && world.sharesFetched && world.enclaveSigns
  }

  /** What a call writes when every write goes through: up to the decision, over the quorum, and from clearance on. */
  function DecisionTrace(world: World): seq<Sym> {
    if !world.walletActive then []
    else if world.policy.None? then [Requested]
    else [Requested, Evaluated(world.policy.value)]
  }

  function QuorumTrace(world: World): seq<Sym> {
    if !world.notified then []
    else
      [Notified] + match world.collected
                   case CollectFailed => []
                   case Timeout => [TimedOut]
                   case Votes(votes) => Ballots(votes) + if false in votes then [] else [Reached]
  }

  function SealTrace(world: World): seq<Sym> {
    if world.signer.SignFails? then []
    else (if world.signer.Signs? then [DecisionSigned] else [])
         + if world.sharesFetched then [Attempted, if world.enclaveSigns then Succeeded else Failed] else []
  }

  function FullTrace(world: World): seq<Sym> {
    DecisionTrace(world)
    + (if world.walletActive && world.policy == Some(Quorum) then QuorumTrace(world) else [])
    + if ClearedBy(world) then SealTrace(world) else []
  }

  /** The places a call can reach, each with what it wrote on the way. */
  ghost predicate Reaches(pc: Pc, w: seq<Sym>) {
    exists steps :: Walk(Entered, steps) && End(Entered, steps) == pc && Emitted(steps) == w
  }

  ghost predicate Walk(from: Pc, steps: seq<(Option<Sym>, Pc)>) {
    steps == [] || (Walk(from, steps[..|steps| - 1])
                    && Step(End(from, steps[..|steps| - 1]), steps[|steps| - 1].0, steps[|steps| - 1].1))
  }

  ghost function End(from: Pc, steps: seq<(Option<Sym>, Pc)>): Pc {
    if steps == [] then from else steps[|steps| - 1].1
  }

  ghost function Emitted(steps: seq<(Option<Sym>, Pc)>): seq<Sym> {
    if steps == [] then [] else Emitted(steps[..|steps| - 1]) + Written(steps[|steps| - 1].0)
  }

  lemma ReachesStart()
    ensures Reaches(Entered, [])
  {
    assert Walk(Entered, []) && End(Entered, []) == Entered && Emitted([]) == [];
  }

  lemma ReachesNext(pc: Pc, w: seq<Sym>, emitted: Option<Sym>, to: Pc)
    requires Reaches(pc, w) && Step(pc, emitted, to)
    ensures Reaches(to, w + Written(emitted))
  {
    hide Step;
    var steps :| Walk(Entered, steps) && End(Entered, steps) == pc && Emitted(steps) == w;
    var more := steps + [(emitted, to)];
    assert more[..|more| - 1] == steps;
    assert Walk(Entered, more) && End(Entered, more) == to && Emitted(more) == w + Written(emitted);
  }

  lemma {:induction false} WalkConsistent(steps: seq<(Option<Sym>, Pc)>)
    requires Walk(Entered, steps)
    ensures Consistent(End(Entered, steps), Emitted(steps))
  {
    hide Consistent, Step;
    if steps == [] {
      StartConsistent();
    } else {
      var before := steps[..|steps| - 1];
      WalkConsistent(before);
      StepConsistent(End(Entered, before), Emitted(before), steps[|steps| - 1].0, steps[|steps| - 1].1);
    }
  }

  lemma ReachedInGrammar(pc: Pc, w: seq<Sym>)
    requires Reaches(pc, w)
    ensures Consistent(pc, w) && InGrammar(w)
  {
    hide Consistent, Walk, End, Emitted, InGrammar;
    var steps :| Walk(Entered, steps) && End(Entered, steps) == pc && Emitted(steps) == w;
    WalkConsistent(steps);
    ConsistentInGrammar(pc, w);
  }

  function Stamped(request: Ulid, w: seq<Sym>): seq<Event> {
    seq(|w|, i requires 0 <= i < |w| => Event(request, w[i]))
  }

  /** On a log that held nothing of the request, what the call wrote is the request's trace. */
  lemma {:induction false} CallTrace(base: seq<Event>, request: Ulid, w: seq<Sym>)
    requires TraceOf(base, request) == []
    ensures TraceOf(base + Stamped(request, w), request) == w
  {
    if w == [] {
      assert base + Stamped(request, w) == base;
    } else {
      var n := |w| - 1;
      CallTrace(base, request, w[..n]);
      var log := base + Stamped(request, w);
      assert log[..|log| - 1] == base + Stamped(request, w[..n]);
      assert log[|log| - 1] == Event(request, w[n]);
    }
  }

  class SignCall {
    const audit: AuditLog
    const request: Ulid
    const writes: nat -> Write
    ghost const base: seq<Event>
    var written: nat
    ghost var pc: Pc
    ghost var trace: seq<Sym>

    /** The log is what it was at the start plus this call's trace, and the trace is one the machine allows. */
    ghost predicate Valid()
      reads this, audit
    {
      Reaches(pc, trace) && audit.log == base + Stamped(request, trace)
    }

    /** No audit write fails. */
    ghost predicate AllKept() {
      forall k :: writes(k) == Kept
    }

    constructor (audit: AuditLog, request: Ulid, writes: nat -> Write)
      ensures Valid() && pc == Entered && trace == [] && fresh(this)
      ensures this.audit == audit && this.request == request && this.writes == writes && base == audit.log
    {
      this.audit, this.request, this.writes := audit, request, writes;
      base := audit.log;
      written := 0;
      pc, trace := Entered, [];
      new;
      ReachesStart();
    }

    method Emit(sym: Sym, ghost next: Pc) returns (ok: bool)
      requires Valid() && forall e, to :: Emits(sym, next, e, to) ==> Step(pc, e, to)
      modifies this, audit
      ensures Valid() && pc == if ok then next else Returned(false)
      ensures AllKept() ==> ok && trace == old(trace) + [sym]
    {
      hide Step, Reaches;
      var write := writes(written);
      written := written + 1;
      ok := audit.Emit(request, sym, write);
      ghost var emitted := if write.Lost? then None else Some(sym);
      ghost var to := if ok then next else Returned(false);
      assert Emits(sym, next, emitted, to);
      ReachesNext(pc, trace, emitted, to);
      assert Stamped(request, trace + Written(emitted)) == Stamped(request, trace) + Stamped(request, Written(emitted));
      assert audit.log == base + Stamped(request, trace + Written(emitted));
      pc, trace := to, trace + Written(emitted);
    }

    /** A step that writes nothing. */
    ghost method Go(to: Pc)
      requires Valid() && Step(pc, None, to)
      modifies this`pc
      ensures Valid() && pc == to
    {
      hide Step, Reaches;
      ReachesNext(pc, trace, None, to);
      assert trace + [] == trace;
      pc := to;
    }

    /** Up to and including the decision; true when the call goes on. */
    method Decide(world: World) returns (goesOn: bool)
      requires Valid() && pc == Entered
      modifies this, audit
      ensures Valid()
      ensures if goesOn then world.walletActive && world.policy.Some? && pc == Deciding(world.policy.value)
              else pc == Returned(false)
      ensures world.walletActive && world.policy.Some? && AllKept() ==> goesOn
      ensures AllKept() ==> trace == DecisionTrace(world)
    {
      ReachedInGrammar(pc, trace);
      hide Reaches, Stamped, InGrammar;
      if !world.walletActive {
        Go(Returned(false));
        return false;
      }
      goesOn := Emit(Requested, Evaluating);
      if !goesOn {
        return;
      }
      if world.policy.None? {
        Go(Returned(false));
        return false;
      }
      var v := world.policy.value;
      assert forall e, to :: Emits(Evaluated(v), Deciding(v), e, to) ==> Step(pc, e, to);
      goesOn := Emit(Evaluated(v), Deciding(v));
    }

    /** The quorum block. */
    method CollectQuorum(world: World) returns (cleared: bool)
      requires Valid() && pc == Deciding(Quorum)
      modifies this, audit
      ensures Valid() && pc == if cleared then Cleared else Returned(false)
      ensures cleared ==> world.notified && world.collected.Votes? && false !in world.collected.votes
      ensures world.notified && world.collected.Votes? && false !in world.collected.votes && AllKept() ==> cleared
      ensures AllKept() ==> trace == old(trace) + QuorumTrace(world)
    {
      hide Reaches, Stamped, Ballots;
      ghost var before := trace;
      if !world.notified {
        Go(Returned(false));
        return false;
      }
      cleared := Emit(Notified, Collecting);
      if !cleared {
        return;
      }
      match world.collected {
        case CollectFailed =>
          Go(Returned(false));
          return false;
        case Timeout =>
          cleared := Emit(TimedOut, Returned(false));
          return false;
        case Votes(votes) =>
          Go(Recording(votes, 0));
          assert votes[..0] == [] && Ballots([]) == [];
          for i := 0 to |votes|
            invariant Valid() && pc == Recording(votes, i)
            invariant AllKept() ==> trace == before + ([Notified] + Ballots(votes[..i]))
          {
            BallotStep(votes, i);
            cleared := Emit(if votes[i] then Received else Rejected, Recording(votes, i + 1));
            if !cleared {
              return;
            }
          }
          assert votes[..|votes|] == votes;
          if false in votes {
            Go(Returned(false));
            return false;
          }
          cleared := Emit(Reached, Cleared);
      }
    }

    /** From clearance to the signature. */
    method SignCleared(world: World) returns (signature: bool)
      requires Valid() && pc == Cleared
      modifies this, audit
      ensures Valid() && pc == Returned(signature)
      ensures signature ==> !world.signer.SignFails? && world.sharesFetched && world.enclaveSigns
      ensures !world.signer.SignFails? && world.sharesFetched && world.enclaveSigns && AllKept() ==> signature
      ensures AllKept() ==> trace == old(trace) + SealTrace(world)
    {
      hide Reaches, Stamped;
      match world.signer {
        case NoSigner => Go(Fetching);
        case SignFails =>
          Go(Returned(false));
          return false;
        case Signs =>
          signature := Emit(DecisionSigned, Fetching);
          if !signature {
            return;
          }
      }
      if !world.sharesFetched {
        Go(Returned(false));
        return false;
      }
      signature := Emit(Attempted, Attempting);
      if !signature {
        return;
      }
      if world.enclaveSigns {
        signature := Emit(Succeeded, Returned(true));
      } else {
        var _ := Emit(Failed, Returned(false));
        signature := false;
      }
    }

    /**
     The whole of `sign`: a signature is returned only in a favourable world, and
     always in one where every audit write goes through; then the trace is exactly
     the one the world calls for.
     */
    method Sign(world: World) returns (signature: bool)
      requires Valid() && pc == Entered && world.audit == writes
      modifies this, audit
      ensures Valid() && pc == Returned(signature)
      ensures signature ==> Favourable(world)
      ensures Favourable(world) && AllKept() ==> signature
      ensures AllKept() ==> trace == FullTrace(world)
    {
      hide Reaches, Stamped, QuorumTrace, SealTrace;
      var goesOn := Decide(world);
      if !goesOn {
        return false;
      }
      match world.policy.value {
        case Deny =>
          Go(Returned(false));
          return false;
        case Quorum =>
          var cleared := CollectQuorum(world);
          if !cleared {
            return false;
          }
        case Allow => Go(Cleared);
      }
      signature := SignCleared(world);
    }
  }
}
