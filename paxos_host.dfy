/**
 * The abstract state of one Paxos host: ballots, the per-instance acceptor and
 * proposer state, and the nine actions a host takes on one instance.
 *
 * Ballot, Constants, the instance fields, their well-formedness and `init`
 * follow src/distributed_system/low_level/host.rs. The actions themselves are
 * not in that file: they are written here from the contracts of
 * src/implementation/mod.rs (init_request, send_prepare, promise, promised,
 * send_accept) and, for accept, accepted, send_decide and decide, from
 * section 2.3 of Lamport's "Paxos Made Simple". Like the source's `low_*`
 * predicates, each action is a relation between the host state before (u) and
 * after (v) the step and the network operation it performs.
 */
module PaxosHost {
  import opened Wrappers

  /** Proposed values are opaque; the reference system proposes host ids. */
  type Value = nat

  datatype Ballot = Ballot(num: nat, pid: nat)

  /** Three-way comparison of ballots: by round number, ties broken by proposer id. */
  function Cmp(a: Ballot, b: Ballot): (r: int)
    ensures r == -1 || r == 0 || r == 1
    ensures r == 0 <==> a == b
    ensures r == 1 <==> a.num > b.num || (a.num == b.num && a.pid > b.pid)
  {
    if a.num < b.num then -1
    else if a.num > b.num then 1
    else if a.pid < b.pid then -1
    else if a.pid > b.pid then 1
    else 0
  }

  lemma CmpAntisymmetric(a: Ballot, b: Ballot)
    ensures Cmp(a, b) == -Cmp(b, a)
  {
  }

  lemma CmpTransitive(a: Ballot, b: Ballot, c: Ballot)
    ensures Cmp(a, b) <= 0 && Cmp(b, c) <= 0 ==> Cmp(a, c) <= 0
    ensures Cmp(a, b) < 0 && Cmp(b, c) <= 0 ==> Cmp(a, c) < 0
    ensures Cmp(a, b) <= 0 && Cmp(b, c) < 0 ==> Cmp(a, c) < 0
  {
  }

  datatype Constants = Constants(id: nat, numHosts: nat, numFailures: nat) {
    predicate WellFormed() {
      && id < numHosts
      && numHosts == 2 * numFailures + 1
    }
  }

  /** The host ids 0 .. n-1. */
  function HostIds(n: nat): (r: set<nat>)
    ensures forall x: nat :: x in r <==> x < n
    ensures |r| == n
  {
    if n == 0 then {} else HostIds(n - 1) + {n - 1}
  }

  lemma {:induction false} HostIdSubsetBound(s: set<nat>, n: nat)
    requires forall x :: x in s ==> x < n
    ensures |s| <= n
  {
    var all := HostIds(n);
    assert s <= all;
    assert |all - s| == |all| - |s|;
  }

  /**
   * Two quorums, that is two sets of host ids each larger than numFailures out
   * of numHosts == 2 * numFailures + 1, always share a host.
   */
  lemma QuorumIntersection(numHosts: nat, numFailures: nat, q1: set<nat>, q2: set<nat>)
    requires numHosts == 2 * numFailures + 1
    requires forall x :: x in q1 ==> x < numHosts
    requires forall x :: x in q2 ==> x < numHosts
    requires |q1| > numFailures && |q2| > numFailures
    ensures q1 * q2 != {}
  {
    if q1 * q2 == {} {
      assert |q1 + q2| == |q1| + |q2|;
      HostIdSubsetBound(q1 + q2, numHosts);
    }
  }

  lemma SubsetSize(s: set<nat>, t: set<nat>)
    requires s <= t
    ensures |s| <= |t|
  {
    assert |t - s| == |t| - |s|;
  }

  /** What an acceptor reports in a Promise: the ballot and value it last accepted, if any. */
  type Report = Option<(Ballot, Value)>

  /** Promise responses a proposer collected for one ballot, keyed by responder. */
  type Responses = map<nat, Report>

  /** The state of one consensus instance at one host (proposer and acceptor at once). */
  datatype Instance = Instance(
    currentBallot: Ballot,
    promised: map<Ballot, Responses>,
    proposedValue: map<Ballot, Value>,
    accepted: map<Ballot, set<nat>>,
    acceptBallot: Option<Ballot>,
    acceptValue: Option<Value>,
    decideValue: Option<Value>)
  {
    predicate WellFormed(c: Constants) {
      && c.WellFormed()
      && acceptBallot.Some? == acceptValue.Some?
    }
  }

  /** The state an instance is created in. */
  function NewInstance(): Instance {
    Instance(Ballot(0, 0), map[], map[], map[], None, None, None)
  }

  /** The source's `init` for one instance of host `hostId` in a system of `numHosts` hosts. */
  predicate Init(c: Constants, u: Instance, hostId: nat, numHosts: nat) {
    && u.WellFormed(c)
    && c.id == hostId
    && c.numHosts == numHosts
    && u.currentBallot == Ballot(0, 0)
    && u.promised == map[]
    && u.proposedValue == map[]
    && u.accepted == map[]
    && u.acceptBallot.None?
    && u.acceptValue.None?
    && u.decideValue.None?
  }

  /** `init` holds exactly of a freshly created instance under well-formed constants. */
  lemma InitIsNewInstance(c: Constants, u: Instance, hostId: nat, numHosts: nat)
    ensures Init(c, u, hostId, numHosts) <==>
      c.WellFormed() && c.id == hostId && c.numHosts == numHosts && u == NewInstance()
  {
  }

  /** A host's protocol state: one instance per key. */
  datatype Variables = Variables(instances: map<nat, Instance>) {
    predicate WellFormed(c: Constants) {
      && c.WellFormed()
      && forall k :: k in instances ==> instances[k].WellFormed(c)
    }
  }

  datatype Message =
    | Prepare(key: nat, ballot: Ballot)
    | Promise(key: nat, sender: nat, ballot: Ballot, accepted: Report)
    | Accept(key: nat, ballot: Ballot, value: Value)
    | Accepted(key: nat, sender: nat, ballot: Ballot)
    | Decide(key: nat, ballot: Ballot, value: Value)

  datatype NetworkOperation = NetworkOperation(recv: Option<Message>, send: Option<Message>)

  /** The acceptor's accepted ballot zipped with its accepted value. */
  function Reported(inst: Instance): Report {
    if inst.acceptBallot.Some? && inst.acceptValue.Some? then
      Some((inst.acceptBallot.value, inst.acceptValue.value))
    else
      None
  }

  /** The ballot a host proposes next in an instance: one round above its current ballot, with its own id. */
  function NextBallot(c: Constants, inst: Instance): Ballot {
    Ballot(inst.currentBallot.num + 1, c.id)
  }

  predicate NoneReported(rs: Responses) {
    forall s :: s in rs ==> rs[s].None?
  }

  /** Responder `s` reported an acceptance whose ballot is at least every other reported ballot. */
  predicate IsHighestReport(rs: Responses, s: nat) {
    && s in rs
    && rs[s].Some?
    && forall t :: t in rs && rs[t].Some? ==> Cmp(rs[t].value.0, rs[s].value.0) <= 0
  }

  /**
   * Phase 2(a) of "Paxos Made Simple": the value of the highest-ballot acceptance
   * reported by the promise quorum, or, when none was reported, a free choice,
   * which the system makes as the proposer's own id.
   */
  predicate IsValidChoice(rs: Responses, id: nat, v: Value) {
    if NoneReported(rs) then v == id
    else exists s | s in rs :: IsHighestReport(rs, s) && rs[s].value.1 == v
  }

  // ---------------------------------------------------------------------
  // The nine actions on instance `key`.
  // ---------------------------------------------------------------------

  predicate InitRequestStep(c: Constants, u: Variables, v: Variables, key: nat, op: NetworkOperation) {
    && key !in u.instances
    && op == NetworkOperation(None, None)
    && v == Variables(u.instances[key := NewInstance()])
  }

  /** Proposer: start a round with a fresh ballot of its own; the current ballot is left as it is. */
  predicate SendPrepareStep(c: Constants, u: Variables, v: Variables, key: nat, op: NetworkOperation) {
    && key in u.instances
    && (var inst := u.instances[key];
        var b := NextBallot(c, inst);
        && inst.decideValue.None?
        && b !in inst.promised
        && b !in inst.proposedValue
        && b !in inst.accepted
        && op == NetworkOperation(None, Some(Prepare(key, b)))
        && v == Variables(u.instances[key := inst.(promised := inst.promised[b := map[]],
                                                   accepted := inst.accepted[b := {}])]))
  }

  /** Acceptor: promise a Prepare whose ballot is strictly above its current ballot. */
  predicate PromiseStep(c: Constants, u: Variables, v: Variables, key: nat, op: NetworkOperation) {
    && op.recv.Some? && op.recv.value.Prepare? && op.recv.value.key == key
    && key in u.instances
    && (var inst := u.instances[key];
        var b := op.recv.value.ballot;
        && Cmp(b, inst.currentBallot) == 1
        && op.send == Some(Promise(key, c.id, b, Reported(inst)))
        && v == Variables(u.instances[key := inst.(currentBallot := b)]))
  }

  /** Proposer: record a Promise for one of its ballots that has no proposed value yet. */
  predicate PromisedStep(c: Constants, u: Variables, v: Variables, key: nat, op: NetworkOperation) {
    && op.recv.Some? && op.recv.value.Promise? && op.recv.value.key == key
    && key in u.instances
    && (var inst := u.instances[key];
        var m := op.recv.value;
        && m.ballot in inst.promised
        && m.ballot !in inst.proposedValue
        && op.send == None
        && (var rs: Responses := inst.promised[m.ballot][m.sender := m.accepted];
            v == Variables(u.instances[key := inst.(promised := inst.promised[m.ballot := rs])])))
  }

  /** Proposer: with a promise quorum for its current ballot, fix a value and send Accept. */
  predicate SendAcceptStep(c: Constants, u: Variables, v: Variables, key: nat, op: NetworkOperation) {
    && key in u.instances
    && (var inst := u.instances[key];
        var b := inst.currentBallot;
        && b in inst.promised
        && |inst.promised[b]| > c.numFailures
        && b !in inst.proposedValue
        && op.recv == None
        && op.send.Some? && op.send.value.Accept?
        && op.send.value == Accept(key, b, op.send.value.value)
        && IsValidChoice(inst.promised[b], c.id, op.send.value.value)
        && v == Variables(u.instances[key := inst.(proposedValue := inst.proposedValue[b := op.send.value.value])]))
  }

  /** Acceptor: accept a proposal whose ballot is at least its current ballot. */
  predicate AcceptStep(c: Constants, u: Variables, v: Variables, key: nat, op: NetworkOperation) {
    && op.recv.Some? && op.recv.value.Accept? && op.recv.value.key == key
    && key in u.instances
    && (var inst := u.instances[key];
        var m := op.recv.value;
        && Cmp(m.ballot, inst.currentBallot) >= 0
        && op.send == Some(Accepted(key, c.id, m.ballot))
        && v == Variables(u.instances[key := inst.(currentBallot := m.ballot,
                                                   acceptBallot := Some(m.ballot),
                                                   acceptValue := Some(m.value))]))
  }

  /** Proposer: record an acceptor's acknowledgement of one of its ballots. */
  predicate AcceptedStep(c: Constants, u: Variables, v: Variables, key: nat, op: NetworkOperation) {
    && op.recv.Some? && op.recv.value.Accepted? && op.recv.value.key == key
    && key in u.instances
    && (var inst := u.instances[key];
        var m := op.recv.value;
        && m.ballot in inst.accepted
        && op.send == None
        && v == Variables(u.instances[key := inst.(accepted := inst.accepted[m.ballot :=
                                                     inst.accepted[m.ballot] + {m.sender}])]))
  }

  /** Proposer: once a quorum accepted its current ballot, announce the decision (state unchanged). */
  predicate SendDecideStep(c: Constants, u: Variables, v: Variables, key: nat, op: NetworkOperation) {
    && key in u.instances
    && (var inst := u.instances[key];
        var b := inst.currentBallot;
        && b in inst.proposedValue
        && b in inst.accepted
        && |inst.accepted[b]| > c.numFailures
        && op == NetworkOperation(None, Some(Decide(key, b, inst.proposedValue[b])))
        && v == u)
  }

  /** Learner: adopt a decision whose ballot is strictly above its current ballot. */
  predicate DecideStep(c: Constants, u: Variables, v: Variables, key: nat, op: NetworkOperation) {
    && op.recv.Some? && op.recv.value.Decide? && op.recv.value.key == key
    && key in u.instances
    && (var inst := u.instances[key];
        var m := op.recv.value;
        && Cmp(m.ballot, inst.currentBallot) == 1
        && op.send == None
        && v == Variables(u.instances[key := inst.(currentBallot := m.ballot,
                                                   decideValue := Some(m.value))]))
  }

  predicate Step(c: Constants, u: Variables, v: Variables, key: nat, op: NetworkOperation) {
    || InitRequestStep(c, u, v, key, op)
    || SendPrepareStep(c, u, v, key, op)
    || PromiseStep(c, u, v, key, op)
    || PromisedStep(c, u, v, key, op)
    || SendAcceptStep(c, u, v, key, op)
    || AcceptStep(c, u, v, key, op)
    || AcceptedStep(c, u, v, key, op)
    || SendDecideStep(c, u, v, key, op)
    || DecideStep(c, u, v, key, op)
  }

  // ---------------------------------------------------------------------
  // Facts about single steps.
  // ---------------------------------------------------------------------

  /**
   * Every ballot a host puts on the network as a proposer carries its own id,
   * and send_prepare does not move the current ballot.
   */
  lemma SendPrepareBallot(c: Constants, u: Variables, v: Variables, key: nat, op: NetworkOperation)
    requires SendPrepareStep(c, u, v, key, op)
    ensures op.send.Some? && op.send.value.ballot.pid == c.id
    ensures op.send.value.ballot.num == u.instances[key].currentBallot.num + 1
    ensures v.instances[key].currentBallot == u.instances[key].currentBallot
  {
  }

  /**
   * How an instance may evolve: its current ballot never goes down, rounds are
   * never dropped, a proposed value is never changed, and acknowledgements are
   * never forgotten.
   */
  predicate Extends(i1: Instance, i2: Instance) {
    && Cmp(i1.currentBallot, i2.currentBallot) <= 0
    && i1.promised.Keys <= i2.promised.Keys
    && (forall b :: b in i1.proposedValue ==> b in i2.proposedValue && i2.proposedValue[b] == i1.proposedValue[b])
    && (forall b :: b in i1.accepted ==> b in i2.accepted && i1.accepted[b] <= i2.accepted[b])
  }

  /**
   * No step removes an instance or touches another key than its own, the
   * instance it acts on only extends, only a Decide delivery sets its decided
   * value, and every step keeps the host well formed.
   */
  lemma StepMonotone(c: Constants, u: Variables, v: Variables, key: nat, op: NetworkOperation)
    requires u.WellFormed(c)
    requires Step(c, u, v, key, op)
    ensures v.WellFormed(c)
    ensures key in v.instances
    ensures key in u.instances ==> Extends(u.instances[key], v.instances[key])
    ensures key in u.instances && !DecideStep(c, u, v, key, op) ==>
              v.instances[key].decideValue == u.instances[key].decideValue
    ensures forall k :: k != key ==> (k in v.instances <==> k in u.instances)
    ensures forall k :: k != key && k in u.instances ==> v.instances[k] == u.instances[k]
  {
    if InitRequestStep(c, u, v, key, op) {
    } else if SendPrepareStep(c, u, v, key, op) {
    } else if PromiseStep(c, u, v, key, op) {
    } else if PromisedStep(c, u, v, key, op) {
    } else if SendAcceptStep(c, u, v, key, op) {
    } else if AcceptStep(c, u, v, key, op) {
    } else if AcceptedStep(c, u, v, key, op) {
    } else if SendDecideStep(c, u, v, key, op) {
    } else {
      assert DecideStep(c, u, v, key, op);
    }
  }

  /**
   * Delivering a message a second time, right after it was handled, changes
   * nothing and sends nothing new; a repeated Prepare or Decide is not even
   * enabled, because its ballot is no longer above the current one.
   */
  lemma DuplicateDeliveryIsIdempotent(c: Constants, u: Variables, v: Variables, w: Variables,
                                      key: nat, op: NetworkOperation, op': NetworkOperation)
    requires op.recv.Some? && op'.recv == op.recv
    requires Step(c, u, v, key, op)
    ensures op.recv.value.Prepare? || op.recv.value.Decide? ==> !Step(c, v, w, key, op')
    ensures Step(c, v, w, key, op') ==> w == v && (op'.send.Some? ==> op'.send == op.send)
  {
    if Step(c, v, w, key, op') {
      match op.recv.value
      case Prepare(_, _) =>
      case Promise(_, sender, b, report) =>
        assert PromisedStep(c, u, v, key, op) && PromisedStep(c, v, w, key, op');
        var inst := v.instances[key];
        assert inst.promised[b][sender := report] == inst.promised[b];
        assert inst.promised[b := inst.promised[b]] == inst.promised;
        assert v.instances[key := inst] == v.instances;
      case Accept(_, _, _) =>
        assert AcceptStep(c, u, v, key, op) && AcceptStep(c, v, w, key, op');
      case Accepted(_, sender, b) =>
        assert AcceptedStep(c, u, v, key, op) && AcceptedStep(c, v, w, key, op');
        var inst := v.instances[key];
        assert inst.accepted[b] + {sender} == inst.accepted[b];
        assert inst.accepted[b := inst.accepted[b]] == inst.accepted;
        assert v.instances[key := inst] == v.instances;
      case Decide(_, _, _) =>
    }
  }
}
