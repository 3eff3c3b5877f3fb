/**
 * The Paxos system as a transition system: a fixed vector of hosts sharing one
 * append-only set of in-flight messages, where each step is one host taking one
 * action on one instance. This is the abstract ("spec") level that the
 * contracts of src/implementation/mod.rs are stated against.
 *
 * src/implementation/mod.rs:7 imports an inductive invariant `low_inductive`
 * from src/distributed_system/low_level/mod.rs, which does not define it;
 * `Inv` below is this model's own inductive invariant, strong enough to prove
 * agreement on decided values.
 */
module PaxosProtocol {
  import opened Wrappers
  import H = PaxosHost

  datatype Constants = Constants(numHosts: nat, numFailures: nat, hosts: seq<H.Constants>) {
    predicate WellFormed() {
      && numHosts > 0
      && numFailures > 0
      && numHosts == 2 * numFailures + 1
      && |hosts| == numHosts
      && forall i :: 0 <= i < |hosts| ==>
           hosts[i].id == i && hosts[i].numHosts == numHosts && hosts[i].numFailures == numFailures
    }
  }

  datatype Variables = Variables(hosts: seq<H.Variables>, network: set<H.Message>) {
    predicate WellFormed(c: Constants) {
      && c.WellFormed()
      && |hosts| == |c.hosts|
      && forall i :: 0 <= i < |hosts| ==> hosts[i].WellFormed(c.hosts[i])
    }
  }

  predicate Init(c: Constants, u: Variables) {
    && u.WellFormed(c)
    && (forall i :: 0 <= i < |u.hosts| ==> u.hosts[i].instances == map[])
    && u.network == {}
  }

  /** The network delivers only messages it holds and never forgets one. */
  predicate NetworkStep(u: set<H.Message>, v: set<H.Message>, op: H.NetworkOperation) {
    && (op.recv.Some? ==> op.recv.value in u)
    && v == u + (if op.send.Some? then {op.send.value} else {})
  }

  /** Every host other than `hostId` is held fixed, and the network moves by `op`. */
  predicate Frame(c: Constants, u: Variables, v: Variables, hostId: nat, op: H.NetworkOperation) {
    && u.WellFormed(c)
    && hostId < |u.hosts|
    && |v.hosts| == |u.hosts|
    && (forall i :: 0 <= i < |u.hosts| && i != hostId ==> v.hosts[i] == u.hosts[i])
    && NetworkStep(u.network, v.network, op)
    && v.WellFormed(c)
  }

  /** Host `hostId` takes one action on instance `key`. */
  predicate HostStep(c: Constants, u: Variables, v: Variables, hostId: nat, key: nat, op: H.NetworkOperation) {
    && Frame(c, u, v, hostId, op)
    && H.Step(c.hosts[hostId], u.hosts[hostId], v.hosts[hostId], key, op)
  }

  ghost predicate Next(c: Constants, u: Variables, v: Variables) {
    exists hostId: nat, key: nat, op: H.NetworkOperation :: HostStep(c, u, v, hostId, key, op)
  }

  // ---------------------------------------------------------------------
  // The inductive invariant.
  // ---------------------------------------------------------------------

  predicate HasInstance(u: Variables, a: nat, k: nat) {
    a < |u.hosts| && k in u.hosts[a].instances
  }

  function Inst(u: Variables, a: nat, k: nat): H.Instance
    requires HasInstance(u, a, k)
  {
    u.hosts[a].instances[k]
  }

  /** A proposer only keeps rounds for ballots that carry its own id. */
  ghost predicate OwnBallots(u: Variables) {
    forall a: nat, k: nat, b :: HasInstance(u, a, k) && b in Inst(u, a, k).promised ==> b.pid == a
  }

  /**
   * Round b of instance k at proposer a fixed its value from a promise quorum by
   * the Phase 2(a) rule, and the Accept carrying it is on the network.
   */
  ghost predicate ProposalSound(c: Constants, network: set<H.Message>, a: nat, k: nat, inst: H.Instance, b: H.Ballot)
    requires b in inst.proposedValue
  {
    && b in inst.promised
    && |inst.promised[b]| > c.numFailures
    && H.IsValidChoice(inst.promised[b], a, inst.proposedValue[b])
    && H.Accept(k, b, inst.proposedValue[b]) in network
  }

  /** Every proposed value is sound. (After that, the quorum's responses are frozen.) */
  ghost predicate ProposalsSafe(c: Constants, u: Variables) {
    forall a: nat, k: nat, b :: HasInstance(u, a, k) && b in Inst(u, a, k).proposedValue ==>
      ProposalSound(c, u.network, a, k, Inst(u, a, k), b)
  }

  /**
   * Every recorded promise response was received from the network. (The
   * trigger keeps the solver from chaining promises, reported acceptances and
   * proposals down through ever lower ballots.)
   */
  ghost predicate PromisesRecorded(u: Variables) {
    forall a: nat, k: nat, b, s {:trigger H.Promise(k, s, b, Inst(u, a, k).promised[b][s])} ::
      HasInstance(u, a, k) && b in Inst(u, a, k).promised && s in Inst(u, a, k).promised[b] ==>
      H.Promise(k, s, b, Inst(u, a, k).promised[b][s]) in u.network
  }

  /** Every recorded acknowledgement was received from the network. */
  ghost predicate AcceptancesRecorded(u: Variables) {
    forall a: nat, k: nat, b, s :: HasInstance(u, a, k) && b in Inst(u, a, k).accepted && s in Inst(u, a, k).accepted[b] ==>
      H.Accepted(k, s, b) in u.network
  }

  /** An acceptor's accepted ballot is at most its current ballot, and was proposed with its value. */
  ghost predicate AcceptorState(u: Variables) {
    forall a: nat, k: nat {:trigger Inst(u, a, k).acceptBallot} ::
      HasInstance(u, a, k) && Inst(u, a, k).acceptBallot.Some? ==>
      && Inst(u, a, k).acceptValue.Some?
      && H.Cmp(Inst(u, a, k).acceptBallot.value, Inst(u, a, k).currentBallot) <= 0
      && H.Accept(k, Inst(u, a, k).acceptBallot.value, Inst(u, a, k).acceptValue.value) in u.network
  }

  /** Every Prepare was issued by the host its ballot names, which still holds that round. */
  ghost predicate PrepareMessages(u: Variables) {
    forall m :: m in u.network && m.Prepare? ==>
      HasInstance(u, m.ballot.pid, m.key) && m.ballot in Inst(u, m.ballot.pid, m.key).promised
  }

  /** Every Accept carries the value its ballot's proposer fixed: one value per ballot. */
  ghost predicate AcceptMessages(u: Variables) {
    forall m :: m in u.network && m.Accept? ==>
      && HasInstance(u, m.ballot.pid, m.key)
      && m.ballot in Inst(u, m.ballot.pid, m.key).proposedValue
      && Inst(u, m.ballot.pid, m.key).proposedValue[m.ballot] == m.value
  }

  /**
   * A Promise binds its sender: the sender's current ballot is at least the
   * promised one, and any acceptance it reported is below that ballot and real.
   */
  ghost predicate PromiseMessages(u: Variables) {
    forall m :: m in u.network && m.Promise? ==>
      && HasInstance(u, m.sender, m.key)
      && H.Cmp(m.ballot, Inst(u, m.sender, m.key).currentBallot) <= 0
      && (m.accepted.Some? ==>
            && H.Cmp(m.accepted.value.0, m.ballot) < 0
            && H.Accept(m.key, m.accepted.value.0, m.accepted.value.1) in u.network)
  }

  /**
   * A Promise for ballot B reports an acceptance at least as high as every
   * ballot below B its sender has acknowledged.
   */
  ghost predicate PromiseReportsHighest(u: Variables) {
    forall p, q :: p in u.network && q in u.network && p.Promise? && q.Accepted? &&
                   q.key == p.key && q.sender == p.sender && H.Cmp(q.ballot, p.ballot) < 0 ==>
      p.accepted.Some? && H.Cmp(q.ballot, p.accepted.value.0) <= 0
  }

  /** An acknowledgement is never above what its sender has accepted. */
  ghost predicate AcceptedMessages(u: Variables) {
    forall m :: m in u.network && m.Accepted? ==>
      && HasInstance(u, m.sender, m.key)
      && Inst(u, m.sender, m.key).acceptBallot.Some?
      && H.Cmp(m.ballot, Inst(u, m.sender, m.key).acceptBallot.value) <= 0
  }

  /** An acknowledgement answers an Accept: its ballot's proposer fixed a value for it. */
  ghost predicate AcceptedProposed(u: Variables) {
    forall m :: m in u.network && m.Accepted? ==>
      HasInstance(u, m.ballot.pid, m.key) && m.ballot in Inst(u, m.ballot.pid, m.key).proposedValue
  }

  /** A Decide carries the proposed value of a ballot that a quorum acknowledged. */
  ghost predicate DecideMessages(c: Constants, u: Variables) {
    forall m :: m in u.network && m.Decide? ==>
      && HasInstance(u, m.ballot.pid, m.key)
      && m.ballot in Inst(u, m.ballot.pid, m.key).proposedValue
      && Inst(u, m.ballot.pid, m.key).proposedValue[m.ballot] == m.value
      && m.ballot in Inst(u, m.ballot.pid, m.key).accepted
      && |Inst(u, m.ballot.pid, m.key).accepted[m.ballot]| > c.numFailures
  }

  /** A learned value came from some Decide message. */
  ghost predicate DecisionsAnnounced(u: Variables) {
    forall a: nat, k: nat {:trigger Inst(u, a, k).decideValue} ::
      HasInstance(u, a, k) && Inst(u, a, k).decideValue.Some? ==>
      exists b :: H.Decide(k, b, Inst(u, a, k).decideValue.value) in u.network
  }

  /**
   * A proposer's own round that is its current ballot, or that already has a
   * proposed value, comes with the proposer's own Promise for it: send_prepare
   * does not move the current ballot, so it only reaches one of the host's own
   * ballots through that host promising its own Prepare (or through an Accept
   * or Decide for a ballot it already proposed).
   */
  ghost predicate SelfPromised(u: Variables) {
    forall a: nat, k: nat, b ::
      (HasInstance(u, a, k) && b in Inst(u, a, k).promised &&
       (b == Inst(u, a, k).currentBallot || b in Inst(u, a, k).proposedValue)) ==>
      exists r :: H.Promise(k, a, b, r) in u.network
  }

  ghost predicate Inv(c: Constants, u: Variables) {
    && u.WellFormed(c)
    && OwnBallots(u)
    && ProposalsSafe(c, u)
    && PromisesRecorded(u)
    && AcceptancesRecorded(u)
    && AcceptorState(u)
    && PrepareMessages(u)
    && AcceptMessages(u)
    && PromiseMessages(u)
    && PromiseReportsHighest(u)
    && AcceptedMessages(u)
    && AcceptedProposed(u)
    && DecideMessages(c, u)
    && DecisionsAnnounced(u)
    && SelfPromised(u)
  }

  lemma InitImpliesInv(c: Constants, u: Variables)
    requires Init(c, u)
    ensures Inv(c, u)
  {
  }

  // ---------------------------------------------------------------------
  // Preservation, one action at a time.
  // ---------------------------------------------------------------------

  /** What every step keeps: instances persist and only extend, and only (h, key) changes. */
  lemma StepFrame(c: Constants, u: Variables, v: Variables, h: nat, key: nat, op: H.NetworkOperation)
    requires HostStep(c, u, v, h, key, op)
    ensures HasInstance(v, h, key)
    ensures forall a: nat, k: nat :: HasInstance(u, a, k) ==>
              HasInstance(v, a, k) && H.Extends(Inst(u, a, k), Inst(v, a, k))
    ensures forall a: nat, k: nat :: (a != h || k != key) ==>
              (HasInstance(v, a, k) <==> HasInstance(u, a, k))
    ensures forall a: nat, k: nat :: (a != h || k != key) && HasInstance(u, a, k) ==> Inst(v, a, k) == Inst(u, a, k)
    ensures u.network <= v.network
  {
    H.StepMonotone(c.hosts[h], u.hosts[h], v.hosts[h], key, op);
    forall a: nat, k: nat | HasInstance(u, a, k) && (a != h || k != key)
      ensures H.Extends(Inst(u, a, k), Inst(v, a, k))
    {
      H.CmpAntisymmetric(Inst(u, a, k).currentBallot, Inst(u, a, k).currentBallot);
    }
  }

  lemma OwnBallotsInductive(c: Constants, u: Variables, v: Variables, h: nat, key: nat, op: H.NetworkOperation)
    requires OwnBallots(u)
    requires HostStep(c, u, v, h, key, op)
    ensures OwnBallots(v)
  {
    StepFrame(c, u, v, h, key, op);
  }

  lemma ProposalsSafeInductive(c: Constants, u: Variables, v: Variables, h: nat, key: nat, op: H.NetworkOperation)
    requires ProposalsSafe(c, u)
    requires HostStep(c, u, v, h, key, op)
    ensures ProposalsSafe(c, v)
  {
    StepFrame(c, u, v, h, key, op);
    var sendAccept := H.SendAcceptStep(c.hosts[h], u.hosts[h], v.hosts[h], key, op);
    forall a: nat, k: nat, b | HasInstance(v, a, k) && b in Inst(v, a, k).proposedValue
      ensures ProposalSound(c, v.network, a, k, Inst(v, a, k), b)
    {
      if a != h || k != key {
        assert ProposalSound(c, u.network, a, k, Inst(u, a, k), b);
      } else if sendAccept && b == Inst(u, h, key).currentBallot {
      } else {
        // Only rounds without a proposed value gain promises.
        var i1, i2 := Inst(u, h, key), Inst(v, h, key);
        assert b in i1.proposedValue && i2.promised[b] == i1.promised[b];
        assert ProposalSound(c, u.network, a, k, i1, b);
      }
    }
  }

  lemma PromisesRecordedInductive(c: Constants, u: Variables, v: Variables, h: nat, key: nat, op: H.NetworkOperation)
    requires PromisesRecorded(u)
    requires HostStep(c, u, v, h, key, op)
    ensures PromisesRecorded(v)
  {
    StepFrame(c, u, v, h, key, op);
  }

  lemma AcceptancesRecordedInductive(c: Constants, u: Variables, v: Variables, h: nat, key: nat, op: H.NetworkOperation)
    requires AcceptancesRecorded(u)
    requires HostStep(c, u, v, h, key, op)
    ensures AcceptancesRecorded(v)
  {
    StepFrame(c, u, v, h, key, op);
  }

  lemma AcceptorStateInductive(c: Constants, u: Variables, v: Variables, h: nat, key: nat, op: H.NetworkOperation)
    requires AcceptorState(u)
    requires HostStep(c, u, v, h, key, op)
    ensures AcceptorState(v)
  {
    StepFrame(c, u, v, h, key, op);
    if HasInstance(u, h, key) {
      var i1, i2 := Inst(u, h, key), Inst(v, h, key);
      if i2.acceptBallot == i1.acceptBallot && i1.acceptBallot.Some? {
        H.CmpTransitive(i1.acceptBallot.value, i1.currentBallot, i2.currentBallot);
      }
    }
  }

  lemma PrepareMessagesInductive(c: Constants, u: Variables, v: Variables, h: nat, key: nat, op: H.NetworkOperation)
    requires PrepareMessages(u)
    requires HostStep(c, u, v, h, key, op)
    ensures PrepareMessages(v)
  {
    StepFrame(c, u, v, h, key, op);
  }

  lemma AcceptMessagesInductive(c: Constants, u: Variables, v: Variables, h: nat, key: nat, op: H.NetworkOperation)
    requires AcceptMessages(u) && OwnBallots(u)
    requires HostStep(c, u, v, h, key, op)
    ensures AcceptMessages(v)
  {
    StepFrame(c, u, v, h, key, op);
  }

  lemma PromiseMessagesInductive(c: Constants, u: Variables, v: Variables, h: nat, key: nat, op: H.NetworkOperation)
    requires PromiseMessages(u) && AcceptorState(u)
    requires HostStep(c, u, v, h, key, op)
    ensures PromiseMessages(v)
  {
    StepFrame(c, u, v, h, key, op);
    forall m | m in v.network && m.Promise?
      ensures HasInstance(v, m.sender, m.key)
      ensures H.Cmp(m.ballot, Inst(v, m.sender, m.key).currentBallot) <= 0
      ensures m.accepted.Some? ==>
                && H.Cmp(m.accepted.value.0, m.ballot) < 0
                && H.Accept(m.key, m.accepted.value.0, m.accepted.value.1) in v.network
    {
      if m in u.network {
        H.CmpTransitive(m.ballot, Inst(u, m.sender, m.key).currentBallot, Inst(v, m.sender, m.key).currentBallot);
      } else {
        assert H.PromiseStep(c.hosts[h], u.hosts[h], v.hosts[h], key, op);
        var inst := Inst(u, h, key);
        if inst.acceptBallot.Some? {
          H.CmpTransitive(inst.acceptBallot.value, inst.currentBallot, m.ballot);
        }
      }
    }
  }

  lemma PromiseReportsHighestInductive(c: Constants, u: Variables, v: Variables, h: nat, key: nat, op: H.NetworkOperation)
    requires PromiseReportsHighest(u) && PromiseMessages(u) && AcceptedMessages(u)
    requires HostStep(c, u, v, h, key, op)
    ensures PromiseReportsHighest(v)
  {
    StepFrame(c, u, v, h, key, op);
    if H.AcceptStep(c.hosts[h], u.hosts[h], v.hosts[h], key, op) {
      // The new acknowledgement's ballot is at least every ballot its sender promised.
      var inst := Inst(u, h, key);
      var b := op.recv.value.ballot;
      forall p | p in u.network && p.Promise? && p.sender == h && p.key == key
        ensures H.Cmp(b, p.ballot) >= 0
      {
        H.CmpAntisymmetric(b, inst.currentBallot);
        H.CmpTransitive(p.ballot, inst.currentBallot, b);
        H.CmpAntisymmetric(p.ballot, b);
      }
    }
  }

  lemma AcceptedMessagesInductive(c: Constants, u: Variables, v: Variables, h: nat, key: nat, op: H.NetworkOperation)
    requires AcceptedMessages(u) && AcceptorState(u)
    requires HostStep(c, u, v, h, key, op)
    ensures AcceptedMessages(v)
  {
    StepFrame(c, u, v, h, key, op);
    if H.AcceptStep(c.hosts[h], u.hosts[h], v.hosts[h], key, op) {
      var inst := Inst(u, h, key);
      var b := op.recv.value.ballot;
      if inst.acceptBallot.Some? {
        H.CmpAntisymmetric(b, inst.currentBallot);
        H.CmpTransitive(inst.acceptBallot.value, inst.currentBallot, b);
        forall m | m in u.network && m.Accepted? && m.sender == h && m.key == key
          ensures H.Cmp(m.ballot, b) <= 0
        {
          H.CmpTransitive(m.ballot, inst.acceptBallot.value, b);
        }
      }
    }
  }

  lemma AcceptedProposedInductive(c: Constants, u: Variables, v: Variables, h: nat, key: nat, op: H.NetworkOperation)
    requires AcceptedProposed(u) && AcceptMessages(u)
    requires HostStep(c, u, v, h, key, op)
    ensures AcceptedProposed(v)
  {
    StepFrame(c, u, v, h, key, op);
  }

  lemma DecideMessagesInductive(c: Constants, u: Variables, v: Variables, h: nat, key: nat, op: H.NetworkOperation)
    requires DecideMessages(c, u) && OwnBallots(u) && ProposalsSafe(c, u)
    requires HostStep(c, u, v, h, key, op)
    ensures DecideMessages(c, v)
  {
    StepFrame(c, u, v, h, key, op);
    forall m | m in u.network && m.Decide?
      ensures |Inst(u, m.ballot.pid, m.key).accepted[m.ballot]| <= |Inst(v, m.ballot.pid, m.key).accepted[m.ballot]|
    {
      H.SubsetSize(Inst(u, m.ballot.pid, m.key).accepted[m.ballot], Inst(v, m.ballot.pid, m.key).accepted[m.ballot]);
    }
  }

  lemma DecisionsAnnouncedInductive(c: Constants, u: Variables, v: Variables, h: nat, key: nat, op: H.NetworkOperation)
    requires DecisionsAnnounced(u)
    requires HostStep(c, u, v, h, key, op)
    ensures DecisionsAnnounced(v)
  {
    StepFrame(c, u, v, h, key, op);
    if H.DecideStep(c.hosts[h], u.hosts[h], v.hosts[h], key, op) {
      assert H.Decide(key, op.recv.value.ballot, op.recv.value.value) in v.network;
    }
  }

  lemma SelfPromisedInductive(c: Constants, u: Variables, v: Variables, h: nat, key: nat, op: H.NetworkOperation)
    requires SelfPromised(u) && OwnBallots(u) && ProposalsSafe(c, u) && AcceptMessages(u) && DecideMessages(c, u)
    requires HostStep(c, u, v, h, key, op)
    ensures SelfPromised(v)
  {
    StepFrame(c, u, v, h, key, op);
    forall a: nat, k: nat, b |
      (HasInstance(v, a, k) && b in Inst(v, a, k).promised &&
       (b == Inst(v, a, k).currentBallot || b in Inst(v, a, k).proposedValue))
      ensures exists r :: H.Promise(k, a, b, r) in v.network
    {
      if a != h || k != key {
        var r :| H.Promise(k, a, b, r) in u.network;
        assert H.Promise(k, a, b, r) in v.network;
      } else if !HasInstance(u, h, key) {
        // init_request: a fresh instance holds no rounds.
        assert false;
      } else {
        var i1, i2 := Inst(u, h, key), Inst(v, h, key);
        // An Accept or Decide received for one of h's own rounds is for a round h proposed.
        if H.AcceptStep(c.hosts[h], u.hosts[h], v.hosts[h], key, op) ||
           H.DecideStep(c.hosts[h], u.hosts[h], v.hosts[h], key, op) {
          var m := op.recv.value;
          if m.ballot in i1.promised {
            assert m.ballot.pid == h;
          }
        }
        if b in i1.promised && (b == i1.currentBallot || b in i1.proposedValue) {
          var r :| H.Promise(k, a, b, r) in u.network;
          assert H.Promise(k, a, b, r) in v.network;
        } else if H.PromiseStep(c.hosts[h], u.hosts[h], v.hosts[h], key, op) {
          assert op.send.value == H.Promise(k, a, b, H.Reported(i1));
        } else {
          // Every other action keeps h's current ballot on a round it held
          // before, or proposes at the current ballot, or adds a round that is
          // neither current nor proposed.
          assert false;
        }
      }
    }
  }

  /** Inv is inductive: every host step preserves it. */
  lemma InvInductive(c: Constants, u: Variables, v: Variables, h: nat, key: nat, op: H.NetworkOperation)
    requires Inv(c, u)
    requires HostStep(c, u, v, h, key, op)
    ensures Inv(c, v)
  {
    OwnBallotsInductive(c, u, v, h, key, op);
    ProposalsSafeInductive(c, u, v, h, key, op);
    PromisesRecordedInductive(c, u, v, h, key, op);
    AcceptancesRecordedInductive(c, u, v, h, key, op);
    AcceptorStateInductive(c, u, v, h, key, op);
    PrepareMessagesInductive(c, u, v, h, key, op);
    AcceptMessagesInductive(c, u, v, h, key, op);
    PromiseMessagesInductive(c, u, v, h, key, op);
    PromiseReportsHighestInductive(c, u, v, h, key, op);
    AcceptedMessagesInductive(c, u, v, h, key, op);
    AcceptedProposedInductive(c, u, v, h, key, op);
    DecideMessagesInductive(c, u, v, h, key, op);
    DecisionsAnnouncedInductive(c, u, v, h, key, op);
    SelfPromisedInductive(c, u, v, h, key, op);
  }

  lemma NextPreservesInv(c: Constants, u: Variables, v: Variables)
    requires Inv(c, u)
    requires Next(c, u, v)
    ensures Inv(c, v)
  {
    var h: nat, key: nat, op: H.NetworkOperation :| HostStep(c, u, v, h, key, op);
    InvInductive(c, u, v, h, key, op);
  }

  // ---------------------------------------------------------------------
  // Safety.
  // ---------------------------------------------------------------------

  /**
   * Ballot b of instance k is chosen by the hosts in q: more than numFailures
   * of them sent an acknowledgement of b, whether or not b's proposer has
   * recorded those acknowledgements yet.
   */
  ghost predicate Chosen(c: Constants, u: Variables, k: nat, b: H.Ballot, q: set<nat>) {
    && |q| > c.numFailures
    && forall s :: s in q ==> H.Accepted(k, s, b) in u.network
  }

  /** The responders of a round's promise quorum are hosts of the system. */
  lemma PromisersAreHosts(c: Constants, u: Variables, p: nat, k: nat, b: H.Ballot)
    requires u.WellFormed(c) && PromisesRecorded(u) && PromiseMessages(u)
    requires HasInstance(u, p, k) && b in Inst(u, p, k).promised
    ensures forall s :: s in Inst(u, p, k).promised[b].Keys ==> s < c.numHosts
  {
    var rs := Inst(u, p, k).promised[b];
    forall s | s in rs.Keys ensures s < c.numHosts {
      assert H.Promise(k, s, b, rs[s]) in u.network;
    }
  }

  /** The hosts acknowledging a ballot are hosts of the system. */
  lemma AcknowledgersAreHosts(c: Constants, u: Variables, k: nat, b: H.Ballot, q: set<nat>)
    requires u.WellFormed(c) && AcceptedMessages(u)
    requires forall s :: s in q ==> H.Accepted(k, s, b) in u.network
    ensures forall s :: s in q ==> s < c.numHosts
  {
    forall s | s in q ensures s < c.numHosts {
      assert H.Accepted(k, s, b) in u.network;
    }
  }

  /**
   * One step down: if ballot b is chosen and a higher ballot `later` carries
   * value val, some ballot in [b, later) was accepted with val. The promise
   * quorum of `later` and the acknowledging quorum of b share a host, whose
   * promise reported an acceptance at least b; the highest such report fixed val.
   */
  lemma LowerAcceptWithSameValue(c: Constants, u: Variables, k: nat, b: H.Ballot, q: set<nat>, later: H.Ballot, val: H.Value)
      returns (lower: H.Ballot)
    requires Inv(c, u)
    requires Chosen(c, u, k, b, q)
    requires H.Accept(k, later, val) in u.network
    requires H.Cmp(b, later) < 0
    ensures H.Cmp(b, lower) <= 0 && H.Cmp(lower, later) < 0
    ensures H.Accept(k, lower, val) in u.network
  {
    var p := later.pid;
    var inst := Inst(u, p, k);
    assert ProposalSound(c, u.network, p, k, inst, later);
    var rs := inst.promised[later];
    PromisersAreHosts(c, u, p, k, later);
    AcknowledgersAreHosts(c, u, k, b, q);
    H.QuorumIntersection(c.numHosts, c.numFailures, rs.Keys, q);
    var a :| a in rs.Keys * q;
    assert H.Promise(k, a, later, rs[a]) in u.network;
    assert H.Accepted(k, a, b) in u.network;
    var s :| s in rs && H.IsHighestReport(rs, s) && rs[s].value.1 == val;
    lower := rs[s].value.0;
    H.CmpTransitive(b, rs[a].value.0, lower);
    assert H.Promise(k, s, later, rs[s]) in u.network;
  }

  /**
   * Once ballot b is chosen, b's proposer has fixed a value for it and every
   * Accept for the same instance with a ballot at least b carries that value.
   */
  lemma {:induction false} ChosenValueCarriesForward(c: Constants, u: Variables, k: nat, b: H.Ballot, q: set<nat>, later: H.Ballot, val: H.Value)
    requires Inv(c, u)
    requires Chosen(c, u, k, b, q)
    requires H.Accept(k, later, val) in u.network
    requires H.Cmp(b, later) <= 0
    ensures HasInstance(u, b.pid, k) && b in Inst(u, b.pid, k).proposedValue
    ensures val == Inst(u, b.pid, k).proposedValue[b]
    decreases later.num, later.pid
  {
    var s :| s in q;
    assert H.Accepted(k, s, b) in u.network;
    if later != b {
      var lower := LowerAcceptWithSameValue(c, u, k, b, q, later, val);
      ChosenValueCarriesForward(c, u, k, b, q, lower, val);
    }
  }

  /** The quorum a Decide's proposer recorded for its ballot chose that ballot. */
  lemma DecidedBallotIsChosen(c: Constants, u: Variables, d: H.Message)
    requires Inv(c, u)
    requires d in u.network && d.Decide?
    ensures Chosen(c, u, d.key, d.ballot, Inst(u, d.ballot.pid, d.key).accepted[d.ballot])
  {
    var q := Inst(u, d.ballot.pid, d.key).accepted[d.ballot];
    forall s | s in q ensures H.Accepted(d.key, s, d.ballot) in u.network {
    }
  }

  /** Two Decide messages for the same instance carry the same value. */
  lemma DecideMessagesAgree(c: Constants, u: Variables, d1: H.Message, d2: H.Message)
    requires Inv(c, u)
    requires d1 in u.network && d2 in u.network && d1.Decide? && d2.Decide? && d1.key == d2.key
    ensures d1.value == d2.value
  {
    var k := d1.key;
    if H.Cmp(d1.ballot, d2.ballot) <= 0 {
      assert ProposalSound(c, u.network, d2.ballot.pid, k, Inst(u, d2.ballot.pid, k), d2.ballot);
      DecidedBallotIsChosen(c, u, d1);
      ChosenValueCarriesForward(c, u, k, d1.ballot, Inst(u, d1.ballot.pid, k).accepted[d1.ballot], d2.ballot, d2.value);
    } else {
      H.CmpAntisymmetric(d1.ballot, d2.ballot);
      assert ProposalSound(c, u.network, d1.ballot.pid, k, Inst(u, d1.ballot.pid, k), d1.ballot);
      DecidedBallotIsChosen(c, u, d2);
      ChosenValueCarriesForward(c, u, k, d2.ballot, Inst(u, d2.ballot.pid, k).accepted[d2.ballot], d1.ballot, d1.value);
    }
  }

  /** Agreement: two hosts that decided the same instance decided the same value. */
  lemma Agreement(c: Constants, u: Variables, a1: nat, a2: nat, k: nat)
    requires Inv(c, u)
    requires HasInstance(u, a1, k) && HasInstance(u, a2, k)
    requires Inst(u, a1, k).decideValue.Some? && Inst(u, a2, k).decideValue.Some?
    ensures Inst(u, a1, k).decideValue == Inst(u, a2, k).decideValue
  {
    var v1, v2 := Inst(u, a1, k).decideValue.value, Inst(u, a2, k).decideValue.value;
    var b1 :| H.Decide(k, b1, v1) in u.network;
    var b2 :| H.Decide(k, b2, v2) in u.network;
    DecideMessagesAgree(c, u, H.Decide(k, b1, v1), H.Decide(k, b2, v2));
  }

  /** A decided value never changes: a host may learn a decision again, but always the same one. */
  lemma DecisionIsStable(c: Constants, u: Variables, v: Variables, h: nat, key: nat, op: H.NetworkOperation, a: nat, k: nat)
    requires Inv(c, u)
    requires HostStep(c, u, v, h, key, op)
    requires HasInstance(u, a, k) && Inst(u, a, k).decideValue.Some?
    ensures HasInstance(v, a, k) && Inst(v, a, k).decideValue == Inst(u, a, k).decideValue
  {
    StepFrame(c, u, v, h, key, op);
    H.StepMonotone(c.hosts[h], u.hosts[h], v.hosts[h], key, op);
    if a == h && k == key && H.DecideStep(c.hosts[h], u.hosts[h], v.hosts[h], key, op) {
      var old_ := Inst(u, a, k).decideValue.value;
      var b :| H.Decide(k, b, old_) in u.network;
      DecideMessagesAgree(c, u, H.Decide(k, b, old_), op.recv.value);
    }
  }

  /**
   * No host reuses a ballot: the Prepare that send_prepare puts on the network
   * is new, and its ballot names the sending host.
   */
  lemma SendPrepareIsFresh(c: Constants, u: Variables, v: Variables, h: nat, key: nat, op: H.NetworkOperation)
    requires Inv(c, u)
    requires HostStep(c, u, v, h, key, op)
    requires H.SendPrepareStep(c.hosts[h], u.hosts[h], v.hosts[h], key, op)
    ensures op.send.Some? && op.send.value !in u.network
    ensures op.send.value.ballot.pid == h
  {
  }

  /**
   * A proposer only proposes after promising its own Prepare: the ballot of the
   * Accept that send_accept puts on the network is the host's own, and the
   * host's own Promise for that ballot is already on the network.
   */
  lemma SendAcceptFollowsOwnPromise(c: Constants, u: Variables, v: Variables, h: nat, key: nat, op: H.NetworkOperation)
    requires Inv(c, u)
    requires HostStep(c, u, v, h, key, op)
    requires H.SendAcceptStep(c.hosts[h], u.hosts[h], v.hosts[h], key, op)
    ensures op.send.Some? && op.send.value.Accept? && op.send.value.ballot.pid == h
    ensures exists r :: H.Promise(key, h, op.send.value.ballot, r) in u.network
  {
    var b := Inst(u, h, key).currentBallot;
    assert b in Inst(u, h, key).promised;
  }
}
