/**
 * Two-phase commit as a composition of state machines
 * (src/distributed_system/coordinator.rs, src/distributed_system/mod.rs).
 *
 * The coordinator asks for votes, records each host's vote, and decides
 * Commit exactly when every recorded vote is Yes. Hosts answer with their
 * fixed vote and adopt the decision they receive. The network only ever adds
 * messages. Host ids and `num_hosts` are `int` in the source and stay `int`.
 */
module TwoPhaseCommitTypes {
  import opened Wrappers

  datatype Vote = Yes | No

  datatype Decision = Commit | Abort

  datatype Message =
    | VoteRequest
    | VoteMsg(sender: int, vote: Vote)
    | DecisionMsg(decision: Decision)

  datatype MessageOps = MessageOps(send: Option<Message>, recv: Option<Message>)
}

/** The coordinator of src/distributed_system/coordinator.rs. */
module TwoPhaseCoordinator {
  import opened Wrappers
  import opened TwoPhaseCommitTypes

  datatype Constants = Constants(numHosts: int) {
    predicate WellFormed(n: int) {
      numHosts == n
    }
  }

  datatype Variables = Variables(decision: Option<Decision>, votes: seq<Option<Vote>>) {
    predicate WellFormed(c: Constants, n: int) {
      c.WellFormed(n) && |votes| == n
    }
  }

  predicate Init(c: Constants, u: Variables, n: int) {
    && u.WellFormed(c, n)
    && u.decision.None?
    && forall i :: 0 <= i < |u.votes| ==> u.votes[i].None?
  }

  predicate AllVotesCollected(c: Constants, u: Variables) {
    && u.WellFormed(c, c.numHosts)
    && forall i :: 0 <= i < |u.votes| ==> u.votes[i].Some?
  }

  /** The decision a full set of votes calls for (what it means is stated by DecideEffect). */
  function Tally(votes: seq<Option<Vote>>): Decision {
    if forall i :: 0 <= i < |votes| ==> votes[i] == Some(Yes) then Commit else Abort
  }

  predicate SendVoteRequest(c: Constants, u: Variables, v: Variables, ops: MessageOps) {
    && u.WellFormed(c, c.numHosts)
    && ops.recv.None?
    && ops.send == Some(VoteRequest)
    && v == u
    && v.WellFormed(c, c.numHosts)
  }

  predicate LearnVote(c: Constants, u: Variables, v: Variables, ops: MessageOps) {
    && u.WellFormed(c, c.numHosts)
    && v.WellFormed(c, c.numHosts)
    && ops.send.None?
    && ops.recv.Some? && ops.recv.value.VoteMsg?
    && var sender := ops.recv.value.sender;
       && 0 <= sender < c.numHosts
       && v.votes[sender] == Some(ops.recv.value.vote)
       && (forall i :: 0 <= i < |v.votes| && i != sender ==> v.votes[i] == u.votes[i])
       && v.decision == u.decision
  }

  predicate Decide(c: Constants, u: Variables, v: Variables, ops: MessageOps) {
    && u.WellFormed(c, c.numHosts)
    && v.WellFormed(c, c.numHosts)
    && AllVotesCollected(c, u)
    && ops.recv.None?
    && var decision := Tally(u.votes);
       && v.votes == u.votes
       && v.decision == Some(decision)
       && ops.send == Some(DecisionMsg(decision))
  }

  predicate Step(c: Constants, u: Variables, v: Variables, ops: MessageOps) {
    || SendVoteRequest(c, u, v, ops)
    || LearnVote(c, u, v, ops)
    || Decide(c, u, v, ops)
  }

  /** Learning a vote overwrites exactly the sender's slot and sends nothing. */
  lemma LearnVoteEffect(c: Constants, u: Variables, v: Variables, ops: MessageOps)
    requires LearnVote(c, u, v, ops)
    ensures 0 <= ops.recv.value.sender < |u.votes|
    ensures v.votes == u.votes[ops.recv.value.sender := Some(ops.recv.value.vote)]
    ensures v.decision == u.decision && ops.send == None
  {
  }

  /**
   * Deciding needs every vote, keeps the votes, decides Commit exactly when
   * every vote is Yes, and announces that same decision.
   */
  lemma DecideEffect(c: Constants, u: Variables, v: Variables, ops: MessageOps)
    requires Decide(c, u, v, ops)
    ensures forall i :: 0 <= i < |u.votes| ==> u.votes[i].Some?
    ensures v.votes == u.votes && v.decision.Some?
    ensures v.decision == Some(Commit) <==> forall i :: 0 <= i < |u.votes| ==> u.votes[i] == Some(Yes)
    ensures ops.send == Some(DecisionMsg(v.decision.value))
  {
  }

  /** The three coordinator actions are told apart by what they send, so a step is exactly one of them. */
  lemma StepIsExactlyOneAction(c: Constants, u: Variables, v: Variables, ops: MessageOps)
    requires Step(c, u, v, ops)
    ensures SendVoteRequest(c, u, v, ops) ==> !LearnVote(c, u, v, ops) && !Decide(c, u, v, ops)
    ensures LearnVote(c, u, v, ops) ==> !Decide(c, u, v, ops)
  {
  }
}

/**
 * A participant (src/distributed_system/host.rs). That file defines the
 * participant's state and `init` but not the `step` that
 * src/distributed_system/mod.rs:79 calls; the step is reconstructed here as the
 * two host actions of two-phase commit: answer a vote request with the host's
 * fixed vote, and adopt a received decision.
 */
module TwoPhaseHost {
  import opened Wrappers
  import opened TwoPhaseCommitTypes

  datatype Constants = Constants(id: int, vote: Vote) {
    predicate WellFormed(hostId: int) {
      hostId >= 0 && id == hostId
    }
  }

  datatype Variables = Variables(decision: Option<Decision>) {
    predicate WellFormed(c: Constants, hostId: int) {
      c.WellFormed(hostId)
    }
  }

  predicate Init(c: Constants, u: Variables, hostId: int) {
    u.WellFormed(c, hostId) && u.decision.None?
  }

  predicate SendVote(c: Constants, u: Variables, v: Variables, ops: MessageOps) {
    && ops.recv == Some(VoteRequest)
    && ops.send == Some(VoteMsg(c.id, c.vote))
    && v == u
  }

  predicate LearnDecision(c: Constants, u: Variables, v: Variables, ops: MessageOps) {
    && ops.recv.Some? && ops.recv.value.DecisionMsg?
    && ops.send.None?
    && v.decision == Some(ops.recv.value.decision)
  }

  predicate Step(c: Constants, u: Variables, v: Variables, ops: MessageOps) {
    SendVote(c, u, v, ops) || LearnDecision(c, u, v, ops)
  }
}

/** The composed system of src/distributed_system/mod.rs and its safety argument. */
module TwoPhaseCommit {
  import opened Wrappers
  import opened TwoPhaseCommitTypes
  import Co = TwoPhaseCoordinator
  import Ho = TwoPhaseHost

  /**
   * The network of src/distributed_system/network.rs: the set of every
   * message ever sent. That file does not define the `step` that
   * src/distributed_system/mod.rs:70 and :82 call; here the step delivers only
   * messages that were sent and adds the sent one.
   */
  datatype NetworkVariables = NetworkVariables(sentMessages: set<Message>)

  predicate NetworkInit(u: NetworkVariables) {
    u.sentMessages == {}
  }

  predicate NetworkStep(u: NetworkVariables, v: NetworkVariables, ops: MessageOps) {
    && (ops.recv.Some? ==> ops.recv.value in u.sentMessages)
    && v.sentMessages == u.sentMessages + (if ops.send.Some? then {ops.send.value} else {})
  }

  datatype Constants = Constants(numHosts: int, coordinator: Co.Constants, hosts: seq<Ho.Constants>) {
    predicate WellFormed() {
      numHosts > 0 && |hosts| == numHosts
    }
  }

  datatype Variables = Variables(coordinator: Co.Variables, hosts: seq<Ho.Variables>, network: NetworkVariables) {
    predicate WellFormed(c: Constants) {
      && c.WellFormed()
      && |hosts| == |c.hosts|
      && coordinator.WellFormed(c.coordinator, c.numHosts)
      && forall idx :: 0 <= idx < |hosts| ==> hosts[idx].WellFormed(c.hosts[idx], idx)
    }
  }

  predicate Init(c: Constants, u: Variables) {
    && u.WellFormed(c)
    && Co.Init(c.coordinator, u.coordinator, c.numHosts)
    && (forall idx :: 0 <= idx < |u.hosts| ==> Ho.Init(c.hosts[idx], u.hosts[idx], idx))
    && NetworkInit(u.network)
  }

  datatype Transition =
    | CoordinatorStep(ops: MessageOps)
    | HostStep(hostId: int, ops: MessageOps)

  predicate CoordinatorStepRel(c: Constants, u: Variables, v: Variables, ops: MessageOps) {
    && u.WellFormed(c)
    && Co.Step(c.coordinator, u.coordinator, v.coordinator, ops)
    && v.hosts == u.hosts
    && NetworkStep(u.network, v.network, ops)
    && v.WellFormed(c)
  }

  predicate HostStepRel(c: Constants, u: Variables, v: Variables, hostId: int, ops: MessageOps) {
    && u.WellFormed(c)
    && v.WellFormed(c)
    && v.coordinator == u.coordinator
    && 0 <= hostId < |u.hosts|
    && Ho.Step(c.hosts[hostId], u.hosts[hostId], v.hosts[hostId], ops)
    && (forall i :: 0 <= i < |v.hosts| && i != hostId ==> u.hosts[i] == v.hosts[i])
    && NetworkStep(u.network, v.network, ops)
  }

  predicate IsValidTransition(c: Constants, u: Variables, v: Variables, t: Transition) {
    match t
    case CoordinatorStep(ops) => CoordinatorStepRel(c, u, v, ops)
    case HostStep(hostId, ops) => HostStepRel(c, u, v, hostId, ops)
  }

  ghost predicate Next(c: Constants, u: Variables, v: Variables) {
    exists t :: IsValidTransition(c, u, v, t)
  }

  /** A Commit decision means every vote is Yes, and every host that decided agrees with the coordinator. */
  predicate Safety(c: Constants, u: Variables) {
    && u.WellFormed(c)
    && (u.coordinator.decision == Some(Commit) ==>
          forall i :: 0 <= i < |u.coordinator.votes| ==> u.coordinator.votes[i] == Some(Yes))
    && forall i :: 0 <= i < |u.hosts| && u.hosts[i].decision.Some? ==>
         u.hosts[i].decision == u.coordinator.decision
  }

  predicate VoteMessageAgreesWithVote(c: Constants, u: Variables) {
    forall m :: m in u.network.sentMessages && m.VoteMsg? ==>
      0 <= m.sender < |c.hosts| && m.vote == c.hosts[m.sender].vote
  }

  predicate DecisionMessageAgreesWithDecision(c: Constants, u: Variables) {
    forall m :: m in u.network.sentMessages && m.DecisionMsg? ==>
      u.coordinator.decision == Some(m.decision)
  }

  predicate VoteHasVoteMessage(c: Constants, u: Variables) {
    forall i :: 0 <= i < |u.coordinator.votes| && u.coordinator.votes[i].Some? ==>
      VoteMsg(i, u.coordinator.votes[i].value) in u.network.sentMessages
  }

  /** The invariant as the source states it: safety plus three message-agreement conjuncts. */
  predicate Inductive(c: Constants, u: Variables) {
    && u.WellFormed(c)
    && VoteMessageAgreesWithVote(c, u)
    && DecisionMessageAgreesWithDecision(c, u)
    && VoteHasVoteMessage(c, u)
    && Safety(c, u)
  }

  lemma InitImpliesInductive(c: Constants, u: Variables)
    requires Init(c, u)
    ensures Inductive(c, u)
  {
  }

  lemma InductiveImpliesSafety(c: Constants, u: Variables)
    requires Inductive(c, u)
    ensures Safety(c, u)
  {
  }

  /**
   * The source's invariant is not inductive: `decide` may run again, and
   * nothing in `Inductive` ties an earlier decision to the votes. Here one
   * host voted Yes, the coordinator holds that vote next to a recorded Abort
   * (already announced), and deciding again commits while the Abort message
   * and the host's Abort remain.
   */
  lemma InductiveNotPreserved() returns (c: Constants, u: Variables, v: Variables)
    ensures Inductive(c, u) && Next(c, u, v) && !Inductive(c, v)
  {
    c := Constants(1, Co.Constants(1), [Ho.Constants(0, Yes)]);
    var sent := {VoteMsg(0, Yes), DecisionMsg(Abort)};
    u := Variables(Co.Variables(Some(Abort), [Some(Yes)]), [Ho.Variables(Some(Abort))], NetworkVariables(sent));
    v := Variables(Co.Variables(Some(Commit), [Some(Yes)]), [Ho.Variables(Some(Abort))],
                   NetworkVariables(sent + {DecisionMsg(Commit)}));
    var ops := MessageOps(Some(DecisionMsg(Commit)), None);
    assert Co.Decide(c.coordinator, u.coordinator, v.coordinator, ops);
    assert IsValidTransition(c, u, v, CoordinatorStep(ops));
    assert DecisionMsg(Abort) in v.network.sentMessages;
  }

  // ---------------------------------------------------------------------
  // The corrected invariant: a recorded decision is the tally of a full
  // set of votes.
  // ---------------------------------------------------------------------

  predicate DecisionMatchesVotes(c: Constants, u: Variables) {
    u.coordinator.decision.Some? ==>
      && (forall i :: 0 <= i < |u.coordinator.votes| ==> u.coordinator.votes[i].Some?)
      && u.coordinator.decision == Some(Co.Tally(u.coordinator.votes))
  }

  predicate StrongInductive(c: Constants, u: Variables) {
    Inductive(c, u) && DecisionMatchesVotes(c, u)
  }

  lemma InitImpliesStrongInductive(c: Constants, u: Variables)
    requires Init(c, u)
    ensures StrongInductive(c, u)
  {
  }

  lemma StrongInductiveImpliesSafety(c: Constants, u: Variables)
    requires StrongInductive(c, u)
    ensures Safety(c, u)
  {
  }

  /** Once a vote is recorded it is the sender's own vote, so learning it again changes nothing. */
  lemma RecordedVoteIsHostVote(c: Constants, u: Variables, i: int)
    requires Inductive(c, u) && 0 <= i < |u.coordinator.votes| && u.coordinator.votes[i].Some?
    ensures u.coordinator.votes[i] == Some(c.hosts[i].vote)
  {
    assert VoteMsg(i, u.coordinator.votes[i].value) in u.network.sentMessages;
  }

  lemma LearnVoteKeepsStrongInductive(c: Constants, u: Variables, v: Variables, ops: MessageOps)
    requires StrongInductive(c, u) && CoordinatorStepRel(c, u, v, ops) && Co.LearnVote(c.coordinator, u.coordinator, v.coordinator, ops)
    ensures StrongInductive(c, v)
  {
    var s, vt := ops.recv.value.sender, ops.recv.value.vote;
    Co.LearnVoteEffect(c.coordinator, u.coordinator, v.coordinator, ops);
    assert vt == c.hosts[s].vote;
    if u.coordinator.votes[s].Some? {
      RecordedVoteIsHostVote(c, u, s);
      assert v.coordinator.votes == u.coordinator.votes;
      assert v.coordinator == u.coordinator;
    } else {
      assert u.coordinator.decision.None?;
      forall i | 0 <= i < |v.coordinator.votes| && v.coordinator.votes[i].Some?
        ensures VoteMsg(i, v.coordinator.votes[i].value) in v.network.sentMessages
      {
        if i != s {
          assert u.coordinator.votes[i] == v.coordinator.votes[i];
        }
      }
    }
  }

  lemma DecideKeepsStrongInductive(c: Constants, u: Variables, v: Variables, ops: MessageOps)
    requires StrongInductive(c, u) && CoordinatorStepRel(c, u, v, ops) && Co.Decide(c.coordinator, u.coordinator, v.coordinator, ops)
    ensures StrongInductive(c, v)
  {
    Co.DecideEffect(c.coordinator, u.coordinator, v.coordinator, ops);
    if u.coordinator.decision.Some? {
      assert v.coordinator == u.coordinator;
    }
  }

  lemma HostStepKeepsStrongInductive(c: Constants, u: Variables, v: Variables, hostId: int, ops: MessageOps)
    requires StrongInductive(c, u) && HostStepRel(c, u, v, hostId, ops)
    ensures StrongInductive(c, v)
  {
    if Ho.SendVote(c.hosts[hostId], u.hosts[hostId], v.hosts[hostId], ops) {
      assert c.hosts[hostId].id == hostId;
    } else {
      assert ops.recv.value in u.network.sentMessages;
      forall i | 0 <= i < |v.hosts| && v.hosts[i].decision.Some?
        ensures v.hosts[i].decision == v.coordinator.decision
      {
        if i != hostId {
          assert u.hosts[i] == v.hosts[i];
        }
      }
    }
  }

  /** The corrected invariant is preserved by every step of the system. */
  lemma StrongInductiveNext(c: Constants, u: Variables, v: Variables)
    requires StrongInductive(c, u) && Next(c, u, v)
    ensures StrongInductive(c, v)
  {
    var t :| IsValidTransition(c, u, v, t);
    match t
    case CoordinatorStep(ops) =>
      if Co.SendVoteRequest(c.coordinator, u.coordinator, v.coordinator, ops) {
        assert v.coordinator == u.coordinator;
      } else if Co.LearnVote(c.coordinator, u.coordinator, v.coordinator, ops) {
        LearnVoteKeepsStrongInductive(c, u, v, ops);
      } else {
        DecideKeepsStrongInductive(c, u, v, ops);
      }
    case HostStep(hostId, ops) =>
      HostStepKeepsStrongInductive(c, u, v, hostId, ops);
  }
}
