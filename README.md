# Verified model of a multi-instance Paxos system and three small state machines

This Dafny project models the distributed-systems core of a Rust/Verus
repository and proves its properties.

## Paxos (Synod)

The main part is multi-instance Paxos. Every host runs one consensus instance per key and is proposer, acceptor and learner at once.

- **`PaxosHost`** (`paxos_host.dfy`) holds the abstract per-instance state and the host actions:
  - ballots ordered lexicographically;
  - `current_ballot`, `promised`, `proposed_value`, `accepted`, `accept_ballot`/`accept_value` and `decide_value`;
  - nine actions, written as relations on the host state and the network operation.
- **`PaxosProtocol`** (`paxos_protocol.dfy`) composes the hosts with an append-only set of in-flight messages. It proves an inductive invariant, and from it:
  - agreement: two hosts that decided an instance decided the same value;
  - stability of decisions.
- **`ImplHost`** (`impl_host.dfy`) is the executable host state over machine integers and hash maps, with its `into_spec` abstraction.
- **`ImplMessage`** (`impl_message.dfy`) holds the executable messages, their abstraction, the partial inverse `from_spec` and the in-flight set.
- **`ImplHostActions`** (`impl_host_actions.dfy`) holds the executable host operations. `NewHost` builds a host with no instances, `NewInstance` the empty instance, and `NextInstance` leaves the abstraction unchanged. `InitRequest`, `SendPrepare`, `Promise`, `Promised` and `SendAccept` are each proved to abstract to the `PaxosHost` action of the same name. The Phase 2(a) value choice of `send_accept` is a loop over the promise quorum's reports.
- **`ImplSystem`** (`impl_system.dfy`) is the system driver as a `class System`. It has an array of host states and a set of in-flight messages. Each method:
  - updates them in place;
  - is specified by the protocol action it performs on the abstract state;
  - keeps the protocol invariant.

## The three small state machines

- **`RingElection`** (`ring_election.dfy`): max-id leader election on a ring. The inductive invariant is proved from start to end, and it implies that at most one host elects itself.
- **Two-phase commit** (`two_phase_commit.dfy`): the modules `TwoPhaseCommitTypes`, `TwoPhaseCoordinator`, `TwoPhaseHost` and `TwoPhaseCommit`.
  - The repository's invariant holds initially and implies safety, but a step does not preserve it; see "## Findings".
  - A strengthened invariant is proved inductive.
- **Token counter** (`token_counter.dfy`): the modules `CounterSpec`, `TokenHost` and `TokenCounter`.
  - `CounterSpec` is the abstract counter.
  - `TokenCounter` is the token-passing composition that refines it.

`wrappers.dfy` holds the `Option` type shared by all modules.

## Model

| member | source | states |
|---|---|---|
| PaxosHost.Cmp | src/distributed_system/low_level/host.rs:11-23 | returns -1, 0 or 1; 0 exactly when both ballots are equal; 1 exactly when `num` is larger, or `num` ties and `pid` is larger |
| PaxosHost.CmpAntisymmetric | src/distributed_system/low_level/host.rs:11-23 | `cmp(a,b) == -cmp(b,a)` |
| PaxosHost.CmpTransitive | src/distributed_system/low_level/host.rs:12-19 | the lexicographic order is transitive, strictly when either step is strict |
| PaxosHost.QuorumIntersection | src/distributed_system/low_level/host.rs:43-46 | with `num_hosts == 2*num_failures+1`, two sets of host ids each larger than `num_failures` share a host |
| PaxosHost.InitIsNewInstance | src/distributed_system/low_level/host.rs:56-67 | `init` holds exactly for well-formed constants with the given id and host count and the all-empty instance: ballot (0,0), empty maps, no accepted or decided value |
| PaxosHost.SendPrepareBallot | src/implementation/mod.rs:525-549 | send_prepare sends a ballot one round above the current one, carrying the sender's own id, and leaves `current_ballot` unchanged |
| PaxosHost.StepMonotone | src/implementation/mod.rs:600-604 | no action creates or removes an instance other than its own key or touches another key; the acted-on instance only grows (ballot non-decreasing, rounds, proposals and acknowledgements kept); only a Decide delivery sets `decide_value`; well-formedness is kept |
| PaxosHost.DuplicateDeliveryIsIdempotent | src/implementation/network.rs:12-14 | redelivering a message from the never-shrinking in-flight set right after it was handled changes nothing, and a repeated Prepare or Decide is not even enabled |
| PaxosProtocol.InitImpliesInv | src/implementation/mod.rs:388-398 | the initial system state satisfies the protocol invariant |
| PaxosProtocol.StepFrame | src/implementation/mod.rs:546-549 | a host step changes only its own host and instance, instances only grow, and the network only grows |
| PaxosProtocol.InvInductive | src/implementation/mod.rs:462-468 | one host action on one instance keeps the invariant |
| PaxosProtocol.NextPreservesInv | src/implementation/mod.rs:462-468 | every system step keeps the invariant |
| PaxosProtocol.ChosenValueCarriesForward | src/implementation/mod.rs:792-818 | once more than `num_failures` hosts have sent an acknowledgement of ballot b (recorded by b's proposer or still in flight), b's proposer has fixed a value v for b and every Accept at a ballot >= b carries v (the Phase 2(a) rule at work) |
| PaxosProtocol.DecidedBallotIsChosen | src/implementation/mod.rs:792-818 | the acknowledgements a Decide's proposer recorded for its ballot are a quorum of acknowledgements on the network, so that ballot is chosen |
| PaxosProtocol.DecideMessagesAgree | src/distributed_system/low_level/host.rs:39 | two Decide messages for the same instance carry the same value |
| PaxosProtocol.Agreement | src/distributed_system/low_level/host.rs:39 | two hosts that both decided an instance decided the same value |
| PaxosProtocol.DecisionIsStable | src/distributed_system/low_level/host.rs:39 | a decided value never changes under any step |
| PaxosProtocol.SendPrepareIsFresh | src/implementation/mod.rs:525-538 | the Prepare sent by send_prepare is not yet in flight and carries the sender's own id |
| PaxosProtocol.SelfPromisedInductive | src/implementation/mod.rs:540-549 | every step keeps the invariant part saying that a proposer's current or proposed round comes with the proposer's own Promise for it on the network |
| PaxosProtocol.SendAcceptFollowsOwnPromise | src/implementation/mod.rs:796-818 | the Accept sent by send_accept is for a ballot of the sender's own, and the sender's own Promise for that ballot is already on the network: since send_prepare leaves `current_ballot` alone, a proposer proposes only after promising its own Prepare |
| ImplMessage.IntoSpec | src/implementation/mod.rs:136-168 | the abstraction of a message is representable, keeps the instance key and keeps the kind of message |
| ImplMessage.FromSpec | src/implementation/mod.rs:99-134 | for every message satisfying `valid_spec`, `into_spec(from_spec(m)) == m` |
| ImplMessage.FromSpecIntoSpec | src/implementation/mod.rs:99-168 | `from_spec(into_spec(m)) == m` for every executable message |
| ImplMessage.IntoSpecInjective | src/implementation/mod.rs:136-168 | different executable messages have different abstractions |
| ImplMessage.OptionMessageIntoSpecInjective | src/implementation/mod.rs:176-189 | the slot-by-slot abstraction used by `into_spec` and `from_messages_as_spec` is injective, an empty slot included, so a network operation loses nothing under abstraction |
| ImplMessage.NetworkIntoSpec | src/implementation/network.rs:22-27 | an abstract message is in flight exactly when it abstracts an executable message in flight |
| ImplMessage.NetworkIntoSpecInsert | src/implementation/mod.rs:549 | adding a message to the in-flight set adds exactly its abstraction to the abstract set |
| ImplHostActions.VariablesIntoSpecUpdate | src/implementation/host.rs:90-104 | the abstraction of a host commutes with updating one instance key |
| ImplHostActions.NewHost | src/implementation/mod.rs:397-398 | a new host is at instance key 0 and abstracts to no instances |
| ImplHostActions.NextInstance | src/implementation/mod.rs:419-433 | next_instance raises `current_instance` by exactly 1 and leaves the abstraction unchanged |
| ImplHostActions.InitRequest | src/implementation/mod.rs:456-475 | with no instance at the current key, creates it; abstractly an init_request step with no messages |
| ImplHostActions.SendPrepare | src/implementation/mod.rs:525-549 | needs an undecided instance and a fresh, representable ballot; sends `Prepare(key, B)`; abstractly a send_prepare step |
| ImplHostActions.Promise | src/implementation/mod.rs:667-690 | for a Prepare above the current ballot, adopts it and replies `Promise(key, id, ballot, report)`; abstractly a promise step |
| ImplHostActions.Promised | src/implementation/mod.rs:731-757 | records the reporter's report for a ballot without a proposal; abstractly a promised step |
| ImplHostActions.ChooseValue | src/implementation/mod.rs:792-818 | the value is that of a highest-ballot report in the quorum, or the host's id when no report carries one (Phase 2(a)) |
| ImplHostActions.SendAccept | src/implementation/mod.rs:792-818 | with a promise quorum and no proposal for the current ballot, fixes the chosen value and sends `Accept(key, current_ballot, proposed_value[current_ballot])`; abstractly a send_accept step |
| ImplSystem.IntoSpecWellFormed | src/implementation/mod.rs:213-223 | well-formed constants with well-formed host records abstract to well-formed protocol constants |
| ImplSystem.HostsIntoSpecUpdate | src/implementation/mod.rs:243-248 | writing one host state back into the host vector (as `self.hosts[host_id] = new_state` does at mod.rs:570) replaces exactly that host's abstract state |
| ImplSystem.NewConstants | src/implementation/mod.rs:354-386 | `num_hosts == 2*num_failures+1`, host i has id i and the shared `num_failures`, and everything is well formed |
| ImplSystem.HostActionKeepsInv | src/implementation/mod.rs:505-515 | one host's action, with the other hosts unchanged and the network step, is a protocol step and keeps the invariant |
| ImplSystem.System.constructor | src/implementation/mod.rs:388-417 | every host starts at `current_instance == 0`, and the abstraction is the protocol's initial state, so the invariant holds |
| ImplSystem.System.AllHostNextInstance | src/implementation/mod.rs:419-454 | every host's `current_instance` rises by exactly 1 and the abstract state is unchanged |
| ImplSystem.System.AllHostInitRequest | src/implementation/mod.rs:456-523 | each host creates its current instance by an init_request step; keys and network unchanged; invariant kept |
| ImplSystem.System.HostSendPrepare | src/implementation/mod.rs:525-585 | send_prepare step at one host; sends `Prepare(current_instance, (current_ballot.num+1, id))`; the network gains exactly that message; other hosts unchanged; invariant kept |
| ImplSystem.System.AllHostPromise | src/implementation/mod.rs:587-729 | one reply slot per host; host i replies and takes a promise step exactly when the Prepare is for its current instance, it has the instance and the ballot is above its current one; otherwise its slot is None and it is unchanged; the new in-flight set is exactly the old one plus the replies; no instance created or removed; invariant kept |
| ImplSystem.System.HostPromise | src/implementation/mod.rs:667-700 | the per-host body of all_host_promise: replies exactly under the promise guard, and otherwise leaves the host unchanged; the new in-flight set is the old one plus the reply, if any |
| ImplSystem.System.HostPromised | src/implementation/mod.rs:731-790 | promised step at one host; nothing sent; network and other hosts unchanged; invariant kept |
| ImplSystem.System.HostSendAccept | src/implementation/mod.rs:792-854 | send_accept step at one host; sends `Accept(key, current_ballot, proposed_value[current_ballot])`; the network gains exactly that message; other hosts unchanged; invariant kept |
| RingElection.NextIndex | src/system/host.rs:41-43 | the neighbour of `src` is `(src+1) mod n` and a valid index |
| RingElection.MessageExchangeEffect | src/system/host.rs:45-53 | only `dest` changes; its new value is the largest of its old value, `ids[src]` and `max_received_ids[src]`; no entry decreases |
| RingElection.InitImpliesInductive | src/system/host.rs:94-111 | `init` implies `inductive` |
| RingElection.InductiveNext | src/system/host.rs:113-127 | `inductive` and `next` imply `inductive` of the successor (derived, not assumed) |
| RingElection.LeaderHasMaxId | src/system/host.rs:75-92 | under `inductive`, a host that received its own id holds the largest id |
| RingElection.InductiveImpliesSafety | src/system/host.rs:129-142 | `inductive` implies `safety`: at most one host received its own id |
| TwoPhaseCoordinator.LearnVoteEffect | src/distributed_system/coordinator.rs:46-58 | learn_vote sets exactly `votes[sender]` to the received vote, keeps the decision and sends nothing |
| TwoPhaseCoordinator.DecideEffect | src/distributed_system/coordinator.rs:60-76 | decide needs every vote, keeps the votes, decides Commit exactly when all are Yes and sends that decision |
| TwoPhaseCoordinator.StepIsExactlyOneAction | src/distributed_system/coordinator.rs:78-82 | a coordinator step is exactly one of the three actions |
| TwoPhaseCommit.InitImpliesInductive | src/distributed_system/mod.rs:134-144 | the initial state satisfies the repository's `inductive` |
| TwoPhaseCommit.InductiveImpliesSafety | src/distributed_system/mod.rs:97-144 | `inductive` implies `safety` |
| TwoPhaseCommit.InductiveNotPreserved | src/distributed_system/mod.rs:134-144 | a state satisfying `inductive`, and a `decide` step from it to a state that does not |
| TwoPhaseCommit.RecordedVoteIsHostVote | src/distributed_system/mod.rs:106-132 | under `inductive`, a recorded vote is the sender's own constant vote |
| TwoPhaseCommit.InitImpliesStrongInductive | src/distributed_system/mod.rs:134-144 | the initial state satisfies the strengthened invariant |
| TwoPhaseCommit.StrongInductiveNext | src/distributed_system/mod.rs:134-144 | every step keeps the strengthened invariant |
| TwoPhaseCommit.StrongInductiveImpliesSafety | src/distributed_system/mod.rs:97-104 | the strengthened invariant implies `safety` |
| CounterSpec.NextIsDeterministic | src/distributed_system/high_level/mod.rs:19-24 | the successor is determined by the event, the counter never decreases, and it rises by exactly 1 exactly on Increment |
| CounterSpec.CounterCountsIncrements | src/distributed_system/high_level/mod.rs:11-24 | along any behaviour from `init`, the counter equals the number of Increment events so far |
| TokenCounter.InitHolder | src/distributed_system/low_level/mod.rs:44-48 | initially exactly host 0 holds the counter, it is 0, and nothing is in flight |
| TokenCounter.InitRefines | src/distributed_system/low_level/mod.rs:44-48 | the initial state holds exactly one token and abstracts to the counter's `init` |
| TokenCounter.NextRefines | src/distributed_system/low_level/mod.rs:54-73 | every host step keeps exactly one token and abstracts to the counter step for the same event |

## Left out

- Machine widths. `u64`/`usize` are subset types of `nat`, both 64 bits wide. No arithmetic wraps. The guards `current_ballot.num < u64::MAX` and `current_instance < u64::MAX` are preconditions.
- The executable `Ballot` is the abstract ballot restricted to representable fields, rather than a separate struct. Its `into_spec` is therefore the inclusion, and so are its comparison and the report a Promise carries: the executable actions use the abstract `Cmp`, `NextBallot` and `Reported` directly.
- `ImplHost.InstanceIntoSpec` returns an instance's maps unchanged. The folds in src/implementation/host.rs:54-88 map every ballot key through `into_spec`, which is the inclusion here, so they reduce to the identity.
- `HashMap`/`HashSet`/`Vec` mechanics, the `Clone` and `Hash` implementations, and the `proof!` blocks and `spec_*_equivalance` lemmas of src/implementation/mod.rs:250-332 are left out. They only relate containers to their views.
- src/implementation/host.rs defines only the executable structs and their `into_spec` functions, none of the host methods `next_instance`, `init_request`, `send_prepare`, `promise`, `promised` and `send_accept` that src/implementation/mod.rs:450-830 calls. They are written from the system contracts that call them.
  - The executable host state has `current_instance`, which mod.rs reads. The `Variables` struct in src/implementation/host.rs:40-42 lacks it.
- src/distributed_system/low_level/host.rs defines only `cmp`, `well_formed` and `init`, none of the abstract host actions. init_request, send_prepare, promise, promised and send_accept follow the contracts of src/implementation/mod.rs that use them; accept, accepted, send_decide and decide follow section 2.3 of Lamport's "Paxos Made Simple".
- `low_inductive` and `refinement_next`, which src/implementation/mod.rs:7 and :11 import, are defined in neither src/distributed_system/low_level/mod.rs nor src/distributed_system/mod.rs. The system methods require and keep this model's own invariant `PaxosProtocol.Inv` instead.
  - That invariant is hidden behind `ImplSystem.InvHolds` so that method proofs stay small.
  - `System.WellFormed` leaves per-host well-formedness to `Spec().WellFormed`, which the invariant includes.
- ImplSystem.System.AllHostPromise returns a sequence of replies rather than `Option<Vec<…>>`. The source always returns `Some`.
- ImplSystem.System.AllHostNextInstance requires and ensures the abstraction's well-formedness, not the invariant, as the source does.
- The refinement proofs of src/main.rs are left out as written. They use `inductive` and counter-sum helpers (`conditional_host_counter_sum`, `variables_abstraction` and others) that src/main.rs:3-12 imports but src/distributed_system/mod.rs and low_level/mod.rs do not define. The token counter's refinement to the abstract counter is proved here on this model's own terms.
- TokenHost: src/distributed_system/low_level/host.rs holds the Paxos host in this version, so the token host (fields, `init`, the `step` called at low_level/mod.rs:58) is not defined there, and low_level/network.rs defines no `step` for low_level/mod.rs:61. Both are reconstructed from their use in src/main.rs: the holder increments; a holder hands its counter to the network; a non-holder picks a transferred counter up. A host's `init` sets its counter to 0.
- TwoPhaseHost: src/distributed_system/host.rs defines `Vote`, the participant state and `init`, but not the `step` that src/distributed_system/mod.rs:79 calls. It is reconstructed as "answer a VoteRequest with the host's own vote; adopt a received Decision".
- src/distributed_system/network.rs defines no `step`, which src/distributed_system/mod.rs:70 and :82 call. The model's network step receives only sent messages and records every sent one.
- PaxosHost.DuplicateDeliveryIsIdempotent: covers a redelivery right after the message was handled, not a replay after later steps of the same host. A later replay is not a no-op in general at this level: a replayed Promise can overwrite a report if its sender promised the same ballot twice, which only a protocol invariant rules out.
- RingElection.MessageExchange requires a well-formed pre-state before it reads `max_received_ids`. The source reads it without that guard, where an out-of-range read is unspecified.
- Nondeterministic interleaving is a `Next` relation (an existential over transitions). Threads, liveness and fairness are not modelled.
- Empty `Constants` structs (network, high-level counter) are left out.

## Findings

| source | as written | input that shows it | evidently intended | confidence | as-written member | corrected member |
|---|---|---|---|---|---|---|
| src/distributed_system/mod.rs:134-144 | `inductive` is not preserved by `next`: `decide` (src/distributed_system/coordinator.rs:60-76) may run again, and nothing ties a recorded decision to the votes | one host voting Yes; coordinator votes `[Some(Yes)]`, decision `Some(Abort)`; the host decided Abort; sent `{Vote(0,Yes), Decision(Abort)}`. `decide` then commits while `Decision(Abort)` and the host's Abort remain | an inductive invariant that also says a recorded decision is the tally of a full set of votes | high for the model; not executed | TwoPhaseCommit.InductiveNotPreserved | TwoPhaseCommit.StrongInductiveNext |
