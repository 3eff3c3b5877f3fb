/**
 * The executable Paxos system of src/implementation/mod.rs: a vector of host
 * states and the set of in-flight messages, updated in place by the methods
 * the driver calls. Every method is specified against the abstract protocol:
 * its effect on `Spec()` is the PaxosHost action it performs, and it keeps the
 * protocol invariant `PaxosProtocol.Inv`, from which agreement follows.
 */
module ImplSystem {
  import opened Wrappers
  import H = PaxosHost
  import P = PaxosProtocol
  import opened ImplHost
  import opened ImplMessage
  import A = ImplHostActions

  /** The system's constants: its size, its fault bound and one record per host. */
  datatype Constants = Constants(numFailures: USize, numHosts: USize, hosts: seq<ImplHost.Constants>) {
    /** n = 2f + 1 hosts, host i has id i and the system's fault bound. */
    predicate WellFormed() {
      && numHosts > 0
      && numFailures > 0
      && numHosts == 2 * numFailures + 1
      && |hosts| == numHosts
      && forall i :: 0 <= i < numHosts ==> hosts[i].id == i && hosts[i].numFailures == numFailures
    }

    /** The protocol constants: the same sizes, and each host record abstracted. */
    function IntoSpec(): P.Constants {
      P.Constants(numHosts, numFailures, seq(|hosts|, i requires 0 <= i < |hosts| => hosts[i].IntoSpec()))
    }
  }

  /** Every host record is well formed on its own. */
  predicate HostsWellFormed(c: Constants) {
    forall i :: 0 <= i < |c.hosts| ==> c.hosts[i].WellFormed()
  }

  /** Well-formed constants whose host records are well formed abstract to well-formed protocol constants. */
  lemma IntoSpecWellFormed(c: Constants)
    requires c.WellFormed() && HostsWellFormed(c)
    ensures c.IntoSpec().WellFormed()
  {
    forall i | 0 <= i < |c.hosts| ensures c.hosts[i].numHosts == c.numHosts {
      assert c.hosts[i].IntoSpec().WellFormed();
    }
  }

  /**
   * Build the constants of a system tolerating `numFailures` faults: 2f + 1
   * hosts, host i with id i.
   */
  method NewConstants(numFailures: USize) returns (c: Constants)
    requires numFailures > 0 && 2 * numFailures + 1 <= USIZE_MAX
    ensures c.WellFormed() && HostsWellFormed(c)
    ensures c.numFailures == numFailures && c.numHosts == 2 * numFailures + 1
    ensures c.IntoSpec().WellFormed()
  {
    var numHosts := 2 * numFailures + 1;
    var hosts: seq<ImplHost.Constants> := [];
    var id := 0;
    while id < numHosts
      invariant 0 <= id <= numHosts && |hosts| == id
      invariant forall i :: 0 <= i < id ==>
                  hosts[i] == ImplHost.Constants(i, numHosts, numFailures)
    {
      hosts := hosts + [ImplHost.Constants(id, numHosts, numFailures)];
      id := id + 1;
    }
    c := Constants.Constants(numFailures, numHosts, hosts);
    IntoSpecWellFormed(c);
  }

  /** The abstraction of the host vector, host by host. */
  function HostsIntoSpec(hs: seq<ImplHost.Variables>): seq<H.Variables> {
    seq(|hs|, i requires 0 <= i < |hs| => VariablesIntoSpec(hs[i]))
  }

  /**
   * Writing one host state back into the vector is, abstractly, replacing that
   * host's abstract state and no other.
   */
  lemma HostsIntoSpecUpdate(hs: seq<ImplHost.Variables>, i: nat, h: ImplHost.Variables)
    requires i < |hs|
    ensures HostsIntoSpec(hs[i := h]) == HostsIntoSpec(hs)[i := VariablesIntoSpec(h)]
  {
    var l, r := HostsIntoSpec(hs[i := h]), HostsIntoSpec(hs)[i := VariablesIntoSpec(h)];
    assert |l| == |r|;
    forall j | 0 <= j < |l| ensures l[j] == r[j] {
      if j != i {
        assert hs[i := h][j] == hs[j];
      }
    }
  }

  /**
   * The protocol invariant, behind a quantifier that is only instantiated
   * where `P.Inv` is named explicitly, so that the system methods' proofs
   * deal with it only through the lemmas below.
   */
  ghost predicate InvHolds(c: P.Constants, u: P.Variables) {
    forall w :: w == u ==> P.Inv(c, w)
  }

  lemma InitInvHolds(c: P.Constants, u: P.Variables)
    requires P.Init(c, u)
    ensures InvHolds(c, u)
  {
    P.InitImpliesInv(c, u);
  }

  /** The protocol keeps its invariant when one host takes one of its actions. */
  lemma HostActionKeepsInv(c: P.Constants, u: P.Variables, v: P.Variables, hostId: nat, key: nat, op: H.NetworkOperation)
    requires InvHolds(c, u)
    requires hostId < |c.hosts| && |u.hosts| == |v.hosts| == |c.hosts|
    requires forall i :: 0 <= i < |u.hosts| && i != hostId ==> v.hosts[i] == u.hosts[i]
    requires P.NetworkStep(u.network, v.network, op)
    requires H.Step(c.hosts[hostId], u.hosts[hostId], v.hosts[hostId], key, op)
    ensures P.HostStep(c, u, v, hostId, key, op)
    ensures InvHolds(c, v)
  {
    assert P.Inv(c, u);
    H.StepMonotone(c.hosts[hostId], u.hosts[hostId], v.hosts[hostId], key, op);
    P.InvInductive(c, u, v, hostId, key, op);
  }

  /** Under the invariant, the abstract state is well formed. */
  lemma InvHoldsWellFormed(c: P.Constants, u: P.Variables)
    requires InvHolds(c, u)
    ensures u.WellFormed(c)
  {
    assert P.Inv(c, u);
  }

  class System {
    const hosts: array<ImplHost.Variables>
    var inFlight: set<Message>

    /**
     * The system's own well-formedness: the constants are well formed and there
     * is one host state per host record. That each host state is well formed
     * for its record is stated on the abstraction, `Spec().WellFormed`, which
     * the protocol invariant includes.
     */
    predicate WellFormed(c: Constants)
      reads this
    {
      && c.WellFormed()
      && hosts.Length == |c.hosts|
    }

    /** The abstract protocol state this system stands for. */
    ghost function Spec(): P.Variables
      reads this, hosts
    {
      P.Variables(HostsIntoSpec(hosts[..]), NetworkIntoSpec(inFlight))
    }

    /** A fresh system: every host at instance key 0 with no instances, and no messages. */
    constructor (c: Constants)
      requires c.WellFormed() && HostsWellFormed(c)
      ensures WellFormed(c)
      ensures forall i :: 0 <= i < hosts.Length ==> hosts[i].currentInstance == 0
      ensures P.Init(c.IntoSpec(), Spec())
      ensures InvHolds(c.IntoSpec(), Spec())
    {
      var hs: seq<ImplHost.Variables> := [];
      var id := 0;
      while id < c.numHosts
        invariant 0 <= id <= c.numHosts && |hs| == id
        invariant forall i :: 0 <= i < id ==> hs[i] == A.NewHost()
      {
        hs := hs + [A.NewHost()];
        id := id + 1;
      }
      hosts := new ImplHost.Variables[|hs|](i requires 0 <= i < |hs| => hs[i]);
      inFlight := {};
      new;
      IntoSpecWellFormed(c);
      assert hosts[..] == hs;
      assert NetworkIntoSpec({}) == {};
      InitInvHolds(c.IntoSpec(), Spec());
    }

    /** Every host moves on to the next instance key; the abstract state does not change. */
    method AllHostNextInstance(c: Constants)
      requires WellFormed(c) && Spec().WellFormed(c.IntoSpec())
      requires forall i :: 0 <= i < hosts.Length ==> hosts[i].currentInstance < U64_MAX
      modifies hosts
      ensures WellFormed(c) && Spec().WellFormed(c.IntoSpec())
      ensures forall i :: 0 <= i < hosts.Length ==> hosts[i].currentInstance == old(hosts[i].currentInstance) + 1
      ensures Spec() == old(Spec())
    {
      for id := 0 to hosts.Length
        invariant forall i :: 0 <= i < id ==> hosts[i] == A.NextInstance(old(hosts[i]))
        invariant forall i :: id <= i < hosts.Length ==> hosts[i] == old(hosts[i])
      {
        hosts[id] := A.NextInstance(hosts[id]);
      }
      assert HostsIntoSpec(hosts[..]) == HostsIntoSpec(old(hosts[..]));
    }

    /** Every host creates its current instance; each does so by an init_request step. */
    method AllHostInitRequest(c: Constants)
      requires WellFormed(c) && InvHolds(c.IntoSpec(), Spec())
      requires forall i :: 0 <= i < hosts.Length ==> hosts[i].currentInstance !in hosts[i].instances
      modifies hosts
      ensures WellFormed(c) && InvHolds(c.IntoSpec(), Spec())
      ensures forall i :: 0 <= i < hosts.Length ==> hosts[i].currentInstance == old(hosts[i].currentInstance)
      ensures forall i :: 0 <= i < hosts.Length ==>
                H.InitRequestStep(c.IntoSpec().hosts[i], old(Spec()).hosts[i], Spec().hosts[i],
                                  hosts[i].currentInstance, H.NetworkOperation(None, None))
      ensures Spec().network == old(Spec()).network
    {
      ghost var u0 := Spec();
      for id := 0 to hosts.Length
        invariant WellFormed(c) && InvHolds(c.IntoSpec(), Spec())
        invariant Spec().network == u0.network
        invariant forall i :: 0 <= i < hosts.Length ==> hosts[i].currentInstance == old(hosts[i].currentInstance)
        invariant forall i :: id <= i < hosts.Length ==> hosts[i] == old(hosts[i])
        invariant forall i :: 0 <= i < id ==>
                    H.InitRequestStep(c.IntoSpec().hosts[i], u0.hosts[i], Spec().hosts[i],
                                      hosts[i].currentInstance, H.NetworkOperation(None, None))
      {
        ghost var u := Spec();
        hosts[id] := A.InitRequest(c.hosts[id], hosts[id]);
        ghost var v := Spec();
        HostActionKeepsInv(c.IntoSpec(), u, v, id, hosts[id].currentInstance, H.NetworkOperation(None, None));
      }
    }

    /**
     * Host `hostId` opens the ballot one round above its current one, with its
     * own id, in its current instance, and puts the Prepare on the network.
     */
    method HostSendPrepare(c: Constants, hostId: USize) returns (send: Option<Message>)
      requires WellFormed(c) && InvHolds(c.IntoSpec(), Spec())
      requires hostId < hosts.Length
      requires var h := hosts[hostId];
               && h.currentInstance in h.instances
               && h.instances[h.currentInstance].currentBallot.num < U64_MAX
               && var inst := h.instances[h.currentInstance];
                  var b := H.Ballot(inst.currentBallot.num + 1, hostId);
                  && b !in inst.promised && b !in inst.proposedValue && b !in inst.accepted
                  && inst.decideValue.None?
      modifies this, hosts
      ensures WellFormed(c) && InvHolds(c.IntoSpec(), Spec())
      ensures forall i :: 0 <= i < hosts.Length ==> hosts[i].currentInstance == old(hosts[i].currentInstance)
      ensures forall i :: 0 <= i < hosts.Length && i != hostId ==> Spec().hosts[i] == old(Spec()).hosts[i]
      ensures H.SendPrepareStep(c.IntoSpec().hosts[hostId], old(Spec()).hosts[hostId], Spec().hosts[hostId],
                                hosts[hostId].currentInstance, H.NetworkOperation(None, OptionMessageIntoSpec(send)))
      ensures hosts[hostId].currentInstance in hosts[hostId].instances
      ensures var key := hosts[hostId].currentInstance;
              var cb := hosts[hostId].instances[key].currentBallot;
              && send.Some? && send.value.Prepare? && send.value.key == key
              && send.value.ballot == H.Ballot(cb.num + 1, c.hosts[hostId].id)
      ensures Spec().network == old(Spec()).network + {IntoSpec(send.value)}
    {
      ghost var u := Spec();
      var r := A.SendPrepare(c.hosts[hostId], hosts[hostId]);
      NetworkIntoSpecInsert(inFlight, r.1);
      hosts[hostId] := r.0;
      inFlight := inFlight + {r.1};
      send := Some(r.1);
      ghost var v := Spec();
      HostActionKeepsInv(c.IntoSpec(), u, v, hostId, hosts[hostId].currentInstance,
                         H.NetworkOperation(None, Some(IntoSpec(r.1))));
    }

    /**
     * Deliver a Prepare on the network to every host. Host i answers with a
     * Promise exactly when the Prepare is for its current instance, it has that
     * instance, and the ballot is above its current ballot; otherwise it sends
     * nothing and does not change.
     */
    method AllHostPromise(c: Constants, prepare: Message) returns (sends: seq<Option<Message>>)
      requires WellFormed(c) && InvHolds(c.IntoSpec(), Spec())
      requires prepare.Prepare? && prepare in inFlight
      modifies this, hosts
      ensures WellFormed(c) && InvHolds(c.IntoSpec(), Spec())
      ensures forall i :: 0 <= i < hosts.Length ==> hosts[i].currentInstance == old(hosts[i].currentInstance)
      ensures forall i :: 0 <= i < hosts.Length ==> hosts[i].instances.Keys == old(hosts[i].instances.Keys)
      ensures |sends| == hosts.Length
      ensures forall i :: 0 <= i < hosts.Length && !PromiseGuard(old(hosts[i]), prepare) ==>
                sends[i].None? && hosts[i] == old(hosts[i])
      ensures forall i :: 0 <= i < hosts.Length && PromiseGuard(old(hosts[i]), prepare) ==>
                && sends[i].Some?
                && H.PromiseStep(c.hosts[i].IntoSpec(), VariablesIntoSpec(old(hosts[i])), VariablesIntoSpec(hosts[i]),
                                 prepare.key, H.NetworkOperation(Some(IntoSpec(prepare)), OptionMessageIntoSpec(sends[i])))
      ensures inFlight == old(inFlight) + SlotMessages(sends)
    {
      sends := [];
      for id := 0 to hosts.Length
        invariant WellFormed(c) && InvHolds(c.IntoSpec(), Spec())
        invariant prepare in inFlight && |sends| == id
        invariant forall i :: 0 <= i < hosts.Length ==> hosts[i].currentInstance == old(hosts[i].currentInstance)
        invariant forall i :: 0 <= i < hosts.Length ==> hosts[i].instances.Keys == old(hosts[i].instances.Keys)
        invariant forall i :: id <= i < hosts.Length ==> hosts[i] == old(hosts[i])
        invariant forall i :: 0 <= i < id && !PromiseGuard(old(hosts[i]), prepare) ==>
                    sends[i].None? && hosts[i] == old(hosts[i])
        invariant forall i :: 0 <= i < id && PromiseGuard(old(hosts[i]), prepare) ==>
                    && sends[i].Some?
                    && H.PromiseStep(c.hosts[i].IntoSpec(), VariablesIntoSpec(old(hosts[i])), VariablesIntoSpec(hosts[i]),
                                     prepare.key, H.NetworkOperation(Some(IntoSpec(prepare)), OptionMessageIntoSpec(sends[i])))
        invariant inFlight == old(inFlight) + SlotMessages(sends)
      {
        var send := HostPromise(c, id, prepare);
        SlotMessagesAppend(sends, send);
        sends := sends + [send];
      }
    }

    /**
     * Deliver a Prepare on the network to host `hostId`, which answers it
     * exactly when `PromiseGuard` holds and otherwise stays as it is.
     */
    method HostPromise(c: Constants, hostId: USize, prepare: Message) returns (send: Option<Message>)
      requires WellFormed(c) && InvHolds(c.IntoSpec(), Spec())
      requires hostId < hosts.Length
      requires prepare.Prepare? && prepare in inFlight
      modifies this, hosts
      ensures WellFormed(c) && InvHolds(c.IntoSpec(), Spec())
      ensures forall i :: 0 <= i < hosts.Length && i != hostId ==> hosts[i] == old(hosts[i])
      ensures hosts[hostId].currentInstance == old(hosts[hostId].currentInstance)
      ensures hosts[hostId].instances.Keys == old(hosts[hostId].instances.Keys)
      ensures !PromiseGuard(old(hosts[hostId]), prepare) ==> send.None? && hosts[hostId] == old(hosts[hostId])
      ensures PromiseGuard(old(hosts[hostId]), prepare) ==>
                && send.Some?
                && H.PromiseStep(c.hosts[hostId].IntoSpec(), VariablesIntoSpec(old(hosts[hostId])), VariablesIntoSpec(hosts[hostId]),
                                 prepare.key, H.NetworkOperation(Some(IntoSpec(prepare)), OptionMessageIntoSpec(send)))
      ensures inFlight == old(inFlight) + SlotMessages([send])
    {
      send := None;
      assert SlotMessages([None]) == {};
      if PromiseGuard(hosts[hostId], prepare) {
        ghost var u := Spec();
        var r := A.Promise(c.hosts[hostId], hosts[hostId], prepare);
        NetworkIntoSpecInsert(inFlight, r.1);
        hosts[hostId] := r.0;
        inFlight := inFlight + {r.1};
        send := Some(r.1);
        assert [send][0] == send;
        ghost var v := Spec();
        HostActionKeepsInv(c.IntoSpec(), u, v, hostId, prepare.key,
                           H.NetworkOperation(Some(IntoSpec(prepare)), Some(IntoSpec(r.1))));
      }
    }

    /**
     * Host `hostId` records a Promise on the network for its current instance,
     * for one of its ballots that has no proposal yet. Nothing is sent.
     */
    method HostPromised(c: Constants, hostId: USize, promise: Message) returns (send: Option<Message>)
      requires WellFormed(c) && InvHolds(c.IntoSpec(), Spec())
      requires hostId < hosts.Length
      requires promise.Promise? && promise in inFlight
      requires var h := hosts[hostId];
               && h.currentInstance == promise.key
               && h.currentInstance in h.instances
               && promise.ballot in h.instances[promise.key].promised
               && promise.ballot !in h.instances[promise.key].proposedValue
      modifies hosts
      ensures WellFormed(c) && InvHolds(c.IntoSpec(), Spec())
      ensures forall i :: 0 <= i < hosts.Length ==> hosts[i].currentInstance == old(hosts[i].currentInstance)
      ensures forall i :: 0 <= i < hosts.Length && i != hostId ==> Spec().hosts[i] == old(Spec()).hosts[i]
      ensures H.PromisedStep(c.IntoSpec().hosts[hostId], old(Spec()).hosts[hostId], Spec().hosts[hostId],
                             hosts[hostId].currentInstance, H.NetworkOperation(Some(IntoSpec(promise)), OptionMessageIntoSpec(send)))
      ensures send.None?
      ensures Spec().network == old(Spec()).network
    {
      ghost var u := Spec();
      hosts[hostId] := A.Promised(c.hosts[hostId], hosts[hostId], promise);
      send := None;
      ghost var v := Spec();
      HostActionKeepsInv(c.IntoSpec(), u, v, hostId, promise.key, H.NetworkOperation(Some(IntoSpec(promise)), None));
    }

    /**
     * Host `hostId`, holding a promise quorum for its current ballot that has
     * no proposal yet, fixes the Phase 2(a) value and puts the Accept on the network.
     */
    method HostSendAccept(c: Constants, hostId: USize) returns (send: Option<Message>)
      requires WellFormed(c) && InvHolds(c.IntoSpec(), Spec())
      requires hostId < hosts.Length
      requires var h := hosts[hostId];
               && h.currentInstance in h.instances
               && var inst := h.instances[h.currentInstance];
                  && inst.currentBallot in inst.promised
                  && |inst.promised[inst.currentBallot]| > c.numFailures
                  && inst.currentBallot !in inst.proposedValue
      modifies this, hosts
      ensures WellFormed(c) && InvHolds(c.IntoSpec(), Spec())
      ensures forall i :: 0 <= i < hosts.Length ==> hosts[i].currentInstance == old(hosts[i].currentInstance)
      ensures forall i :: 0 <= i < hosts.Length && i != hostId ==> Spec().hosts[i] == old(Spec()).hosts[i]
      ensures H.SendAcceptStep(c.IntoSpec().hosts[hostId], old(Spec()).hosts[hostId], Spec().hosts[hostId],
                               hosts[hostId].currentInstance, H.NetworkOperation(None, OptionMessageIntoSpec(send)))
      ensures hosts[hostId].currentInstance in hosts[hostId].instances
      ensures var key := hosts[hostId].currentInstance;
              var inst := hosts[hostId].instances[key];
              inst.currentBallot in inst.proposedValue &&
              send == Some(Accept(key, inst.currentBallot, inst.proposedValue[inst.currentBallot]))
      ensures Spec().network == old(Spec()).network + {IntoSpec(send.value)}
    {
      ghost var u := Spec();
      var r, m := A.SendAccept(c.hosts[hostId], hosts[hostId]);
      NetworkIntoSpecInsert(inFlight, m);
      hosts[hostId] := r;
      inFlight := inFlight + {m};
      send := Some(m);
      ghost var v := Spec();
      HostActionKeepsInv(c.IntoSpec(), u, v, hostId, hosts[hostId].currentInstance,
                         H.NetworkOperation(None, Some(IntoSpec(m))));
    }
  }

  /** The messages in the filled slots of a sequence of replies. */
  function SlotMessages(sends: seq<Option<Message>>): set<Message> {
    set i | 0 <= i < |sends| && sends[i].Some? :: sends[i].value
  }

  lemma SlotMessagesAppend(sends: seq<Option<Message>>, send: Option<Message>)
    ensures SlotMessages(sends + [send]) == SlotMessages(sends) + SlotMessages([send])
  {
    var s' := sends + [send];
    forall m | m in SlotMessages(s') ensures m in SlotMessages(sends) + SlotMessages([send]) {
      var i :| 0 <= i < |s'| && s'[i].Some? && s'[i].value == m;
      if i < |sends| {
        assert sends[i] == s'[i];
      } else {
        assert [send][0] == s'[i];
      }
    }
    forall m | m in SlotMessages(sends) ensures m in SlotMessages(s') {
      var i :| 0 <= i < |sends| && sends[i].Some? && sends[i].value == m;
      assert s'[i] == sends[i];
    }
    forall m | m in SlotMessages([send]) ensures m in SlotMessages(s') {
      assert s'[|sends|] == send;
    }
  }

  /** Host h answers Prepare m: m is for h's current instance, h has it, and m's ballot is above h's current ballot. */
  predicate PromiseGuard(h: ImplHost.Variables, m: Message)
    requires m.Prepare?
  {
    && h.currentInstance == m.key
    && m.key in h.instances
    && H.Cmp(m.ballot, h.instances[m.key].currentBallot) == 1
  }
}
