/**
 * The abstract counter of src/distributed_system/high_level/mod.rs: a single
 * integer that an Increment event raises by one and a NoOp event leaves alone.
 * (Its `Constants` struct is empty and is left out.)
 */
module CounterSpec {

  datatype Event = Increment | NoOp

  datatype Variables = Variables(counter: int)

  predicate Init(u: Variables) {
    u.counter == 0
  }

  predicate IncrementCounter(u: Variables, v: Variables) {
    v.counter == u.counter + 1
  }

  predicate Next(u: Variables, v: Variables, e: Event) {
    match e
    case Increment => IncrementCounter(u, v)
    case NoOp => v == u
  }

  /** The event fixes the successor, and the counter never goes down. */
  lemma NextIsDeterministic(u: Variables, v1: Variables, v2: Variables, e: Event)
    requires Next(u, v1, e) && Next(u, v2, e)
    ensures v1 == v2
    ensures v1.counter >= u.counter
    ensures e.Increment? <==> v1.counter == u.counter + 1
  {
  }

  /** The number of Increment events in a trace. */
  function CountIncrements(events: seq<Event>): (n: nat)
    ensures n <= |events|
  {
    if events == [] then 0
    else CountIncrements(events[..|events| - 1]) + (if events[|events| - 1].Increment? then 1 else 0)
  }

  /** A behaviour: `states[k+1]` follows `states[k]` under `events[k]`. */
  predicate IsBehaviour(states: seq<Variables>, events: seq<Event>) {
    && |states| == |events| + 1
    && Init(states[0])
    && forall k :: 0 <= k < |events| ==> Next(states[k], states[k + 1], events[k])
  }

  /** Along any behaviour the counter equals the number of Increment events so far. */
  lemma {:induction false} CounterCountsIncrements(states: seq<Variables>, events: seq<Event>)
    requires IsBehaviour(states, events)
    ensures states[|states| - 1].counter == CountIncrements(events)
  {
    if events != [] {
      var n := |events|;
      assert IsBehaviour(states[..n], events[..n - 1]) by {
        forall k | 0 <= k < n - 1 ensures Next(states[..n][k], states[..n][k + 1], events[..n - 1][k]) {
          assert Next(states[k], states[k + 1], events[k]);
        }
      }
      CounterCountsIncrements(states[..n], events[..n - 1]);
      assert Next(states[n - 1], states[n], events[n - 1]);
    }
  }
}

/**
 * A token-holding host. In this version of the repository
 * src/distributed_system/low_level/host.rs holds the Paxos host, so the
 * `host::step` that src/distributed_system/low_level/mod.rs:58 calls with an
 * event is not defined there; the host is reconstructed from how the counter
 * refinement proof in src/main.rs uses it: the holder
 * increments on an Increment event, and on a NoOp event a holder hands its
 * counter to the network while a non-holder picks up a transferred counter.
 */
module TokenHost {
  import opened Wrappers
  import CounterSpec

  datatype Message = Transfer(counter: int)

  datatype NetworkOperation = NetworkOperation(send: Option<Message>, recv: Option<Message>)

  datatype Constants = Constants(id: int) {
    predicate WellFormed(hostId: int) {
      id == hostId
    }
  }

  datatype Variables = Variables(holdsCounter: bool, counter: int) {
    predicate WellFormed(c: Constants, hostId: int) {
      c.WellFormed(hostId)
    }
  }

  predicate Init(c: Constants, u: Variables, hostId: int) {
    u.WellFormed(c, hostId) && u.counter == 0
  }

  predicate IncrementCounter(c: Constants, u: Variables, v: Variables, op: NetworkOperation) {
    && u.holdsCounter
    && v == u.(counter := u.counter + 1)
    && op == NetworkOperation(None, None)
  }

  predicate SendCounter(c: Constants, u: Variables, v: Variables, op: NetworkOperation) {
    && u.holdsCounter
    && v == u.(holdsCounter := false)
    && op == NetworkOperation(Some(Transfer(u.counter)), None)
  }

  predicate ReceiveCounter(c: Constants, u: Variables, v: Variables, op: NetworkOperation) {
    && !u.holdsCounter
    && op.send.None? && op.recv.Some?
    && v == Variables(true, op.recv.value.counter)
  }

  predicate Step(c: Constants, u: Variables, v: Variables, op: NetworkOperation, e: CounterSpec.Event) {
    match e
    case Increment => IncrementCounter(c, u, v, op)
    case NoOp => SendCounter(c, u, v, op) || ReceiveCounter(c, u, v, op)
  }
}

/**
 * The token-passing composition of src/distributed_system/low_level/mod.rs:
 * hosts and an in-flight message set move together, one host per step, and
 * the system refines the abstract counter.
 */
module TokenCounter {
  import opened Wrappers
  import CounterSpec
  import Ho = TokenHost

  /** In-flight messages; delivery removes a message and a send adds one. */
  datatype NetworkVariables = NetworkVariables(inFlightMessages: set<Ho.Message>)

  predicate NetworkStep(u: NetworkVariables, v: NetworkVariables, op: Ho.NetworkOperation) {
    && (op.recv.Some? ==> op.recv.value in u.inFlightMessages)
    && v.inFlightMessages ==
       (u.inFlightMessages - (if op.recv.Some? then {op.recv.value} else {})) +
       (if op.send.Some? then {op.send.value} else {})
  }

  datatype Constants = Constants(numHosts: int, hosts: seq<Ho.Constants>) {
    predicate WellFormed() {
      numHosts > 0 && |hosts| == numHosts
    }
  }

  datatype Variables = Variables(hosts: seq<Ho.Variables>, network: NetworkVariables) {
    predicate WellFormed(c: Constants) {
      && c.WellFormed()
      && |hosts| == |c.hosts|
      && forall idx :: 0 <= idx < |hosts| ==> hosts[idx].WellFormed(c.hosts[idx], idx)
    }
  }

  predicate Init(c: Constants, u: Variables) {
    && u.WellFormed(c)
    && (forall idx :: 0 <= idx < |u.hosts| ==>
          Ho.Init(c.hosts[idx], u.hosts[idx], idx) && u.hosts[idx].holdsCounter == (idx == 0))
    && u.network.inFlightMessages == {}
  }

  datatype Transition = HostStep(hostId: int, netOp: Ho.NetworkOperation)

  predicate HostStepRel(c: Constants, u: Variables, v: Variables, hostId: int, netOp: Ho.NetworkOperation,
                        e: CounterSpec.Event) {
    && u.WellFormed(c)
    && 0 <= hostId < |u.hosts|
    && |v.hosts| == |u.hosts|
    && Ho.Step(c.hosts[hostId], u.hosts[hostId], v.hosts[hostId], netOp, e)
    && (forall i :: 0 <= i < |v.hosts| && i != hostId ==> u.hosts[i] == v.hosts[i])
    && NetworkStep(u.network, v.network, netOp)
    && v.WellFormed(c)
  }

  predicate IsValidTransition(c: Constants, u: Variables, v: Variables, t: Transition, e: CounterSpec.Event) {
    match t
    case HostStep(hostId, netOp) => HostStepRel(c, u, v, hostId, netOp, e)
  }

  ghost predicate Next(c: Constants, u: Variables, v: Variables, e: CounterSpec.Event) {
    exists t :: IsValidTransition(c, u, v, t, e)
  }

  /** The hosts that hold the counter. */
  function Holders(hosts: seq<Ho.Variables>): (r: set<int>)
    ensures forall i :: i in r <==> 0 <= i < |hosts| && hosts[i].holdsCounter
  {
    set i | 0 <= i < |hosts| && hosts[i].holdsCounter
  }

  /** Initially exactly host 0 holds the counter, it is 0, and nothing is in flight. */
  lemma InitHolder(c: Constants, u: Variables)
    requires Init(c, u)
    ensures Holders(u.hosts) == {0}
    ensures u.hosts[0].counter == 0 && u.network.inFlightMessages == {}
  {
    assert u.hosts[0].holdsCounter;
  }

  // ---------------------------------------------------------------------
  // The token invariant and the refinement to the abstract counter.
  // ---------------------------------------------------------------------

  /** Exactly one token: either one holder and an empty network, or no holder and one message. */
  predicate OneToken(c: Constants, u: Variables) {
    && u.WellFormed(c)
    && ((|Holders(u.hosts)| == 1 && u.network.inFlightMessages == {}) ||
        (Holders(u.hosts) == {} && |u.network.inFlightMessages| == 1))
  }

  /** The sum of the counters of the hosts that hold one. */
  function HeldSum(hosts: seq<Ho.Variables>): int {
    if hosts == [] then 0
    else HeldSum(hosts[..|hosts| - 1]) + (if hosts[|hosts| - 1].holdsCounter then hosts[|hosts| - 1].counter else 0)
  }

  /** The counter carried by the network, when it carries exactly one message. */
  ghost function InFlightCounter(s: set<Ho.Message>): int {
    if |s| == 1 then (var m :| m in s; m.counter) else 0
  }

  /** The abstract counter: the held counters plus the one in flight. */
  ghost function Abstraction(c: Constants, u: Variables): CounterSpec.Variables {
    CounterSpec.Variables(HeldSum(u.hosts) + InFlightCounter(u.network.inFlightMessages))
  }

  /** With one holder, the held sum is that holder's counter; with none, it is 0. */
  lemma {:induction false} HeldSumOfHolders(hosts: seq<Ho.Variables>)
    ensures Holders(hosts) == {} ==> HeldSum(hosts) == 0
    ensures forall h :: h in Holders(hosts) && Holders(hosts) == {h} ==> HeldSum(hosts) == hosts[h].counter
  {
    if hosts != [] {
      var n := |hosts| - 1;
      var init := hosts[..n];
      HeldSumOfHolders(init);
      assert forall i :: 0 <= i < n ==> init[i] == hosts[i];
      if hosts[n].holdsCounter {
        assert n in Holders(hosts);
        if Holders(hosts) == {n} {
          assert forall i :: 0 <= i < n ==> !hosts[i].holdsCounter by {
            forall i | 0 <= i < n ensures !hosts[i].holdsCounter {
              assert i in Holders(hosts) <==> hosts[i].holdsCounter;
            }
          }
          assert Holders(init) == {};
        }
      } else {
        assert Holders(init) == Holders(hosts);
      }
    }
  }

  lemma SingletonSet<T>(s: set<T>, x: T)
    requires |s| == 1 && x in s
    ensures s == {x}
  {
    assert |s - {x}| == 0;
    assert s - {x} == {};
  }

  lemma InitRefines(c: Constants, u: Variables)
    requires Init(c, u)
    ensures OneToken(c, u) && CounterSpec.Init(Abstraction(c, u))
  {
    InitHolder(c, u);
    HeldSumOfHolders(u.hosts);
  }

  /** Every step keeps exactly one token, and the abstraction takes the abstract step for the same event. */
  lemma NextRefines(c: Constants, u: Variables, v: Variables, e: CounterSpec.Event)
    requires OneToken(c, u) && Next(c, u, v, e)
    ensures OneToken(c, v) && CounterSpec.Next(Abstraction(c, u), Abstraction(c, v), e)
  {
    var t :| IsValidTransition(c, u, v, t, e);
    var h, op := t.hostId, t.netOp;
    HeldSumOfHolders(u.hosts);
    HeldSumOfHolders(v.hosts);
    var hu, hv := u.hosts[h], v.hosts[h];
    if hu.holdsCounter {
      // h is the only holder, so nothing is in flight.
      assert h in Holders(u.hosts);
      assert |Holders(u.hosts)| == 1;
      SingletonSet(Holders(u.hosts), h);
      assert u.network.inFlightMessages == {};
      if e.Increment? {
        assert Holders(v.hosts) == {h};
        assert v.network.inFlightMessages == {};
      } else {
        assert Ho.SendCounter(c.hosts[h], hu, hv, op);
        assert Holders(v.hosts) == {};
        assert v.network.inFlightMessages == {Ho.Transfer(hu.counter)};
        SingletonSet(v.network.inFlightMessages, Ho.Transfer(hu.counter));
      }
    } else {
      // No host holds the counter: h receives the one message in flight.
      assert Ho.ReceiveCounter(c.hosts[h], hu, hv, op);
      assert op.recv.value in u.network.inFlightMessages;
      assert Holders(u.hosts) == {};
      SingletonSet(u.network.inFlightMessages, op.recv.value);
      assert v.network.inFlightMessages == {};
      assert Holders(v.hosts) == {h};
    }
  }
}
