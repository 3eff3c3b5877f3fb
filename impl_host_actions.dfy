/**
 * The executable host actions the system layer of src/implementation/mod.rs
 * drives: next_instance, init_request, send_prepare, promise, promised and
 * send_accept on one host's hash-map state. Each is proved to abstract, through
 * `VariablesIntoSpec`, to the PaxosHost action of the same name.
 */
module ImplHostActions {
  import opened Wrappers
  import H = PaxosHost
  import opened ImplHost
  import opened ImplMessage

  // ---------------------------------------------------------------------
  // The abstraction commutes with single-key updates.
  // ---------------------------------------------------------------------

  lemma VariablesIntoSpecUpdate(h: Variables, k: U64, inst: Instance)
    ensures VariablesIntoSpec(h.(instances := h.instances[k := inst])) ==
            H.Variables(VariablesIntoSpec(h).instances[k := InstanceIntoSpec(inst)])
  {
    var h' := h.(instances := h.instances[k := inst]);
    var l := VariablesIntoSpec(h').instances;
    var r := VariablesIntoSpec(h).instances[k := InstanceIntoSpec(inst)];
    forall k': nat | k' in l ensures k' in r && l[k'] == r[k'] {
      if k' != k {
        assert h'.instances[k'] == h.instances[k'];
      }
    }
    assert l.Keys == r.Keys;
    assert l == r;
  }

  // ---------------------------------------------------------------------
  // Host actions.
  // ---------------------------------------------------------------------

  /** A host as the system creates it: at instance key 0, with no instances. */
  function NewHost(): (h: Variables)
    ensures h.currentInstance == 0 && VariablesIntoSpec(h).instances == map[]
  {
    Variables(0, map[])
  }

  /** An instance as init_request creates it: ballot (0, 0), nothing promised, proposed, accepted or decided. */
  function NewInstance(): Instance {
    Instance(H.Ballot(0, 0), map[], map[], map[], None, None, None)
  }

  /** Moving to the next instance key leaves the abstract state exactly as it was. */
  function NextInstance(h: Variables): (r: Variables)
    requires h.currentInstance < U64_MAX
    ensures r.currentInstance == h.currentInstance + 1
    ensures VariablesIntoSpec(r) == VariablesIntoSpec(h)
  {
    h.(currentInstance := h.currentInstance + 1)
  }

  /** Create the current instance; abstractly an init_request step with no messages. */
  function InitRequest(c: Constants, h: Variables): (r: Variables)
    requires h.currentInstance !in h.instances
    ensures r.currentInstance == h.currentInstance
    ensures H.InitRequestStep(c.IntoSpec(), VariablesIntoSpec(h), VariablesIntoSpec(r), h.currentInstance,
                              H.NetworkOperation(None, None))
  {
    VariablesIntoSpecUpdate(h, h.currentInstance, NewInstance());
    h.(instances := h.instances[h.currentInstance := NewInstance()])
  }

  /**
   * Open a fresh ballot in the current instance and send its Prepare. The
   * requirements are the system's: the ballot above the current one must be
   * representable and unused, and the instance undecided.
   */
  function SendPrepare(c: Constants, h: Variables): (r: (Variables, Message))
    requires h.currentInstance in h.instances
    requires h.instances[h.currentInstance].currentBallot.num < U64_MAX
    requires var inst := h.instances[h.currentInstance];
             var b := H.NextBallot(c.IntoSpec(), InstanceIntoSpec(inst));
             b !in inst.promised && b !in inst.proposedValue && b !in inst.accepted && inst.decideValue.None?
    ensures r.0.currentInstance == h.currentInstance
    ensures r.1 == Prepare(h.currentInstance, H.NextBallot(c.IntoSpec(), InstanceIntoSpec(h.instances[h.currentInstance])))
    ensures H.SendPrepareStep(c.IntoSpec(), VariablesIntoSpec(h), VariablesIntoSpec(r.0), h.currentInstance,
                              H.NetworkOperation(None, Some(IntoSpec(r.1))))
  {
    var key := h.currentInstance;
    var inst := h.instances[key];
    var b := H.NextBallot(c.IntoSpec(), InstanceIntoSpec(inst));
    var inst' := inst.(promised := inst.promised[b := map[]], accepted := inst.accepted[b := {}]);
    VariablesIntoSpecUpdate(h, key, inst');
    (h.(instances := h.instances[key := inst']), Prepare(key, b))
  }

  /**
   * Answer a Prepare whose ballot is above the current one: adopt the ballot
   * and report the last acceptance.
   */
  function Promise(c: Constants, h: Variables, m: Message): (r: (Variables, Message))
    requires m.Prepare? && m.key in h.instances
    requires H.Cmp(m.ballot, h.instances[m.key].currentBallot) == 1
    ensures r.0.currentInstance == h.currentInstance
    ensures r.1 == Message.Promise(m.key, c.id, m.ballot, H.Reported(InstanceIntoSpec(h.instances[m.key])))
    ensures H.PromiseStep(c.IntoSpec(), VariablesIntoSpec(h), VariablesIntoSpec(r.0), m.key,
                          H.NetworkOperation(Some(IntoSpec(m)), Some(IntoSpec(r.1))))
  {
    var inst := h.instances[m.key];
    var inst' := inst.(currentBallot := m.ballot);
    VariablesIntoSpecUpdate(h, m.key, inst');
    (h.(instances := h.instances[m.key := inst']), Message.Promise(m.key, c.id, m.ballot, H.Reported(InstanceIntoSpec(inst))))
  }

  /** Record a Promise's report for one of this host's ballots that has no proposal yet. */
  function Promised(c: Constants, h: Variables, m: Message): (r: Variables)
    requires m.Promise? && m.key in h.instances
    requires m.ballot in h.instances[m.key].promised && m.ballot !in h.instances[m.key].proposedValue
    ensures r.currentInstance == h.currentInstance
    ensures H.PromisedStep(c.IntoSpec(), VariablesIntoSpec(h), VariablesIntoSpec(r), m.key,
                           H.NetworkOperation(Some(IntoSpec(m)), None))
  {
    var inst := h.instances[m.key];
    var rs: Reports := inst.promised[m.ballot][m.sender := m.accepted];
    var inst' := inst.(promised := inst.promised[m.ballot := rs]);
    VariablesIntoSpecUpdate(h, m.key, inst');
    h.(instances := h.instances[m.key := inst'])
  }

  /**
   * Phase 2(a) value choice over a promise quorum's reports: the value of the
   * highest-ballot report, or the proposer's own id when nobody reported one.
   */
  method ChooseValue(rs: Reports, id: USize) returns (v: Value)
    ensures H.IsValidChoice(rs, id, v)
  {
    v := id;
    var best: Option<Ballot> := None;
    ghost var bestSender: USize := 0;
    var todo := rs.Keys;
    ghost var seen: set<USize> := {};
    while todo != {}
      invariant todo + seen == rs.Keys && todo !! seen
      invariant best.None? ==> v == id && forall s :: s in seen ==> rs[s].None?
      invariant best.Some? ==> bestSender in seen && rs[bestSender] == Some((best.value, v))
      invariant best.Some? ==>
                  forall t :: t in seen && rs[t].Some? ==> H.Cmp(rs[t].value.0, best.value) <= 0
      decreases |todo|
    {
      var s :| s in todo;
      var r := rs[s];
      if r.Some? && (best.None? || H.Cmp(r.value.0, best.value) == 1) {
        forall t | t in seen && rs[t].Some? ensures H.Cmp(rs[t].value.0, r.value.0) <= 0 {
          H.CmpAntisymmetric(r.value.0, best.value);
          H.CmpTransitive(rs[t].value.0, best.value, r.value.0);
        }
        H.CmpAntisymmetric(r.value.0, r.value.0);
        best := Some(r.value.0);
        v := r.value.1;
        bestSender := s;
      } else if r.Some? {
        H.CmpAntisymmetric(r.value.0, best.value);
      }
      todo := todo - {s};
      seen := seen + {s};
    }
    if best.Some? {
      assert H.IsHighestReport(rs, bestSender);
    }
  }

  /**
   * With a promise quorum for the current ballot and no proposal yet, fix the
   * value chosen from the quorum's reports and send Accept for it.
   */
  method SendAccept(c: Constants, h: Variables) returns (r: Variables, send: Message)
    requires h.currentInstance in h.instances
    requires var inst := h.instances[h.currentInstance];
             && inst.currentBallot in inst.promised
             && |inst.promised[inst.currentBallot]| > c.numFailures
             && inst.currentBallot !in inst.proposedValue
    ensures r.currentInstance == h.currentInstance && h.currentInstance in r.instances
    ensures var inst := r.instances[h.currentInstance];
            && inst.currentBallot in inst.proposedValue
            && send == Accept(h.currentInstance, inst.currentBallot, inst.proposedValue[inst.currentBallot])
    ensures H.SendAcceptStep(c.IntoSpec(), VariablesIntoSpec(h), VariablesIntoSpec(r), h.currentInstance,
                             H.NetworkOperation(None, Some(IntoSpec(send))))
  {
    var key := h.currentInstance;
    var inst := h.instances[key];
    var b := inst.currentBallot;
    var v := ChooseValue(inst.promised[b], c.id);
    var inst' := inst.(proposedValue := inst.proposedValue[b := v]);
    VariablesIntoSpecUpdate(h, key, inst');
    r := h.(instances := h.instances[key := inst']);
    send := Accept(key, b, v);
  }
}
