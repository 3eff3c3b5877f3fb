/**
 * The executable host state of src/implementation/host.rs: the same fields as
 * the abstract instance, but over fixed-width integers and hash maps, and the
 * `into_spec` abstraction functions that map it onto PaxosHost.
 *
 * u64 and usize are modelled as subset types of nat (usize as 64 bits wide);
 * HashMap and HashSet become Dafny maps and sets. The executable ballot
 * `{ num: u64, pid: usize }` is the abstract ballot whose fields fit those
 * widths, so its `into_spec` is the inclusion of the subset type.
 */
module ImplHost {
  import opened Wrappers
  import H = PaxosHost

  const U64_MAX: int := 0xFFFF_FFFF_FFFF_FFFF
  const USIZE_MAX: int := 0xFFFF_FFFF_FFFF_FFFF

  type U64 = x: nat | x <= U64_MAX
  type USize = x: nat | x <= USIZE_MAX

  /** The implementation's proposed values are `usize`. */
  type Value = USize

  /** An abstract ballot is representable when both fields fit their machine types. */
  predicate BallotValidSpec(b: H.Ballot) {
    b.num <= U64_MAX && b.pid <= USIZE_MAX
  }

  type Ballot = b: H.Ballot | BallotValidSpec(b) witness H.Ballot(0, 0)

  datatype Constants = Constants(id: USize, numHosts: USize, numFailures: USize) {
    function IntoSpec(): H.Constants {
      H.Constants(id, numHosts, numFailures)
    }

    predicate WellFormed() {
      IntoSpec().WellFormed()
    }
  }

  /** A Promise's report of the last acceptance, as the implementation stores it. */
  type Report = Option<(Ballot, Value)>

  /** Promise responses for one ballot, keyed by responder. */
  type Reports = map<USize, Report>

  datatype Instance = Instance(
    currentBallot: Ballot,
    promised: map<Ballot, Reports>,
    proposedValue: map<Ballot, Value>,
    accepted: map<Ballot, set<USize>>,
    acceptBallot: Option<Ballot>,
    acceptValue: Option<Value>,
    decideValue: Option<Value>)

  /**
   * The abstraction of one instance: every map keeps its key set and its
   * contents; only the element types widen to unbounded integers.
   */
  function InstanceIntoSpec(inst: Instance): H.Instance {
    H.Instance(
      inst.currentBallot,
      inst.promised,
      inst.proposedValue,
      inst.accepted,
      inst.acceptBallot,
      inst.acceptValue,
      inst.decideValue)
  }

  /**
   * A host's executable state. `currentInstance` is the key the system is
   * working on; the abstraction forgets it.
   */
  datatype Variables = Variables(currentInstance: U64, instances: map<U64, Instance>)

  function VariablesIntoSpec(h: Variables): H.Variables {
    H.Variables(map k | k in h.instances :: InstanceIntoSpec(h.instances[k]))
  }
}
