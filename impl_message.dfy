/**
 * The executable messages and network operations of src/implementation/mod.rs,
 * their abstraction onto PaxosHost messages, the partial inverse `from_spec`
 * for abstract messages whose fields fit the machine types, and the in-flight
 * message set of src/implementation/network.rs.
 */
module ImplMessage {
  import opened Wrappers
  import H = PaxosHost
  import opened ImplHost

  datatype Message =
    | Prepare(key: U64, ballot: Ballot)
    | Promise(key: U64, sender: USize, ballot: Ballot, accepted: Report)
    | Accept(key: U64, ballot: Ballot, value: Value)
    | Accepted(key: U64, sender: USize, ballot: Ballot)
    | Decide(key: U64, ballot: Ballot, value: Value)

  predicate ValueValidSpec(v: H.Value) {
    v <= USIZE_MAX
  }

  predicate ReportValidSpec(r: H.Report) {
    r.Some? ==> BallotValidSpec(r.value.0) && ValueValidSpec(r.value.1)
  }

  /** An abstract message is representable when every field fits its machine type. */
  predicate ValidSpec(m: H.Message) {
    match m
    case Prepare(key, ballot) => key <= U64_MAX && BallotValidSpec(ballot)
    case Promise(key, sender, ballot, accepted) =>
      key <= U64_MAX && sender <= USIZE_MAX && BallotValidSpec(ballot) && ReportValidSpec(accepted)
    case Accept(key, ballot, value) => key <= U64_MAX && BallotValidSpec(ballot) && ValueValidSpec(value)
    case Accepted(key, sender, ballot) => key <= U64_MAX && sender <= USIZE_MAX && BallotValidSpec(ballot)
    case Decide(key, ballot, value) => key <= U64_MAX && BallotValidSpec(ballot) && ValueValidSpec(value)
  }

  function IntoSpec(m: Message): (r: H.Message)
    ensures ValidSpec(r)
    ensures r.key == m.key
    ensures r.Prepare? == m.Prepare? && r.Promise? == m.Promise? && r.Accept? == m.Accept? &&
            r.Accepted? == m.Accepted? && r.Decide? == m.Decide?
  {
    match m
    case Prepare(key, ballot) => H.Prepare(key, ballot)
    case Promise(key, sender, ballot, accepted) => H.Promise(key, sender, ballot, accepted)
    case Accept(key, ballot, value) => H.Accept(key, ballot, value)
    case Accepted(key, sender, ballot) => H.Accepted(key, sender, ballot)
    case Decide(key, ballot, value) => H.Decide(key, ballot, value)
  }

  function ReportFromSpec(r: H.Report): (c: Report)
    requires ReportValidSpec(r)
    ensures c == r
  {
    if r.Some? then
      var b: Ballot := r.value.0;
      var v: Value := r.value.1;
      Some((b, v))
    else
      None
  }

  /** Every representable abstract message is the abstraction of its conversion. */
  function FromSpec(m: H.Message): (r: Message)
    requires ValidSpec(m)
    ensures IntoSpec(r) == m
  {
    match m
    case Prepare(key, ballot) => Prepare(key, ballot)
    case Promise(key, sender, ballot, accepted) => Promise(key, sender, ballot, ReportFromSpec(accepted))
    case Accept(key, ballot, value) => Accept(key, ballot, value)
    case Accepted(key, sender, ballot) => Accepted(key, sender, ballot)
    case Decide(key, ballot, value) => Decide(key, ballot, value)
  }

  /** The other round trip: abstraction loses nothing, so converting back restores the message. */
  lemma FromSpecIntoSpec(m: Message)
    ensures FromSpec(IntoSpec(m)) == m
  {
  }

  /** Abstraction is injective on messages. */
  lemma IntoSpecInjective(m1: Message, m2: Message)
    ensures IntoSpec(m1) == IntoSpec(m2) ==> m1 == m2
  {
    if IntoSpec(m1) == IntoSpec(m2) {
      FromSpecIntoSpec(m1);
      FromSpecIntoSpec(m2);
    }
  }

  datatype NetworkOperation = NetworkOperation(recv: Option<Message>, send: Option<Message>)

  /** The abstraction of one slot of a network operation. */
  function OptionMessageIntoSpec(m: Option<Message>): Option<H.Message> {
    if m.Some? then Some(IntoSpec(m.value)) else None
  }

  /**
   * A network operation's slots lose nothing under abstraction: distinct slots
   * (an empty slot included) abstract to distinct slots.
   */
  lemma OptionMessageIntoSpecInjective(m1: Option<Message>, m2: Option<Message>)
    ensures OptionMessageIntoSpec(m1) == OptionMessageIntoSpec(m2) ==> m1 == m2
  {
    if m1.Some? && m2.Some? {
      IntoSpecInjective(m1.value, m2.value);
    }
  }

  function NetworkOperationIntoSpec(op: NetworkOperation): H.NetworkOperation {
    H.NetworkOperation(OptionMessageIntoSpec(op.recv), OptionMessageIntoSpec(op.send))
  }

  /** The abstraction of the in-flight message set: every message abstracted. */
  function NetworkIntoSpec(inFlight: set<Message>): (r: set<H.Message>)
    ensures forall m :: m in inFlight ==> IntoSpec(m) in r
    ensures forall am :: am in r ==> ValidSpec(am) && FromSpec(am) in inFlight
  {
    set m | m in inFlight :: IntoSpec(m)
  }

  /** Adding a message to the in-flight set adds its abstraction to the abstract set. */
  lemma NetworkIntoSpecInsert(inFlight: set<Message>, m: Message)
    ensures NetworkIntoSpec(inFlight + {m}) == NetworkIntoSpec(inFlight) + {IntoSpec(m)}
  {
    var l, r := NetworkIntoSpec(inFlight + {m}), NetworkIntoSpec(inFlight) + {IntoSpec(m)};
    forall am | am in l ensures am in r {
      if FromSpec(am) != m {
        assert FromSpec(am) in inFlight;
      }
    }
  }
}
