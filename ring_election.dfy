/**
 * Max-id leader election on a unidirectional ring (src/system/host.rs).
 *
 * Host `i` has the unique id `ids[i]` and remembers the largest id it has
 * received, `maxReceivedIds[i]` (initially -1). A step lets one host `src`
 * pass the larger of its own id and its received maximum to its clockwise
 * neighbour. Safety: at most one host ever receives its own id back, which is
 * how a host learns it is the leader. Ids are `i64` in the source; nothing
 * here adds or multiplies them, so they are modelled as `int`.
 */
module RingElection {

  datatype Constants = Constants(ids: seq<int>) {
    predicate WellFormed() {
      |ids| > 0 && UniqueValues(ids)
    }
  }

  datatype Variables = Variables(maxReceivedIds: seq<int>) {
    predicate WellFormed(c: Constants) {
      c.WellFormed() && |maxReceivedIds| == |c.ids|
    }
  }

  predicate UniqueValues(s: seq<int>) {
    forall i, j :: 0 <= i < j < |s| ==> s[i] != s[j]
  }

  /** Unique values: equal entries sit at the same index. */
  lemma UniqueValuesIndex(s: seq<int>, i: int, j: int)
    requires UniqueValues(s) && 0 <= i < |s| && 0 <= j < |s| && s[i] == s[j]
    ensures i == j
  {
  }

  predicate Init(c: Constants, u: Variables) {
    && u.WellFormed(c)
    && forall idx :: 0 <= idx < |u.maxReceivedIds| ==> c.ids[idx] >= 0 && u.maxReceivedIds[idx] == -1
  }

  /** The clockwise neighbour of `src` on a ring of `n` hosts. */
  function NextIndex(n: nat, src: int): (r: int)
    requires 0 <= src < n
    ensures 0 <= r < n
    ensures r == (src + 1) % n
  {
    if src + 1 == n then 0 else src + 1
  }

  /** What `src` sends: the larger of its own id and the largest id it has received. */
  function Msg(c: Constants, u: Variables, src: int): int
    requires u.WellFormed(c) && 0 <= src < |c.ids|
  {
    if c.ids[src] > u.maxReceivedIds[src] then c.ids[src] else u.maxReceivedIds[src]
  }

  /**
   * One message from `src` to its neighbour `dest`: `dest` keeps the larger of
   * what it had and what it receives; nothing else changes. The source indexes
   * `u.maxReceivedIds` without asking for well-formedness, where an
   * out-of-range read is unspecified; here the relation requires it.
   */
  predicate MessageExchange(c: Constants, u: Variables, v: Variables, src: int) {
    && u.WellFormed(c)
    && 0 <= src < |c.ids|
    && var dest := NextIndex(|c.ids|, src);
       var msg := Msg(c, u, src);
       var newVal := if u.maxReceivedIds[dest] > msg then u.maxReceivedIds[dest] else msg;
       v.maxReceivedIds == u.maxReceivedIds[dest := newVal]
  }

  datatype Transition = MessageExchangeStep(src: int)

  predicate IsValidTransition(c: Constants, u: Variables, v: Variables, t: Transition) {
    match t
    case MessageExchangeStep(src) => MessageExchange(c, u, v, src)
  }

  ghost predicate Next(c: Constants, u: Variables, v: Variables) {
    exists t :: IsValidTransition(c, u, v, t)
  }

  /**
   * A message exchange changes only `dest`, whose new entry is the maximum of
   * its old entry, the sender's id and the sender's received maximum; so no
   * entry ever decreases.
   */
  lemma MessageExchangeEffect(c: Constants, u: Variables, v: Variables, src: int)
    requires MessageExchange(c, u, v, src)
    ensures v.WellFormed(c)
    ensures var dest := NextIndex(|c.ids|, src);
            && (forall k :: 0 <= k < |c.ids| && k != dest ==> v.maxReceivedIds[k] == u.maxReceivedIds[k])
            && v.maxReceivedIds[dest] >= u.maxReceivedIds[dest]
            && v.maxReceivedIds[dest] >= c.ids[src]
            && v.maxReceivedIds[dest] >= u.maxReceivedIds[src]
            && (v.maxReceivedIds[dest] == u.maxReceivedIds[dest] ||
                v.maxReceivedIds[dest] == c.ids[src] ||
                v.maxReceivedIds[dest] == u.maxReceivedIds[src])
    ensures forall k :: 0 <= k < |c.ids| ==> v.maxReceivedIds[k] >= u.maxReceivedIds[k]
  {
  }

  /** Every host has received its own id at most once across the ring: at most one leader. */
  predicate Safety(c: Constants, u: Variables) {
    && u.WellFormed(c)
    && forall i, j ::
         (0 <= i < |c.ids| && 0 <= j < |c.ids| &&
          c.ids[i] == u.maxReceivedIds[i] && c.ids[j] == u.maxReceivedIds[j]) ==> i == j
  }

  /**
   * `mid` lies on the clockwise arc from `start` (included) to `end`
   * (excluded); when `start == end` the arc is the whole ring.
   */
  predicate IsIndexInBetween(start: int, mid: int, end: int) {
    if end > start then start <= mid < end else start <= mid || mid < end
  }

  /** If `ids[i]` has reached `j`, it beat every id on the arc from `i` to `j`. */
  predicate Inductive(c: Constants, u: Variables) {
    && u.WellFormed(c)
    && forall i, mid, j ::
         (0 <= i < |c.ids| && 0 <= mid < |c.ids| && 0 <= j < |c.ids| &&
          IsIndexInBetween(i, mid, j) && u.maxReceivedIds[j] == c.ids[i]) ==>
         c.ids[mid] <= c.ids[i]
  }

  // ---------------------------------------------------------------------
  // Arcs on the ring.
  // ---------------------------------------------------------------------

  /** The arc from `i` to the neighbour of `src` is the arc from `i` to `src`, plus `src`. */
  lemma ArcExtends(n: nat, i: int, mid: int, src: int)
    requires 0 <= i < n && 0 <= mid < n && 0 <= src < n
    requires IsIndexInBetween(i, mid, NextIndex(n, src))
    ensures mid == src || IsIndexInBetween(i, mid, src)
  {
  }

  /** The arc from `src` to its neighbour holds `src` alone. */
  lemma ArcToNeighbour(n: nat, mid: int, src: int)
    requires 0 <= mid < n && 0 <= src < n
    requires IsIndexInBetween(src, mid, NextIndex(n, src))
    ensures mid == src
  {
  }

  // ---------------------------------------------------------------------
  // The three proof obligations of `ensures_safety`.
  // ---------------------------------------------------------------------

  lemma InitImpliesInductive(c: Constants, u: Variables)
    requires Init(c, u)
    ensures Inductive(c, u)
  {
    forall i, j | 0 <= i < |c.ids| && 0 <= j < |c.ids|
      ensures u.maxReceivedIds[j] != c.ids[i]
    {
      assert c.ids[i] >= 0 && u.maxReceivedIds[j] == -1;
    }
  }

  /** The invariant is preserved by every step, derived rather than taken for granted. */
  lemma InductiveNext(c: Constants, u: Variables, v: Variables)
    requires Inductive(c, u) && Next(c, u, v)
    ensures Inductive(c, v)
  {
    var t :| IsValidTransition(c, u, v, t);
    var src := t.src;
    var n := |c.ids|;
    var dest := NextIndex(n, src);
    MessageExchangeEffect(c, u, v, src);
    forall i, mid, j |
      0 <= i < n && 0 <= mid < n && 0 <= j < n &&
      IsIndexInBetween(i, mid, j) && v.maxReceivedIds[j] == c.ids[i]
      ensures c.ids[mid] <= c.ids[i]
    {
      if j != dest || v.maxReceivedIds[dest] == u.maxReceivedIds[dest] {
        // The entry at j is unchanged: the old invariant applies.
        assert u.maxReceivedIds[j] == c.ids[i];
      } else if c.ids[src] <= u.maxReceivedIds[src] {
        // dest took src's received maximum, which is ids[i]; the arc to src was already dominated.
        assert v.maxReceivedIds[dest] == u.maxReceivedIds[src];
        ArcExtends(n, i, mid, src);
        if mid != src {
          assert IsIndexInBetween(i, mid, src) && u.maxReceivedIds[src] == c.ids[i];
        }
      } else {
        // dest took src's own id, so i is src and the arc is src alone.
        assert v.maxReceivedIds[dest] == c.ids[src];
        UniqueValuesIndex(c.ids, i, src);
        ArcToNeighbour(n, mid, src);
      }
    }
  }

  /** A host that has received its own id holds the largest id of the ring. */
  lemma LeaderHasMaxId(c: Constants, u: Variables, i: int)
    requires Inductive(c, u) && 0 <= i < |c.ids| && u.maxReceivedIds[i] == c.ids[i]
    ensures forall k :: 0 <= k < |c.ids| ==> c.ids[k] <= c.ids[i]
  {
    forall k | 0 <= k < |c.ids| ensures c.ids[k] <= c.ids[i] {
      assert IsIndexInBetween(i, k, i);
    }
  }

  lemma InductiveImpliesSafety(c: Constants, u: Variables)
    requires Inductive(c, u)
    ensures Safety(c, u)
  {
    forall i, j |
      0 <= i < |c.ids| && 0 <= j < |c.ids| &&
      c.ids[i] == u.maxReceivedIds[i] && c.ids[j] == u.maxReceivedIds[j]
      ensures i == j
    {
      LeaderHasMaxId(c, u, i);
      LeaderHasMaxId(c, u, j);
      UniqueValuesIndex(c.ids, i, j);
    }
  }
}
