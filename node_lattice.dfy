/**
 * One vertex of the state-lattice search graph: its fixed cell index, its
 * continuous pose, and the bookkeeping the best-first search keeps on it
 * (cost-to-come, cached cell cost, visited and queued flags, the motion
 * primitive that reached it, and its predecessor).
 *
 * The inline mutators are modelled twice, as is usual for state that changes
 * in place: as a pure transition `Apply` on a snapshot `NodeState`, about which
 * the lemmas speak, and as methods of the class `NodeLattice`, each of which
 * promises that its new snapshot is `Apply` of the old one.
 */
module LatticeNode {
  import opened Unsigned

  datatype Option<T> = None | Some(value: T)

  /** A continuous, sub-cell pose: position in partial cells and heading. */
  datatype Pose = Pose(x: real, y: real, theta: real)

  /**
   * Every field of a node. The parent is the predecessor's cell index rather
   * than a pointer; the two costs are stored and read back, never computed with.
   */
  datatype NodeState = NodeState(
    index: uint32,
    pose: Pose,
    parent: Option<uint32>,
    accumulatedCost: real,
    cellCost: real,
    wasVisited: bool,
    isQueued: bool,
    motionPrimitiveIndex: uint32)

  /** The inline mutators of a node. */
  datatype Mutation =
    | AssignPose(pose: Pose)
    | AssignMotionPrimitiveIndex(primitive: uint32)
    | AssignAccumulatedCost(cost: real)
    | MarkVisited
    | MarkQueued

  /** The effect of one mutator on a node. */
  function Apply(s: NodeState, m: Mutation): (s': NodeState)
  {
    match m
    case AssignPose(p) => s.(pose := p)
    case AssignMotionPrimitiveIndex(k) => s.(motionPrimitiveIndex := k)
    case AssignAccumulatedCost(c) => s.(accumulatedCost := c)
    case MarkVisited => s.(wasVisited := true, isQueued := false)
    case MarkQueued => s.(isQueued := true)
  }

  /** The effect of a sequence of mutators, applied left to right. */
  function Replay(s: NodeState, ms: seq<Mutation>): (s': NodeState)
    decreases |ms|
  {
    if ms == [] then s else Replay(Apply(s, ms[0]), ms[1..])
  }

  /** Node equality: the same cell index. */
  predicate SameNode(s: NodeState, t: NodeState)
  {
    s.index == t.index
  }

  /** The search phase of a node: unvisited, queued (open) or visited (closed). */
  datatype Phase = Unvisited | Open | Closed

  /** A node is never both visited and queued. */
  predicate FlagsConsistent(s: NodeState)
  {
    !(s.wasVisited && s.isQueued)
  }

  function PhaseOf(s: NodeState): (p: Phase)
    requires FlagsConsistent(s)
  {
    if s.wasVisited then Closed else if s.isQueued then Open else Unvisited
  }

  function Rank(p: Phase): (rank: nat)
  {
    match p
    case Unvisited => 0
    case Open => 1
    case Closed => 2
  }

  /**
   * The search loop's side of the flag discipline: once a node is visited it is
   * never queued again.
   */
  predicate NoRequeueAfterVisit(s: NodeState, ms: seq<Mutation>)
  {
    (s.wasVisited ==> MarkQueued !in ms) &&
    forall i, j :: 0 <= i < j < |ms| && ms[i] == MarkVisited ==> ms[j] != MarkQueued
  }

  // ---------------------------------------------------------------------------
  // Properties of the mutators

  /** visited() leaves the node visited and not queued; a second call changes nothing. */
  lemma VisitClosesNode(s: NodeState)
    ensures FlagsConsistent(Apply(s, MarkVisited)) && PhaseOf(Apply(s, MarkVisited)) == Closed
    ensures Apply(Apply(s, MarkVisited), MarkVisited) == Apply(s, MarkVisited)
  {
  }

  /**
   * queued() is idempotent, and leaves the flags consistent exactly when the
   * node was not yet visited, in which case the node is open.
   */
  lemma QueueOpensNode(s: NodeState)
    ensures Apply(Apply(s, MarkQueued), MarkQueued) == Apply(s, MarkQueued)
    ensures FlagsConsistent(Apply(s, MarkQueued)) <==> !s.wasVisited
    ensures !s.wasVisited ==> PhaseOf(Apply(s, MarkQueued)) == Open
  {
  }

  /** Each setter is read back, and the flags are untouched by it. */
  lemma SetterReadBack(s: NodeState, p: Pose, k: uint32, c: real)
    ensures Apply(s, AssignPose(p)).pose == p
    ensures Apply(s, AssignMotionPrimitiveIndex(k)).motionPrimitiveIndex == k
    ensures Apply(s, AssignAccumulatedCost(c)).accumulatedCost == c
    ensures Apply(s, AssignPose(p)) == s.(pose := p)
    ensures Apply(s, AssignMotionPrimitiveIndex(k)) == s.(motionPrimitiveIndex := k)
    ensures Apply(s, AssignAccumulatedCost(c)) == s.(accumulatedCost := c)
  {
  }

  /**
   * No sequence of inline mutators alters the index, the parent or the cached
   * cell cost of a node.
   */
  lemma {:induction false} ReplayKeepsIdentity(s: NodeState, ms: seq<Mutation>)
    ensures Replay(s, ms).index == s.index
    ensures Replay(s, ms).parent == s.parent
    ensures Replay(s, ms).cellCost == s.cellCost
    decreases |ms|
  {
    if ms != [] {
      ReplayKeepsIdentity(Apply(s, ms[0]), ms[1..]);
    }
  }

  /** Whether two nodes are equal does not change, whatever is done to either of them. */
  lemma EqualityIgnoresMutations(s: NodeState, t: NodeState, ms: seq<Mutation>, ns: seq<Mutation>)
    ensures SameNode(Replay(s, ms), Replay(t, ns)) <==> s.index == t.index
  {
    ReplayKeepsIdentity(s, ms);
    ReplayKeepsIdentity(t, ns);
  }

  /**
   * Under the search loop's discipline, a node's phase only moves forward
   * (unvisited, then queued, then visited), its flags stay consistent, and once
   * visited() has been called the node ends visited.
   */
  lemma {:induction false} ReplayAdvancesPhase(s: NodeState, ms: seq<Mutation>)
    requires FlagsConsistent(s) && NoRequeueAfterVisit(s, ms)
    ensures FlagsConsistent(Replay(s, ms))
    ensures Rank(PhaseOf(s)) <= Rank(PhaseOf(Replay(s, ms)))
    ensures MarkVisited in ms ==> PhaseOf(Replay(s, ms)) == Closed
    decreases |ms|
  {
    if ms != [] {
      var s', rest := Apply(s, ms[0]), ms[1..];
      assert ms[0] == MarkQueued ==> !s.wasVisited;
      assert Rank(PhaseOf(s)) <= Rank(PhaseOf(s'));
      forall i, j | 0 <= i < j < |rest| && rest[i] == MarkVisited
        ensures rest[j] != MarkQueued
      {
        assert ms[i + 1] == rest[i] && ms[j + 1] == rest[j];
      }
      if s'.wasVisited {
        assert forall j :: 0 <= j < |rest| ==> rest[j] == ms[j + 1];
        if !s.wasVisited {
          assert ms[0] == MarkVisited;
        }
      }
      assert NoRequeueAfterVisit(s', rest);
      ReplayAdvancesPhase(s', rest);
      if ms[0] == MarkVisited {
        assert PhaseOf(s') == Closed;
      } else if MarkVisited in ms {
        assert MarkVisited in rest;
      }
    }
  }

  // ---------------------------------------------------------------------------
  // The node object

  class NodeLattice {
    /** Predecessor on the path, by cell index; used only to rebuild the path. */
    var parent: Option<uint32>
    var pose: Pose
    var cellCost: real
    var accumulatedCost: real
    var index: uint32
    var wasVisited: bool
    var isQueued: bool
    var motionPrimitiveIndex: uint32

    /** All fields, as a value. */
    function State(): (s: NodeState)
      reads this
    {
      NodeState(index, pose, parent, accumulatedCost, cellCost, wasVisited, isQueued, motionPrimitiveIndex)
    }

    /** A node for one cell index, not yet reached by the search. */
    constructor (index: uint32)
      ensures GetIndex() == index
      ensures parent == None && !WasVisited() && !IsQueued()
    {
      this.index := index;
      parent := None;
      pose := Pose(0.0, 0.0, 0.0);
      cellCost := 0.0;
      accumulatedCost := 0.0;
      wasVisited := false;
      isQueued := false;
      motionPrimitiveIndex := 0;
    }

    /** operator==: two nodes are equal exactly when their cell indices are. */
    function Equals(rhs: NodeLattice): (equal: bool)
      reads this, rhs
      ensures equal <==> SameNode(State(), rhs.State())
    {
      index == rhs.index
    }

    method SetPose(p: Pose)
      modifies this`pose
      ensures pose == p
      ensures State() == Apply(old(State()), AssignPose(p))
    {
      pose := p;
    }

    method SetMotionPrimitiveIndex(k: uint32)
      modifies this`motionPrimitiveIndex
      ensures GetMotionPrimitiveIndex() == k
      ensures State() == Apply(old(State()), AssignMotionPrimitiveIndex(k))
    {
      motionPrimitiveIndex := k;
    }

    function GetMotionPrimitiveIndex(): (k: uint32)
      reads this
    {
      motionPrimitiveIndex
    }

    function GetAccumulatedCost(): (cost: real)
      reads this
    {
      accumulatedCost
    }

    method SetAccumulatedCost(c: real)
      modifies this`accumulatedCost
      ensures GetAccumulatedCost() == c
      ensures State() == Apply(old(State()), AssignAccumulatedCost(c))
    {
      accumulatedCost := c;
    }

    /** The cached costmap cost of this cell. */
    function GetCost(): (cost: real)
      reads this
    {
      cellCost
    }

    function WasVisited(): (visited: bool)
      reads this
    {
      wasVisited
    }

    /** visited(): the node is expanded, so it leaves the queue. */
    method Visited()
      modifies this`wasVisited, this`isQueued
      ensures WasVisited() && !IsQueued()
      ensures State() == Apply(old(State()), MarkVisited)
    {
      wasVisited := true;
      isQueued := false;
    }

    function IsQueued(): (queued: bool)
      reads this
    {
      isQueued
    }

    /** queued(): the node is in the open set; the visited flag is left as it was. */
    method Queued()
      modifies this`isQueued
      ensures IsQueued() && WasVisited() == old(WasVisited())
      ensures State() == Apply(old(State()), MarkQueued)
    {
      isQueued := true;
    }

    function GetIndex(): (i: uint32)
      reads this
    {
      index
    }
  }
}
