/** The web of trust: signed endorsements, and the bounded breadth-first walk that turns
    them into trust depths. */
module WebTrust {
  import opened Bytes
  import opened Crypto
  import opened Wrappers

  datatype Endorsement = Endorsement(endorser: AgentId, subject: AgentId, createdAt: Time, signature: Signature)

  const ENDORSEMENT_TAG: Bytes := Ascii("agentbbs.endorsement.v1\n")

  function EndorsementBytes(e: Endorsement, scheme: Scheme): Bytes {
    Compose(ENDORSEMENT_TAG, [Hex(e.endorser.key), Hex(e.subject.key), scheme.stamp(e.createdAt)])
  }

  predicate EndorsementVerified(e: Endorsement, scheme: Scheme) {
    scheme.valid(e.endorser, EndorsementBytes(e, scheme), e.signature)
  }

  /** A signature over an endorsement binds endorser, subject and time. */
  lemma EndorsementBytesAreInjective(d: Endorsement, e: Endorsement, scheme: Scheme)
    requires scheme.Sound() && EndorsementBytes(d, scheme) == EndorsementBytes(e, scheme)
    ensures d.(signature := e.signature) == e
  {
    var p := [Hex(d.endorser.key), Hex(d.subject.key), scheme.stamp(d.createdAt)];
    var q := [Hex(e.endorser.key), Hex(e.subject.key), scheme.stamp(e.createdAt)];
    ComposeIsInjective(ENDORSEMENT_TAG, p, q);
    assert p[0] == q[0] && p[1] == q[1] && p[2] == q[2];
    HexIsInjective(d.endorser.key, e.endorser.key);
    HexIsInjective(d.subject.key, e.subject.key);
  }

  /** endorser -> the subjects it vouches for */
  type Edges = map<AgentId, seq<AgentId>>

  predicate Endorses(edges: Edges, u: AgentId, v: AgentId) {
    u in edges && v in edges[u]
  }

  function RootSet(roots: seq<AgentId>): set<AgentId> {
    set r | r in roots
  }

  /** `v` is at the end of a walk of exactly `n` endorsements that starts at a root. */
  ghost predicate Reach(edges: Edges, roots: set<AgentId>, v: AgentId, n: nat)
    decreases n
  {
    if n == 0 then v in roots
    else exists u :: Endorses(edges, u, v) && Reach(edges, roots, u, n - 1)
  }

  /** `d` is the length of a shortest endorsement walk from the roots to `v`. */
  ghost predicate Shortest(edges: Edges, roots: set<AgentId>, v: AgentId, d: nat) {
    Reach(edges, roots, v, d) && forall n: nat :: n < d ==> !Reach(edges, roots, v, n)
  }

  /** `v` is no root, and the roots vouch for it within `maxDepth` steps. */
  ghost predicate Within(edges: Edges, roots: set<AgentId>, v: AgentId, maxDepth: nat) {
    v !in roots && exists n: nat :: n <= maxDepth && Reach(edges, roots, v, n)
  }

  /** Exactly the non-roots within reach, each with its shortest distance. */
  ghost predicate IsTrustMap(edges: Edges, roots: set<AgentId>, maxDepth: nat, depth: map<AgentId, nat>) {
    forall v :: (v in depth <==> Within(edges, roots, v, maxDepth))
                && (v in depth ==> Shortest(edges, roots, v, depth[v]) && 1 <= depth[v] <= maxDepth)
  }

  function AddEdge(edges: Edges, e: Endorsement): Edges {
    var list := if e.endorser in edges then edges[e.endorser] else [];
    edges[e.endorser := if e.subject in list then list else list + [e.subject]]
  }

  lemma AddEdgeAddsOne(edges: Edges, e: Endorsement, u: AgentId, v: AgentId)
    ensures Endorses(AddEdge(edges, e), u, v) <==> Endorses(edges, u, v) || (u == e.endorser && v == e.subject)
  {
  }

  ghost predicate SubEdges(a: Edges, b: Edges) {
    forall u, v :: Endorses(a, u, v) ==> Endorses(b, u, v)
  }

  /** More endorsements never lengthen a walk. */
  lemma {:induction false} ReachGrows(a: Edges, b: Edges, roots: set<AgentId>, v: AgentId, n: nat)
    requires SubEdges(a, b) && Reach(a, roots, v, n)
    ensures Reach(b, roots, v, n)
    decreases n
  {
    if n > 0 {
      var u :| Endorses(a, u, v) && Reach(a, roots, u, n - 1);
      ReachGrows(a, b, roots, u, n - 1);
    }
  }

  // ----- The walk -----

  type Queue = seq<(AgentId, nat)>

  /** Distance assigned so far: 0 for roots, the table for the others. */
  predicate Labelled(roots: set<AgentId>, depth: map<AgentId, nat>, v: AgentId, d: nat) {
    if v in roots then d == 0 else v in depth && depth[v] == d
  }

  /** Every label is the length of some walk. */
  ghost predicate Sound(edges: Edges, roots: set<AgentId>, maxDepth: nat, depth: map<AgentId, nat>, queue: Queue) {
    && (forall v :: v in depth ==> v !in roots && 1 <= depth[v] <= maxDepth && Reach(edges, roots, v, depth[v]))
    && (forall i :: 0 <= i < |queue| ==> Labelled(roots, depth, queue[i].0, queue[i].1))
  }

  /** The neighbours of `u`, at distance `d`, are labelled no farther than `d + 1`. */
  ghost predicate Expanded(edges: Edges, roots: set<AgentId>, depth: map<AgentId, nat>, u: AgentId, d: nat) {
    forall s :: Endorses(edges, u, s) && s !in roots ==> s in depth && depth[s] <= d + 1
  }

  /** Every labelled node short of the bound is expanded or still queued. */
  ghost predicate Covered(edges: Edges, roots: set<AgentId>, maxDepth: nat, depth: map<AgentId, nat>, queue: Queue) {
    forall u, d: nat :: Labelled(roots, depth, u, d) && d < maxDepth
      ==> (u, d) in queue || Expanded(edges, roots, depth, u, d)
  }

  /** The queue is in distance order and nothing is labelled beyond its head plus one. */
  ghost predicate InOrder(depth: map<AgentId, nat>, queue: Queue) {
    && (forall i, j :: 0 <= i < j < |queue| ==> queue[i].1 <= queue[j].1)
    && (queue != [] ==> queue[|queue| - 1].1 <= queue[0].1 + 1)
    && (queue != [] ==> forall v :: v in depth ==> depth[v] <= queue[0].1 + 1)
  }

  /** What holds between visits. */
  ghost predicate Walking(edges: Edges, roots: set<AgentId>, maxDepth: nat, depth: map<AgentId, nat>, queue: Queue) {
    && Sound(edges, roots, maxDepth, depth, queue)
    && Covered(edges, roots, maxDepth, depth, queue)
    && InOrder(depth, queue)
  }

  /** While `u`, at distance `d`, is being expanded: the subjects in `done` are labelled. */
  ghost predicate Expanding(edges: Edges, roots: set<AgentId>, maxDepth: nat, depth: map<AgentId, nat>, queue: Queue,
                            u: AgentId, d: nat, done: seq<AgentId>) {
    && Sound(edges, roots, maxDepth, depth, queue)
    && Labelled(roots, depth, u, d) && d < maxDepth
    && (forall i, j :: 0 <= i < j < |queue| ==> queue[i].1 <= queue[j].1)
    && (forall i :: 0 <= i < |queue| ==> d <= queue[i].1 <= d + 1)
    && (forall v :: v in depth ==> depth[v] <= d + 1)
    && (forall w, e: nat :: Labelled(roots, depth, w, e) && e < maxDepth && (w, e) != (u, d)
          ==> (w, e) in queue || Expanded(edges, roots, depth, w, e))
    && (forall s :: s in done && s !in roots ==> s in depth)
  }

  /** A first sighting gets the next distance and joins the queue. */
  lemma Discover(edges: Edges, roots: set<AgentId>, maxDepth: nat, depth: map<AgentId, nat>, queue: Queue,
                 u: AgentId, d: nat, done: seq<AgentId>, s: AgentId)
    requires Expanding(edges, roots, maxDepth, depth, queue, u, d, done)
    requires Endorses(edges, u, s) && s !in roots && s !in depth
    ensures Expanding(edges, roots, maxDepth, depth[s := d + 1], queue + [(s, d + 1)], u, d, done + [s])
  {
    var depth2, queue2 := depth[s := d + 1], queue + [(s, d + 1)];
    assert Reach(edges, roots, u, d);
    assert Reach(edges, roots, s, d + 1);
    forall w, e: nat | Labelled(roots, depth2, w, e) && e < maxDepth && (w, e) != (u, d)
      ensures (w, e) in queue2 || Expanded(edges, roots, depth2, w, e)
    {
      if w == s {
        assert queue2[|queue|] == (w, e);
      } else {
        assert Labelled(roots, depth, w, e);
        if (w, e) in queue {
          assert (w, e) in queue2;
        }
      }
    }
  }

  /** A root, or a subject already labelled, changes nothing. */
  lemma SeenBefore(edges: Edges, roots: set<AgentId>, maxDepth: nat, depth: map<AgentId, nat>, queue: Queue,
                   u: AgentId, d: nat, done: seq<AgentId>, s: AgentId)
    requires Expanding(edges, roots, maxDepth, depth, queue, u, d, done)
    requires s in roots || s in depth
    ensures Expanding(edges, roots, maxDepth, depth, queue, u, d, done + [s])
    ensures s in depth ==> depth[s] <= d + 1
  {
  }

  /** Expanding a node to the end restores the loop's own invariant. */
  lemma ExpansionDone(edges: Edges, roots: set<AgentId>, maxDepth: nat, depth: map<AgentId, nat>, queue: Queue,
                      u: AgentId, d: nat)
    requires Expanding(edges, roots, maxDepth, depth, queue, u, d, if u in edges then edges[u] else [])
    ensures Walking(edges, roots, maxDepth, depth, queue)
  {
    assert Expanded(edges, roots, depth, u, d);
  }

  /** The queue the program starts from: every root, at distance 0. */
  function Starts(roots: seq<AgentId>): (queue: Queue)
    ensures |queue| == |roots| && forall i :: 0 <= i < |roots| ==> queue[i] == (roots[i], 0)
  {
    seq(|roots|, i requires 0 <= i < |roots| => (roots[i], 0))
  }

  lemma WalkStarts(edges: Edges, roots: seq<AgentId>, maxDepth: nat)
    ensures Walking(edges, RootSet(roots), maxDepth, map[], Starts(roots))
  {
    forall r | r in RootSet(roots) ensures (r, 0) in Starts(roots) {
      var i :| 0 <= i < |roots| && roots[i] == r;
      assert Starts(roots)[i] == (r, 0);
    }
  }

  /** Taking the head off the queue starts its expansion. */
  lemma ExpansionStarts(edges: Edges, roots: set<AgentId>, maxDepth: nat, depth: map<AgentId, nat>, queue: Queue)
    requires queue != [] && queue[0].1 < maxDepth
    requires Walking(edges, roots, maxDepth, depth, queue)
    ensures Expanding(edges, roots, maxDepth, depth, queue[1..], queue[0].0, queue[0].1, [])
  {
    assert queue == [queue[0]] + queue[1..];
    forall i | 0 <= i < |queue[1..]| ensures queue[0].1 <= queue[1..][i].1 <= queue[0].1 + 1 {
      assert queue[1..][i] == queue[i + 1];
    }
  }

  /** A head at the bound is dropped: it needs no expansion. */
  lemma BoundReached(edges: Edges, roots: set<AgentId>, maxDepth: nat, depth: map<AgentId, nat>, queue: Queue)
    requires queue != [] && queue[0].1 >= maxDepth
    requires Walking(edges, roots, maxDepth, depth, queue)
    ensures Walking(edges, roots, maxDepth, depth, queue[1..])
  {
    assert queue == [queue[0]] + queue[1..];
  }

  lemma {:induction false} CoverageIsComplete(edges: Edges, roots: set<AgentId>, maxDepth: nat,
                                              depth: map<AgentId, nat>, v: AgentId, n: nat)
    requires Sound(edges, roots, maxDepth, depth, []) && Covered(edges, roots, maxDepth, depth, [])
    requires v !in roots && n <= maxDepth && Reach(edges, roots, v, n)
    ensures v in depth && depth[v] <= n
    decreases n
  {
    var u :| Endorses(edges, u, v) && Reach(edges, roots, u, n - 1);
    if u in roots {
      assert Labelled(roots, depth, u, 0);
      assert Expanded(edges, roots, depth, u, 0);
    } else {
      CoverageIsComplete(edges, roots, maxDepth, depth, u, n - 1);
      assert Labelled(roots, depth, u, depth[u]);
      assert Expanded(edges, roots, depth, u, depth[u]);
    }
  }

  /** An empty queue means the labels are the shortest distances, and all of them. */
  lemma WalkIsExact(edges: Edges, roots: set<AgentId>, maxDepth: nat, depth: map<AgentId, nat>)
    requires Sound(edges, roots, maxDepth, depth, []) && Covered(edges, roots, maxDepth, depth, [])
    ensures IsTrustMap(edges, roots, maxDepth, depth)
  {
    forall v
      ensures v in depth <==> Within(edges, roots, v, maxDepth)
      ensures v in depth ==> Shortest(edges, roots, v, depth[v])
    {
      if v !in roots {
        forall n: nat | n <= maxDepth && Reach(edges, roots, v, n) ensures v in depth && depth[v] <= n {
          CoverageIsComplete(edges, roots, maxDepth, depth, v, n);
        }
      }
    }
  }

  lemma LabellingMoreLeavesLess(all: set<AgentId>, before: set<AgentId>, after: set<AgentId>)
    requires before <= after <= all
    ensures after == before || all - after < all - before
  {
    if v :| v in after - before {
      assert v in all - before && v !in all - after;
    }
  }

  class WebOfTrust {
    var edges: Edges
    const scheme: Scheme

    constructor (scheme: Scheme)
      ensures edges == map[] && this.scheme == scheme
    {
      edges := map[];
      this.scheme := scheme;
    }

    /** Forged endorsements are rejected; repeats add nothing. */
    method Add(e: Endorsement) returns (r: Result<()>)
      modifies this`edges
      ensures EndorsementVerified(e, scheme) ==> r == Ok(()) && edges == AddEdge(old(edges), e)
      ensures !EndorsementVerified(e, scheme) ==> r == Err(BadSignature) && edges == old(edges)
      ensures r.Ok? <==> scheme.valid(e.endorser,
                           Compose(Ascii("agentbbs.endorsement.v1\n"),
                                   [Hex(e.endorser.key), Hex(e.subject.key), scheme.stamp(e.createdAt)]), e.signature)
    {
      if !EndorsementVerified(e, scheme) {
        return Err(BadSignature);
      }
      var list := if e.endorser in edges then edges[e.endorser] else [];
      if e.subject !in list {
        list := list + [e.subject];
      }
      edges := edges[e.endorser := list];
      return Ok(());
    }

    ghost function Subjects(): set<AgentId>
      reads this`edges
    {
      set u, i | u in edges && 0 <= i < |edges[u]| :: edges[u][i]
    }

    /** Label and queue one endorsed subject, unless it is a root or labelled as near. */
    method Meet(roots: set<AgentId>, maxDepth: nat, depth: map<AgentId, nat>, queue: Queue,
                node: AgentId, d: nat, ghost done: seq<AgentId>, s: AgentId)
      returns (depth2: map<AgentId, nat>, queue2: Queue)
      requires Expanding(edges, roots, maxDepth, depth, queue, node, d, done) && Endorses(edges, node, s)
      ensures Expanding(edges, roots, maxDepth, depth2, queue2, node, d, done + [s])
      ensures depth.Keys <= depth2.Keys <= depth.Keys + {s}
      ensures depth2.Keys == depth.Keys ==> queue2 == queue
    {
      depth2, queue2 := depth, queue;
      if s in roots {
        SeenBefore(edges, roots, maxDepth, depth, queue, node, d, done, s);
        return;
      }
      var nd := d + 1;
      if s !in depth || nd < depth[s] {
        Discover(edges, roots, maxDepth, depth, queue, node, d, done, s);
        depth2 := depth[s := nd];
        queue2 := queue + [(s, nd)];
      } else {
        SeenBefore(edges, roots, maxDepth, depth, queue, node, d, done, s);
      }
    }

    /** Label and queue the unseen subjects of one node. */
    method Expand(roots: set<AgentId>, maxDepth: nat, depth: map<AgentId, nat>, queue: Queue,
                  node: AgentId, d: nat) returns (depth2: map<AgentId, nat>, queue2: Queue)
      requires Expanding(edges, roots, maxDepth, depth, queue, node, d, [])
      ensures Expanding(edges, roots, maxDepth, depth2, queue2, node, d, if node in edges then edges[node] else [])
      ensures depth.Keys <= depth2.Keys <= depth.Keys + Subjects()
      ensures depth2.Keys == depth.Keys ==> queue2 == queue
    {
      depth2, queue2 := depth, queue;
      var list := if node in edges then edges[node] else [];
      for k := 0 to |list|
        invariant Expanding(edges, roots, maxDepth, depth2, queue2, node, d, list[..k])
        invariant depth.Keys <= depth2.Keys <= depth.Keys + Subjects()
        invariant depth2.Keys == depth.Keys ==> queue2 == queue
      {
        PrefixGrows(list, k);
        assert list[k] in Subjects();
        depth2, queue2 := Meet(roots, maxDepth, depth2, queue2, node, d, list[..k], list[k]);
      }
      WholePrefix(list);
    }

    /** Take the head off the queue: expand it, or drop it at the bound. */
    method Visit(roots: set<AgentId>, maxDepth: nat, depth: map<AgentId, nat>, queue: Queue)
      returns (depth2: map<AgentId, nat>, queue2: Queue)
      requires queue != [] && Walking(edges, roots, maxDepth, depth, queue)
      ensures Walking(edges, roots, maxDepth, depth2, queue2)
      ensures depth.Keys <= depth2.Keys <= depth.Keys + Subjects()
      ensures depth2.Keys == depth.Keys ==> |queue2| < |queue|
    {
      var (node, d) := queue[0];
      if d >= maxDepth {
        BoundReached(edges, roots, maxDepth, depth, queue);
        return depth, queue[1..];
      }
      ExpansionStarts(edges, roots, maxDepth, depth, queue);
      depth2, queue2 := Expand(roots, maxDepth, depth, queue[1..], node, d);
      ExpansionDone(edges, roots, maxDepth, depth2, queue2, node, d);
    }

    /** Breadth-first from the roots; a bound of 0 reaches nothing. */
    method TrustedFrom(roots: seq<AgentId>, maxDepth: nat) returns (depth: map<AgentId, nat>)
      ensures IsTrustMap(edges, RootSet(roots), maxDepth, depth)
    {
      depth := map[];
      var queue := Starts(roots);
      WalkStarts(edges, roots, maxDepth);
      while queue != []
        invariant Walking(edges, RootSet(roots), maxDepth, depth, queue) && depth.Keys <= Subjects()
        decreases Subjects() - depth.Keys, |queue|
      {
        ghost var before := depth.Keys;
        depth, queue := Visit(RootSet(roots), maxDepth, depth, queue);
        LabellingMoreLeavesLess(Subjects(), before, depth.Keys);
      }
      WalkIsExact(edges, RootSet(roots), maxDepth, depth);
    }

    method IsTrusted(node: AgentId, roots: seq<AgentId>, maxDepth: nat) returns (r: bool)
      ensures r <==> Within(edges, RootSet(roots), node, maxDepth)
    {
      var depth := TrustedFrom(roots, maxDepth);
      r := node in depth;
    }
  }
}
