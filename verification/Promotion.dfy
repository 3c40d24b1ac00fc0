/** How peers gain trust: endorsements, discovery and promotion, over any run. */
module Promotion {
  import opened Bytes
  import opened Crypto
  import opened Federation
  import opened Peer
  import opened WebTrust

  /** The unknown peers the trusted ones vouch for within `depth` steps. */
  ghost function NewlyLinked(peers: Peers, edges: Edges, depth: nat): set<AgentId> {
    set k | k in peers && peers[k].trust == Unknown && Within(edges, TrustedSet(peers), k, depth)
  }

  ghost function PromoteAll(peers: Peers, edges: Edges, depth: nat): Peers {
    map k | k in peers :: if k in NewlyLinked(peers, edges, depth) then peers[k].(trust := Linked) else peers[k]
  }

  /** Exactly the unknown peers that a trusted one vouches for, over at most `depth`
      endorsements, become linked; they keep their address, and nobody else changes. */
  lemma PromotionLinksTheVouchedFor(peers: Peers, edges: Edges, depth: nat, k: AgentId)
    ensures k in PromoteAll(peers, edges, depth) <==> k in peers
    ensures k in peers ==>
              var p := PromoteAll(peers, edges, depth)[k];
              && p.node == peers[k].node && p.addr == peers[k].addr
              && p.trust == if && peers[k].trust == Unknown
                               && exists n: nat :: n <= depth && Reach(edges, TrustedSet(peers), k, n)
                            then Linked else peers[k].trust
    ensures k in NewlyLinked(peers, edges, depth) <==>
            k in PromoteAll(peers, edges, depth) && PromoteAll(peers, edges, depth)[k] != peers[k]
    ensures k in TrustedSet(peers) <==> k in peers && peers[k].trust == Trusted
  {
    if k in peers {
      var p := PromoteAll(peers, edges, depth)[k];
      if k in NewlyLinked(peers, edges, depth) {
        assert exists n: nat :: n <= depth && Reach(edges, TrustedSet(peers), k, n);
        assert p.trust == Linked;
      } else {
        assert p.trust == peers[k].trust;
        if n: nat :| n <= depth && Reach(edges, TrustedSet(peers), k, n) {
          assert k !in TrustedSet(peers) ==> Within(edges, TrustedSet(peers), k, depth);
        }
      }
    }
  }

  lemma {:induction false} NoRootsNoReach(edges: Edges, v: AgentId, n: nat)
    ensures !Reach(edges, {}, v, n)
    decreases n
  {
    if n > 0 && Reach(edges, {}, v, n) {
      var u :| Endorses(edges, u, v) && Reach(edges, {}, u, n - 1);
      NoRootsNoReach(edges, u, n - 1);
    }
  }

  /** Without trusted peers nobody is promoted. */
  lemma NoRootsNoPromotion(peers: Peers, edges: Edges, depth: nat)
    requires TrustedSet(peers) == {}
    ensures NewlyLinked(peers, edges, depth) == {} && PromoteAll(peers, edges, depth) == peers
  {
    forall k, n: nat ensures !Reach(edges, {}, k, n) {
      NoRootsNoReach(edges, k, n);
    }
  }

  /** Promotion makes Linked peers, and Linked peers vouch for nobody: asking again at the
      same depth promotes none, so trust does not creep. */
  lemma PromotionDoesNotCreep(peers: Peers, edges: Edges, depth: nat)
    ensures TrustedSet(PromoteAll(peers, edges, depth)) == TrustedSet(peers)
    ensures NewlyLinked(PromoteAll(peers, edges, depth), edges, depth) == {}
    ensures PromoteAll(PromoteAll(peers, edges, depth), edges, depth) == PromoteAll(peers, edges, depth)
  {
    var after := PromoteAll(peers, edges, depth);
    assert TrustedSet(after) == TrustedSet(peers);
  }

  /** While promoting: the peers in `left` are still to be looked at. */
  ghost predicate Midway(before: Peers, now: Peers, edges: Edges, depth: nat, left: set<AgentId>,
                         linked: set<AgentId>) {
    && Keyed(before)
    && (forall k :: k in left ==> k in before && before[k].trust == Unknown)
    && linked == NewlyLinked(before, edges, depth) - left
    && now == map k | k in before :: if k in linked then before[k].(trust := Linked) else before[k]
  }

  lemma MidwayStep(before: Peers, now: Peers, edges: Edges, depth: nat, left: set<AgentId>, linked: set<AgentId>,
                   k: AgentId)
    requires Midway(before, now, edges, depth, left, linked) && k in left
    ensures k in now && now[k] == before[k] && k !in linked
    ensures var p := now[k];
            if Within(edges, TrustedSet(before), k, depth)
            then Midway(before, now[p.node := PeerRecord(p.node, p.addr, Linked)],
                         edges, depth, left - {k}, linked + {k})
            else Midway(before, now, edges, depth, left - {k}, linked)
  {
  }

  lemma MidwayEnds(before: Peers, now: Peers, edges: Edges, depth: nat, linked: set<AgentId>)
    requires Midway(before, now, edges, depth, {}, linked)
    ensures now == PromoteAll(before, edges, depth) && linked == NewlyLinked(before, edges, depth)
    ensures Keyed(now)
  {
  }

  lemma MidwayStarts(before: Peers, edges: Edges, depth: nat, unknowns: set<AgentId>)
    requires Keyed(before) && unknowns == set k | k in before && before[k].trust == Unknown
    ensures Midway(before, before, edges, depth, unknowns, {})
  {
  }

  // ----- Runs -----

  datatype TrustState = TrustState(peers: Peers, edges: Edges)

  datatype TrustOp = Endorse(e: Endorsement) | Ingest(env: Envelope) | Promote(depth: nat)

  ghost function Step(s: TrustState, op: TrustOp, scheme: Scheme, json: Payload -> Bytes): TrustState {
    match op
    case Endorse(e) => if EndorsementVerified(e, scheme) then s.(edges := AddEdge(s.edges, e)) else s
    case Ingest(env) => s.(peers := PeersAfter(s.peers, env, scheme, json))
    case Promote(d) => s.(peers := PromoteAll(s.peers, s.edges, d))
  }

  /** Only an opened peer exchange touches the peer book. */
  function PeersAfter(peers: Peers, env: Envelope, scheme: Scheme, json: Payload -> Bytes): Peers {
    if Opens(env, scheme, json) && env.payload.PeerExchange? then MergeAll(peers, env.payload.peers) else peers
  }

  ghost function Run(s: TrustState, ops: seq<TrustOp>, scheme: Scheme, json: Payload -> Bytes): TrustState {
    if ops == [] then s
    else Step(Run(s, ops[..|ops| - 1], scheme, json), ops[|ops| - 1], scheme, json)
  }

  /** What no step changes. */
  ghost predicate Contained(s: TrustState, t: TrustState) {
    && TrustedSet(t.peers) == TrustedSet(s.peers)
    && SubEdges(s.edges, t.edges)
    && (forall k :: k in s.peers ==> k in t.peers && Rank(s.peers[k].trust) <= Rank(t.peers[k].trust))
  }

  predicate IsLinked(peers: Peers, k: AgentId) {
    k in peers && peers[k].trust == Linked
  }

  lemma StepIsContained(t: TrustState, op: TrustOp, scheme: Scheme, json: Payload -> Bytes)
    ensures Contained(t, Step(t, op, scheme, json))
  {
    match op
    case Endorse(e) =>
      if EndorsementVerified(e, scheme) {
        forall u, v | Endorses(t.edges, u, v) ensures Endorses(AddEdge(t.edges, e), u, v) {
          AddEdgeAddsOne(t.edges, e, u, v);
        }
      }
    case Ingest(env) =>
      if Opens(env, scheme, json) && env.payload.PeerExchange? {
        DiscoveryNeverGrantsTrust(t.peers, env.payload.peers);
      }
    case Promote(d) =>
      PromotionDoesNotCreep(t.peers, t.edges, d);
  }

  /** Only a promotion links a peer, and only one it finds within its depth. */
  lemma OnlyPromotionLinks(t: TrustState, op: TrustOp, scheme: Scheme, json: Payload -> Bytes, k: AgentId)
    requires IsLinked(Step(t, op, scheme, json).peers, k) && !IsLinked(t.peers, k)
    ensures op.Promote? && Within(t.edges, TrustedSet(t.peers), k, op.depth)
  {
    if op.Ingest? && Opens(op.env, scheme, json) && op.env.payload.PeerExchange? {
      DiscoveryNeverGrantsTrust(t.peers, op.env.payload.peers);
    }
  }

  /** At one of the run's promotions the starting trusted set reached `k` within the depth
      asked for, over the endorsements held at that moment. */
  ghost predicate Vouched(s: TrustState, ops: seq<TrustOp>, scheme: Scheme, json: Payload -> Bytes, k: AgentId) {
    exists i :: 0 <= i < |ops| && VouchedAt(s, ops, scheme, json, k, i)
  }

  ghost predicate VouchedAt(s: TrustState, ops: seq<TrustOp>, scheme: Scheme, json: Payload -> Bytes, k: AgentId,
                            i: nat)
    requires i < |ops|
  {
    ops[i].Promote? && Within(Run(s, ops[..i], scheme, json).edges, TrustedSet(s.peers), k, ops[i].depth)
  }

  lemma {:induction false} LinkedWereVouchedFor(s: TrustState, ops: seq<TrustOp>, scheme: Scheme,
                                                json: Payload -> Bytes, k: AgentId)
    requires IsLinked(Run(s, ops, scheme, json).peers, k) && !IsLinked(s.peers, k)
    ensures Vouched(s, ops, scheme, json, k)
  {
    var n := |ops| - 1;
    var t := Run(s, ops[..n], scheme, json);
    if IsLinked(t.peers, k) {
      LinkedWereVouchedFor(s, ops[..n], scheme, json, k);
      var i :| 0 <= i < n && VouchedAt(s, ops[..n], scheme, json, k, i);
      assert ops[..n][..i] == ops[..i];
      assert VouchedAt(s, ops, scheme, json, k, i);
    } else {
      OnlyPromotionLinks(t, ops[n], scheme, json, k);
      RunKeeps(s, ops[..n], scheme, json);
      assert VouchedAt(s, ops, scheme, json, k, n);
    }
  }

  lemma {:induction false} RunKeeps(s: TrustState, ops: seq<TrustOp>, scheme: Scheme, json: Payload -> Bytes)
    ensures Contained(s, Run(s, ops, scheme, json))
  {
    if ops != [] {
      var n := |ops| - 1;
      RunKeeps(s, ops[..n], scheme, json);
      StepIsContained(Run(s, ops[..n], scheme, json), ops[n], scheme, json);
    }
  }

  /** Over any run of endorsements, ingested envelopes and promotions: the egress set never
      changes, no peer's level drops, and whoever became Linked was, at one of the
      promotions, vouched for by the egress set within the depth asked for. */
  lemma RunIsContained(s: TrustState, ops: seq<TrustOp>, scheme: Scheme, json: Payload -> Bytes)
    ensures Contained(s, Run(s, ops, scheme, json))
    ensures forall k :: IsLinked(Run(s, ops, scheme, json).peers, k) && !IsLinked(s.peers, k)
                        ==> Vouched(s, ops, scheme, json, k)
  {
    RunKeeps(s, ops, scheme, json);
    forall k | IsLinked(Run(s, ops, scheme, json).peers, k) && !IsLinked(s.peers, k)
      ensures Vouched(s, ops, scheme, json, k)
    {
      LinkedWereVouchedFor(s, ops, scheme, json, k);
    }
  }

  /** Every edge of the web was there at the start or came with a verified endorsement. */
  lemma {:induction false} EdgesAreVerified(s: TrustState, ops: seq<TrustOp>, scheme: Scheme, json: Payload -> Bytes,
                                            u: AgentId, v: AgentId)
    requires Endorses(Run(s, ops, scheme, json).edges, u, v) && !Endorses(s.edges, u, v)
    ensures exists i :: 0 <= i < |ops| && ops[i].Endorse? && EndorsementVerified(ops[i].e, scheme)
                        && ops[i].e.endorser == u && ops[i].e.subject == v
  {
    var n := |ops| - 1;
    var t := Run(s, ops[..n], scheme, json);
    if Endorses(t.edges, u, v) {
      EdgesAreVerified(s, ops[..n], scheme, json, u, v);
      var i :| 0 <= i < n && ops[..n][i].Endorse? && EndorsementVerified(ops[..n][i].e, scheme)
               && ops[..n][i].e.endorser == u && ops[..n][i].e.subject == v;
      assert ops[i].Endorse?;
    } else {
      AddEdgeAddsOne(t.edges, ops[n].e, u, v);
    }
  }
}
