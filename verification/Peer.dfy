/** Known peers and the trust they are held at. Trust governs egress only. */
module Peer {
  import opened Bytes
  import opened Crypto
  import opened Sorting
  import opened Wrappers

  datatype TrustLevel = Unknown | Linked | Trusted

  function Rank(t: TrustLevel): nat {
    match t
    case Unknown => 0
    case Linked => 1
    case Trusted => 2
  }

  datatype PeerRecord = PeerRecord(node: AgentId, addr: Bytes, trust: TrustLevel)

  datatype PeerInfo = PeerInfo(node: AgentId, addr: Bytes)

  type Peers = map<AgentId, PeerRecord>

  predicate Keyed(peers: Peers) {
    forall k :: k in peers ==> peers[k].node == k
  }

  function TrustedSet(peers: Peers): set<AgentId> {
    set k | k in peers && peers[k].trust == Trusted
  }

  /** Discovery: new nodes land at `Unknown`, known ones are left as they are. */
  function Merge(peers: Peers, info: PeerInfo): Peers {
    if info.node in peers then peers else peers[info.node := PeerRecord(info.node, info.addr, Unknown)]
  }

  function MergeAll(peers: Peers, infos: seq<PeerInfo>): Peers
    decreases |infos|
  {
    if infos == [] then peers else MergeAll(Merge(peers, infos[0]), infos[1..])
  }

  /** Whatever is gossiped, nobody known changes and nobody new is trusted or linked. */
  lemma {:induction false} DiscoveryNeverGrantsTrust(peers: Peers, infos: seq<PeerInfo>)
    ensures forall k :: k in peers ==> k in MergeAll(peers, infos) && MergeAll(peers, infos)[k] == peers[k]
    ensures forall k :: k in MergeAll(peers, infos) && k !in peers ==> MergeAll(peers, infos)[k].trust == Unknown
    ensures Keyed(peers) ==> Keyed(MergeAll(peers, infos))
    ensures TrustedSet(MergeAll(peers, infos)) == TrustedSet(peers)
    decreases |infos|
  {
    if infos != [] {
      DiscoveryNeverGrantsTrust(Merge(peers, infos[0]), infos[1..]);
    }
  }

  /** Everyone gossiped about is known afterwards and nobody else is new; a new peer is held
      unknown, at the first address gossiped for it. */
  lemma {:induction false} DiscoveryAddsTheFirstOfEach(peers: Peers, infos: seq<PeerInfo>, k: AgentId)
    ensures k in MergeAll(peers, infos) <==> k in peers || exists i :: 0 <= i < |infos| && infos[i].node == k
    ensures forall i | 0 <= i < |infos| && infos[i].node == k && k !in peers
                       && (forall j | 0 <= j < i :: infos[j].node != k) ::
              MergeAll(peers, infos)[k] == PeerRecord(k, infos[i].addr, Unknown)
    decreases |infos|
  {
    if infos != [] {
      var next := Merge(peers, infos[0]);
      DiscoveryAddsTheFirstOfEach(next, infos[1..], k);
      if infos[0].node == k {
        DiscoveryNeverGrantsTrust(next, infos[1..]);
      } else {
        assert forall i :: 0 < i < |infos| ==> infos[i] == infos[1..][i - 1];
      }
    }
  }

  lemma {:induction false} MergeAllAppend(peers: Peers, infos: seq<PeerInfo>, info: PeerInfo)
    ensures MergeAll(peers, infos + [info]) == Merge(MergeAll(peers, infos), info)
    decreases |infos|
  {
    if infos == [] {
      assert [info][1..] == [];
    } else {
      MergeAllAppend(Merge(peers, infos[0]), infos[1..], info);
      assert (infos + [info])[1..] == infos[1..] + [info];
    }
  }

  predicate NodeLe(a: PeerRecord, b: PeerRecord) {
    BytesLe(Hex(a.node.key), Hex(b.node.key))
  }

  lemma NodeLeIsTotal()
    ensures TotalPreorder(NodeLe)
  {
    forall a, b ensures NodeLe(a, b) || NodeLe(b, a) {
      BytesLeTotal(Hex(a.node.key), Hex(b.node.key));
    }
    forall a, b, c | NodeLe(a, b) && NodeLe(b, c) ensures NodeLe(a, c) {
      BytesLeTransitive(Hex(a.node.key), Hex(b.node.key), Hex(c.node.key));
    }
  }

  class PeerBook {
    var peers: Peers

    ghost predicate Valid()
      reads this
    {
      Keyed(peers)
    }

    constructor ()
      ensures Valid() && peers == map[]
    {
      peers := map[];
    }

    method Add(p: PeerRecord)
      requires Valid()
      modifies this
      ensures Valid() && peers == old(peers)[p.node := p]
    {
      peers := peers[p.node := p];
    }

    method Remove(node: AgentId) returns (r: Option<PeerRecord>)
      requires Valid()
      modifies this
      ensures Valid() && peers == old(peers) - {node}
      ensures r == if node in old(peers) then Some(old(peers)[node]) else None
    {
      r := if node in peers then Some(peers[node]) else None;
      peers := peers - {node};
    }

    method MergeDiscovered(infos: seq<PeerInfo>) returns (added: nat)
      requires Valid()
      modifies this
      ensures Valid() && peers == MergeAll(old(peers), infos)
      ensures added == |peers| - |old(peers)|
    {
      added := 0;
      for i := 0 to |infos|
        invariant Valid() && peers == MergeAll(old(peers), infos[..i])
        invariant added == |peers| - |old(peers)|
      {
        MergeAllAppend(old(peers), infos[..i], infos[i]);
        assert infos[..i + 1] == infos[..i] + [infos[i]];
        if infos[i].node !in peers {
          peers := peers[infos[i].node := PeerRecord(infos[i].node, infos[i].addr, Unknown)];
          added := added + 1;
        }
      }
      assert infos[..|infos|] == infos;
    }

    /** Every known peer once, in node-id order. */
    method All() returns (out: seq<PeerRecord>)
      requires Valid()
      ensures Sorted(out, NodeLe) && Distinct(out)
      ensures forall p :: p in out <==> p.node in peers && peers[p.node] == p
    {
      var listed: seq<PeerRecord> := [];
      var todo := peers.Keys;
      while todo != {}
        invariant todo <= peers.Keys && Distinct(listed)
        invariant forall p :: p in listed <==> p.node in peers && p.node !in todo && peers[p.node] == p
        decreases |todo|
      {
        var k :| k in todo;
        listed := listed + [peers[k]];
        todo := todo - {k};
      }
      NodeLeIsTotal();
      out := Sort(listed, NodeLe);
      DistinctIsInvariant(listed, out);
      forall p ensures p in out <==> p in listed {
        assert p in out <==> p in multiset(out);
        assert p in listed <==> p in multiset(listed);
      }
    }

    /** The egress set. */
    method TrustedPeers() returns (out: seq<PeerRecord>)
      requires Valid()
      ensures forall p :: p in out <==> p.node in TrustedSet(peers) && peers[p.node] == p
    {
      var all := All();
      out := [];
      for i := 0 to |all|
        invariant forall p :: p in out <==> p in all[..i] && p.trust == Trusted
      {
        assert all[..i + 1] == all[..i] + [all[i]];
        if all[i].trust == Trusted {
          out := out + [all[i]];
        }
      }
      assert all[..|all|] == all;
    }

    /** Shareable gossip: the nodes and addresses, without the trust. */
    method Infos() returns (out: seq<PeerInfo>)
      requires Valid()
      ensures forall q :: q in out <==> q.node in peers && peers[q.node].addr == q.addr
    {
      var all := All();
      out := [];
      for i := 0 to |all|
        invariant forall q :: q in out <==> exists p :: p in all[..i] && p.node == q.node && p.addr == q.addr
      {
        assert all[..i + 1] == all[..i] + [all[i]];
        out := out + [PeerInfo(all[i].node, all[i].addr)];
      }
      assert all[..|all|] == all;
      forall q ensures q in out <==> q.node in peers && peers[q.node].addr == q.addr {
        if q.node in peers && peers[q.node].addr == q.addr {
          assert peers[q.node] in all;
        }
      }
    }
  }
}
