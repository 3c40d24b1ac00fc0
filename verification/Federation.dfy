/** What replication does to a message log: ingest, digest, reconcile, snapshot. */
module Federation {
  import opened Bytes
  import opened Crypto
  import opened Board
  import opened Log
  import opened Peer
  import opened Readings

  datatype Payload =
    | AnnounceBoard(info: BoardInfo)
    | ReplicateMessage(message: Message)
    | BoardSnapshot(info: BoardInfo, messages: seq<Message>)
    | BoardDigest(board: Bytes, have: seq<MessageId>)
    | PeerExchange(peers: seq<PeerInfo>)
    | PeerHello(node: AgentId, protocol: Bytes)
    | Ack(id: Bytes)

  datatype Envelope = Envelope(node: AgentId, seq_: nat, payload: Payload, signature: Signature)

  const FED_TAG: Bytes := Ascii("agentbbs.fed.v1")
  const PROTOCOL_VERSION: Bytes := Ascii("agentbbs/0.1")

  /** The bytes a node signs; `json` serializes payloads. */
  function EnvelopeBytes(node: AgentId, seq_: nat, payload: Payload, json: Payload -> Bytes): Bytes {
    Lines([FED_TAG, PROTOCOL_VERSION, Hex(node.key), Decimal(seq_)]) + Prefixed(json(payload))
  }

  predicate Opens(env: Envelope, scheme: Scheme, json: Payload -> Bytes) {
    scheme.valid(env.node, EnvelopeBytes(env.node, env.seq_, env.payload, json), env.signature)
  }

  /** A node's signature binds its id, its sequence number and the whole payload. */
  lemma EnvelopeBytesAreInjective(a: Envelope, b: Envelope, json: Payload -> Bytes)
    requires forall p, q :: json(p) == json(q) ==> p == q
    requires EnvelopeBytes(a.node, a.seq_, a.payload, json) == EnvelopeBytes(b.node, b.seq_, b.payload, json)
    ensures a.(signature := b.signature) == b
  {
    var p := [FED_TAG, PROTOCOL_VERSION, Hex(a.node.key), Decimal(a.seq_)];
    var q := [FED_TAG, PROTOCOL_VERSION, Hex(b.node.key), Decimal(b.seq_)];
    LinesAreInjective(p, Prefixed(json(a.payload)), q, Prefixed(json(b.payload)));
    assert p[2] == q[2] && p[3] == q[3];
    HexIsInjective(a.node.key, b.node.key);
    ValueOfDecimal(a.seq_);
    ValueOfDecimal(b.seq_);
    assert Prefixed(json(a.payload)) + [] == Prefixed(json(a.payload));
    assert Prefixed(json(b.payload)) + [] == Prefixed(json(b.payload));
    SplitPrefixed(json(a.payload), [], json(b.payload), []);
  }

  // ----- Ingest -----

  predicate AllVerify(ms: seq<Message>, scheme: Scheme) {
    forall i :: 0 <= i < |ms| ==> Verify(ms[i], scheme)
  }

  /** The messages an envelope adds: those of a payload that opens, and only if every
      message it carries verifies. */
  function Accepted(env: Envelope, scheme: Scheme, json: Payload -> Bytes): (r: seq<Message>)
    ensures AllVerify(r, scheme)
  {
    if !Opens(env, scheme, json) then []
    else match env.payload
      case ReplicateMessage(m) => if Verify(m, scheme) then [m] else []
      case BoardSnapshot(_, ms) => if AllVerify(ms, scheme) then ms else []
      case _ => []
  }

  function AllAccepted(envs: seq<Envelope>, scheme: Scheme, json: Payload -> Bytes): seq<Message> {
    if envs == [] then [] else Accepted(envs[0], scheme, json) + AllAccepted(envs[1..], scheme, json)
  }

  /** The log after ingesting the envelopes one by one. */
  function IngestAll(log: seq<Message>, envs: seq<Envelope>, scheme: Scheme, json: Payload -> Bytes): seq<Message>
    decreases |envs|
  {
    if envs == [] then log
    else IngestAll(PutAll(log, Accepted(envs[0], scheme, json)), envs[1..], scheme, json)
  }

  lemma {:induction false} IngestAllIsPutAll(log: seq<Message>, envs: seq<Envelope>, scheme: Scheme,
                                        json: Payload -> Bytes)
    ensures IngestAll(log, envs, scheme, json) == PutAll(log, AllAccepted(envs, scheme, json))
    decreases |envs|
  {
    if envs != [] {
      var first, rest := Accepted(envs[0], scheme, json), AllAccepted(envs[1..], scheme, json);
      IngestAllIsPutAll(PutAll(log, first), envs[1..], scheme, json);
      PutAllConcat(log, first, rest);
    }
  }

  lemma {:induction false} AcceptedFromSome(envs: seq<Envelope>, scheme: Scheme, json: Payload -> Bytes, m: Message)
    ensures m in AllAccepted(envs, scheme, json) <==>
            exists i :: 0 <= i < |envs| && m in Accepted(envs[i], scheme, json)
  {
    if envs != [] {
      AcceptedFromSome(envs[1..], scheme, json, m);
      if m in Accepted(envs[0], scheme, json) {
      } else if i :| 0 <= i < |envs| && m in Accepted(envs[i], scheme, json) {
        assert envs[1..][i - 1] == envs[i];
      }
    }
  }

  /** Ingesting keeps the log duplicate-free and wholly verified, over any run. */
  lemma {:induction false} IngestKeepsTheLogVerified(log: seq<Message>, envs: seq<Envelope>, scheme: Scheme,
                                        json: Payload -> Bytes)
    requires DistinctIds(log) && AllVerify(log, scheme)
    ensures DistinctIds(IngestAll(log, envs, scheme, json)) && AllVerify(IngestAll(log, envs, scheme, json), scheme)
    ensures log <= IngestAll(log, envs, scheme, json)
    decreases |envs|
  {
    if envs != [] {
      var next := PutAll(log, Accepted(envs[0], scheme, json));
      VerifiedAfterPut(log, Accepted(envs[0], scheme, json), scheme);
      IngestKeepsTheLogVerified(next, envs[1..], scheme, json);
    }
  }

  lemma VerifiedAfterPut(log: seq<Message>, ms: seq<Message>, scheme: Scheme)
    requires DistinctIds(log) && AllVerify(log, scheme) && AllVerify(ms, scheme)
    ensures DistinctIds(PutAll(log, ms)) && AllVerify(PutAll(log, ms), scheme) && log <= PutAll(log, ms)
  {
    PutAllAppends(log, ms);
    var r := PutAll(log, ms);
    forall i | 0 <= i < |r| ensures Verify(r[i], scheme) {
      assert r[i] in log || r[i] in ms;
    }
  }

  lemma SameEnvelopesSameMessages(envs: seq<Envelope>, others: seq<Envelope>, scheme: Scheme, json: Payload -> Bytes)
    requires forall e :: e in envs <==> e in others
    ensures SameMessages(AllAccepted(envs, scheme, json), AllAccepted(others, scheme, json))
  {
    forall m ensures m in AllAccepted(envs, scheme, json) <==> m in AllAccepted(others, scheme, json) {
      AcceptedFromSome(envs, scheme, json, m);
      AcceptedFromSome(others, scheme, json, m);
      if i :| 0 <= i < |envs| && m in Accepted(envs[i], scheme, json) {
        assert envs[i] in others;
      }
      if i :| 0 <= i < |others| && m in Accepted(others[i], scheme, json) {
        assert others[i] in envs;
      }
    }
  }

  /** The same envelopes in any order, with any repeats, leave the same ids and bodies,
      as long as accepted messages that share a new id share their body. */
  lemma IngestOrderIsIrrelevant(log: seq<Message>, envs: seq<Envelope>, others: seq<Envelope>, scheme: Scheme,
                                json: Payload -> Bytes)
    requires DistinctIds(log) && forall e :: e in envs <==> e in others
    requires FreshAgree(log, AllAccepted(envs, scheme, json))
    ensures SameView(IngestAll(log, envs, scheme, json), IngestAll(log, others, scheme, json))
  {
    IngestAllIsPutAll(log, envs, scheme, json);
    IngestAllIsPutAll(log, others, scheme, json);
    SameEnvelopesSameMessages(envs, others, scheme, json);
    SameViewWhenFreshAgree(log, AllAccepted(envs, scheme, json), AllAccepted(others, scheme, json));
  }

  lemma {:induction false} AcceptedVerify(envs: seq<Envelope>, scheme: Scheme, json: Payload -> Bytes)
    ensures AllVerify(AllAccepted(envs, scheme, json), scheme)
  {
    if envs != [] {
      AcceptedVerify(envs[1..], scheme, json);
    }
  }

  // ----- Exactly when the order of envelopes does not matter -----

  /** `ms[i]` is the first of the list with its id, which the log does not hold. */
  predicate Leads(log: seq<Message>, ms: seq<Message>, i: nat) {
    i < |ms| && FirstSeen(log, ms, i)
  }

  /** For each id new to the log, the first accepted message under it has the same body in
      every envelope that carries one. */
  ghost predicate LeadersAgree(log: seq<Message>, envs: seq<Envelope>, scheme: Scheme, json: Payload -> Bytes) {
    forall d, e, i: nat, j: nat | d in envs && e in envs
        && Leads(log, Accepted(d, scheme, json), i) && Leads(log, Accepted(e, scheme, json), j)
        && Accepted(d, scheme, json)[i].id == Accepted(e, scheme, json)[j].id
      :: Accepted(d, scheme, json)[i].body == Accepted(e, scheme, json)[j].body
  }

  ghost predicate SameEnvelopes(envs: seq<Envelope>, others: seq<Envelope>) {
    forall e :: e in envs <==> e in others
  }

  /** Every message gained leads its envelope. */
  lemma {:induction false} GainedLeads(log: seq<Message>, envs: seq<Envelope>, scheme: Scheme, json: Payload -> Bytes,
                                       m: Message) returns (e: Envelope, i: nat)
    requires m in IngestAll(log, envs, scheme, json) && m !in log
    ensures e in envs && Leads(log, Accepted(e, scheme, json), i) && Accepted(e, scheme, json)[i] == m
    decreases |envs|
  {
    assert envs != [];
    var first := Accepted(envs[0], scheme, json);
    var next := PutAll(log, first);
    if m in next {
      e := envs[0];
      i := StoredLeads(log, first, m);
    } else {
      e, i := GainedLeads(next, envs[1..], scheme, json, m);
      PutAllHas(log, first, m.id);
    }
  }

  lemma IngestedIds(log: seq<Message>, envs: seq<Envelope>, others: seq<Envelope>, scheme: Scheme,
                    json: Payload -> Bytes, id: MessageId)
    requires SameEnvelopes(envs, others)
    ensures Has(IngestAll(log, envs, scheme, json), id) <==> Has(IngestAll(log, others, scheme, json), id)
  {
    var ms, ns := AllAccepted(envs, scheme, json), AllAccepted(others, scheme, json);
    IngestAllIsPutAll(log, envs, scheme, json);
    IngestAllIsPutAll(log, others, scheme, json);
    SameEnvelopesSameMessages(envs, others, scheme, json);
    PutAllHas(log, ms, id);
    PutAllHas(log, ns, id);
    HasMember(ms, id);
    HasMember(ns, id);
  }

  lemma IngestedBodies(log: seq<Message>, envs: seq<Envelope>, others: seq<Envelope>, scheme: Scheme,
                       json: Payload -> Bytes, m: Message, n: Message)
    requires DistinctIds(log) && SameEnvelopes(envs, others) && LeadersAgree(log, envs, scheme, json)
    requires m in IngestAll(log, envs, scheme, json) && n in IngestAll(log, others, scheme, json) && m.id == n.id
    ensures m.body == n.body
  {
    if Has(log, m.id) {
      IngestAllIsPutAll(log, envs, scheme, json);
      IngestAllIsPutAll(log, others, scheme, json);
      OldIdsKeepTheirMessage(log, AllAccepted(envs, scheme, json), m);
      OldIdsKeepTheirMessage(log, AllAccepted(others, scheme, json), n);
    } else {
      HasMember(log, m.id);
      var d, i := GainedLeads(log, envs, scheme, json, m);
      var e, j := GainedLeads(log, others, scheme, json, n);
    }
  }

  lemma AgreeingLeadersConverge(log: seq<Message>, envs: seq<Envelope>, others: seq<Envelope>, scheme: Scheme,
                                json: Payload -> Bytes)
    requires DistinctIds(log) && SameEnvelopes(envs, others) && LeadersAgree(log, envs, scheme, json)
    ensures SameView(IngestAll(log, envs, scheme, json), IngestAll(log, others, scheme, json))
  {
    var a, b := IngestAll(log, envs, scheme, json), IngestAll(log, others, scheme, json);
    forall id ensures Has(a, id) <==> Has(b, id) {
      IngestedIds(log, envs, others, scheme, json, id);
    }
    forall i, j | 0 <= i < |a| && 0 <= j < |b| && a[i].id == b[j].id ensures a[i].body == b[j].body {
      IngestedBodies(log, envs, others, scheme, json, a[i], b[j]);
    }
  }

  /** Ingested first, an envelope has its leaders stored. */
  lemma LeaderOfFirstIsStored(log: seq<Message>, e: Envelope, envs: seq<Envelope>, scheme: Scheme,
                              json: Payload -> Bytes, i: nat)
    requires Leads(log, Accepted(e, scheme, json), i)
    ensures Accepted(e, scheme, json)[i] in IngestAll(log, [e] + envs, scheme, json)
  {
    var first := Accepted(e, scheme, json);
    FirstInsertionWins(log, first, i);
    assert ([e] + envs)[1..] == envs;
    IngestAllIsPutAll(PutAll(log, first), envs, scheme, json);
    PutAllAppends(PutAll(log, first), AllAccepted(envs, scheme, json));
  }

  lemma ViewFixesBodies(a: seq<Message>, b: seq<Message>, c: seq<Message>, m: Message, n: Message)
    requires SameView(a, b) && SameView(a, c) && m in b && n in c && m.id == n.id
    ensures m.body == n.body
  {
    HasMember(b, m.id);
    var x :| 0 <= x < |a| && a[x].id == m.id;
    var i :| 0 <= i < |b| && b[i] == m;
    var j :| 0 <= j < |c| && c[j] == n;
    assert a[x].id == b[i].id && a[x].id == c[j].id;
  }

  /** Every order and repetition of the envelopes leaves the same view. */
  ghost predicate OrderIsIrrelevant(log: seq<Message>, envs: seq<Envelope>, scheme: Scheme, json: Payload -> Bytes) {
    forall others | SameEnvelopes(envs, others) ::
      SameView(IngestAll(log, envs, scheme, json), IngestAll(log, others, scheme, json))
  }

  lemma AnyMayComeFirst(log: seq<Message>, envs: seq<Envelope>, scheme: Scheme, json: Payload -> Bytes, e: Envelope)
    requires OrderIsIrrelevant(log, envs, scheme, json) && e in envs
    ensures SameView(IngestAll(log, envs, scheme, json), IngestAll(log, [e] + envs, scheme, json))
  {
    assert SameEnvelopes(envs, [e] + envs);
  }

  lemma IrrelevantOrderMeansAgreement(log: seq<Message>, envs: seq<Envelope>, scheme: Scheme, json: Payload -> Bytes,
                                      d: Envelope, e: Envelope, i: nat, j: nat)
    requires OrderIsIrrelevant(log, envs, scheme, json) && d in envs && e in envs
    requires Leads(log, Accepted(d, scheme, json), i) && Leads(log, Accepted(e, scheme, json), j)
    requires Accepted(d, scheme, json)[i].id == Accepted(e, scheme, json)[j].id
    ensures Accepted(d, scheme, json)[i].body == Accepted(e, scheme, json)[j].body
  {
    LeaderOfFirstIsStored(log, d, envs, scheme, json, i);
    LeaderOfFirstIsStored(log, e, envs, scheme, json, j);
    AnyMayComeFirst(log, envs, scheme, json, d);
    AnyMayComeFirst(log, envs, scheme, json, e);
    ViewFixesBodies(IngestAll(log, envs, scheme, json), IngestAll(log, [d] + envs, scheme, json),
                    IngestAll(log, [e] + envs, scheme, json), Accepted(d, scheme, json)[i],
                    Accepted(e, scheme, json)[j]);
  }

  /** The order and repetition of envelopes leave no trace in ids and bodies exactly when, for
      every new id, the envelopes' first messages under it have one body. */
  lemma OrderIsIrrelevantExactlyWhenLeadersAgree(log: seq<Message>, envs: seq<Envelope>, scheme: Scheme,
                                                 json: Payload -> Bytes)
    requires DistinctIds(log)
    ensures OrderIsIrrelevant(log, envs, scheme, json) <==> LeadersAgree(log, envs, scheme, json)
  {
    if LeadersAgree(log, envs, scheme, json) {
      forall others | SameEnvelopes(envs, others)
        ensures SameView(IngestAll(log, envs, scheme, json), IngestAll(log, others, scheme, json))
      {
        AgreeingLeadersConverge(log, envs, others, scheme, json);
      }
    }
    if OrderIsIrrelevant(log, envs, scheme, json) {
      forall d, e, i: nat, j: nat | d in envs && e in envs
          && Leads(log, Accepted(d, scheme, json), i) && Leads(log, Accepted(e, scheme, json), j)
          && Accepted(d, scheme, json)[i].id == Accepted(e, scheme, json)[j].id
        ensures Accepted(d, scheme, json)[i].body == Accepted(e, scheme, json)[j].body
      {
        IrrelevantOrderMeansAgreement(log, envs, scheme, json, d, e, i, j);
      }
    }
  }

  /** Two verified messages under one id and with different bodies, each in an envelope of its
      own: which body a new node keeps depends on the order. */
  lemma TwinEnvelopesRace(d: Envelope, e: Envelope, scheme: Scheme, json: Payload -> Bytes)
    requires Opens(d, scheme, json) && d.payload.ReplicateMessage? && Verify(d.payload.message, scheme)
    requires Opens(e, scheme, json) && e.payload.ReplicateMessage? && Verify(e.payload.message, scheme)
    requires d.payload.message.id == e.payload.message.id && d.payload.message.body != e.payload.message.body
    ensures !OrderIsIrrelevant([], [d, e], scheme, json)
  {
    assert Accepted(d, scheme, json) == [d.payload.message] && Accepted(e, scheme, json) == [e.payload.message];
    assert Leads([], Accepted(d, scheme, json), 0) && Leads([], Accepted(e, scheme, json), 0);
    assert d in [d, e] && e in [d, e];
    if OrderIsIrrelevant([], [d, e], scheme, json) {
      IrrelevantOrderMeansAgreement([], [d, e], scheme, json, d, e, 0, 0);
    }
  }

  /** Such envelopes exist for every verified post with an unclean framing. */
  lemma UncleanPostHasRacingEnvelopes(m: Message, node: AgentId, sign: Bytes -> Signature, scheme: Scheme,
                                      json: Payload -> Bytes) returns (d: Envelope, e: Envelope)
    requires Verify(m, scheme) && m.body.kind == Post && !FramingClean(m.body)
    requires forall b :: scheme.valid(node, b, sign(b))
    ensures Opens(d, scheme, json) && Opens(e, scheme, json) && d.payload == ReplicateMessage(m)
    ensures !OrderIsIrrelevant([], [d, e], scheme, json)
  {
    var f := AmbiguousFramingStillVerifies(m, scheme);
    var p, q := ReplicateMessage(m), ReplicateMessage(f);
    d := Envelope(node, 0, p, sign(EnvelopeBytes(node, 0, p, json)));
    e := Envelope(node, 1, q, sign(EnvelopeBytes(node, 1, q, json)));
    TwinEnvelopesRace(d, e, scheme, json);
  }

  /** Clean headers are enough for that: the id of a verified clean message fixes its body. */
  lemma CleanIngestConverges(log: seq<Message>, envs: seq<Envelope>, others: seq<Envelope>, scheme: Scheme,
                             json: Payload -> Bytes)
    requires scheme.Sound() && DistinctIds(log) && forall e :: e in envs <==> e in others
    requires forall m :: m in AllAccepted(envs, scheme, json) ==> Clean(m.body)
    ensures SameView(IngestAll(log, envs, scheme, json), IngestAll(log, others, scheme, json))
  {
    var ms := AllAccepted(envs, scheme, json);
    AcceptedVerify(envs, scheme, json);
    forall i, j | 0 <= i < |ms| && 0 <= j < |ms| && ms[i].id == ms[j].id ensures ms[i].body == ms[j].body {
      assert ms[i] in ms && ms[j] in ms;
      IdIdentifiesCleanMessages(ms[i], ms[j], scheme);
    }
    IngestOrderIsIrrelevant(log, envs, others, scheme, json);
  }

  // ----- Digest and reconcile -----

  function BoardIds(log: seq<Message>, board: Bytes): set<MessageId> {
    set m | m in OnBoard(log, board) :: m.id
  }

  /** The messages whose id is not in `have`, in order. */
  function Missing(ms: seq<Message>, have: seq<MessageId>): (r: seq<Message>)
    ensures forall m :: m in r <==> m in ms && m.id !in have
  {
    if ms == [] then []
    else
      assert ms == [ms[0]] + ms[1..];
      (if ms[0].id in have then [] else [ms[0]]) + Missing(ms[1..], have)
  }

  function DigestOf(log: seq<Message>, board: Bytes, limit: nat): seq<MessageId> {
    Ids(List(log, board, limit))
  }

  /** What a node answers to a digest of `have`. */
  function Delta(log: seq<Message>, board: Bytes, limit: nat, have: seq<MessageId>): seq<Message> {
    Missing(List(log, board, limit), have)
  }

  /** An answer holds exactly the newest messages of the board that the digest does not name. */
  lemma DeltaIsWhatIsNotHeld(log: seq<Message>, board: Bytes, limit: nat, have: seq<MessageId>, m: Message)
    ensures m in Delta(log, board, limit, have) <==> m in List(log, board, limit) && m.id !in have
    ensures limit >= |OnBoard(log, board)| ==>
              (m in Delta(log, board, limit, have) <==> m in log && m.body.board == board && m.id !in have)
  {
    OnBoardHolds(log, board, m);
  }

  lemma DigestListsOwnIds(log: seq<Message>, board: Bytes, limit: nat, id: MessageId)
    ensures id in DigestOf(log, board, limit) ==> id in BoardIds(log, board)
    ensures limit >= |OnBoard(log, board)| ==> (id in DigestOf(log, board, limit) <==> id in BoardIds(log, board))
  {
    var ms := List(log, board, limit);
    if id in DigestOf(log, board, limit) {
      var i :| 0 <= i < |ms| && ms[i].id == id;
      assert ms[i] in OnBoard(log, board);
    }
    if limit >= |OnBoard(log, board)| && id in BoardIds(log, board) {
      var m :| m in OnBoard(log, board) && m.id == id;
      var i :| 0 <= i < |ms| && ms[i] == m;
      assert DigestOf(log, board, limit)[i] == id;
    }
  }

  lemma BoardIdsHold(log: seq<Message>, board: Bytes, id: MessageId)
    ensures id in BoardIds(log, board) <==> exists m :: m in log && m.body.board == board && m.id == id
  {
    if id in BoardIds(log, board) {
      var m :| m in OnBoard(log, board) && m.id == id;
      OnBoardHolds(log, board, m);
    }
    if m :| m in log && m.body.board == board && m.id == id {
      OnBoardHolds(log, board, m);
    }
  }

  lemma HasIsMembership(log: seq<Message>, id: MessageId)
    ensures Has(log, id) <==> exists m :: m in log && m.id == id
  {
  }

  /** What one answered digest gives node B: A's ids that B did not hold anywhere, however
      small a window B's digest covered. */
  lemma AnsweredDigest(a: seq<Message>, b: seq<Message>, board: Bytes, limit: nat, window: nat, id: MessageId)
    requires limit >= |OnBoard(a, board)| && DistinctIds(b)
    ensures id in BoardIds(PutAll(b, Delta(a, board, limit, DigestOf(b, board, window))), board) <==>
            id in BoardIds(b, board) || (id in BoardIds(a, board) && !Has(b, id))
  {
    var have := DigestOf(b, board, window);
    var delta := Delta(a, board, limit, have);
    var after := PutAll(b, delta);
    BoardIdsHold(after, board, id);
    BoardIdsHold(b, board, id);
    BoardIdsHold(a, board, id);
    PutAllAppends(b, delta);
    if m :| m in after && m.body.board == board && m.id == id {
      if m !in b {
        StoredIsFresh(b, delta, m);
        OnBoardHolds(a, board, m);
      }
    }
    if id in BoardIds(b, board) {
      var m :| m in b && m.body.board == board && m.id == id;
      assert m in after;
    }
    if id in BoardIds(a, board) && !Has(b, id) {
      ArrivesAtB(a, b, board, limit, window, id);
    }
  }

  lemma ArrivesAtB(a: seq<Message>, b: seq<Message>, board: Bytes, limit: nat, window: nat, id: MessageId)
    requires limit >= |OnBoard(a, board)| && DistinctIds(b)
    requires id in BoardIds(a, board) && !Has(b, id)
    ensures exists m | m in PutAll(b, Delta(a, board, limit, DigestOf(b, board, window))) ::
              m.body.board == board && m.id == id
  {
    var have := DigestOf(b, board, window);
    var delta := Delta(a, board, limit, have);
    var after := PutAll(b, delta);
    var m :| m in OnBoard(a, board) && m.id == id;
    DigestListsOwnIds(b, board, window, id);
    BoardIdsHold(b, board, id);
    HasIsMembership(b, id);
    assert m in delta;
    PutAllHas(b, delta, id);
    HasIsMembership(delta, id);
    HasIsMembership(after, id);
    var n :| n in after && n.id == id;
    PutAllAppends(b, delta);
    OnBoardHolds(a, board, n);
  }

  /** No id of A's board sits at B under another board. */
  ghost predicate NoStrays(a: seq<Message>, b: seq<Message>, board: Bytes) {
    forall id :: id in BoardIds(a, board) && Has(b, id) ==> id in BoardIds(b, board)
  }

  /** After the exchange B's board is the union of both, exactly when no id of A's board is
      held at B under another board. */
  lemma UnionExactlyWhenNoStrays(a: seq<Message>, b: seq<Message>, board: Bytes, limit: nat, window: nat)
    requires limit >= |OnBoard(a, board)| && DistinctIds(b)
    ensures BoardIds(PutAll(b, Delta(a, board, limit, DigestOf(b, board, window))), board)
            == BoardIds(b, board) + BoardIds(a, board)
            <==> NoStrays(a, b, board)
  {
    var after := PutAll(b, Delta(a, board, limit, DigestOf(b, board, window)));
    forall id
      ensures id in BoardIds(after, board) <==> id in BoardIds(b, board) || (id in BoardIds(a, board) && !Has(b, id))
    {
      AnsweredDigest(a, b, board, limit, window, id);
    }
  }

  lemma {:induction false} NothingHeldAllMissing(ms: seq<Message>)
    ensures Missing(ms, []) == ms
  {
    if ms != [] {
      NothingHeldAllMissing(ms[1..]);
      assert ms == [ms[0]] + ms[1..];
    }
  }

  /** A snapshot of the whole board does as much in one step. */
  lemma SnapshotGivesUnionExactlyWhenNoStrays(a: seq<Message>, b: seq<Message>, board: Bytes, limit: nat)
    requires limit >= |OnBoard(a, board)| && DistinctIds(b)
    ensures BoardIds(PutAll(b, List(a, board, limit)), board) == BoardIds(b, board) + BoardIds(a, board)
            <==> NoStrays(a, b, board)
  {
    assert DigestOf(b, board, 0) == [];
    NothingHeldAllMissing(List(a, board, limit));
    UnionExactlyWhenNoStrays(a, b, board, limit, 0);
  }

  /** A digest that covers B's whole board is answered with exactly what B lacks. */
  lemma FullDigestGetsExactDelta(a: seq<Message>, b: seq<Message>, board: Bytes, limit: nat, window: nat, m: Message)
    requires limit >= |OnBoard(a, board)| && window >= |OnBoard(b, board)|
    ensures m in Delta(a, board, limit, DigestOf(b, board, window)) <==>
            m in OnBoard(a, board) && m.id !in BoardIds(b, board)
  {
    DigestListsOwnIds(b, board, window, m.id);
  }

  /** Replicas with equal board ids have nothing left to send. */
  lemma EqualReplicasAreQuiet(a: seq<Message>, b: seq<Message>, board: Bytes, limit: nat, window: nat)
    requires BoardIds(a, board) == BoardIds(b, board) && window >= |OnBoard(b, board)|
    ensures Delta(a, board, limit, DigestOf(b, board, window)) == []
  {
    var delta := Delta(a, board, limit, DigestOf(b, board, window));
    if delta != [] {
      var m := delta[0];
      assert m in delta && m in OnBoard(a, board);
      DigestListsOwnIds(b, board, window, m.id);
    }
  }

  /** Where the messages of a replica come from after an answered digest. */
  lemma KeptOrDelivered(a: seq<Message>, b: seq<Message>, board: Bytes, limit: nat, have: seq<MessageId>, m: Message)
    requires m in PutAll(b, Delta(a, board, limit, have))
    ensures m in b || (m in a && m.body.board == board && !Has(b, m.id))
  {
    if m !in b {
      StoredIsFresh(b, Delta(a, board, limit, have), m);
      OnBoardHolds(a, board, m);
    }
  }

  /** Messages on both replicas' boards under one id have one body. */
  ghost predicate BoardsAgree(a: seq<Message>, b: seq<Message>, board: Bytes) {
    forall m, n :: m in a && n in b && m.body.board == board && n.body.board == board && m.id == n.id
                   ==> m.body == n.body
  }

  /** The ids after one exchange each way. */
  lemma ExchangedIds(a: seq<Message>, b: seq<Message>, board: Bytes, limit: nat, w1: nat, w2: nat,
                     b': seq<Message>, a': seq<Message>)
    requires DistinctIds(a) && DistinctIds(b) && NoStrays(a, b, board) && NoStrays(b, a, board)
    requires b' == PutAll(b, Delta(a, board, limit, DigestOf(b, board, w1)))
    requires a' == PutAll(a, Delta(b', board, limit, DigestOf(a, board, w2)))
    requires limit >= |OnBoard(a, board)| && limit >= |OnBoard(b', board)|
    ensures BoardIds(a', board) == BoardIds(b', board) == BoardIds(a, board) + BoardIds(b, board)
  {
    UnionExactlyWhenNoStrays(a, b, board, limit, w1);
    forall id | id in BoardIds(b', board) && Has(a, id) ensures id in BoardIds(a, board) {
    }
    UnionExactlyWhenNoStrays(b', a, board, limit, w2);
  }

  lemma DistinctMeansSame(log: seq<Message>, m: Message, n: Message)
    requires DistinctIds(log) && m in log && n in log && m.id == n.id
    ensures m == n
  {
    var i :| 0 <= i < |log| && log[i] == m;
    var j :| 0 <= j < |log| && log[j] == n;
  }

  /** Which bodies may meet after the exchange. */
  lemma ExchangedBodies(a: seq<Message>, b: seq<Message>, board: Bytes, limit: nat, have1: seq<MessageId>,
                        have2: seq<MessageId>, b': seq<Message>, a': seq<Message>, m: Message, n: Message)
    requires DistinctIds(a) && DistinctIds(b) && BoardsAgree(a, b, board)
    requires b' == PutAll(b, Delta(a, board, limit, have1)) && a' == PutAll(a, Delta(b', board, limit, have2))
    requires m in a' && n in b' && m.body.board == board && n.body.board == board && m.id == n.id
    ensures m.body == n.body
  {
    KeptOrDelivered(a, b, board, limit, have1, n);
    KeptOrDelivered(b', a, board, limit, have2, m);
    HasIsMembership(a, m.id);
    if m in a {
      if n !in b {
        DistinctMeansSame(a, m, n);
      }
    } else {
      KeptOrDelivered(a, b, board, limit, have1, m);
      DistinctMeansSame(b, m, n);
    }
  }

  /** One exchange each way gives both replicas the union of the board's ids, and the same
      body under every id exactly when they did not disagree about one before. */
  lemma OneExchangeEachWay(a: seq<Message>, b: seq<Message>, board: Bytes, limit: nat, w1: nat, w2: nat,
                           b': seq<Message>, a': seq<Message>)
    requires DistinctIds(a) && DistinctIds(b) && NoStrays(a, b, board) && NoStrays(b, a, board)
    requires b' == PutAll(b, Delta(a, board, limit, DigestOf(b, board, w1)))
    requires a' == PutAll(a, Delta(b', board, limit, DigestOf(a, board, w2)))
    requires limit >= |OnBoard(a, board)| && limit >= |OnBoard(b', board)|
    ensures BoardIds(a', board) == BoardIds(b', board) == BoardIds(a, board) + BoardIds(b, board)
    ensures BoardsAgree(a', b', board) <==> BoardsAgree(a, b, board)
  {
    ExchangedIds(a, b, board, limit, w1, w2, b', a');
    if BoardsAgree(a, b, board) {
      forall m, n | m in a' && n in b' && m.body.board == board && n.body.board == board && m.id == n.id
        ensures m.body == n.body
      {
        ExchangedBodies(a, b, board, limit, DigestOf(b, board, w1), DigestOf(a, board, w2), b', a', m, n);
      }
    }
    PutAllAppends(b, Delta(a, board, limit, DigestOf(b, board, w1)));
    PutAllAppends(a, Delta(b', board, limit, DigestOf(a, board, w2)));
  }

  /** Verified replicas with clean headers agree. */
  lemma CleanReplicasAgree(a: seq<Message>, b: seq<Message>, board: Bytes, scheme: Scheme)
    requires scheme.Sound() && AllVerify(a, scheme) && AllVerify(b, scheme)
    requires forall m :: m in a || m in b ==> Clean(m.body)
    ensures BoardsAgree(a, b, board)
  {
    forall m, n | m in a && n in b && m.id == n.id ensures m.body == n.body {
      IdIdentifiesCleanMessages(m, n, scheme);
    }
  }

  /** Verified messages with clean headers never stray. */
  lemma CleanReplicasHaveNoStrays(a: seq<Message>, b: seq<Message>, board: Bytes, scheme: Scheme)
    requires scheme.Sound() && AllVerify(a, scheme) && AllVerify(b, scheme)
    requires forall m :: m in a || m in b ==> Clean(m.body)
    ensures NoStrays(a, b, board)
  {
    forall id | id in BoardIds(a, board) && Has(b, id) ensures id in BoardIds(b, board) {
      BoardIdsHold(a, board, id);
      BoardIdsHold(b, board, id);
      var m :| m in a && m.body.board == board && m.id == id;
      HasIsMembership(b, id);
      var n :| n in b && n.id == id;
      IdIdentifiesCleanMessages(m, n, scheme);
    }
  }

  // ----- Strays can be received -----

  /** Two messages under one id on two boards: the replica that holds the one never gets the
      other, whatever is exchanged. */
  lemma TwinStrays(m: Message, f: Message, limit: nat, window: nat)
    requires m.id == f.id && m.body.board != f.body.board && limit > 0
    ensures !NoStrays([m], [f], m.body.board)
    ensures m.id !in BoardIds(PutAll([f], Delta([m], m.body.board, limit, DigestOf([f], m.body.board, window))),
                              m.body.board)
  {
    var board := m.body.board;
    BoardIdsHold([m], board, m.id);
    BoardIdsHold([f], board, m.id);
    assert m in [m] && [f][0].id == m.id && Has([f], m.id);
    assert [m][..0] == [] && OnBoard([m], board) == [m];
    AnsweredDigest([m], [f], board, limit, window, m.id);
  }

  /** Every verified post with a newline in its board, parent or subject has a verified twin
      that strays. */
  lemma UncleanPostHasAVerifiedStray(m: Message, scheme: Scheme, limit: nat, window: nat) returns (f: Message)
    requires Verify(m, scheme) && m.body.kind == Post && !FramingClean(m.body) && limit > 0
    ensures AllVerify([m], scheme) && AllVerify([f], scheme) && DistinctIds([f])
    ensures !NoStrays([m], [f], m.body.board)
    ensures m.id !in BoardIds(PutAll([f], Delta([m], m.body.board, limit, DigestOf([f], m.body.board, window))),
                              m.body.board)
  {
    f := AmbiguousFramingStillVerifies(m, scheme);
    TwinStrays(m, f, limit, window);
  }
}
