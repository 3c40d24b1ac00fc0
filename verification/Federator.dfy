/** A federation node: its store, peer book and web of trust behind verified ingest. */
module Federator {
  import opened Bytes
  import opened Crypto
  import opened Board
  import opened Log
  import opened Store
  import opened Peer
  import opened WebTrust
  import opened Federation
  import opened Promotion
  import opened Wrappers

  /** The error a failed verification reports: a wrong id before a wrong signature. */
  function VerifyMessage(m: Message, scheme: Scheme): (r: Result<()>)
    ensures r.Ok? <==> Verify(m, scheme)
  {
    if Id(m.body, scheme) != m.id then Err(Malformed)
    else if !scheme.valid(m.body.author, SigningBytes(m.body, scheme), m.signature) then Err(BadSignature)
    else Ok(())
  }

  /** The outcome of the first message that does not verify, if any. */
  function VerifyEach(ms: seq<Message>, scheme: Scheme): (r: Result<()>)
    ensures r.Ok? <==> AllVerify(ms, scheme)
  {
    if ms == [] then Ok(())
    else
      assert ms == [ms[0]] + ms[1..];
      var first := VerifyMessage(ms[0], scheme);
      if first.Err? then first else VerifyEach(ms[1..], scheme)
  }

  lemma PutAllVerifies(log: seq<Message>, ms: seq<Message>, scheme: Scheme)
    requires AllVerify(log, scheme) && AllVerify(ms, scheme)
    ensures AllVerify(PutAll(log, ms), scheme)
  {
    PutAllAppends(log, ms);
    var all := PutAll(log, ms);
    forall i | 0 <= i < |all| ensures Verify(all[i], scheme) {
      assert all[i] in all;
    }
  }

  /** A wrong id counts before a wrong signature, and an earlier message before a later. */
  lemma {:induction false} FirstFaultIsReported(ms: seq<Message>, scheme: Scheme, i: nat)
    requires i < |ms| && !Verify(ms[i], scheme) && forall j :: 0 <= j < i ==> Verify(ms[j], scheme)
    ensures VerifyEach(ms, scheme)
            == Err(if ms[i].id != scheme.hash(SigningBytes(ms[i].body, scheme)) then Malformed else BadSignature)
  {
    if i > 0 {
      assert Verify(ms[0], scheme);
      FirstFaultIsReported(ms[1..], scheme, i - 1);
    }
  }

  /** What ingesting an envelope reports. */
  function IngestOutcome(env: Envelope, scheme: Scheme, json: Payload -> Bytes): Result<()> {
    if !Opens(env, scheme, json) then Err(BadSignature)
    else match env.payload
      case ReplicateMessage(m) => VerifyMessage(m, scheme)
      case BoardSnapshot(_, ms) => VerifyEach(ms, scheme)
      case _ => Ok(())
  }

  /** Board metadata: the latest accepted announcement or snapshot overwrites. */
  function BoardsAfter(boards: map<Bytes, BoardInfo>, env: Envelope, scheme: Scheme,
                       json: Payload -> Bytes): map<Bytes, BoardInfo> {
    if IngestOutcome(env, scheme, json).Err? then boards
    else match env.payload
      case AnnounceBoard(b) => boards[b.slug := b]
      case BoardSnapshot(b, _) => boards[b.slug := b]
      case _ => boards
  }

  /** An envelope that is refused, for its own signature or for any one message it carries,
      leaves no trace. */
  lemma RefusedEnvelopesChangeNothing(env: Envelope, scheme: Scheme, json: Payload -> Bytes,
                                      boards: map<Bytes, BoardInfo>, peers: Peers)
    requires IngestOutcome(env, scheme, json).Err?
    ensures Accepted(env, scheme, json) == [] && BoardsAfter(boards, env, scheme, json) == boards
    ensures PeersAfter(peers, env, scheme, json) == peers
  {
  }

  /** A message's id is the hash of what its author signed. */
  lemma GenuineVerify(ms: seq<Message>, scheme: Scheme)
    ensures AllVerify(ms, scheme) <==>
            forall m | m in ms ::
              && m.id == scheme.hash(SigningBytes(m.body, scheme))
              && scheme.valid(m.body.author, SigningBytes(m.body, scheme), m.signature)
  {
    if AllVerify(ms, scheme) {
      forall m | m in ms
        ensures m.id == scheme.hash(SigningBytes(m.body, scheme))
                && scheme.valid(m.body.author, SigningBytes(m.body, scheme), m.signature)
      {
        assert Verify(m, scheme);
      }
    }
  }

  /** Whatever an envelope adds, its hash is its id and its author signed it. */
  lemma OnlyGenuineMessagesArrive(log: seq<Message>, env: Envelope, scheme: Scheme, json: Payload -> Bytes, n: Message)
    requires n in PutAll(log, Accepted(env, scheme, json)) && n !in log
    ensures scheme.valid(env.node, EnvelopeBytes(env.node, env.seq_, env.payload, json), env.signature)
    ensures n.id == scheme.hash(SigningBytes(n.body, scheme))
    ensures scheme.valid(n.body.author, SigningBytes(n.body, scheme), n.signature)
    ensures env.payload == ReplicateMessage(n) || (env.payload.BoardSnapshot? && n in env.payload.messages)
    ensures forall o | o in log :: o.id != n.id
  {
    GainedWasListed(log, Accepted(env, scheme, json), n);
    GenuineVerify(Accepted(env, scheme, json), scheme);
  }

  /** A snapshot that opens and carries genuine messages only is taken whole: each id it
      carries is held afterwards, new ones by the first message carried under them. */
  lemma GenuineSnapshotArrives(log: seq<Message>, env: Envelope, scheme: Scheme, json: Payload -> Bytes)
    requires scheme.valid(env.node, EnvelopeBytes(env.node, env.seq_, env.payload, json), env.signature)
    requires env.payload.BoardSnapshot?
    requires forall m | m in env.payload.messages ::
               && m.id == scheme.hash(SigningBytes(m.body, scheme))
               && scheme.valid(m.body.author, SigningBytes(m.body, scheme), m.signature)
    ensures IngestOutcome(env, scheme, json).Ok?
    ensures var ms, after := env.payload.messages, PutAll(log, Accepted(env, scheme, json));
            && (forall m | m in ms :: exists n | n in after :: n.id == m.id)
            && (forall i | 0 <= i < |ms| && (forall n | n in log :: n.id != ms[i].id)
                           && (forall j | 0 <= j < i :: ms[j].id != ms[i].id) :: ms[i] in after)
  {
    var ms := env.payload.messages;
    GenuineVerify(ms, scheme);
    assert Accepted(env, scheme, json) == ms;
    forall m | m in ms ensures exists n | n in PutAll(log, ms) :: n.id == m.id {
      ListedIdIsHeld(log, ms, m);
    }
    forall i | 0 <= i < |ms| && (forall n | n in log :: n.id != ms[i].id)
               && (forall j | 0 <= j < i :: ms[j].id != ms[i].id)
      ensures ms[i] in PutAll(log, ms)
    {
      FirstListedIsKept(log, ms, i);
    }
  }

  /** One message that is not refuses the whole snapshot. */
  lemma TaintedSnapshotIsRefused(env: Envelope, scheme: Scheme, json: Payload -> Bytes, m: Message)
    requires env.payload.BoardSnapshot? && m in env.payload.messages
    requires m.id != scheme.hash(SigningBytes(m.body, scheme))
             || !scheme.valid(m.body.author, SigningBytes(m.body, scheme), m.signature)
    ensures IngestOutcome(env, scheme, json).Err? && Accepted(env, scheme, json) == []
  {
    GenuineVerify(env.payload.messages, scheme);
  }

  /** A genuine replicated message is stored unless its id is already held. */
  lemma GenuineMessageArrives(log: seq<Message>, env: Envelope, scheme: Scheme, json: Payload -> Bytes, m: Message)
    requires scheme.valid(env.node, EnvelopeBytes(env.node, env.seq_, env.payload, json), env.signature)
    requires env.payload == ReplicateMessage(m) && m.id == scheme.hash(SigningBytes(m.body, scheme))
    requires scheme.valid(m.body.author, SigningBytes(m.body, scheme), m.signature)
    ensures IngestOutcome(env, scheme, json).Ok?
    ensures PutAll(log, Accepted(env, scheme, json))
            == if exists n | n in log :: n.id == m.id then log else log + [m]
  {
    OneAccepted(env, scheme, json, log);
    HasMember(log, m.id);
  }

  lemma MessageTaken(env: Envelope, scheme: Scheme, json: Payload -> Bytes)
    requires Opens(env, scheme, json) && env.payload.ReplicateMessage?
    ensures IngestOutcome(env, scheme, json) == VerifyMessage(env.payload.message, scheme)
    ensures Accepted(env, scheme, json)
            == if VerifyMessage(env.payload.message, scheme).Ok? then [env.payload.message] else []
  {
  }

  /** Board metadata and peers after an accepted envelope, in the envelope's own terms. */
  lemma BoardsAndPeersAfter(env: Envelope, scheme: Scheme, json: Payload -> Bytes, boards: map<Bytes, BoardInfo>,
                            peers: Peers)
    requires IngestOutcome(env, scheme, json).Ok?
    ensures BoardsAfter(boards, env, scheme, json)
            == if env.payload.AnnounceBoard? || env.payload.BoardSnapshot?
               then boards[env.payload.info.slug := env.payload.info] else boards
    ensures PeersAfter(peers, env, scheme, json)
            == if env.payload.PeerExchange? then MergeAll(peers, env.payload.peers) else peers
  {
  }

  class Federator {
    const node: AgentId
    const scheme: Scheme
    const json: Payload -> Bytes
    /** Signing with this node's private key. */
    const sign: Bytes -> Signature
    /** The PII scrubber for board descriptions. */
    const scrub: Bytes -> Bytes
    const store: MemoryStore
    const book: PeerBook
    const web: WebOfTrust
    var nextSeq: nat

    ghost predicate Valid()
      reads this, store, book
    {
      && store.Valid() && book.Valid() && web.scheme == scheme
      && AllVerify(store.log, scheme)
      && (forall b :: scheme.valid(node, b, sign(b)))
    }

    constructor (node: AgentId, scheme: Scheme, json: Payload -> Bytes, sign: Bytes -> Signature,
                 scrub: Bytes -> Bytes, store: MemoryStore, book: PeerBook)
      requires store.Valid() && book.Valid() && AllVerify(store.log, scheme)
      requires forall b :: scheme.valid(node, b, sign(b))
      ensures Valid() && this.node == node && this.scheme == scheme && this.json == json
      ensures this.store == store && this.book == book && fresh(web) && web.edges == map[]
    {
      this.node, this.scheme, this.json, this.sign, this.scrub := node, scheme, json, sign, scrub;
      this.store, this.book := store, book;
      web := new WebOfTrust(scheme);
      nextSeq := 0;
    }

    method Seal(payload: Payload) returns (env: Envelope)
      requires Valid()
      modifies this`nextSeq
      ensures Valid() && nextSeq == old(nextSeq) + 1
      ensures env.node == node && env.seq_ == old(nextSeq) && env.payload == payload
      ensures Opens(env, scheme, json)
      ensures scheme.valid(node, Lines([Ascii("agentbbs.fed.v1"), Ascii("agentbbs/0.1"), Hex(node.key),
                                        Decimal(old(nextSeq))]) + Prefixed(json(payload)), env.signature)
    {
      env := Envelope(node, nextSeq, payload, sign(EnvelopeBytes(node, nextSeq, payload, json)));
      nextSeq := nextSeq + 1;
    }

    method AddEndorsement(e: Endorsement) returns (r: Result<()>)
      requires Valid()
      modifies web`edges
      ensures Valid()
      ensures r.Ok? <==> EndorsementVerified(e, scheme)
      ensures web.edges == if r.Ok? then AddEdge(old(web.edges), e) else old(web.edges)
    {
      r := web.Add(e);
    }

    method MakeDigest(slug: Bytes, limit: nat) returns (env: Envelope)
      requires Valid()
      modifies this`nextSeq
      ensures Valid() && Opens(env, scheme, json)
      ensures env.payload == BoardDigest(slug, DigestOf(store.log, slug, limit))
      ensures env.payload.have == Ids(List(store.log, slug, limit))
    {
      var ms := store.ListMessages(slug, limit);
      env := Seal(BoardDigest(slug, Ids(ms)));
    }

    /** The messages of the digest's board that its sender lacks. */
    method Reconcile(wire: Option<Envelope>, limit: nat) returns (r: Result<seq<Message>>)
      requires Valid()
      ensures wire.None? ==> r == Err(BadJson)
      ensures wire.Some? && !Opens(wire.value, scheme, json) ==> r == Err(BadSignature)
      ensures wire.Some? && Opens(wire.value, scheme, json) && !wire.value.payload.BoardDigest? ==> r == Err(Malformed)
      ensures wire.Some? && Opens(wire.value, scheme, json) && wire.value.payload.BoardDigest?
              ==> r == Ok(Delta(store.log, wire.value.payload.board, limit, wire.value.payload.have))
    {
      match wire
      case None =>
        return Err(BadJson);
      case Some(env) =>
        if !Opens(env, scheme, json) {
          return Err(BadSignature);
        }
        match env.payload
        case BoardDigest(board, have) =>
          var ms := store.ListMessages(board, limit);
          return Ok(Missing(ms, have));
        case _ =>
          return Err(Malformed);
    }

    method MakeSnapshot(slug: Bytes, limit: nat) returns (r: Result<Envelope>)
      requires Valid()
      modifies this`nextSeq
      ensures Valid()
      ensures slug !in store.boards ==> r == Err(Malformed)
      ensures slug in store.boards ==>
        && r.Ok? && Opens(r.value, scheme, json)
        && var b := store.boards[slug];
           r.value.payload == BoardSnapshot(b.(description := scrub(b.description)), List(store.log, slug, limit))
    {
      if slug !in store.boards {
        return Err(Malformed);
      }
      var board := store.boards[slug];
      board := board.(description := scrub(board.description));
      var ms := store.ListMessages(slug, limit);
      var env := Seal(BoardSnapshot(board, ms));
      return Ok(env);
    }

    method MakePeerExchange() returns (env: Envelope)
      requires Valid()
      modifies this`nextSeq
      ensures Valid() && Opens(env, scheme, json) && env.payload.PeerExchange?
      ensures forall q :: q in env.payload.peers <==> q.node in book.peers && book.peers[q.node].addr == q.addr
    {
      var infos := book.Infos();
      env := Seal(PeerExchange(infos));
    }

    method StoreAll(ms: seq<Message>)
      requires Valid() && AllVerify(ms, scheme)
      modifies store`byBoard, store`messages, store`log
      ensures Valid() && store.log == PutAll(old(store.log), ms)
    {
      PutAllVerifies(store.log, ms, scheme);
      store.PutMessages(ms);
    }

    /** A message is authenticated whoever relayed it. */
    method TakeMessage(m: Message) returns (r: Result<()>)
      requires Valid()
      modifies store`byBoard, store`messages, store`log
      ensures Valid() && r == VerifyMessage(m, scheme)
      ensures store.log == PutAll(old(store.log), if r.Ok? then [m] else [])
    {
      r := VerifyMessage(m, scheme);
      if r.Ok? {
        assert AllVerify([m], scheme);
        StoreAll([m]);
      }
    }

    /** A snapshot is verified in full before any of it is stored. */
    method TakeSnapshot(env: Envelope) returns (r: Result<()>)
      requires Valid() && Opens(env, scheme, json) && env.payload.BoardSnapshot?
      modifies store
      ensures Valid() && r == IngestOutcome(env, scheme, json)
      ensures store.log == PutAll(old(store.log), Accepted(env, scheme, json))
      ensures store.boards == BoardsAfter(old(store.boards), env, scheme, json)
    {
      r := VerifyEach(env.payload.messages, scheme);
      if r.Ok? {
        store.PutBoard(env.payload.info);
        StoreAll(env.payload.messages);
      }
    }

    /** What an opened envelope does. */
    method Apply(env: Envelope) returns (r: Result<()>)
      requires Valid() && Opens(env, scheme, json)
      modifies store, book
      ensures Valid() && r == IngestOutcome(env, scheme, json)
      ensures store.log == PutAll(old(store.log), Accepted(env, scheme, json))
      ensures store.boards == BoardsAfter(old(store.boards), env, scheme, json)
      ensures book.peers == PeersAfter(old(book.peers), env, scheme, json)
    {
      match env.payload
      case ReplicateMessage(m) =>
        MessageTaken(env, scheme, json);
        r := TakeMessage(m);
      case AnnounceBoard(b) =>
        store.PutBoard(b);
        return Ok(());
      case BoardSnapshot(_, _) =>
        r := TakeSnapshot(env);
      case PeerExchange(infos) =>
        var _ := book.MergeDiscovered(infos);
        return Ok(());
      case _ =>
        return Ok(());
    }

    /** Open, verify, apply. */
    method Ingest(wire: Option<Envelope>) returns (r: Result<()>)
      requires Valid()
      modifies store, book
      ensures Valid()
      ensures wire.None? ==> r == Err(BadJson) && store.log == old(store.log)
                             && store.boards == old(store.boards) && book.peers == old(book.peers)
      ensures wire.Some? ==>
        && r == IngestOutcome(wire.value, scheme, json)
        && store.log == PutAll(old(store.log), Accepted(wire.value, scheme, json))
        && store.boards == BoardsAfter(old(store.boards), wire.value, scheme, json)
        && book.peers == PeersAfter(old(book.peers), wire.value, scheme, json)
      ensures wire.Some? && !scheme.valid(wire.value.node, EnvelopeBytes(wire.value.node, wire.value.seq_,
                                            wire.value.payload, json), wire.value.signature)
              ==> r == Err(BadSignature)
      ensures r.Err? ==> store.log == old(store.log)
      ensures r.Ok? && wire.value.payload.BoardSnapshot? ==>
                store.log == PutAll(old(store.log), wire.value.payload.messages)
      ensures r.Ok? && wire.value.payload.ReplicateMessage? ==>
                store.log == PutAll(old(store.log), [wire.value.payload.message])
    {
      match wire
      case None =>
        return Err(BadJson);
      case Some(env) =>
        if !Opens(env, scheme, json) {
          return Err(BadSignature);
        }
        r := Apply(env);
    }

    /** The ids of the trusted peers. */
    method Roots() returns (roots: seq<AgentId>)
      requires book.Valid()
      ensures RootSet(roots) == TrustedSet(book.peers)
    {
      var trusted := book.TrustedPeers();
      roots := seq(|trusted|, i requires 0 <= i < |trusted| => trusted[i].node);
      RootsAreTheTrusted(book.peers, trusted, roots);
    }

    /** Unknown peers within reach of the trusted ones become Linked. */
    method PromoteViaTrust(maxDepth: nat) returns (promoted: nat)
      requires book.Valid()
      modifies book
      ensures book.Valid()
      ensures book.peers == PromoteAll(old(book.peers), web.edges, maxDepth)
      ensures promoted == |NewlyLinked(old(book.peers), web.edges, maxDepth)|
    {
      var roots := Roots();
      ghost var before := book.peers;
      if roots == [] {
        NoRootsNoPromotion(before, web.edges, maxDepth);
        return 0;
      }
      var unknowns := set k | k in book.peers && book.peers[k].trust == Unknown;
      promoted := 0;
      ghost var linked: set<AgentId> := {};
      MidwayStarts(before, web.edges, maxDepth, unknowns);
      while unknowns != {}
        invariant book.Valid() && promoted == |linked|
        invariant Midway(before, book.peers, web.edges, maxDepth, unknowns, linked)
        decreases |unknowns|
      {
        var k :| k in unknowns;
        MidwayStep(before, book.peers, web.edges, maxDepth, unknowns, linked, k);
        var p := book.peers[k];
        var vouched := web.IsTrusted(k, roots, maxDepth);
        if vouched {
          book.Add(PeerRecord(p.node, p.addr, Linked));
          promoted := promoted + 1;
          linked := linked + {k};
        }
        unknowns := unknowns - {k};
      }
      MidwayEnds(before, book.peers, web.edges, maxDepth, linked);
    }

    lemma RootsAreTheTrusted(peers: Peers, trusted: seq<PeerRecord>, roots: seq<AgentId>)
      requires |roots| == |trusted| && forall i :: 0 <= i < |roots| ==> roots[i] == trusted[i].node
      requires forall p :: p in trusted <==> p.node in TrustedSet(peers) && peers[p.node] == p
      requires Keyed(peers)
      ensures RootSet(roots) == TrustedSet(peers)
    {
      forall k | k in TrustedSet(peers) ensures k in roots {
        assert peers[k] in trusted;
        var i :| 0 <= i < |trusted| && trusted[i] == peers[k];
        assert roots[i] == k;
      }
      forall k | k in roots ensures k in TrustedSet(peers) {
        var i :| 0 <= i < |roots| && roots[i] == k;
        assert trusted[i] in trusted;
      }
    }
  }

  lemma OneAccepted(env: Envelope, scheme: Scheme, json: Payload -> Bytes, log: seq<Message>)
    requires Opens(env, scheme, json) && env.payload.ReplicateMessage? && Verify(env.payload.message, scheme)
    ensures PutAll(log, Accepted(env, scheme, json)) == Put(log, env.payload.message)
  {
    var m := env.payload.message;
    assert [m][..1] == [m] && [m][..0] == [];
    PutAllStep(log, [m], 0);
  }

  /** A sealed snapshot of genuine messages arrives whole. */
  method DeliverSnapshot(b: Federator, env: Envelope)
    requires b.Valid() && env.payload.BoardSnapshot?
    requires b.scheme.valid(env.node, EnvelopeBytes(env.node, env.seq_, env.payload, b.json), env.signature)
    requires forall m | m in env.payload.messages ::
               && m.id == b.scheme.hash(SigningBytes(m.body, b.scheme))
               && b.scheme.valid(m.body.author, SigningBytes(m.body, b.scheme), m.signature)
    modifies b.store, b.book
    ensures b.Valid() && b.store.boards == old(b.store.boards)[env.payload.info.slug := env.payload.info]
    ensures forall m | m in env.payload.messages :: exists n | n in b.store.log :: n.id == m.id
    ensures forall i | && 0 <= i < |env.payload.messages|
                       && (forall n | n in old(b.store.log) :: n.id != env.payload.messages[i].id)
                       && (forall j | 0 <= j < i :: env.payload.messages[j].id != env.payload.messages[i].id) ::
              env.payload.messages[i] in b.store.log
  {
    GenuineSnapshotArrives(b.store.log, env, b.scheme, b.json);
    BoardsAndPeersAfter(env, b.scheme, b.json, b.store.boards, b.book.peers);
    var _ := b.Ingest(Some(env));
  }

  /** A sealed, verified message arrives. */
  method Deliver(b: Federator, env: Envelope)
    requires b.Valid() && Opens(env, b.scheme, b.json)
    requires env.payload.ReplicateMessage? && Verify(env.payload.message, b.scheme)
    modifies b.store, b.book
    ensures b.Valid() && b.store.log == Put(old(b.store.log), env.payload.message)
  {
    OneAccepted(env, b.scheme, b.json, b.store.log);
    var _ := b.Ingest(Some(env));
  }

  method ReplicateOne(a: Federator, b: Federator, m: Message)
    requires a.Valid() && b.Valid() && a.scheme == b.scheme && a.json == b.json
    requires a != b && a.store != b.store && a.book != b.book
    requires Verify(m, a.scheme)
    modifies a`nextSeq, b.store, b.book
    ensures a.Valid() && b.Valid()
    ensures b.store.log == Put(old(b.store.log), m)
  {
    var env := a.Seal(ReplicateMessage(m));
    Deliver(b, env);
  }

  /** Replicate messages one by one, each sealed by the sender and ingested by the receiver. */
  method Replicate(a: Federator, b: Federator, ms: seq<Message>)
    requires a.Valid() && b.Valid() && a.scheme == b.scheme && a.json == b.json
    requires a != b && a.store != b.store && a.book != b.book
    requires AllVerify(ms, a.scheme)
    modifies a`nextSeq, b.store, b.book
    ensures a.Valid() && b.Valid()
    ensures b.store.log == PutAll(old(b.store.log), ms)
  {
    ghost var before := b.store.log;
    for i := 0 to |ms|
      invariant a.Valid() && b.Valid()
      invariant b.store.log == PutAll(before, ms[..i])
    {
      PutAllStep(before, ms, i);
      ReplicateOne(a, b, ms[i]);
    }
    WholePrefix(ms);
  }

  /** One anti-entropy exchange: B digests, A answers, B ingests the answer. */
  method Exchange(a: Federator, b: Federator, board: Bytes, limit: nat, window: nat)
    requires a.Valid() && b.Valid() && a.scheme == b.scheme && a.json == b.json
    requires a != b && a.store != b.store && a.book != b.book
    modifies a`nextSeq, b`nextSeq, b.store, b.book
    ensures a.Valid() && b.Valid()
    ensures b.store.log == PutAll(old(b.store.log),
            Delta(a.store.log, board, limit, DigestOf(old(b.store.log), board, window)))
  {
    var digest := b.MakeDigest(board, window);
    var answer := a.Reconcile(Some(digest), limit);
    DeltaVerifies(a.store.log, board, limit, digest.payload.have, a.scheme);
    Replicate(a, b, answer.value);
  }

  /** One bootstrap: A seals a snapshot of the board, B ingests it. */
  method SendSnapshot(a: Federator, b: Federator, slug: Bytes, limit: nat) returns (r: Result<()>)
    requires a.Valid() && b.Valid() && a.scheme == b.scheme && a.json == b.json
    requires a != b && a.store != b.store && a.book != b.book
    modifies a`nextSeq, b.store, b.book
    ensures a.Valid() && b.Valid()
    ensures slug !in a.store.boards ==> r == Err(Malformed) && b.store.log == old(b.store.log)
    ensures slug in a.store.boards ==> r.Ok? && b.store.log == PutAll(old(b.store.log), List(a.store.log, slug, limit))
    ensures slug in a.store.boards && limit >= |OnBoard(a.store.log, slug)| ==>
              (BoardIds(b.store.log, slug) == BoardIds(old(b.store.log), slug) + BoardIds(a.store.log, slug)
               <==> NoStrays(a.store.log, old(b.store.log), slug))
  {
    var env := a.MakeSnapshot(slug, limit);
    if env.Err? {
      return Err(env.error);
    }
    ListVerifies(a.store.log, slug, limit, a.scheme);
    if limit >= |OnBoard(a.store.log, slug)| {
      SnapshotGivesUnionExactlyWhenNoStrays(a.store.log, b.store.log, slug, limit);
    }
    r := b.Ingest(Some(env.value));
  }

  lemma ListVerifies(log: seq<Message>, board: Bytes, limit: nat, scheme: Scheme)
    requires AllVerify(log, scheme)
    ensures AllVerify(List(log, board, limit), scheme)
  {
    var ms := List(log, board, limit);
    forall i | 0 <= i < |ms| ensures Verify(ms[i], scheme) {
      assert ms[i] in OnBoard(log, board);
      OnBoardHolds(log, board, ms[i]);
    }
  }

  lemma DeltaVerifies(log: seq<Message>, board: Bytes, limit: nat, have: seq<MessageId>, scheme: Scheme)
    requires AllVerify(log, scheme)
    ensures AllVerify(Delta(log, board, limit, have), scheme)
  {
    var delta := Delta(log, board, limit, have);
    forall i | 0 <= i < |delta| ensures Verify(delta[i], scheme) {
      assert delta[i] in delta && delta[i] in OnBoard(log, board);
      OnBoardHolds(log, board, delta[i]);
    }
  }
}
