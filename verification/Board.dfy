/** Messages, their canonical bytes and their content-addressed ids. */
module Board {
  import opened Bytes
  import opened Crypto
  import opened Wrappers

  type MessageId = Bytes

  datatype MessageKind = Post | Milestone | Step

  datatype MessageBody = MessageBody(
    board: Bytes,
    parent: Option<MessageId>,
    subject: Bytes,
    body: Bytes,
    author: AgentId,
    handle: Bytes,
    createdAt: Time,
    kind: MessageKind
  )

  datatype Message = Message(id: MessageId, body: MessageBody, signature: Signature)

  datatype BoardInfo = BoardInfo(slug: Bytes, title: Bytes, description: Bytes, locked: bool,
                                 founder: AgentId, createdAt: Time, federated: bool)

  const V1_TAG: Bytes := Ascii("agentbbs.msg.v1\n")
  const V2_TAG: Bytes := Ascii("agentbbs.msg.v2\n")

  function Discriminant(k: MessageKind): (r: Bytes)
    ensures Free(NEWLINE, r)
  {
    match k
    case Post => Ascii("post")
    case Milestone => Ascii("milestone")
    case Step => Ascii("step")
  }

  function ParentBytes(parent: Option<MessageId>): Bytes {
    if parent.Some? then parent.value else [DASH]
  }

  /** The newline-terminated fields, in order. */
  function Lines(fields: seq<Bytes>): Bytes {
    if fields == [] then [] else fields[0] + [NEWLINE] + Lines(fields[1..])
  }

  /** The header fields that follow the tag. A `Post` carries no kind field. */
  function Header(b: MessageBody, scheme: Scheme): seq<Bytes> {
    [b.board, ParentBytes(b.parent)]
    + (if b.kind == Post then [] else [Discriminant(b.kind)])
    + [b.subject, Hex(b.author.key), b.handle, scheme.stamp(b.createdAt)]
  }

  function SigningBytes(b: MessageBody, scheme: Scheme): Bytes {
    (if b.kind == Post then V1_TAG else V2_TAG) + Lines(Header(b, scheme)) + Prefixed(b.body)
  }

  /** The bytes in full: a tag with the version, one field to a line, then the text after
      its length. */
  lemma SigningBytesInFull(b: MessageBody, scheme: Scheme)
    ensures var parent := if b.parent.Some? then b.parent.value else Ascii("-");
            var rest := [b.subject, Hex(b.author.key), b.handle, scheme.stamp(b.createdAt)];
            SigningBytes(b, scheme)
            == match b.kind
               case Post => Ascii("agentbbs.msg.v1\n") + Lines([b.board, parent] + rest) + Prefixed(b.body)
               case Milestone => Ascii("agentbbs.msg.v2\n") + Lines([b.board, parent, Ascii("milestone")] + rest)
                                 + Prefixed(b.body)
               case Step => Ascii("agentbbs.msg.v2\n") + Lines([b.board, parent, Ascii("step")] + rest)
                            + Prefixed(b.body)
  {
    assert [DASH] == Ascii("-");
    assert b.kind == Post ==> [b.board, ParentBytes(b.parent)] + [] == [b.board, ParentBytes(b.parent)];
    assert [b.board, ParentBytes(b.parent)] + [Discriminant(b.kind)]
           == [b.board, ParentBytes(b.parent), Discriminant(b.kind)];
  }

  lemma {:induction false} LinesConcat(p: seq<Bytes>, q: seq<Bytes>)
    ensures Lines(p + q) == Lines(p) + Lines(q)
  {
    if p == [] {
      assert p + q == q;
    } else {
      LinesConcat(p[1..], q);
      assert (p + q)[1..] == p[1..] + q;
    }
  }

  lemma LinesAppend(p: seq<Bytes>, f: Bytes)
    ensures Lines(p + [f]) == Lines(p) + f + [NEWLINE]
  {
    LinesConcat(p, [f]);
    assert Lines([f]) == f + [NEWLINE] + Lines([]);
  }

  /** Append one field and its newline to the buffer; `fields` are those it holds so far. */
  method PushField(out: Bytes, f: Bytes, tag: Bytes, ghost fields: seq<Bytes>)
    returns (r: Bytes, ghost pushed: seq<Bytes>)
    requires out == tag + Lines(fields)
    ensures pushed == fields + [f]
    ensures r == tag + Lines(pushed)
  {
    r := out + f;
    r := r + [NEWLINE];
    pushed := fields + [f];
    LinesAppend(fields, f);
  }

  /** The buffer the program appends to, field by field. */
  method BuildSigningBytes(b: MessageBody, scheme: Scheme) returns (out: Bytes)
    ensures out == SigningBytes(b, scheme)
  {
    var isV2 := b.kind != Post;
    var tag := if isV2 then V2_TAG else V1_TAG;
    ghost var fields: seq<Bytes> := [];
    assert tag == tag + Lines(fields);
    out := tag;
    out, fields := PushField(out, b.board, tag, fields);
    out, fields := PushField(out, ParentBytes(b.parent), tag, fields);
    if isV2 {
      out, fields := PushField(out, Discriminant(b.kind), tag, fields);
    }
    out, fields := PushField(out, b.subject, tag, fields);
    out, fields := PushField(out, Hex(b.author.key), tag, fields);
    out, fields := PushField(out, b.handle, tag, fields);
    out, fields := PushField(out, scheme.stamp(b.createdAt), tag, fields);
    assert fields == Header(b, scheme);
    out := out + (Decimal(|b.body|) + [COLON]);
    out := out + b.body;
  }

  function Id(b: MessageBody, scheme: Scheme): MessageId {
    scheme.hash(SigningBytes(b, scheme))
  }

  /** A message is authentic when its id matches its content and its author signed it. */
  predicate Verify(m: Message, scheme: Scheme) {
    && Id(m.body, scheme) == m.id
    && scheme.valid(m.body.author, SigningBytes(m.body, scheme), m.signature)
  }

  /** No field before the text holds a newline, and no parent is the placeholder `-`. */
  predicate Clean(b: MessageBody) {
    && Free(NEWLINE, b.board)
    && Free(NEWLINE, ParentBytes(b.parent))
    && Free(NEWLINE, b.subject)
    && Free(NEWLINE, b.handle)
    && b.parent != Some([DASH])
  }

  lemma {:induction false} LinesAreInjective(p: seq<Bytes>, x: Bytes, q: seq<Bytes>, y: Bytes)
    requires |p| == |q|
    requires forall i :: 0 <= i < |p| ==> Free(NEWLINE, p[i]) && Free(NEWLINE, q[i])
    requires Lines(p) + x == Lines(q) + y
    ensures p == q && x == y
  {
    if p != [] {
      var a, b := Lines(p[1..]) + x, Lines(q[1..]) + y;
      assert Lines(p) + x == p[0] + [NEWLINE] + a;
      assert Lines(q) + y == q[0] + [NEWLINE] + b;
      SplitAtSeparator(NEWLINE, p[0], a, q[0], b);
      LinesAreInjective(p[1..], x, q[1..], y);
      assert p == [p[0]] + p[1..] && q == [q[0]] + q[1..];
    } else {
      assert Lines(p) + x == x && Lines(q) + y == y;
    }
  }

  lemma AfterTheTag(b: MessageBody, scheme: Scheme)
    ensures var s := SigningBytes(b, scheme);
            && |s| >= 16 && s[14] == (if b.kind == Post then 49 else 50)
            && s[16..] == Lines(Header(b, scheme)) + Prefixed(b.body)
  {
    var s := SigningBytes(b, scheme);
    var tag := if b.kind == Post then V1_TAG else V2_TAG;
    assert s == tag + (Lines(Header(b, scheme)) + Prefixed(b.body));
    assert s[14] == tag[14];
  }

  lemma TagDecidesVersion(b: MessageBody, c: MessageBody, scheme: Scheme)
    requires SigningBytes(b, scheme) == SigningBytes(c, scheme)
    ensures b.kind == Post <==> c.kind == Post
    ensures Lines(Header(b, scheme)) + Prefixed(b.body) == Lines(Header(c, scheme)) + Prefixed(c.body)
  {
    AfterTheTag(b, scheme);
    AfterTheTag(c, scheme);
  }

  /** Across both versions and every kind, clean bodies with equal signing bytes are the
      same body. The text itself may hold any bytes. */
  lemma SigningBytesIdentifyCleanBodies(b: MessageBody, c: MessageBody, scheme: Scheme)
    requires scheme.Sound() && Clean(b) && Clean(c)
    requires SigningBytes(b, scheme) == SigningBytes(c, scheme)
    ensures b == c
  {
    TagDecidesVersion(b, c, scheme);
    var p, q := Header(b, scheme), Header(c, scheme);
    LinesAreInjective(p, Prefixed(b.body), q, Prefixed(c.body));
    SplitPrefixed(b.body, [], c.body, []) by {
      assert Prefixed(b.body) + [] == Prefixed(b.body) == Prefixed(c.body) == Prefixed(c.body) + [];
    }
    assert b.board == p[0] == q[0] == c.board;
    assert ParentBytes(b.parent) == p[1] == q[1] == ParentBytes(c.parent);
    var k := if b.kind == Post then 2 else 3;
    if b.kind != Post {
      assert Discriminant(b.kind) == p[2] == q[2] == Discriminant(c.kind);
      assert |Discriminant(Milestone)| == 9 && |Discriminant(Step)| == 4;
    }
    assert b.subject == p[k] == q[k] == c.subject;
    assert Hex(b.author.key) == p[k + 1] == q[k + 1] == Hex(c.author.key);
    assert b.handle == p[k + 2] == q[k + 2] == c.handle;
    assert scheme.stamp(b.createdAt) == p[k + 3] == q[k + 3] == scheme.stamp(c.createdAt);
    HexIsInjective(b.author.key, c.author.key);
  }

  /** Verified messages with clean bodies are identified by their id. */
  lemma IdIdentifiesCleanMessages(m: Message, n: Message, scheme: Scheme)
    requires scheme.Sound() && Verify(m, scheme) && Verify(n, scheme)
    requires Clean(m.body) && Clean(n.body) && m.id == n.id
    ensures m.body == n.body
  {
    SigningBytesIdentifyCleanBodies(m.body, n.body, scheme);
  }
}
