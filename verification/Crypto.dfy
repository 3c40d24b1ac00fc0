/** Identities, and what the system assumes of its cryptography. */
module Crypto {
  import opened Bytes

  /** The 32 bytes of a public key. */
  type Key = k: Bytes | |k| == 32 witness seq(32, _ => 0)

  /** An Ed25519 public key. Its hex rendering is injective (`HexIsInjective`), so
      tables the program keys by hex are modelled as tables keyed by the id itself. */
  datatype AgentId = AgentId(key: Key)

  type Time = int

  type Signature(==, !new)

  /** The abstract primitives: a content hash, a signature check, the RFC 3339 rendering
      of a timestamp, and which keys are points of the curve, as every key in use is. */
  datatype Scheme = Scheme(
    hash: Bytes -> Bytes,
    valid: (AgentId, Bytes, Signature) -> bool,
    stamp: Time -> Bytes,
    point: Key -> bool
  ) {
    /** Distinct contents have distinct hashes, and a rendered timestamp identifies its
        instant and holds no newline. */
    ghost predicate Sound() {
      && (forall x, y :: hash(x) == hash(y) ==> x == y)
      && (forall s, t :: stamp(s) == stamp(t) ==> s == t)
      && (forall t :: Free(NEWLINE, stamp(t)))
    }
  }

  function HexDigit(n: int): byte
    requires 0 <= n < 16
  {
    if n < 10 then (48 + n) as byte else (87 + n) as byte
  }

  /** Lowercase hex. */
  function Hex(bytes: Bytes): (r: Bytes)
    ensures |r| == 2 * |bytes|
    ensures Free(NEWLINE, r)
  {
    if bytes == [] then []
    else [HexDigit(bytes[0] as int / 16), HexDigit(bytes[0] as int % 16)] + Hex(bytes[1..])
  }

  lemma {:induction false} HexIsInjective(a: Bytes, b: Bytes)
    requires Hex(a) == Hex(b)
    ensures a == b
  {
    assert |a| == |b|;
    if a != [] {
      assert Hex(a)[0] == Hex(b)[0] && Hex(a)[1] == Hex(b)[1];
      assert Hex(a)[2..] == Hex(a[1..]) && Hex(b)[2..] == Hex(b[1..]);
      HexIsInjective(a[1..], b[1..]);
      assert a == [a[0]] + a[1..] && b == [b[0]] + b[1..];
    }
  }

  /** The `len:bytes\n` frames of a list of parts. */
  function Frames(parts: seq<Bytes>): Bytes {
    if parts == [] then [] else Prefixed(parts[0]) + [NEWLINE] + Frames(parts[1..])
  }

  /** The canonical signing bytes every signed record uses: a version tag, then each
      part as `len:bytes\n`. */
  function Compose(tag: Bytes, parts: seq<Bytes>): Bytes {
    tag + Frames(parts)
  }

  /** The byte buffer the program fills part by part. */
  method ComposeBytes(tag: Bytes, parts: seq<Bytes>) returns (out: Bytes)
    ensures out == Compose(tag, parts)
  {
    out := tag;
    for i := 0 to |parts|
      invariant out + Frames(parts[i..]) == Compose(tag, parts)
    {
      ghost var before := out;
      out := out + Decimal(|parts[i]|) + [COLON];
      out := out + parts[i];
      out := out + [NEWLINE];
      assert parts[i..][1..] == parts[i + 1..];
      assert out + Frames(parts[i + 1..]) == before + Frames(parts[i..]);
    }
  }

  /** No part can be smuggled across a boundary: under one tag, equal bytes come from
      equal lists, of any lengths and any contents. */
  lemma {:induction false} ComposeIsInjective(tag: Bytes, p: seq<Bytes>, q: seq<Bytes>)
    requires Compose(tag, p) == Compose(tag, q)
    ensures p == q
  {
    assert Frames(p) == Compose(tag, p)[|tag|..];
    assert Frames(q) == Compose(tag, q)[|tag|..];
    FramesAreInjective(p, q);
  }

  lemma {:induction false} FramesAreInjective(p: seq<Bytes>, q: seq<Bytes>)
    requires Frames(p) == Frames(q)
    ensures p == q
  {
    if p != [] && q != [] {
      var x, y := [NEWLINE] + Frames(p[1..]), [NEWLINE] + Frames(q[1..]);
      assert Frames(p) == Prefixed(p[0]) + x && Frames(q) == Prefixed(q[0]) + y;
      SplitPrefixed(p[0], x, q[0], y);
      assert Frames(p[1..]) == x[1..] && Frames(q[1..]) == y[1..];
      FramesAreInjective(p[1..], q[1..]);
      assert p == [p[0]] + p[1..] && q == [q[0]] + q[1..];
    }
  }
}
