/** How many bodies one string of signing bytes can be read as. */
module Readings {
  import opened Board
  import opened Bytes
  import opened Crypto
  import opened Wrappers

  /** A body the program can hold. A parent spelled `-` is left aside: it is written like no
      parent at all (`DashReadsAsNoParent`). */
  predicate Possible(b: MessageBody, scheme: Scheme) {
    scheme.point(b.author.key) && b.parent != Some([DASH])
  }

  /** No other body has these signing bytes. */
  ghost predicate OneReading(b: MessageBody, scheme: Scheme) {
    forall c: MessageBody | Possible(c, scheme) && SigningBytes(b, scheme) == SigningBytes(c, scheme) :: c == b
  }

  lemma DashReadsAsNoParent(b: MessageBody, scheme: Scheme)
    requires b.parent == None
    ensures SigningBytes(b.(parent := Some([DASH])), scheme) == SigningBytes(b, scheme)
  {
    assert Header(b.(parent := Some([DASH])), scheme) == Header(b, scheme);
  }

  // ----- The bytes in three parts: framing, author line, tail -----

  /** The fields before the author: where the message is posted and what it answers. */
  function FramingFields(b: MessageBody): (r: seq<Bytes>)
    ensures |r| == if b.kind == Post then 3 else 4
  {
    [b.board, ParentBytes(b.parent)] + (if b.kind == Post then [] else [Discriminant(b.kind)]) + [b.subject]
  }

  function Framing(b: MessageBody): Bytes {
    Lines(FramingFields(b))
  }

  predicate FramingClean(b: MessageBody) {
    Free(NEWLINE, b.board) && Free(NEWLINE, ParentBytes(b.parent)) && Free(NEWLINE, b.subject)
  }

  /** How the bytes go on after a handle: a stamp's line and the prefixed text. */
  function Splice(t: Time, text: Bytes, scheme: Scheme): Bytes {
    [NEWLINE] + scheme.stamp(t) + [NEWLINE] + Prefixed(text)
  }

  function Ending(handle: Bytes, t: Time, text: Bytes, scheme: Scheme): Bytes {
    handle + Splice(t, text, scheme)
  }

  /** Everything after the author's line. */
  function Tail(b: MessageBody, scheme: Scheme): Bytes {
    Ending(b.handle, b.createdAt, b.body, scheme)
  }

  function Tag(b: MessageBody): Bytes {
    if b.kind == Post then V1_TAG else V2_TAG
  }

  function AuthorAndTail(b: MessageBody, scheme: Scheme): Bytes {
    Hex(b.author.key) + [NEWLINE] + Tail(b, scheme)
  }

  lemma ThreeLines(x: Bytes, y: Bytes, z: Bytes)
    ensures Lines([x, y, z]) == x + [NEWLINE] + y + [NEWLINE] + z + [NEWLINE]
  {
    LinesAppend([], x);
    LinesAppend([x], y);
    LinesAppend([x, y], z);
    assert [] + [x] == [x] && [x] + [y] == [x, y] && [x, y] + [z] == [x, y, z];
  }

  lemma BytesByParts(b: MessageBody, scheme: Scheme)
    ensures SigningBytes(b, scheme) == Tag(b) + (Framing(b) + AuthorAndTail(b, scheme))
  {
    var rest := [Hex(b.author.key), b.handle, scheme.stamp(b.createdAt)];
    assert Header(b, scheme) == FramingFields(b) + rest;
    LinesConcat(FramingFields(b), rest);
    ThreeLines(rest[0], rest[1], rest[2]);
    assert Lines(rest) + Prefixed(b.body) == AuthorAndTail(b, scheme);
  }

  lemma SameBytesSameParts(b: MessageBody, c: MessageBody, scheme: Scheme)
    requires SigningBytes(b, scheme) == SigningBytes(c, scheme)
    ensures b.kind == Post <==> c.kind == Post
    ensures Framing(b) + AuthorAndTail(b, scheme) == Framing(c) + AuthorAndTail(c, scheme)
  {
    TagDecidesVersion(b, c, scheme);
    BytesByParts(b, scheme);
    BytesByParts(c, scheme);
    var x, y := Framing(b) + AuthorAndTail(b, scheme), Framing(c) + AuthorAndTail(c, scheme);
    assert (Tag(b) + x)[|Tag(b)|..] == x && (Tag(c) + y)[|Tag(c)|..] == y;
  }

  lemma PartsMakeBytes(b: MessageBody, c: MessageBody, scheme: Scheme)
    requires b.kind == Post <==> c.kind == Post
    requires Framing(b) + AuthorAndTail(b, scheme) == Framing(c) + AuthorAndTail(c, scheme)
    ensures SigningBytes(b, scheme) == SigningBytes(c, scheme)
  {
    BytesByParts(b, scheme);
    BytesByParts(c, scheme);
  }

  // ----- A clean framing is the shortest -----

  function Newlines(s: Bytes): nat {
    if s == [] then 0 else (if s[0] == NEWLINE then 1 else 0) + Newlines(s[1..])
  }

  lemma {:induction false} NewlinesConcat(s: Bytes, t: Bytes)
    ensures Newlines(s + t) == Newlines(s) + Newlines(t)
  {
    if s == [] {
      assert s + t == t;
    } else {
      NewlinesConcat(s[1..], t);
      assert (s + t)[1..] == s[1..] + t;
    }
  }

  lemma {:induction false} FreeMeansNone(s: Bytes)
    ensures Free(NEWLINE, s) <==> Newlines(s) == 0
  {
    if s != [] {
      FreeMeansNone(s[1..]);
      assert s == [s[0]] + s[1..];
    }
  }

  lemma NewlinesOfLine(f: Bytes, rest: Bytes)
    ensures Newlines(f + [NEWLINE] + rest) == Newlines(f) + 1 + Newlines(rest)
  {
    assert Newlines([NEWLINE]) == 1;
    NewlinesConcat(f, [NEWLINE]);
    NewlinesConcat(f + [NEWLINE], rest);
  }

  lemma {:induction false} NewlinesOfLines(fields: seq<Bytes>)
    ensures Newlines(Lines(fields)) >= |fields|
    ensures Newlines(Lines(fields)) == |fields| <==> forall i :: 0 <= i < |fields| ==> Free(NEWLINE, fields[i])
  {
    if fields != [] {
      NewlinesOfLines(fields[1..]);
      NewlinesOfLine(fields[0], Lines(fields[1..]));
      FreeMeansNone(fields[0]);
      assert fields == [fields[0]] + fields[1..];
    }
  }

  predicate EndsLine(x: Bytes) {
    x == [] || x[|x| - 1] == NEWLINE
  }

  lemma {:induction false} LinesEndLine(fields: seq<Bytes>)
    ensures EndsLine(Lines(fields)) && (fields != [] ==> Lines(fields) != [])
  {
    if fields != [] {
      LinesEndLine(fields[1..]);
    }
  }

  lemma WithoutItsLastNewline(a: Bytes)
    requires a != [] && EndsLine(a)
    ensures Newlines(a) == Newlines(a[..|a| - 1]) + 1
  {
    var cut := a[..|a| - 1];
    assert a == cut + [NEWLINE] + [];
    NewlinesOfLine(cut, []);
  }

  lemma PrefixHasNoMore(b: Bytes, a: Bytes)
    requires b <= a
    ensures Newlines(b) <= Newlines(a)
  {
    assert a == b + a[|b|..];
    NewlinesConcat(b, a[|b|..]);
  }

  lemma PrefixOfSame(a: Bytes, x: Bytes, b: Bytes, y: Bytes)
    requires a + x == b + y && |b| < |a|
    ensures b <= a[..|a| - 1]
  {
    assert (a + x)[..|b|] == (b + y)[..|b|];
  }

  lemma NoShorterThanClean(p: seq<Bytes>, x: Bytes, q: seq<Bytes>, y: Bytes)
    requires |p| == |q| && Lines(p) + x == Lines(q) + y
    requires Newlines(Lines(p)) == |p|
    ensures |Lines(p)| <= |Lines(q)|
  {
    var a, b := Lines(p), Lines(q);
    if |b| < |a| {
      NewlinesOfLines(q);
      LinesEndLine(p);
      WithoutItsLastNewline(a);
      PrefixOfSame(a, x, b, y);
      PrefixHasNoMore(b, a[..|a| - 1]);
    }
  }

  /** Of two line lists of equal length before the same bytes, one without stray newlines is
      the shorter, and they are equal if equally long. */
  lemma CleanLinesComeFirst(p: seq<Bytes>, x: Bytes, q: seq<Bytes>, y: Bytes)
    requires |p| == |q| && Lines(p) + x == Lines(q) + y
    requires forall i :: 0 <= i < |p| ==> Free(NEWLINE, p[i])
    ensures |Lines(p)| <= |Lines(q)|
    ensures |Lines(p)| == |Lines(q)| ==> p == q && x == y
  {
    NewlinesOfLines(p);
    NoShorterThanClean(p, x, q, y);
    if |Lines(p)| == |Lines(q)| {
      assert Lines(p) == (Lines(p) + x)[..|Lines(p)|] == (Lines(q) + y)[..|Lines(q)|] == Lines(q);
      NewlinesOfLines(q);
      LinesAreInjective(p, x, q, y);
    }
  }

  // ----- What other readings need -----

  function HexLine(x: Bytes, a: AgentId, y: Bytes): Bytes {
    x + Hex(a.key) + [NEWLINE] + y
  }

  /** Some line of the handle but the last is a key in hex, so it can pass for the author's. */
  ghost predicate HoldsHexLine(handle: Bytes, scheme: Scheme) {
    exists x, a: AgentId, y :: scheme.point(a.key) && EndsLine(x) && handle == HexLine(x, a, y)
  }

  /** The tail divides into handle, stamp and text in one way only. */
  ghost predicate OneEnding(b: MessageBody, scheme: Scheme) {
    forall h, t, text | Ending(h, t, text, scheme) == Tail(b, scheme) :: h == b.handle
  }

  lemma EndingIsRead(h: Bytes, t: Time, text: Bytes, u: Time, other: Bytes, scheme: Scheme)
    requires scheme.Sound() && Ending(h, t, text, scheme) == Ending(h, u, other, scheme)
    ensures t == u && text == other
  {
    var p, q := Splice(t, text, scheme), Splice(u, other, scheme);
    assert p == (h + p)[|h|..] && q == (h + q)[|h|..];
    assert p[1..] == scheme.stamp(t) + [NEWLINE] + Prefixed(text);
    assert q[1..] == scheme.stamp(u) + [NEWLINE] + Prefixed(other);
    SplitAtSeparator(NEWLINE, scheme.stamp(t), Prefixed(text), scheme.stamp(u), Prefixed(other));
    assert Prefixed(text) + [] == Prefixed(text) && Prefixed(other) + [] == Prefixed(other);
    SplitPrefixed(text, [], other, []);
  }

  lemma FramingIsRead(b: MessageBody, c: MessageBody)
    requires FramingFields(b) == FramingFields(c) && (b.kind == Post <==> c.kind == Post)
    requires b.parent != Some([DASH]) && c.parent != Some([DASH])
    ensures b.board == c.board && b.parent == c.parent && b.subject == c.subject && b.kind == c.kind
  {
    var p, q := FramingFields(b), FramingFields(c);
    assert b.board == p[0] == q[0] == c.board;
    assert ParentBytes(b.parent) == p[1] == q[1] == ParentBytes(c.parent);
    assert b.subject == p[|p| - 1] == q[|q| - 1] == c.subject;
    if b.kind != Post {
      assert Discriminant(b.kind) == p[2] == q[2] == Discriminant(c.kind);
      assert |Discriminant(Milestone)| == 9 && |Discriminant(Step)| == 4;
    }
  }

  /** Under the same framing, another reading is another ending. */
  lemma SameFramingOtherEnding(b: MessageBody, c: MessageBody, scheme: Scheme)
    requires scheme.Sound() && b != c && FramingFields(b) == FramingFields(c) && (b.kind == Post <==> c.kind == Post)
    requires b.parent != Some([DASH]) && c.parent != Some([DASH])
    requires AuthorAndTail(b, scheme) == AuthorAndTail(c, scheme)
    ensures !OneEnding(b, scheme)
  {
    FramingIsRead(b, c);
    SplitAtSeparator(NEWLINE, Hex(b.author.key), Tail(b, scheme), Hex(c.author.key), Tail(c, scheme));
    HexIsInjective(b.author.key, c.author.key);
    assert Ending(c.handle, c.createdAt, c.body, scheme) == Tail(b, scheme);
    if c.handle == b.handle {
      EndingIsRead(b.handle, b.createdAt, b.body, c.createdAt, c.body, scheme);
    }
  }

  /** Whole lines before the rest of a buffer include its first line whole. */
  lemma WholeLineIsTaken(line: Bytes, tail: Bytes, z: Bytes, y: Bytes) returns (x: Bytes)
    requires Free(NEWLINE, line) && line + [NEWLINE] + tail == z + y && z != [] && EndsLine(z)
    ensures EndsLine(x) && z == line + [NEWLINE] + x && tail == x + y
  {
    var s, n := line + [NEWLINE] + tail, |line| + 1;
    assert s[|z| - 1] == NEWLINE;
    assert forall i :: 0 <= i < |line| ==> s[i] == line[i] != NEWLINE;
    x := z[n..];
    assert line + [NEWLINE] == s[..n] == (z + y)[..n] == z[..n];
    assert tail == s[n..] == (z + y)[n..] == x + y;
  }

  lemma EndsAfterHexLine(x: Bytes, c: MessageBody, scheme: Scheme)
    ensures x + AuthorAndTail(c, scheme)
            == Ending(HexLine(x, c.author, c.handle), c.createdAt, c.body, scheme)
  {
  }

  /** A longer framing swallows the author's line, and then either finds another key in the
      handle or another ending. */
  lemma LongerFraming(b: MessageBody, c: MessageBody, z: Bytes, scheme: Scheme)
    requires z != [] && EndsLine(z) && AuthorAndTail(b, scheme) == z + AuthorAndTail(c, scheme)
    requires scheme.point(c.author.key)
    ensures HoldsHexLine(b.handle, scheme) || !OneEnding(b, scheme)
  {
    var x := WholeLineIsTaken(Hex(b.author.key), Tail(b, scheme), z, AuthorAndTail(c, scheme));
    EndsAfterHexLine(x, c, scheme);
  }

  lemma LongerByLines(a: Bytes, x: Bytes, q: seq<Bytes>, y: Bytes) returns (z: Bytes)
    requires a + x == Lines(q) + y && |a| < |Lines(q)|
    ensures z != [] && EndsLine(z) && x == z + y && Lines(q) == a + z
  {
    LinesEndLine(q);
    var b := Lines(q);
    z := b[|a|..];
    assert a == (a + x)[..|a|] == (b + y)[..|a|] == b[..|a|];
    assert x == (a + x)[|a|..] == (b + y)[|a|..] == z + y;
  }

  lemma OtherReadingNeeds(b: MessageBody, c: MessageBody, scheme: Scheme)
    requires scheme.Sound() && FramingClean(b) && b != c && SigningBytes(b, scheme) == SigningBytes(c, scheme)
    requires Possible(b, scheme) && Possible(c, scheme)
    ensures HoldsHexLine(b.handle, scheme) || !OneEnding(b, scheme)
  {
    SameBytesSameParts(b, c, scheme);
    var x, y := AuthorAndTail(b, scheme), AuthorAndTail(c, scheme);
    CleanLinesComeFirst(FramingFields(b), x, FramingFields(c), y);
    if |Framing(b)| == |Framing(c)| {
      SameFramingOtherEnding(b, c, scheme);
    } else {
      var z := LongerByLines(Framing(b), x, FramingFields(c), y);
      LongerFraming(b, c, z, scheme);
    }
  }

  // ----- Milestones and steps: the kind's line and what follows it -----

  function PlaceFields(b: MessageBody): (r: seq<Bytes>)
    ensures |r| == 3
  {
    [b.board, ParentBytes(b.parent), Discriminant(b.kind)]
  }

  /** Board, parent and kind. */
  function Place(b: MessageBody): Bytes {
    Lines(PlaceFields(b))
  }

  lemma PlaceThenSubject(b: MessageBody)
    requires b.kind != Post
    ensures Framing(b) == Place(b) + (b.subject + [NEWLINE])
  {
    assert FramingFields(b) == PlaceFields(b) + [b.subject];
    LinesAppend(PlaceFields(b), b.subject);
  }

  function KindLine(u: Bytes, k: MessageKind, v: Bytes): Bytes {
    u + Discriminant(k) + [NEWLINE] + v
  }

  /** Some line of the subject but the last names a kind. */
  ghost predicate SubjectHoldsKind(subject: Bytes) {
    exists u, k, v :: k != Post && EndsLine(u) && subject == KindLine(u, k, v)
  }

  function KeyLine(u: Bytes, a: AgentId, v: Bytes): Bytes {
    u + [NEWLINE] + (Hex(a.key) + [NEWLINE] + v)
  }

  /** Some line of the subject but the first is a key in hex. */
  ghost predicate SubjectHoldsKey(subject: Bytes, scheme: Scheme) {
    exists u, a: AgentId, v :: scheme.point(a.key) && subject + [NEWLINE] == KeyLine(u, a, v)
  }

  lemma PlaceComesFirst(b: MessageBody, x: Bytes, c: MessageBody, y: Bytes)
    requires b.kind != Post && c.kind != Post && Free(NEWLINE, b.board) && Free(NEWLINE, ParentBytes(b.parent))
    requires Framing(b) + x == Framing(c) + y
    ensures |Place(b)| <= |Place(c)| < |Framing(c)|
    ensures |Place(b)| == |Place(c)| ==> PlaceFields(b) == PlaceFields(c)
  {
    PlaceThenSubject(b);
    PlaceThenSubject(c);
    var u, v := b.subject + [NEWLINE], c.subject + [NEWLINE];
    assert Place(b) + (u + x) == (Place(b) + u) + x && Place(c) + (v + y) == (Place(c) + v) + y;
    CleanLinesComeFirst(PlaceFields(b), u + x, PlaceFields(c), v + y);
  }

  lemma DropLast(a: Bytes, b: Bytes)
    requires a + [NEWLINE] == b + [NEWLINE]
    ensures a == b
  {
    assert a == (a + [NEWLINE])[..|a|] == (b + [NEWLINE])[..|b|];
  }

  /** A line boundary before the end of a last line lies before the whole of it. */
  lemma BeforeTheLastLine(p: Bytes, x: Bytes, l: Bytes, k: Bytes, y: Bytes) returns (u: Bytes)
    requires p != [] && EndsLine(p) && EndsLine(l) && Free(NEWLINE, k)
    requires p + x == l + k + [NEWLINE] + y && |p| < |l + k + [NEWLINE]|
    ensures EndsLine(u) && x == u + k + [NEWLINE] + y
  {
    var s := p + x;
    assert s[|p| - 1] == NEWLINE;
    assert forall i :: 0 <= i < |k| ==> s[|l| + i] == k[i] != NEWLINE;
    assert |p| <= |l|;
    u := l[|p|..];
    assert p == s[..|p|] == l[..|p|] && l == p + u;
    assert x == s[|p|..] == u + k + [NEWLINE] + y;
  }

  /** The same framing with a later kind line: the subject holds it. */
  lemma LaterKindIsInTheSubject(b: MessageBody, c: MessageBody)
    requires b.kind != Post && c.kind != Post && Framing(b) == Framing(c) && |Place(b)| < |Place(c)|
    ensures SubjectHoldsKind(b.subject)
  {
    PlaceThenSubject(b);
    PlaceThenSubject(c);
    var first := [c.board, ParentBytes(c.parent)];
    assert PlaceFields(c) == first + [Discriminant(c.kind)];
    LinesAppend(first, Discriminant(c.kind));
    LinesEndLine(first);
    LinesEndLine(PlaceFields(b));
    var u := BeforeTheLastLine(Place(b), b.subject + [NEWLINE], Lines(first), Discriminant(c.kind),
                               c.subject + [NEWLINE]);
    assert KindLine(u, c.kind, c.subject) + [NEWLINE] == u + Discriminant(c.kind) + [NEWLINE] + (c.subject + [NEWLINE]);
    DropLast(b.subject, KindLine(u, c.kind, c.subject));
  }

  lemma Cut3(p: Bytes, s: Bytes, f: Bytes, z: Bytes) returns (g: Bytes)
    requires p + s == f + z && |p| < |f| && EndsLine(f)
    ensures s == g + [NEWLINE] + z
  {
    g := f[|p|..|f| - 1];
    assert f == f[..|p|] + g + [NEWLINE];
    assert s == (p + s)[|p|..] == (f + z)[|p|..] == g + [NEWLINE] + z;
  }

  /** A shorter framing ends in the subject, before a key's line. */
  lemma ShorterFraming(b: MessageBody, c: MessageBody, scheme: Scheme)
    requires b.kind != Post && c.kind != Post && scheme.point(c.author.key)
    requires Framing(b) + AuthorAndTail(b, scheme) == Framing(c) + AuthorAndTail(c, scheme)
    requires |Place(b)| < |Framing(c)| < |Framing(b)|
    ensures SubjectHoldsKey(b.subject, scheme)
  {
    var z := LongerByLines(Framing(c), AuthorAndTail(c, scheme), FramingFields(b), AuthorAndTail(b, scheme));
    var x := WholeLineIsTaken(Hex(c.author.key), Tail(c, scheme), z, AuthorAndTail(b, scheme));
    PlaceThenSubject(b);
    LinesEndLine(FramingFields(c));
    var g := Cut3(Place(b), b.subject + [NEWLINE], Framing(c), z);
    assert b.subject + [NEWLINE] == KeyLine(g, c.author, x);
  }

  lemma SamePlaceSameFraming(b: MessageBody, c: MessageBody)
    requires b.kind != Post && c.kind != Post && Framing(b) == Framing(c) && PlaceFields(b) == PlaceFields(c)
    ensures FramingFields(b) == FramingFields(c)
  {
    PlaceThenSubject(b);
    PlaceThenSubject(c);
    assert b.subject + [NEWLINE] == Framing(b)[|Place(b)|..] == c.subject + [NEWLINE];
    DropLast(b.subject, c.subject);
    assert FramingFields(b) == PlaceFields(b) + [b.subject] && FramingFields(c) == PlaceFields(c) + [c.subject];
  }

  lemma EqualFramings(b: MessageBody, c: MessageBody, x: Bytes, y: Bytes)
    requires Framing(b) + x == Framing(c) + y && |Framing(b)| == |Framing(c)|
    ensures Framing(b) == Framing(c) && x == y
  {
    var n := |Framing(b)|;
    assert Framing(b) == (Framing(b) + x)[..n] == (Framing(c) + y)[..n];
    assert x == (Framing(b) + x)[n..] == (Framing(c) + y)[n..];
  }

  lemma OtherKindedReadingNeeds(b: MessageBody, c: MessageBody, scheme: Scheme)
    requires scheme.Sound() && b.kind != Post && Free(NEWLINE, b.board) && Free(NEWLINE, ParentBytes(b.parent))
    requires b != c && SigningBytes(b, scheme) == SigningBytes(c, scheme)
    requires Possible(b, scheme) && Possible(c, scheme)
    ensures SubjectHoldsKind(b.subject) || SubjectHoldsKey(b.subject, scheme)
            || HoldsHexLine(b.handle, scheme) || !OneEnding(b, scheme)
  {
    SameBytesSameParts(b, c, scheme);
    var x, y := AuthorAndTail(b, scheme), AuthorAndTail(c, scheme);
    PlaceComesFirst(b, x, c, y);
    if |Framing(b)| < |Framing(c)| {
      var z := LongerByLines(Framing(b), x, FramingFields(c), y);
      LongerFraming(b, c, z, scheme);
    } else if |Framing(c)| < |Framing(b)| {
      ShorterFraming(b, c, scheme);
    } else {
      EqualFramings(b, c, x, y);
      if |Place(b)| < |Place(c)| {
        LaterKindIsInTheSubject(b, c);
      } else {
        SamePlaceSameFraming(b, c);
        SameFramingOtherEnding(b, c, scheme);
      }
    }
  }

  // ----- Building the other readings -----

  /** Another ending is another body, by the same author. */
  lemma EndingTwin(b: MessageBody, h: Bytes, t: Time, text: Bytes, scheme: Scheme) returns (c: MessageBody)
    requires Ending(h, t, text, scheme) == Tail(b, scheme) && h != b.handle
    ensures c == b.(handle := h, createdAt := t, body := text) && c != b
    ensures SigningBytes(b, scheme) == SigningBytes(c, scheme)
  {
    c := b.(handle := h, createdAt := t, body := text);
    assert FramingFields(c) == FramingFields(b);
    PartsMakeBytes(b, c, scheme);
  }

  lemma SubjectGrows(b: MessageBody, c: MessageBody, more: Bytes)
    requires c.board == b.board && c.parent == b.parent && c.kind == b.kind && c.subject == b.subject + [NEWLINE] + more
    ensures Framing(c) == Framing(b) + more + [NEWLINE]
  {
    var fields := FramingFields(b)[..|FramingFields(b)| - 1];
    assert FramingFields(b) == fields + [b.subject] && FramingFields(c) == fields + [c.subject];
    LinesAppend(fields, b.subject);
    LinesAppend(fields, c.subject);
  }

  /** What a field becomes when it takes in the lines `x` after its own. */
  function Swallowed(field: Bytes, x: Bytes): Bytes {
    if x == [] then field else field + [NEWLINE] + x[..|x| - 1]
  }

  lemma SwallowedEndsLine(field: Bytes, x: Bytes)
    requires EndsLine(x)
    ensures Swallowed(field, x) + [NEWLINE] == field + [NEWLINE] + x
  {
    if x != [] {
      assert x == x[..|x| - 1] + [NEWLINE];
    }
  }

  lemma Regroup(f: Bytes, g: Bytes, hex: Bytes, x: Bytes, key: Bytes, y: Bytes, s: Bytes)
    requires g == hex + [NEWLINE] + x
    ensures (f + g) + (key + [NEWLINE] + (y + s)) == f + (hex + [NEWLINE] + ((x + key + [NEWLINE] + y) + s))
  {
  }

  /** A key line in the handle can pass for the author's: the old one joins the subject. */
  lemma HexLineTwin(b: MessageBody, scheme: Scheme) returns (c: MessageBody)
    requires HoldsHexLine(b.handle, scheme) && b.parent != Some([DASH])
    ensures c != b && Possible(c, scheme) && SigningBytes(b, scheme) == SigningBytes(c, scheme)
  {
    var x, a: AgentId, y :| scheme.point(a.key) && EndsLine(x) && b.handle == HexLine(x, a, y);
    var hex := Hex(b.author.key);
    var more := Swallowed(hex, x);
    c := b.(subject := b.subject + [NEWLINE] + more, author := a, handle := y);
    SubjectGrows(b, c, more);
    SwallowedEndsLine(hex, x);
    assert Framing(c) == Framing(b) + (more + [NEWLINE]);
    Regroup(Framing(b), more + [NEWLINE], hex, x, Hex(a.key), y, Splice(b.createdAt, b.body, scheme));
    PartsMakeBytes(b, c, scheme);
  }

  lemma PostFraming(b: MessageBody)
    requires b.kind == Post
    ensures Framing(b) == b.board + [NEWLINE] + ParentBytes(b.parent) + [NEWLINE] + b.subject + [NEWLINE]
  {
    assert FramingFields(b) == [b.board, ParentBytes(b.parent), b.subject];
    ThreeLines(b.board, ParentBytes(b.parent), b.subject);
  }

  lemma KindedFraming(b: MessageBody)
    requires b.kind != Post
    ensures Framing(b) == b.board + [NEWLINE] + ParentBytes(b.parent) + [NEWLINE] + Discriminant(b.kind) + [NEWLINE]
                          + (b.subject + [NEWLINE])
  {
    PlaceThenSubject(b);
    ThreeLines(b.board, ParentBytes(b.parent), Discriminant(b.kind));
  }

  function ParentFrom(line: Bytes): (p: Option<MessageId>)
    ensures ParentBytes(p) == line && p != Some([DASH])
  {
    if line == [DASH] then None else Some(line)
  }

  lemma Cut(s: Bytes) returns (x: Bytes, y: Bytes)
    requires !Free(NEWLINE, s)
    ensures s == x + [NEWLINE] + y
  {
    var i :| 0 <= i < |s| && s[i] == NEWLINE;
    x, y := s[..i], s[i + 1..];
  }

  /** A newline in a post's board, parent or subject moves the field boundaries: the same
      author's post for another board has the very same signing bytes. */
  lemma NewlineForgesFraming(b: MessageBody, scheme: Scheme) returns (c: MessageBody)
    requires b.kind == Post && !FramingClean(b)
    ensures c.author == b.author && c.board != b.board && c.parent != Some([DASH])
    ensures SigningBytes(b, scheme) == SigningBytes(c, scheme)
  {
    var p, n := ParentBytes(b.parent), [NEWLINE];
    if !Free(NEWLINE, b.board) {
      var x, y := Cut(b.board);
      c := b.(board := x, parent := ParentFrom(y), subject := p + n + b.subject);
    } else if !Free(NEWLINE, p) {
      var x, y := Cut(p);
      c := b.(board := b.board + n + x, parent := ParentFrom(y));
    } else {
      var x, y := Cut(b.subject);
      c := b.(board := b.board + n + p, parent := ParentFrom(x), subject := y);
    }
    PostFraming(b);
    PostFraming(c);
    assert Framing(b) == Framing(c);
    PartsMakeBytes(b, c, scheme);
  }

  lemma SameFramingSameBytes(b: MessageBody, c: MessageBody, scheme: Scheme)
    requires b.kind != Post && c.kind != Post && AuthorAndTail(b, scheme) == AuthorAndTail(c, scheme)
    requires b.board + [NEWLINE] + ParentBytes(b.parent) == c.board + [NEWLINE] + ParentBytes(c.parent)
    requires b.kind == c.kind && b.subject == c.subject
    ensures SigningBytes(b, scheme) == SigningBytes(c, scheme)
  {
    KindedFraming(b);
    KindedFraming(c);
    PartsMakeBytes(b, c, scheme);
  }

  /** So does one in the board or parent of a milestone or step. */
  lemma NewlineForgesPlace(b: MessageBody, scheme: Scheme) returns (c: MessageBody)
    requires b.kind != Post && !(Free(NEWLINE, b.board) && Free(NEWLINE, ParentBytes(b.parent)))
    ensures c.author == b.author && c.board != b.board && c.parent != Some([DASH])
    ensures SigningBytes(b, scheme) == SigningBytes(c, scheme)
  {
    var p, n := ParentBytes(b.parent), [NEWLINE];
    if !Free(NEWLINE, b.board) {
      var x, y := Cut(b.board);
      c := b.(board := x, parent := ParentFrom(y + n + p));
      assert b.board + n + p == x + n + (y + n + p);
    } else {
      var x, y := Cut(p);
      c := b.(board := b.board + n + x, parent := ParentFrom(y));
      assert b.board + n + p == (b.board + n + x) + n + y;
    }
    SameFramingSameBytes(b, c, scheme);
  }

  /** A kind's line in the subject can pass for the kind: what precedes it joins the parent. */
  lemma KindLineTwin(b: MessageBody, scheme: Scheme) returns (c: MessageBody)
    requires b.kind != Post && SubjectHoldsKind(b.subject)
    ensures c != b && c.author == b.author && c.parent != Some([DASH])
    ensures SigningBytes(b, scheme) == SigningBytes(c, scheme)
  {
    var u, k, v :| k != Post && EndsLine(u) && b.subject == KindLine(u, k, v);
    var p, n := ParentBytes(b.parent), [NEWLINE];
    var parent := Swallowed(p + n + Discriminant(b.kind), u);
    c := b.(parent := ParentFrom(parent), kind := k, subject := v);
    SwallowedEndsLine(p + n + Discriminant(b.kind), u);
    KindedFraming(b);
    KindedFraming(c);
    KindRegroup(b.board, p, Discriminant(b.kind), u, Discriminant(k), v, parent);
    PartsMakeBytes(b, c, scheme);
  }

  lemma KindRegroup(board: Bytes, p: Bytes, d: Bytes, u: Bytes, e: Bytes, v: Bytes, parent: Bytes)
    requires parent + [NEWLINE] == p + [NEWLINE] + d + [NEWLINE] + u
    ensures board + [NEWLINE] + p + [NEWLINE] + d + [NEWLINE] + ((u + e + [NEWLINE] + v) + [NEWLINE])
            == board + [NEWLINE] + parent + [NEWLINE] + e + [NEWLINE] + (v + [NEWLINE])
  {
    var n := [NEWLINE];
    assert board + n + parent + n + e + n + (v + n) == board + n + (parent + n) + e + n + (v + n);
    assert board + n + p + n + d + n + ((u + e + n + v) + n) == board + n + (p + n + d + n + u) + e + n + (v + n);
  }

  lemma KeyRegroup(place: Bytes, u: Bytes, key: Bytes, v: Bytes, at: Bytes, s: Bytes)
    requires s + [NEWLINE] == u + [NEWLINE] + (key + [NEWLINE] + v)
    ensures (place + (s + [NEWLINE])) + at == (place + (u + [NEWLINE])) + (key + [NEWLINE] + (v + at))
  {
  }

  /** A key's line in the subject can pass for the author's: the rest joins the handle. */
  lemma KeyLineTwin(b: MessageBody, scheme: Scheme) returns (c: MessageBody)
    requires b.kind != Post && SubjectHoldsKey(b.subject, scheme) && b.parent != Some([DASH])
    ensures c != b && Possible(c, scheme) && SigningBytes(b, scheme) == SigningBytes(c, scheme)
  {
    var u, a: AgentId, v :| scheme.point(a.key) && b.subject + [NEWLINE] == KeyLine(u, a, v);
    var line := v + Hex(b.author.key) + [NEWLINE];
    c := b.(subject := u, author := a, handle := line + b.handle);
    PlaceThenSubject(b);
    PlaceThenSubject(c);
    KeyRegroup(Place(b), u, Hex(a.key), v, AuthorAndTail(b, scheme), b.subject);
    assert Tail(c, scheme) == v + AuthorAndTail(b, scheme);
    PartsMakeBytes(b, c, scheme);
    assert |b.subject + [NEWLINE]| > |u| + 1;
  }

  // ----- Exactly when the tail divides in one way -----

  /** Timestamps do not begin like a length prefix. */
  ghost predicate Dated(scheme: Scheme) {
    forall t: Time, n: nat :: !(Decimal(n) + [COLON] <= scheme.stamp(t))
  }

  function Spliced(x: Bytes, t: Time, text: Bytes, scheme: Scheme): Bytes {
    x + Splice(t, text, scheme)
  }

  /** The text ends in a newline, a stamp's line and a length-prefixed text. */
  ghost predicate EndsInSplice(text: Bytes, scheme: Scheme) {
    exists x, t, s :: text == Spliced(x, t, s, scheme)
  }

  /** A handle that goes on after `h` like a stamp's line and a text: `w`, then whatever
      follows the handle itself. */
  function EarlySplice(h: Bytes, t: Time, w: Bytes, following: Bytes, scheme: Scheme): Bytes {
    h + [NEWLINE] + scheme.stamp(t) + [NEWLINE] + Decimal(|w| + |following|) + [COLON] + w
  }

  ghost predicate HandleHoldsSplice(b: MessageBody, scheme: Scheme) {
    exists h, t, w :: b.handle == EarlySplice(h, t, w, Splice(b.createdAt, b.body, scheme), scheme)
  }

  /** The first newline of a buffer comes no later than any other. */
  lemma FirstNewline(a: Bytes, x: Bytes, h: Bytes, y: Bytes)
    requires Free(NEWLINE, a) && a + x == h + [NEWLINE] + y
    ensures |a| <= |h| && h == a + h[|a|..] && x == h[|a|..] + [NEWLINE] + y
  {
    var s := a + x;
    assert s[|h|] == NEWLINE;
    assert forall i :: 0 <= i < |a| ==> s[i] == a[i] != NEWLINE;
    assert a == s[..|a|] == h[..|a|];
    assert x == s[|a|..];
  }

  /** A stamp does not stand where a length prefix does. */
  lemma NotAtTheLength(text: Bytes, t: Time, rest: Bytes, scheme: Scheme)
    requires Dated(scheme)
    ensures [NEWLINE] + Prefixed(text) != [NEWLINE] + (scheme.stamp(t) + [NEWLINE] + rest)
  {
    var d, n := Decimal(|text|) + [COLON], [NEWLINE];
    var s := scheme.stamp(t) + n + rest;
    if n + Prefixed(text) == n + s {
      assert d + text == (n + Prefixed(text))[1..] == (n + s)[1..] == s;
      FirstNewline(d, text, scheme.stamp(t), rest);
    }
  }

  /** After a length prefix, a newline and a stamp's line can only follow in the text. */
  lemma AfterTheLength(text: Bytes, h: Bytes, t: Time, rest: Bytes, scheme: Scheme) returns (x: Bytes)
    requires Dated(scheme)
    requires [NEWLINE] + Prefixed(text) == h + [NEWLINE] + (scheme.stamp(t) + [NEWLINE] + rest)
    ensures h == [NEWLINE] + Decimal(|text|) + [COLON] + x
    ensures text == x + [NEWLINE] + (scheme.stamp(t) + [NEWLINE] + rest)
  {
    var d, n, more := Decimal(|text|) + [COLON], [NEWLINE], scheme.stamp(t) + [NEWLINE] + rest;
    NotAtTheLength(text, t, rest, scheme);
    assert [] + n + more == n + more;
    assert h != [];
    assert d + text == (n + Prefixed(text))[1..] == (h + n + more)[1..] == h[1..] + n + more;
    assert h[0] == (n + Prefixed(text))[0];
    FirstNewline(d, text, h[1..], more);
    x := h[1..][|d|..];
    assert h == n + (d + x) == n + Decimal(|text|) + [COLON] + x;
  }

  lemma DropFirst(x: Bytes, z: Bytes, y: Bytes)
    requires [NEWLINE] + x == z + y && z != []
    ensures z == [NEWLINE] + z[1..] && x == z[1..] + y
  {
    assert z[0] == ([NEWLINE] + x)[0];
    assert x == ([NEWLINE] + x)[1..] == (z + y)[1..] == z[1..] + y;
  }

  /** When one splice ends in another, the other lies in the text of the first. */
  lemma SpliceInSplice(u: Time, text: Bytes, z: Bytes, t: Time, s: Bytes, scheme: Scheme) returns (x: Bytes)
    requires scheme.Sound() && Dated(scheme) && z != []
    requires Splice(u, text, scheme) == z + Splice(t, s, scheme)
    ensures z == [NEWLINE] + scheme.stamp(u) + [NEWLINE] + Decimal(|text|) + [COLON] + x
    ensures text == x + Splice(t, s, scheme)
  {
    var stamp, after, other := scheme.stamp(u), [NEWLINE] + Prefixed(text), Splice(t, s, scheme);
    var rest := scheme.stamp(t) + [NEWLINE] + Prefixed(s);
    assert Splice(u, text, scheme) == [NEWLINE] + (stamp + after);
    DropFirst(stamp + after, z, other);
    assert other == [NEWLINE] + rest;
    assert z[1..] + other == z[1..] + [NEWLINE] + rest;
    FirstNewline(stamp, after, z[1..], rest);
    x := AfterTheLength(text, z[1..][|stamp|..], t, Prefixed(s), scheme);
    SpliceParts(z, stamp, z[1..][|stamp|..], Decimal(|text|) + [COLON], x);
    assert x + [NEWLINE] + rest == x + other;
  }

  lemma SpliceParts(z: Bytes, stamp: Bytes, h: Bytes, d: Bytes, x: Bytes)
    requires z != [] && z == [NEWLINE] + z[1..] && z[1..] == stamp + h && h == [NEWLINE] + d + x
    ensures z == [NEWLINE] + stamp + [NEWLINE] + d + x
  {
  }

  lemma OverlappingEndings(h: Bytes, p: Bytes, k: Bytes, q: Bytes) returns (z: Bytes)
    requires h + p == k + q && |h| < |k|
    ensures k == h + z && z != [] && p == z + q
  {
    z := k[|h|..];
    assert h == (h + p)[..|h|] == k[..|h|];
    assert p == (h + p)[|h|..] == (k + q)[|h|..] == z + q;
  }

  lemma SameLengthSameStart(h: Bytes, p: Bytes, k: Bytes, q: Bytes)
    requires h + p == k + q
    ensures |h| == |k| ==> h == k
  {
    assert |h| == |k| ==> h == (h + p)[..|h|] == (k + q)[..|k|] == k;
  }

  lemma OtherEndingNeeds(b: MessageBody, h: Bytes, t: Time, s: Bytes, scheme: Scheme)
    requires scheme.Sound() && Dated(scheme)
    requires Ending(h, t, s, scheme) == Tail(b, scheme) && h != b.handle
    ensures HandleHoldsSplice(b, scheme) || EndsInSplice(b.body, scheme)
  {
    var mine, other := Splice(b.createdAt, b.body, scheme), Splice(t, s, scheme);
    SameLengthSameStart(h, other, b.handle, mine);
    if |h| < |b.handle| {
      var z := OverlappingEndings(h, other, b.handle, mine);
      var w := SpliceInSplice(t, s, z, b.createdAt, b.body, scheme);
      assert |s| == |w| + |mine|;
      assert h + z == EarlySplice(h, t, w, mine, scheme);
    } else if |b.handle| < |h| {
      var z := OverlappingEndings(b.handle, mine, h, other);
      var x := SpliceInSplice(b.createdAt, b.body, z, t, s, scheme);
      assert b.body == Spliced(x, t, s, scheme);
    }
  }

  lemma SpliceIsAnEnding(b: MessageBody, x: Bytes, t: Time, s: Bytes, scheme: Scheme) returns (h: Bytes)
    requires b.body == Spliced(x, t, s, scheme)
    ensures Ending(h, t, s, scheme) == Tail(b, scheme) && |h| > |b.handle|
  {
    h := b.handle + [NEWLINE] + scheme.stamp(b.createdAt) + [NEWLINE] + Decimal(|b.body|) + [COLON] + x;
    assert Ending(h, t, s, scheme) == Tail(b, scheme);
  }

  lemma EarlySpliceIsAnEnding(b: MessageBody, h: Bytes, t: Time, w: Bytes, scheme: Scheme)
    requires b.handle == EarlySplice(h, t, w, Splice(b.createdAt, b.body, scheme), scheme)
    ensures Ending(h, t, w + Splice(b.createdAt, b.body, scheme), scheme) == Tail(b, scheme) && h != b.handle
  {
    var s := Splice(b.createdAt, b.body, scheme);
    assert Prefixed(w + s) == Decimal(|w| + |s|) + [COLON] + (w + s);
    assert Splice(t, w + s, scheme) == [NEWLINE] + scheme.stamp(t) + [NEWLINE] + Decimal(|w| + |s|) + [COLON] + w + s;
    assert |h| < |b.handle|;
  }

  /** The tail divides in one way exactly when neither handle nor text holds a stamp's line
      and a length prefix that reaches to the end. */
  lemma OneEndingExactlyWhen(b: MessageBody, scheme: Scheme)
    requires scheme.Sound() && Dated(scheme)
    ensures OneEnding(b, scheme) <==> !HandleHoldsSplice(b, scheme) && !EndsInSplice(b.body, scheme)
  {
    if x, t, s :| b.body == Spliced(x, t, s, scheme) {
      var h := SpliceIsAnEnding(b, x, t, s, scheme);
    }
    if h, t, w :| b.handle == EarlySplice(h, t, w, Splice(b.createdAt, b.body, scheme), scheme) {
      EarlySpliceIsAnEnding(b, h, t, w, scheme);
    }
    if h, t, s :| Ending(h, t, s, scheme) == Tail(b, scheme) && h != b.handle {
      OtherEndingNeeds(b, h, t, s, scheme);
    }
  }

  // ----- Exactly when there is one reading -----

  /** No other division of the fields before the author's line is possible. */
  ghost predicate FramingHolds(b: MessageBody, scheme: Scheme) {
    && Free(NEWLINE, b.board) && Free(NEWLINE, ParentBytes(b.parent))
    && if b.kind == Post then Free(NEWLINE, b.subject)
       else !SubjectHoldsKind(b.subject) && !SubjectHoldsKey(b.subject, scheme)
  }

  lemma FramingHoldsOrTwin(b: MessageBody, scheme: Scheme)
    requires Possible(b, scheme) && OneReading(b, scheme)
    ensures FramingHolds(b, scheme)
  {
    if b.kind == Post {
      if !FramingClean(b) {
        var c := NewlineForgesFraming(b, scheme);
      }
    } else if !(Free(NEWLINE, b.board) && Free(NEWLINE, ParentBytes(b.parent))) {
      var c := NewlineForgesPlace(b, scheme);
    } else if SubjectHoldsKind(b.subject) {
      var c := KindLineTwin(b, scheme);
    } else if SubjectHoldsKey(b.subject, scheme) {
      var c := KeyLineTwin(b, scheme);
    }
  }

  lemma HandleAndTailHoldOrTwin(b: MessageBody, scheme: Scheme)
    requires Possible(b, scheme) && OneReading(b, scheme)
    ensures !HoldsHexLine(b.handle, scheme) && OneEnding(b, scheme)
  {
    if HoldsHexLine(b.handle, scheme) {
      var c := HexLineTwin(b, scheme);
    }
    if h, t, text :| Ending(h, t, text, scheme) == Tail(b, scheme) && h != b.handle {
      var c := EndingTwin(b, h, t, text, scheme);
    }
  }

  lemma NothingElseReads(b: MessageBody, scheme: Scheme)
    requires scheme.Sound() && Possible(b, scheme)
    requires FramingHolds(b, scheme) && !HoldsHexLine(b.handle, scheme) && OneEnding(b, scheme)
    ensures OneReading(b, scheme)
  {
    forall c: MessageBody | Possible(c, scheme) && SigningBytes(b, scheme) == SigningBytes(c, scheme)
      ensures c == b
    {
      if c != b {
        if b.kind == Post {
          OtherReadingNeeds(b, c, scheme);
        } else {
          OtherKindedReadingNeeds(b, c, scheme);
        }
      }
    }
  }

  /** A body of any kind, whatever its fields hold, is the only reading of its signing bytes
      exactly when its framing holds, no line of its handle but the last is a key, and
      neither its handle nor its text holds a stamp's line and a length prefix that reaches
      to the end. */
  lemma BodyHasOneReadingExactlyWhen(b: MessageBody, scheme: Scheme)
    requires scheme.Sound() && Dated(scheme) && Possible(b, scheme)
    ensures OneReading(b, scheme) <==>
            && FramingHolds(b, scheme) && !HoldsHexLine(b.handle, scheme)
            && !HandleHoldsSplice(b, scheme) && !EndsInSplice(b.body, scheme)
  {
    OneEndingExactlyWhen(b, scheme);
    if OneReading(b, scheme) {
      FramingHoldsOrTwin(b, scheme);
      HandleAndTailHoldOrTwin(b, scheme);
    } else if FramingHolds(b, scheme) && !HoldsHexLine(b.handle, scheme) && OneEnding(b, scheme) {
      NothingElseReads(b, scheme);
    }
  }

  // ----- Clean headers: what remains is the text -----

  lemma NotFree(s: Bytes, x: Bytes, y: Bytes)
    requires s == x + [NEWLINE] + y
    ensures !Free(NEWLINE, s)
  {
    assert s[|x|] == NEWLINE;
  }

  lemma EarlySpliceIsNotFree(h: Bytes, t: Time, w: Bytes, following: Bytes, scheme: Scheme)
    ensures !Free(NEWLINE, EarlySplice(h, t, w, following, scheme))
  {
    assert EarlySplice(h, t, w, following, scheme)[|h|] == NEWLINE;
  }

  lemma CleanHandleHoldsNothing(b: MessageBody, scheme: Scheme)
    requires Free(NEWLINE, b.handle)
    ensures !HoldsHexLine(b.handle, scheme) && !HandleHoldsSplice(b, scheme)
  {
    if x, a: AgentId, y :| scheme.point(a.key) && EndsLine(x) && b.handle == HexLine(x, a, y) {
      NotFree(b.handle, x + Hex(a.key), y);
    }
    if h, t, w :| b.handle == EarlySplice(h, t, w, Splice(b.createdAt, b.body, scheme), scheme) {
      EarlySpliceIsNotFree(h, t, w, Splice(b.createdAt, b.body, scheme), scheme);
    }
  }

  lemma KeyLineIsNotFree(subject: Bytes, u: Bytes, a: AgentId, v: Bytes)
    requires subject + [NEWLINE] == KeyLine(u, a, v)
    ensures !Free(NEWLINE, subject)
  {
    assert |u| < |subject| && subject[|u|] == (subject + [NEWLINE])[|u|] == NEWLINE;
  }

  lemma CleanSubjectHoldsNothing(subject: Bytes, scheme: Scheme)
    requires Free(NEWLINE, subject)
    ensures !SubjectHoldsKind(subject) && !SubjectHoldsKey(subject, scheme)
  {
    if u, k, v :| k != Post && EndsLine(u) && subject == KindLine(u, k, v) {
      NotFree(subject, u + Discriminant(k), v);
    }
    if u, a: AgentId, v :| scheme.point(a.key) && subject + [NEWLINE] == KeyLine(u, a, v) {
      KeyLineIsNotFree(subject, u, a, v);
    }
  }

  /** With newline-free header fields, of whatever kind, a body is the only reading of its
      bytes exactly when its text does not end in a newline, a timestamp's line and a
      length-prefixed text. */
  lemma CleanBodyHasOneReadingExactlyWhenTextIsUnspliced(b: MessageBody, scheme: Scheme)
    requires scheme.Sound() && Dated(scheme) && Possible(b, scheme) && Clean(b)
    ensures OneReading(b, scheme) <==> !EndsInSplice(b.body, scheme)
  {
    CleanHandleHoldsNothing(b, scheme);
    CleanSubjectHoldsNothing(b.subject, scheme);
    BodyHasOneReadingExactlyWhen(b, scheme);
  }

  // ----- The ambiguity survives verification -----

  /** Whenever a post with an unclean framing verifies, a message with the same id and
      signature but another board verifies too. */
  lemma AmbiguousFramingStillVerifies(m: Message, scheme: Scheme) returns (forged: Message)
    requires Verify(m, scheme) && m.body.kind == Post && !FramingClean(m.body)
    ensures Verify(forged, scheme) && forged.id == m.id && forged.body.board != m.body.board
    ensures forged.signature == m.signature && forged.body.author == m.body.author
  {
    var c := NewlineForgesFraming(m.body, scheme);
    forged := m.(body := c);
  }

  /** The length prefix does not stop a text from forging header fields: a verified message
      of any kind with a spliced text verifies under the same id and signature with another
      handle, another time and another text. */
  lemma SplicedTextStillVerifies(m: Message, scheme: Scheme) returns (forged: Message)
    requires Verify(m, scheme) && EndsInSplice(m.body.body, scheme)
    ensures Verify(forged, scheme) && forged.id == m.id && forged.signature == m.signature
    ensures forged.body.author == m.body.author && forged.body.handle != m.body.handle
    ensures |forged.body.body| < |m.body.body|
  {
    var x, t, s :| m.body.body == Spliced(x, t, s, scheme);
    var h := SpliceIsAnEnding(m.body, x, t, s, scheme);
    var c := EndingTwin(m.body, h, t, s, scheme);
    forged := m.(body := c);
  }

  /** What a text must hold after `x` to carry a whole header of its own. */
  function InnerPost(subject: Bytes, author: AgentId, handle: Bytes, t: Time, text: Bytes, scheme: Scheme): Bytes {
    [NEWLINE] + Lines([[DASH], subject]) + (Hex(author.key) + [NEWLINE] + Ending(handle, t, text, scheme))
  }

  lemma TwoLines(x: Bytes, y: Bytes)
    ensures Lines([x, y]) == x + [NEWLINE] + y + [NEWLINE]
  {
    LinesAppend([], x);
    LinesAppend([x], y);
    assert [] + [x] == [x] && [x] + [y] == [x, y];
  }

  /** The bytes from the author's line up to the inner header. */
  function Preamble(b: MessageBody, x: Bytes, scheme: Scheme): Bytes {
    Hex(b.author.key) + [NEWLINE] + b.handle + [NEWLINE] + scheme.stamp(b.createdAt) + [NEWLINE]
    + Decimal(|b.body|) + [COLON] + x
  }

  lemma InnerPostFollows(b: MessageBody, x: Bytes, inner: Bytes, scheme: Scheme)
    requires b.body == x + inner
    ensures AuthorAndTail(b, scheme) == Preamble(b, x, scheme) + inner
  {
  }

  lemma InnerPostBytes(c: MessageBody, board: Bytes, scheme: Scheme)
    requires c.kind == Post && c.parent == None && c.board == board
    ensures Framing(c) + AuthorAndTail(c, scheme)
            == board + InnerPost(c.subject, c.author, c.handle, c.createdAt, c.body, scheme)
  {
    PostFraming(c);
    TwoLines([DASH], c.subject);
  }

  lemma InnerPostTwin(b: MessageBody, x: Bytes, subject: Bytes, handle: Bytes, t: Time, text: Bytes,
                      scheme: Scheme) returns (c: MessageBody)
    requires b.kind == Post && b.body == x + InnerPost(subject, b.author, handle, t, text, scheme)
    ensures SigningBytes(c, scheme) == SigningBytes(b, scheme)
    ensures c.board == Framing(b) + Preamble(b, x, scheme) && c.author == b.author && c.body == text
  {
    var inner := InnerPost(subject, b.author, handle, t, text, scheme);
    var board := Framing(b) + Preamble(b, x, scheme);
    c := MessageBody(board, None, subject, text, b.author, handle, t, Post);
    InnerPostFollows(b, x, inner, scheme);
    InnerPostBytes(c, board, scheme);
    assert Framing(b) + (Preamble(b, x, scheme) + inner) == board + inner;
    PartsMakeBytes(b, c, scheme);
  }

  /** A verified post, its header clean or not, whose text carries a header by the same
      author also verifies as a post on another board. */
  lemma TextReadsAsAnotherBoard(m: Message, x: Bytes, subject: Bytes, handle: Bytes, t: Time, text: Bytes,
                                scheme: Scheme) returns (forged: Message)
    requires Verify(m, scheme) && m.body.kind == Post
    requires m.body.body == x + InnerPost(subject, m.body.author, handle, t, text, scheme)
    ensures Verify(forged, scheme) && forged.id == m.id && forged.signature == m.signature
    ensures forged.body.board != m.body.board && forged.body.body == text
  {
    var c := InnerPostTwin(m.body, x, subject, handle, t, text, scheme);
    PostFraming(m.body);
    forged := m.(body := c);
  }
}
