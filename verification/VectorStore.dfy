/** The in-memory vector store: upsert, exact search, and reading and writing its bytes. */
module VectorStore {
  import opened Bytes
  import opened Rvf
  import opened Sorting
  import opened Wrappers

  // ----- Upsert -----

  ghost predicate DistinctIds(rs: seq<Record>) {
    forall i, j :: 0 <= i < j < |rs| ==> rs[i].id != rs[j].id
  }

  /** The first record carrying `id`. */
  function Lookup(rs: seq<Record>, id: Bytes): Option<Record> {
    if rs == [] then None
    else if rs[0].id == id then Some(rs[0])
    else Lookup(rs[1..], id)
  }

  function Ids(rs: seq<Record>): (r: seq<Bytes>)
    ensures |r| == |rs| && forall i :: 0 <= i < |rs| ==> r[i] == rs[i].id
  {
    Map((r: Record) => r.id, rs)
  }

  /** The first record with the same id gives way in place; a new id goes to the end. */
  function Upserted(rs: seq<Record>, rec: Record): seq<Record> {
    if rs == [] then [rec]
    else if rs[0].id == rec.id then [rec] + rs[1..]
    else [rs[0]] + Upserted(rs[1..], rec)
  }

  lemma {:induction false} UpsertedAt(rs: seq<Record>, rec: Record, k: nat)
    requires k <= |rs| && forall i :: 0 <= i < k ==> rs[i].id != rec.id
    requires k < |rs| ==> rs[k].id == rec.id
    ensures Upserted(rs, rec) == if k < |rs| then rs[k := rec] else rs + [rec]
  {
    if k > 0 {
      UpsertedAt(rs[1..], rec, k - 1);
      assert rs == [rs[0]] + rs[1..];
    }
  }

  /** Afterwards the id finds the new record and every other id what it found before. */
  lemma {:induction false} UpsertReplacesOneBinding(rs: seq<Record>, rec: Record, id: Bytes)
    ensures Lookup(Upserted(rs, rec), id) == if id == rec.id then Some(rec) else Lookup(rs, id)
  {
    if rs != [] && rs[0].id != rec.id {
      UpsertReplacesOneBinding(rs[1..], rec, id);
    }
  }

  lemma IdsOfCons(r: Record, rs: seq<Record>)
    ensures Ids([r] + rs) == [r.id] + Ids(rs)
  {
  }

  /** No id moves; an unknown id is added once, at the end. */
  lemma {:induction false} UpsertKeepsIdOrder(rs: seq<Record>, rec: Record)
    ensures Ids(Upserted(rs, rec)) == if rec.id in Ids(rs) then Ids(rs) else Ids(rs) + [rec.id]
  {
    if rs != [] {
      assert Ids(rs) == [rs[0].id] + Ids(rs[1..]);
      if rs[0].id != rec.id {
        UpsertKeepsIdOrder(rs[1..], rec);
        IdsOfCons(rs[0], Upserted(rs[1..], rec));
      }
    }
  }

  lemma UpsertKeepsIdsDistinct(rs: seq<Record>, rec: Record)
    requires DistinctIds(rs)
    ensures DistinctIds(Upserted(rs, rec))
  {
    UpsertKeepsIdOrder(rs, rec);
    forall i, j | 0 <= i < j < |Upserted(rs, rec)| ensures Upserted(rs, rec)[i].id != Upserted(rs, rec)[j].id {
      assert Ids(Upserted(rs, rec))[i] != Ids(Upserted(rs, rec))[j];
    }
  }

  lemma {:induction false} UpsertKeepsDimension(rs: seq<Record>, rec: Record, dim: nat)
    requires |rec.vector| == dim && forall i :: 0 <= i < |rs| ==> |rs[i].vector| == dim
    ensures forall i :: 0 <= i < |Upserted(rs, rec)| ==> |Upserted(rs, rec)[i].vector| == dim
  {
    if rs != [] && rs[0].id != rec.id {
      UpsertKeepsDimension(rs[1..], rec, dim);
    }
  }

  // ----- Exact search -----

  datatype Hit = Hit(id: Bytes, score: real, meta: Json)

  type Similarity = (seq<Word>, seq<Word>) -> real

  function ByScore(): (Hit, Hit) -> bool {
    (a: Hit, b: Hit) => a.score >= b.score
  }

  function HitOf(query: seq<Word>, cosine: Similarity): Record -> Hit {
    (r: Record) => Hit(r.id, cosine(query, r.vector), r.meta)
  }

  function Min(a: nat, b: nat): (r: nat)
    ensures r <= a && r <= b && (r == a || r == b)
  {
    if a < b then a else b
  }

  /** Best first, equal scores in their given order, no more than `k`. */
  function Ranked(hits: seq<Hit>, k: nat): seq<Hit> {
    Sort(hits, ByScore())[..Min(k, |hits|)]
  }

  /** `hits` are the `k` best of `all`, best first. */
  ghost predicate IsTopK(hits: seq<Hit>, all: seq<Hit>, k: nat) {
    && |hits| == Min(k, |all|)
    && Sorted(hits, ByScore())
    && multiset(hits) <= multiset(all)
    && forall h, o :: h in hits && o in multiset(all) - multiset(hits) ==> h.score >= o.score
  }

  lemma CutLeavesTheRest(s: seq<Hit>, n: nat)
    requires n <= |s|
    ensures multiset(s[..n]) <= multiset(s) && multiset(s) - multiset(s[..n]) == multiset(s[n..])
  {
    assert s == s[..n] + s[n..];
  }

  lemma NoneBelowTheCutIsBetter(s: seq<Hit>, n: nat, h: Hit, o: Hit)
    requires Sorted(s, ByScore()) && n <= |s| && h in s[..n] && o in s[n..]
    ensures h.score >= o.score
  {
    var i :| 0 <= i < n && s[i] == h;
    var j :| n <= j < |s| && s[j] == o;
    assert ByScore()(s[i], s[j]);
  }

  lemma TopOfSorted(s: seq<Hit>, all: seq<Hit>, k: nat)
    requires Sorted(s, ByScore()) && multiset(s) == multiset(all) && |s| == |all|
    ensures IsTopK(s[..Min(k, |all|)], all, k)
  {
    var n := Min(k, |all|);
    CutLeavesTheRest(s, n);
    forall h, o | h in s[..n] && o in multiset(s[n..]) ensures h.score >= o.score {
      NoneBelowTheCutIsBetter(s, n, h, o);
    }
  }

  lemma RankedIsTopK(all: seq<Hit>, k: nat)
    ensures IsTopK(Ranked(all, k), all, k)
  {
    TopOfSorted(Sort(all, ByScore()), all, k);
  }

  function ExactHits(rs: seq<Record>, query: seq<Word>, topK: nat, cosine: Similarity): seq<Hit> {
    Ranked(Map(HitOf(query, cosine), rs), topK)
  }

  lemma HitsComeFromRecords(rs: seq<Record>, query: seq<Word>, topK: nat, cosine: Similarity, h: Hit)
    requires h in ExactHits(rs, query, topK, cosine)
    ensures exists j :: 0 <= j < |rs| && h == Hit(rs[j].id, cosine(query, rs[j].vector), rs[j].meta)
  {
    var all, hits := Map(HitOf(query, cosine), rs), ExactHits(rs, query, topK, cosine);
    RankedIsTopK(all, topK);
    assert h in multiset(hits) && h in multiset(all);
    var j :| 0 <= j < |all| && all[j] == h;
  }

  lemma NothingLeftOutIsBetter(rs: seq<Record>, query: seq<Word>, topK: nat, cosine: Similarity, j: nat, h: Hit)
    requires j < |rs| && h in ExactHits(rs, query, topK, cosine)
    requires Hit(rs[j].id, cosine(query, rs[j].vector), rs[j].meta) !in ExactHits(rs, query, topK, cosine)
    ensures h.score >= cosine(query, rs[j].vector)
  {
    var all, hits := Map(HitOf(query, cosine), rs), ExactHits(rs, query, topK, cosine);
    RankedIsTopK(all, topK);
    assert all[j] in multiset(all) && all[j] in multiset(all) - multiset(hits);
  }

  /** The hits are as many as asked for or there are, best first; each is a record with its
      similarity to the query, and no record outside them is more similar than one inside. */
  lemma HitsAreTheMostSimilar(rs: seq<Record>, query: seq<Word>, topK: nat, cosine: Similarity)
    ensures var hits := ExactHits(rs, query, topK, cosine);
            && |hits| == (if topK < |rs| then topK else |rs|)
            && (forall i, j :: 0 <= i < j < |hits| ==> hits[i].score >= hits[j].score)
            && (forall h | h in hits ::
                  exists j :: 0 <= j < |rs| && h == Hit(rs[j].id, cosine(query, rs[j].vector), rs[j].meta))
            && forall j, h | 0 <= j < |rs| && h in hits ::
                 || Hit(rs[j].id, cosine(query, rs[j].vector), rs[j].meta) in hits
                 || h.score >= cosine(query, rs[j].vector)
  {
    var hits := ExactHits(rs, query, topK, cosine);
    RankedIsTopK(Map(HitOf(query, cosine), rs), topK);
    forall i, j | 0 <= i < j < |hits| ensures hits[i].score >= hits[j].score {
      assert ByScore()(hits[i], hits[j]);
    }
    forall h | h in hits
      ensures exists j :: 0 <= j < |rs| && h == Hit(rs[j].id, cosine(query, rs[j].vector), rs[j].meta)
    {
      HitsComeFromRecords(rs, query, topK, cosine, h);
    }
    forall j, h | 0 <= j < |rs| && h in hits && Hit(rs[j].id, cosine(query, rs[j].vector), rs[j].meta) !in hits
      ensures h.score >= cosine(query, rs[j].vector)
    {
      NothingLeftOutIsBetter(rs, query, topK, cosine, j, h);
    }
  }

  // ----- The bytes, one record and one word at a time -----

  lemma {:induction false} FlatSnoc(ws: seq<Word>, w: Word)
    ensures Flat(ws + [w]) == Flat(ws) + w
  {
    if ws == [] {
      assert Flat([w]) == w + Flat([]);
    } else {
      assert (ws + [w])[1..] == ws[1..] + [w];
      FlatSnoc(ws[1..], w);
    }
  }

  lemma {:induction false} RecordsSnoc(rs: seq<Record>, r: Record, text: Text)
    ensures EncodeRecords(rs + [r], text) == EncodeRecords(rs, text) + EncodeRecord(r, text)
  {
    if rs == [] {
      assert EncodeRecords([r], text) == EncodeRecord(r, text) + EncodeRecords([], text);
    } else {
      assert (rs + [r])[1..] == rs[1..] + [r];
      RecordsSnoc(rs[1..], r, text);
    }
  }

  /** A parse whose first items are already read. */
  function Behind<T>(items: seq<T>, p: Parsed<seq<T>>): Parsed<seq<T>> {
    match p
    case Err(e) => Err(e)
    case Ok((more, left)) => Ok((items + more, left))
  }

  lemma BehindOne<T>(items: seq<T>, x: T, p: Parsed<seq<T>>)
    ensures Behind(items, Behind([x], p)) == Behind(items + [x], p)
  {
    match p
    case Err(_) =>
    case Ok((more, _)) => assert items + ([x] + more) == (items + [x]) + more;
  }

  lemma BehindNone<T>(p: Parsed<seq<T>>)
    ensures Behind([], p) == p
  {
    match p
    case Err(_) =>
    case Ok((more, _)) => assert [] + more == more;
  }

  class Cursor {
    const buf: Bytes
    var pos: nat

    ghost predicate Valid()
      reads this
    {
      pos <= |buf|
    }

    ghost function Left(): Bytes
      reads this
      requires Valid()
    {
      buf[pos..]
    }

    constructor (buf: Bytes)
      ensures Valid() && this.buf == buf && Left() == buf
    {
      this.buf := buf;
      pos := 0;
    }

    /** The next `n` bytes; asking for more than are left moves nothing. */
    method Take(n: nat) returns (r: Result<Bytes>)
      requires Valid()
      modifies this`pos
      ensures Valid()
      ensures match Rvf.Take(old(Left()), n)
              case Err(e) => r == Err(e) && pos == old(pos)
              case Ok((bytes, left)) => r == Ok(bytes) && Left() == left
    {
      var end := pos + n;
      if end > |buf| {
        return Err(Malformed);
      }
      assert buf[pos..][..n] == buf[pos..end] && buf[pos..][n..] == buf[end..];
      r := Ok(buf[pos..end]);
      pos := end;
    }
  }

  /** What a cursor-driven read owes the parser it implements. */
  ghost predicate Reads<T>(r: Result<T>, left: Bytes, p: Parsed<T>) {
    match p
    case Err(e) => r == Err(e)
    case Ok((v, rest)) => r == Ok(v) && left == rest
  }

  method ReadWords(c: Cursor, n: nat) returns (r: Result<seq<Word>>)
    requires c.Valid()
    modifies c`pos
    ensures c.Valid() && Reads(r, c.Left(), ParseWords(old(c.Left()), n))
  {
    var vector: seq<Word> := [];
    BehindNone(ParseWords(c.Left(), n));
    for i := 0 to n
      invariant c.Valid()
      invariant ParseWords(old(c.Left()), n) == Behind(vector, ParseWords(c.Left(), n - i))
    {
      ghost var before := c.Left();
      var word := c.Take(4);
      match word {
        case Err(e) => return Err(e);
        case Ok(w) =>
          assert ParseWords(before, n - i) == Behind([w], ParseWords(c.Left(), n - i - 1));
          BehindOne(vector, w, ParseWords(c.Left(), n - i - 1));
          vector := vector + [w];
      }
    }
    assert vector + [] == vector;
    r := Ok(vector);
  }

  method ReadId(c: Cursor, text: Text) returns (r: Result<Bytes>)
    requires c.Valid()
    modifies c`pos
    ensures c.Valid() && Reads(r, c.Left(), ParseId(old(c.Left()), text))
  {
    var len := c.Take(2);
    match len {
      case Err(e) => return Err(e);
      case Ok(b) =>
        var id := c.Take(FromU16(b));
        match id {
          case Err(e) => return Err(e);
          case Ok(bytes) => return if text.utf8(bytes) then Ok(bytes) else Err(BadUtf8);
        }
    }
  }

  method ReadMeta(c: Cursor, text: Text) returns (r: Result<Json>)
    requires c.Valid()
    modifies c`pos
    ensures c.Valid() && Reads(r, c.Left(), ParseMeta(old(c.Left()), text))
  {
    var len := c.Take(4);
    match len {
      case Err(e) => return Err(e);
      case Ok(b) =>
        var meta := c.Take(FromU32(b));
        match meta {
          case Err(e) => return Err(e);
          case Ok(bytes) =>
            match text.unjson(bytes) {
              case None => return Err(BadJson);
              case Some(v) => return Ok(v);
            }
        }
    }
  }

  method ReadRecord(c: Cursor, dim: nat, text: Text) returns (r: Result<Record>)
    requires c.Valid()
    modifies c`pos
    ensures c.Valid() && Reads(r, c.Left(), ParseRecord(old(c.Left()), dim, text))
  {
    var id := ReadId(c, text);
    match id {
      case Err(e) => return Err(e);
      case Ok(theId) =>
        var meta := ReadMeta(c, text);
        match meta {
          case Err(e) => return Err(e);
          case Ok(theMeta) =>
            var vector := ReadWords(c, dim);
            match vector {
              case Err(e) => return Err(e);
              case Ok(words) => return Ok(Record(theId, words, theMeta));
            }
        }
    }
  }

  lemma RecordThenRest(s: Bytes, dim: nat, count: nat, text: Text, x: Record, left: Bytes)
    requires count > 0 && ParseRecord(s, dim, text) == Ok((x, left))
    ensures ParseRecords(s, dim, count, text) == Behind([x], ParseRecords(left, dim, count - 1, text))
  {
  }

  lemma RecordFails(s: Bytes, dim: nat, count: nat, text: Text, e: Error)
    requires count > 0 && ParseRecord(s, dim, text) == Err(e)
    ensures ParseRecords(s, dim, count, text) == Err(e)
  {
  }

  lemma NothingToRead(s: Bytes, dim: nat, text: Text, items: seq<Record>)
    ensures Behind(items, ParseRecords(s, dim, 0, text)) == Ok((items, s))
  {
    assert items + [] == items;
  }

  method ReadRecords(c: Cursor, dim: nat, count: nat, text: Text) returns (r: Result<seq<Record>>)
    requires c.Valid()
    modifies c`pos
    ensures c.Valid() && Reads(r, c.Left(), ParseRecords(old(c.Left()), dim, count, text))
  {
    var records: seq<Record> := [];
    ghost var whole := ParseRecords(c.Left(), dim, count, text);
    BehindNone(whole);
    for i := 0 to count
      invariant c.Valid()
      invariant whole == Behind(records, ParseRecords(c.Left(), dim, count - i, text))
    {
      ghost var before := c.Left();
      var record := ReadRecord(c, dim, text);
      match record {
        case Err(e) =>
          RecordFails(before, dim, count - i, text, e);
          return Err(e);
        case Ok(x) =>
          RecordThenRest(before, dim, count - i, text, x, c.Left());
          BehindOne(records, x, ParseRecords(c.Left(), dim, count - i - 1, text));
          records := records + [x];
      }
    }
    NothingToRead(c.Left(), dim, text, records);
    r := Ok(records);
  }

  method ReadHeader(c: Cursor) returns (r: Result<(nat, nat)>)
    requires c.Valid()
    modifies c`pos
    ensures c.Valid() && Reads(r, c.Left(), ParseHeader(old(c.Left())))
  {
    var magic := c.Take(8);
    match magic {
      case Err(e) => return Err(e);
      case Ok(m) =>
        if m != MAGIC { return Err(Malformed); }
        var version := c.Take(2);
        match version {
          case Err(e) => return Err(e);
          case Ok(v) =>
            if FromU16(v) != VERSION { return Err(Malformed); }
            var dim := c.Take(4);
            match dim {
              case Err(e) => return Err(e);
              case Ok(d) =>
                var count := c.Take(4);
                match count {
                  case Err(e) => return Err(e);
                  case Ok(n) => return Ok((FromU32(d), FromU32(n)));
                }
            }
        }
    }
  }

  lemma {:induction false} WordCountIsParsed(s: Bytes, n: nat)
    requires ParseWords(s, n).Ok?
    ensures |ParseWords(s, n).value.0| == n
    decreases n
  {
    if n > 0 {
      WordCountIsParsed(Rvf.Take(s, 4).value.1, n - 1);
    }
  }

  /** Whatever bytes are accepted, every vector read has the dimension read. */
  lemma {:induction false} ParsedVectorsHaveTheDimension(s: Bytes, dim: nat, count: nat, text: Text)
    requires ParseRecords(s, dim, count, text).Ok?
    ensures forall r :: r in ParseRecords(s, dim, count, text).value.0 ==> |r.vector| == dim
    decreases count
  {
    if count > 0 {
      var (id, s1) := ParseId(s, text).value;
      var (meta, s2) := ParseMeta(s1, text).value;
      WordCountIsParsed(s2, dim);
      ParsedVectorsHaveTheDimension(ParseWords(s2, dim).value.1, dim, count - 1, text);
    }
  }

  // ----- From the parts a cursor read to what the buffer decodes to -----

  lemma HeaderFails(buf: Bytes, text: Text, e: Error)
    requires ParseHeader(buf) == Err(e)
    ensures Decode(buf, text) == Err(e)
  {
  }

  lemma RecordsFail(buf: Bytes, text: Text, dim: nat, count: nat, rest: Bytes, e: Error)
    requires ParseHeader(buf) == Ok(((dim, count), rest)) && ParseRecords(rest, dim, count, text) == Err(e)
    ensures Decode(buf, text) == Err(e)
  {
  }

  lemma DecodedByParts(buf: Bytes, text: Text, dim: nat, count: nat, rest: Bytes, rs: seq<Record>, left: Bytes)
    requires ParseHeader(buf) == Ok(((dim, count), rest)) && ParseRecords(rest, dim, count, text) == Ok((rs, left))
    ensures Decode(buf, text) == Ok((dim, rs)) && forall r :: r in rs ==> |r.vector| == dim
  {
    ParsedVectorsHaveTheDimension(rest, dim, count, text);
  }

  class RvfStore {
    var dim: nat
    var records: seq<Record>

    ghost predicate Valid()
      reads this
    {
      forall r :: r in records ==> |r.vector| == dim
    }

    constructor (dim: nat)
      ensures Valid() && this.dim == dim && records == []
    {
      this.dim := dim;
      records := [];
    }

    /** Insert, or replace in place; a vector of another dimension is refused. */
    method Upsert(rec: Record) returns (r: Result<()>)
      requires Valid()
      modifies this`records
      ensures Valid()
      ensures r == if |rec.vector| != dim then Err(Malformed) else Ok(())
      ensures records == if |rec.vector| != dim then old(records) else Upserted(old(records), rec)
      ensures old(DistinctIds(records)) ==> DistinctIds(records)
    {
      if |rec.vector| != dim {
        return Err(Malformed);
      }
      var k := 0;
      while k < |records| && records[k].id != rec.id
        invariant k <= |records| && forall i :: 0 <= i < k ==> records[i].id != rec.id
      {
        k := k + 1;
      }
      UpsertedAt(records, rec, k);
      if DistinctIds(records) {
        UpsertKeepsIdsDistinct(records, rec);
      }
      if k < |records| {
        records := records[k := rec];
      } else {
        records := records + [rec];
      }
      return Ok(());
    }

    /** The exact scan: the `topK` best-scoring records, earlier ones first among equals. */
    method Search(query: seq<Word>, topK: nat, cosine: Similarity) returns (r: Result<seq<Hit>>)
      ensures |query| != dim ==> r == Err(Malformed)
      ensures |query| == dim ==> r == Ok(ExactHits(records, query, topK, cosine))
      ensures |query| == dim ==> IsTopK(r.value, Map(HitOf(query, cosine), records), topK)
    {
      if |query| != dim {
        return Err(Malformed);
      }
      var hits := Map(HitOf(query, cosine), records);
      RankedIsTopK(hits, topK);
      hits := Sort(hits, ByScore());
      hits := hits[..Min(topK, |hits|)];
      return Ok(hits);
    }

    method ToBytes(text: Text) returns (out: Bytes)
      ensures out == Encode(dim, records, text)
    {
      out := MAGIC;
      out := out + U16(VERSION);
      out := out + U32(dim);
      out := out + U32(|records|);
      ghost var header := out;
      for i := 0 to |records|
        invariant out == header + EncodeRecords(records[..i], text)
      {
        var bytes := AppendRecord(records[i], text);
        out := out + bytes;
        assert records[..i + 1] == records[..i] + [records[i]];
        RecordsSnoc(records[..i], records[i], text);
      }
      assert records[..|records|] == records;
    }

    /** Accepts exactly what the parser accepts, and holds what it parsed. */
    static method FromBytes(buf: Bytes, text: Text) returns (r: Result<RvfStore>)
      ensures match Decode(buf, text)
              case Err(e) => r == Err(e)
              case Ok((dim, rs)) =>
                r.Ok? && fresh(r.value) && r.value.Valid() && r.value.dim == dim && r.value.records == rs
    {
      var read := ReadAll(buf, text);
      match read {
        case Err(e) => return Err(e);
        case Ok((dim, rs)) =>
          var store := new RvfStore(dim);
          store.records := rs;
          return Ok(store);
      }
    }
  }

  /** Header, then records, through one cursor. */
  method ReadAll(buf: Bytes, text: Text) returns (r: Result<(nat, seq<Record>)>)
    ensures r == Decode(buf, text)
    ensures r.Ok? ==> forall x :: x in r.value.1 ==> |x.vector| == r.value.0
  {
    var c := new Cursor(buf);
    var header := ReadHeader(c);
    match header {
      case Err(e) =>
        HeaderFails(buf, text, e);
        return Err(e);
      case Ok((dim, count)) =>
        ghost var rest := c.Left();
        var records := ReadRecords(c, dim, count, text);
        match records {
          case Err(e) =>
            RecordsFail(buf, text, dim, count, rest, e);
            return Err(e);
          case Ok(rs) =>
            DecodedByParts(buf, text, dim, count, rest, rs, c.Left());
            return Ok((dim, rs));
        }
    }
  }

  method AppendRecord(r: Record, text: Text) returns (out: Bytes)
    ensures out == EncodeRecord(r, text)
  {
    out := U16(|r.id|) + r.id;
    var meta := text.json(r.meta);
    out := out + U32(|meta|);
    out := out + meta;
    ghost var head := out;
    for j := 0 to |r.vector|
      invariant out == head + Flat(r.vector[..j])
    {
      out := out + r.vector[j];
      assert r.vector[..j + 1] == r.vector[..j] + [r.vector[j]];
      FlatSnoc(r.vector[..j], r.vector[j]);
    }
    assert r.vector[..|r.vector|] == r.vector;
  }

  /** A store whose sizes fit comes back from its own bytes, whatever follows them. */
  method SaveAndLoad(store: RvfStore, text: Text, after: Bytes) returns (back: Result<RvfStore>)
    requires store.Valid() && text.RoundTrips() && forall r :: r in store.records ==> text.utf8(r.id)
    requires Fits(store.dim, store.records, text)
    ensures back.Ok? && fresh(back.value)
    ensures back.value.dim == store.dim && back.value.records == store.records
  {
    var bytes := store.ToBytes(text);
    TrailingBytesAreIgnored(store.dim, store.records, text, after);
    back := RvfStore.FromBytes(bytes + after, text);
  }
}
