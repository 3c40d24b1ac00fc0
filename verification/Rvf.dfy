/** The vector store's binary layout: printing, parsing, and what survives the trip. */
module Rvf {
  import opened Bytes
  import opened Wrappers

  /** The four little-endian bytes of one f32. */
  type Word = w: Bytes | |w| == 4 witness [0, 0, 0, 0]

  type Json(==, !new)

  /** The text codecs the format relies on. */
  datatype Text = Text(json: Json -> Bytes, unjson: Bytes -> Option<Json>, utf8: Bytes -> bool) {
    /** JSON reads back what it wrote. */
    ghost predicate RoundTrips() {
      forall v :: unjson(json(v)) == Some(v)
    }

    /** No rendering too long for its length field reads back as the same value after the
        field has cut it short. */
    ghost predicate CutsShow() {
      forall v, k: nat :: k < U32_LIMIT <= |json(v)| ==> unjson(json(v)[..k]) != Some(v)
    }
  }

  datatype Record = Record(id: Bytes, vector: seq<Word>, meta: Json)

  const MAGIC: Bytes := Ascii("AGBBSRVF")
  const VERSION: nat := 1
  const U16_LIMIT: nat := 0x1_0000
  const U32_LIMIT: nat := 0x1_0000_0000

  // ----- Little-endian integers, with the narrowing casts of the program -----

  /** `(n as u16).to_le_bytes()` */
  function U16(n: nat): (r: Bytes)
    ensures |r| == 2
  {
    [(n % 256) as byte, (n / 256 % 256) as byte]
  }

  /** `(n as u32).to_le_bytes()` */
  function U32(n: nat): (r: Bytes)
    ensures |r| == 4
  {
    U16(n % U16_LIMIT) + U16(n / U16_LIMIT)
  }

  function FromU16(b: Bytes): nat
    requires |b| == 2
  {
    b[0] as nat + 256 * b[1] as nat
  }

  function FromU32(b: Bytes): nat
    requires |b| == 4
  {
    FromU16(b[..2]) + U16_LIMIT * FromU16(b[2..])
  }

  lemma HalvesOfHalf(n: nat)
    ensures n % U16_LIMIT == n % 256 + 256 * (n / 256 % 256)
  {
  }

  lemma U16Wraps(n: nat)
    ensures FromU16(U16(n)) == n % U16_LIMIT
  {
    HalvesOfHalf(n);
    assert U16(n)[0] as nat == n % 256 && U16(n)[1] as nat == n / 256 % 256;
  }

  lemma HalvesOfWord(n: nat)
    ensures n % U32_LIMIT == n % U16_LIMIT + U16_LIMIT * (n / U16_LIMIT % U16_LIMIT)
  {
  }

  lemma U32Wraps(n: nat)
    ensures FromU32(U32(n)) == n % U32_LIMIT
  {
    HalvesOfWord(n);
    U16Wraps(n % U16_LIMIT);
    U16Wraps(n / U16_LIMIT);
    assert U32(n)[..2] == U16(n % U16_LIMIT) && U32(n)[2..] == U16(n / U16_LIMIT);
  }

  // ----- Printing -----

  function Flat(vector: seq<Word>): (r: Bytes)
    ensures |r| == 4 * |vector|
  {
    if vector == [] then [] else vector[0] + Flat(vector[1..])
  }

  function EncodeRecord(r: Record, text: Text): Bytes {
    U16(|r.id|) + r.id + U32(|text.json(r.meta)|) + text.json(r.meta) + Flat(r.vector)
  }

  function EncodeRecords(rs: seq<Record>, text: Text): Bytes {
    if rs == [] then [] else EncodeRecord(rs[0], text) + EncodeRecords(rs[1..], text)
  }

  function Encode(dim: nat, rs: seq<Record>, text: Text): Bytes {
    MAGIC + U16(VERSION) + U32(dim) + U32(|rs|) + EncodeRecords(rs, text)
  }

  // ----- Parsing -----

  /** A parsed value and the bytes left. */
  type Parsed<T> = Result<(T, Bytes)>

  function Take(s: Bytes, n: nat): Parsed<Bytes> {
    if n > |s| then Err(Malformed) else Ok((s[..n], s[n..]))
  }

  function ParseWords(s: Bytes, n: nat): Parsed<seq<Word>>
    decreases n
  {
    if n == 0 then Ok(([], s))
    else match Take(s, 4)
      case Err(e) => Err(e)
      case Ok((w, rest)) =>
        match ParseWords(rest, n - 1)
        case Err(e) => Err(e)
        case Ok((ws, left)) => Ok(([w] + ws, left))
  }

  function ParseId(s: Bytes, text: Text): Parsed<Bytes> {
    match Take(s, 2)
    case Err(e) => Err(e)
    case Ok((len, rest)) =>
      match Take(rest, FromU16(len))
      case Err(e) => Err(e)
      case Ok((id, left)) => if text.utf8(id) then Ok((id, left)) else Err(BadUtf8)
  }

  function ParseMeta(s: Bytes, text: Text): Parsed<Json> {
    match Take(s, 4)
    case Err(e) => Err(e)
    case Ok((len, rest)) =>
      match Take(rest, FromU32(len))
      case Err(e) => Err(e)
      case Ok((json, left)) =>
        match text.unjson(json)
        case None => Err(BadJson)
        case Some(v) => Ok((v, left))
  }

  function ParseRecord(s: Bytes, dim: nat, text: Text): Parsed<Record> {
    match ParseId(s, text)
    case Err(e) => Err(e)
    case Ok((id, s1)) =>
      match ParseMeta(s1, text)
      case Err(e) => Err(e)
      case Ok((meta, s2)) =>
        match ParseWords(s2, dim)
        case Err(e) => Err(e)
        case Ok((vector, s3)) => Ok((Record(id, vector, meta), s3))
  }

  function ParseRecords(s: Bytes, dim: nat, count: nat, text: Text): Parsed<seq<Record>>
    decreases count
  {
    if count == 0 then Ok(([], s))
    else match ParseRecord(s, dim, text)
      case Err(e) => Err(e)
      case Ok((r, rest)) =>
        match ParseRecords(rest, dim, count - 1, text)
        case Err(e) => Err(e)
        case Ok((rs, left)) => Ok(([r] + rs, left))
  }

  /** Dimension and record count, after the magic and the version. */
  function ParseHeader(s: Bytes): Parsed<(nat, nat)> {
    match Take(s, 8)
    case Err(e) => Err(e)
    case Ok((magic, s1)) =>
      if magic != MAGIC then Err(Malformed)
      else match Take(s1, 2)
        case Err(e) => Err(e)
        case Ok((version, s2)) =>
          if FromU16(version) != VERSION then Err(Malformed)
          else match Take(s2, 4)
            case Err(e) => Err(e)
            case Ok((dim, s3)) =>
              match Take(s3, 4)
              case Err(e) => Err(e)
              case Ok((count, s4)) => Ok(((FromU32(dim), FromU32(count)), s4))
  }

  function Parse(s: Bytes, text: Text): Parsed<(nat, seq<Record>)> {
    match ParseHeader(s)
    case Err(e) => Err(e)
    case Ok(((dim, count), rest)) =>
      match ParseRecords(rest, dim, count, text)
      case Err(e) => Err(e)
      case Ok((rs, left)) => Ok(((dim, rs), left))
  }

  /** What `from_bytes` returns: bytes left over are ignored. */
  function Decode(s: Bytes, text: Text): Result<(nat, seq<Record>)> {
    match Parse(s, text)
    case Err(e) => Err(e)
    case Ok((v, _)) => Ok(v)
  }

  // ----- A parse depends only on the bytes it consumes -----

  lemma TakeMore(s: Bytes, n: nat, t: Bytes)
    requires Take(s, n).Ok?
    ensures Take(s + t, n) == Ok((Take(s, n).value.0, Take(s, n).value.1 + t))
  {
    assert (s + t)[..n] == s[..n] && (s + t)[n..] == s[n..] + t;
  }

  lemma {:induction false} WordsMore(s: Bytes, n: nat, t: Bytes)
    requires ParseWords(s, n).Ok?
    ensures ParseWords(s + t, n) == Ok((ParseWords(s, n).value.0, ParseWords(s, n).value.1 + t))
    decreases n
  {
    if n > 0 {
      TakeMore(s, 4, t);
      WordsMore(Take(s, 4).value.1, n - 1, t);
    }
  }

  lemma IdMore(s: Bytes, text: Text, t: Bytes)
    requires ParseId(s, text).Ok?
    ensures ParseId(s + t, text) == Ok((ParseId(s, text).value.0, ParseId(s, text).value.1 + t))
  {
    TakeMore(s, 2, t);
    var (len, rest) := Take(s, 2).value;
    TakeMore(rest, FromU16(len), t);
  }

  lemma MetaMore(s: Bytes, text: Text, t: Bytes)
    requires ParseMeta(s, text).Ok?
    ensures ParseMeta(s + t, text) == Ok((ParseMeta(s, text).value.0, ParseMeta(s, text).value.1 + t))
  {
    TakeMore(s, 4, t);
    var (len, rest) := Take(s, 4).value;
    TakeMore(rest, FromU32(len), t);
  }

  lemma RecordMore(s: Bytes, dim: nat, text: Text, t: Bytes)
    requires ParseRecord(s, dim, text).Ok?
    ensures ParseRecord(s + t, dim, text)
            == Ok((ParseRecord(s, dim, text).value.0, ParseRecord(s, dim, text).value.1 + t))
  {
    IdMore(s, text, t);
    var s1 := ParseId(s, text).value.1;
    MetaMore(s1, text, t);
    WordsMore(ParseMeta(s1, text).value.1, dim, t);
  }

  lemma {:induction false} RecordsMore(s: Bytes, dim: nat, count: nat, text: Text, t: Bytes)
    requires ParseRecords(s, dim, count, text).Ok?
    ensures ParseRecords(s + t, dim, count, text)
            == Ok((ParseRecords(s, dim, count, text).value.0, ParseRecords(s, dim, count, text).value.1 + t))
    decreases count
  {
    if count > 0 {
      RecordMore(s, dim, text, t);
      RecordsMore(ParseRecord(s, dim, text).value.1, dim, count - 1, text, t);
    }
  }

  lemma HeaderMore(s: Bytes, t: Bytes)
    requires ParseHeader(s).Ok?
    ensures ParseHeader(s + t) == Ok((ParseHeader(s).value.0, ParseHeader(s).value.1 + t))
  {
    TakeMore(s, 8, t);
    var s1 := Take(s, 8).value.1;
    TakeMore(s1, 2, t);
    var s2 := Take(s1, 2).value.1;
    TakeMore(s2, 4, t);
    TakeMore(Take(s2, 4).value.1, 4, t);
  }

  /** Whatever bytes follow a parsed buffer, the same value is parsed and they are left. */
  lemma ParseMore(s: Bytes, text: Text, t: Bytes)
    requires Parse(s, text).Ok?
    ensures Parse(s + t, text) == Ok((Parse(s, text).value.0, Parse(s, text).value.1 + t))
  {
    HeaderMore(s, t);
    var ((dim, count), rest) := ParseHeader(s).value;
    RecordsMore(rest, dim, count, text, t);
  }

  // ----- Printing, then parsing -----

  /** What the store keeps of its records, and Rust of its strings. */
  predicate StoreOk(dim: nat, rs: seq<Record>, text: Text) {
    forall i :: 0 <= i < |rs| ==> |rs[i].vector| == dim && text.utf8(rs[i].id)
  }

  /** Every length fits the field it is cast to. */
  predicate RecordFits(r: Record, text: Text) {
    |r.id| < U16_LIMIT && |text.json(r.meta)| < U32_LIMIT
  }

  predicate Fits(dim: nat, rs: seq<Record>, text: Text) {
    dim < U32_LIMIT && |rs| < U32_LIMIT && AllFit(rs, text)
  }

  lemma TakeExactly(a: Bytes, t: Bytes)
    ensures Take(a + t, |a|) == Ok((a, t))
  {
  }

  lemma {:induction false} WordsRoundTrip(vector: seq<Word>, t: Bytes)
    ensures ParseWords(Flat(vector) + t, |vector|) == Ok((vector, t))
  {
    if vector == [] {
      assert Flat(vector) + t == t;
    } else {
      var rest := Flat(vector[1..]) + t;
      assert Flat(vector) + t == vector[0] + rest;
      TakeExactly(vector[0], rest);
      WordsRoundTrip(vector[1..], t);
      assert vector == [vector[0]] + vector[1..];
    }
  }

  lemma MetaRoundTrip(v: Json, text: Text, t: Bytes)
    requires text.RoundTrips() && |text.json(v)| < U32_LIMIT
    ensures ParseMeta(U32(|text.json(v)|) + (text.json(v) + t), text) == Ok((v, t))
  {
    var m := text.json(v);
    TakeExactly(U32(|m|), m + t);
    U32Wraps(|m|);
    TakeExactly(m, t);
  }

  lemma LongMetaIsCut(v: Json, text: Text, t: Bytes)
    requires text.CutsShow() && |text.json(v)| >= U32_LIMIT
    ensures var p := ParseMeta(U32(|text.json(v)|) + (text.json(v) + t), text);
            p.Ok? ==> p.value.0 != v
  {
    var m := text.json(v);
    var k := |m| % U32_LIMIT;
    TakeExactly(U32(|m|), m + t);
    U32Wraps(|m|);
    assert (m + t)[..k] == m[..k];
    assert text.unjson(m[..k]) != Some(v);
  }

  lemma RecordShape(r: Record, text: Text, t: Bytes)
    ensures var m := text.json(r.meta);
            EncodeRecord(r, text) + t == U16(|r.id|) + (r.id + (U32(|m|) + (m + (Flat(r.vector) + t))))
  {
  }

  lemma IdRoundTrip(id: Bytes, text: Text, t: Bytes)
    requires |id| < U16_LIMIT && text.utf8(id)
    ensures ParseId(U16(|id|) + (id + t), text) == Ok((id, t))
  {
    TakeExactly(U16(|id|), id + t);
    U16Wraps(|id|);
    TakeExactly(id, t);
  }

  lemma LongIdIsCut(id: Bytes, text: Text, t: Bytes)
    requires |id| >= U16_LIMIT
    ensures var p := ParseId(U16(|id|) + (id + t), text);
            p.Ok? ==> p.value.0 != id
  {
    TakeExactly(U16(|id|), id + t);
    U16Wraps(|id|);
  }

  /** A record whose lengths fit is read off its own encoding. */
  lemma RecordRoundTrip(r: Record, dim: nat, text: Text, t: Bytes)
    requires text.RoundTrips() && |r.vector| == dim && text.utf8(r.id) && RecordFits(r, text)
    ensures ParseRecord(EncodeRecord(r, text) + t, dim, text) == Ok((r, t))
  {
    var m, afterMeta := text.json(r.meta), Flat(r.vector) + t;
    RecordShape(r, text, t);
    IdRoundTrip(r.id, text, U32(|m|) + (m + afterMeta));
    MetaRoundTrip(r.meta, text, afterMeta);
    WordsRoundTrip(r.vector, t);
  }

  /** One read back as it was had lengths that fit. */
  lemma RecordReadBackFits(r: Record, dim: nat, text: Text, t: Bytes)
    requires text.CutsShow() && text.utf8(r.id)
    requires var p := ParseRecord(EncodeRecord(r, text) + t, dim, text);
             p.Ok? && p.value.0 == r
    ensures RecordFits(r, text)
  {
    var m, afterMeta := text.json(r.meta), Flat(r.vector) + t;
    var afterId := U32(|m|) + (m + afterMeta);
    RecordShape(r, text, t);
    if |r.id| >= U16_LIMIT {
      LongIdIsCut(r.id, text, afterId);
    } else {
      IdRoundTrip(r.id, text, afterId);
      if |m| >= U32_LIMIT {
        LongMetaIsCut(r.meta, text, afterMeta);
      }
    }
  }

  predicate AllFit(rs: seq<Record>, text: Text) {
    forall i :: 0 <= i < |rs| ==> RecordFits(rs[i], text)
  }

  lemma RecordsSplit(rs: seq<Record>, text: Text, t: Bytes)
    requires rs != []
    ensures EncodeRecords(rs, text) + t == EncodeRecord(rs[0], text) + (EncodeRecords(rs[1..], text) + t)
  {
  }

  lemma ParsedInTurn(s: Bytes, dim: nat, text: Text, rs: seq<Record>, rest: Bytes, left: Bytes)
    requires rs != [] && ParseRecord(s, dim, text) == Ok((rs[0], rest))
    requires ParseRecords(rest, dim, |rs| - 1, text) == Ok((rs[1..], left))
    ensures ParseRecords(s, dim, |rs|, text) == Ok((rs, left))
  {
    assert rs == [rs[0]] + rs[1..];
  }

  lemma {:induction false} RecordsRoundTrip(rs: seq<Record>, dim: nat, text: Text, t: Bytes)
    requires text.RoundTrips() && StoreOk(dim, rs, text) && AllFit(rs, text)
    ensures ParseRecords(EncodeRecords(rs, text) + t, dim, |rs|, text) == Ok((rs, t))
  {
    if rs == [] {
      assert EncodeRecords(rs, text) + t == t;
    } else {
      RecordsSplit(rs, text, t);
      var rest := EncodeRecords(rs[1..], text) + t;
      RecordRoundTrip(rs[0], dim, text, rest);
      RecordsRoundTrip(rs[1..], dim, text, t);
      ParsedInTurn(EncodeRecords(rs, text) + t, dim, text, rs, rest, t);
    }
  }

  lemma AllFitCons(rs: seq<Record>, text: Text)
    requires rs != [] && RecordFits(rs[0], text) && AllFit(rs[1..], text)
    ensures AllFit(rs, text)
  {
    forall i | 0 <= i < |rs| ensures RecordFits(rs[i], text) {
      assert i > 0 ==> rs[i] == rs[1..][i - 1];
    }
  }

  /** Records read back as they were had lengths that fit. */
  lemma {:induction false} ReadBackMeansFits(rs: seq<Record>, dim: nat, text: Text, t: Bytes)
    requires text.RoundTrips() && text.CutsShow() && StoreOk(dim, rs, text)
    requires var p := ParseRecords(EncodeRecords(rs, text) + t, dim, |rs|, text);
             p.Ok? && p.value.0 == rs
    ensures AllFit(rs, text)
  {
    if rs != [] {
      var s, rest := EncodeRecords(rs, text) + t, EncodeRecords(rs[1..], text) + t;
      RecordsSplit(rs, text, t);
      var first := ReadInTurn(s, dim, text, rs);
      RecordReadBackFits(rs[0], dim, text, rest);
      RecordRoundTrip(rs[0], dim, text, rest);
      ReadBackMeansFits(rs[1..], dim, text, t);
      AllFitCons(rs, text);
    }
  }

  /** Records read from a buffer were read one after the other. */
  lemma ReadInTurn(s: Bytes, dim: nat, text: Text, rs: seq<Record>) returns (rest: Bytes)
    requires rs != []
    requires var p := ParseRecords(s, dim, |rs|, text); p.Ok? && p.value.0 == rs
    ensures ParseRecord(s, dim, text) == Ok((rs[0], rest))
    ensures var p := ParseRecords(rest, dim, |rs| - 1, text); p.Ok? && p.value.0 == rs[1..]
  {
    var (r, left) := ParseRecord(s, dim, text).value;
    rest := left;
    var more := ParseRecords(rest, dim, |rs| - 1, text).value.0;
    assert rs == [r] + more;
    assert rs[0] == r && rs[1..] == more;
  }

  lemma HeaderRoundTrip(dim: nat, count: nat, t: Bytes)
    ensures ParseHeader(MAGIC + U16(VERSION) + U32(dim) + U32(count) + t)
            == Ok(((dim % U32_LIMIT, count % U32_LIMIT), t))
  {
    var s3 := U32(count) + t;
    var s2 := U32(dim) + s3;
    var s1 := U16(VERSION) + s2;
    assert MAGIC + U16(VERSION) + U32(dim) + U32(count) + t == MAGIC + s1;
    assert |MAGIC| == 8;
    TakeExactly(MAGIC, s1);
    TakeExactly(U16(VERSION), s2);
    TakeExactly(U32(dim), s3);
    TakeExactly(U32(count), t);
    U16Wraps(VERSION);
    U32Wraps(dim);
    U32Wraps(count);
  }

  lemma {:induction false} CountIsParsed(s: Bytes, dim: nat, count: nat, text: Text)
    requires ParseRecords(s, dim, count, text).Ok?
    ensures |ParseRecords(s, dim, count, text).value.0| == count
    decreases count
  {
    if count > 0 {
      CountIsParsed(ParseRecord(s, dim, text).value.1, dim, count - 1, text);
    }
  }

  lemma EncodeShape(dim: nat, rs: seq<Record>, text: Text, t: Bytes)
    ensures Encode(dim, rs, text) + t == MAGIC + U16(VERSION) + U32(dim) + U32(|rs|) + (EncodeRecords(rs, text) + t)
  {
    var h := MAGIC + U16(VERSION) + U32(dim) + U32(|rs|);
    assert (h + EncodeRecords(rs, text)) + t == h + (EncodeRecords(rs, text) + t);
  }

  lemma EncodedHeader(dim: nat, rs: seq<Record>, text: Text, t: Bytes)
    ensures ParseHeader(Encode(dim, rs, text) + t)
            == Ok(((dim % U32_LIMIT, |rs| % U32_LIMIT), EncodeRecords(rs, text) + t))
  {
    EncodeShape(dim, rs, text, t);
    HeaderRoundTrip(dim, |rs|, EncodeRecords(rs, text) + t);
  }

  /** What fits is read back in full, and bytes that follow are left alone. */
  lemma ParseOfEncode(dim: nat, rs: seq<Record>, text: Text, t: Bytes)
    requires text.RoundTrips() && StoreOk(dim, rs, text) && Fits(dim, rs, text)
    ensures Parse(Encode(dim, rs, text) + t, text) == Ok(((dim, rs), t))
  {
    EncodedHeader(dim, rs, text, t);
    NoWrap(dim);
    NoWrap(|rs|);
    RecordsOfEncode(dim, rs, text, t);
    ParseByParts(Encode(dim, rs, text) + t, text, dim, rs, EncodeRecords(rs, text) + t, t);
  }

  lemma RecordsOfEncode(dim: nat, rs: seq<Record>, text: Text, t: Bytes)
    requires text.RoundTrips() && StoreOk(dim, rs, text) && Fits(dim, rs, text)
    ensures ParseRecords(EncodeRecords(rs, text) + t, dim, |rs|, text) == Ok((rs, t))
  {
    RecordsRoundTrip(rs, dim, text, t);
  }

  lemma NoWrap(n: nat)
    requires n < U32_LIMIT
    ensures n % U32_LIMIT == n
  {
  }

  lemma ParseByParts(s: Bytes, text: Text, dim: nat, rs: seq<Record>, rest: Bytes, left: Bytes)
    requires ParseHeader(s) == Ok(((dim, |rs|), rest)) && ParseRecords(rest, dim, |rs|, text) == Ok((rs, left))
    ensures Parse(s, text) == Ok(((dim, rs), left))
  {
  }

  /** A store survives printing and parsing exactly when its dimension, its record count
      and every id and metadata length fit the fields they are cast to. */
  lemma RoundTripExactlyWhenFits(dim: nat, rs: seq<Record>, text: Text)
    requires text.RoundTrips() && text.CutsShow() && StoreOk(dim, rs, text)
    ensures Decode(Encode(dim, rs, text), text) == Ok((dim, rs)) <==> Fits(dim, rs, text)
  {
    var s := Encode(dim, rs, text);
    if Fits(dim, rs, text) {
      ParseOfEncode(dim, rs, text, []);
      assert s + [] == s;
    }
    if Decode(s, text) == Ok((dim, rs)) {
      EncodedHeader(dim, rs, text, []);
      assert s + [] == s;
      CountIsParsed(EncodeRecords(rs, text) + [], dim % U32_LIMIT, |rs| % U32_LIMIT, text);
      ReadBackMeansFits(rs, dim, text, []);
    }
  }

  /** Bytes after a valid encoding are ignored. */
  lemma TrailingBytesAreIgnored(dim: nat, rs: seq<Record>, text: Text, t: Bytes)
    requires text.RoundTrips() && StoreOk(dim, rs, text) && Fits(dim, rs, text)
    ensures Decode(Encode(dim, rs, text) + t, text) == Ok((dim, rs))
  {
    ParseOfEncode(dim, rs, text, t);
  }

  /** A buffer parsed to its last byte does not parse with any bytes missing. */
  lemma NoShorterParse(s: Bytes, text: Text, k: nat)
    requires k < |s| && Parse(s, text).Ok? && Parse(s, text).value.1 == []
    ensures Parse(s[..k], text).Err?
  {
    if Parse(s[..k], text).Ok? {
      assert s[..k] + s[k..] == s;
      ParseMore(s[..k], text, s[k..]);
    }
  }

  /** Every strict prefix of a valid encoding is rejected. */
  lemma TruncationIsDetected(dim: nat, rs: seq<Record>, text: Text, k: nat)
    requires text.RoundTrips() && StoreOk(dim, rs, text) && Fits(dim, rs, text)
    requires k < |Encode(dim, rs, text)|
    ensures Decode(Encode(dim, rs, text)[..k], text).Err?
  {
    var s := Encode(dim, rs, text);
    ParseOfEncode(dim, rs, text, []);
    assert s + [] == s;
    NoShorterParse(s, text, k);
  }
}
