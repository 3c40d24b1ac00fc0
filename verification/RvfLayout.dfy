/** Where every byte of the vector format stands: what a reader in another language needs. */
module RvfLayout {
  import opened Bytes
  import opened Rvf
  import opened Wrappers

  /** Least significant byte first. */
  lemma LowByteFirst(n: nat)
    requires n < 0x1_0000
    ensures U16(n)[0] as nat + 0x100 * U16(n)[1] as nat == n
  {
    U16Wraps(n);
  }

  lemma LowByteFirstOfFour(n: nat)
    requires n < 0x1_0000_0000
    ensures var b := U32(n);
            b[0] as nat + 0x100 * b[1] as nat + 0x1_0000 * b[2] as nat + 0x100_0000 * b[3] as nat == n
  {
    U32Wraps(n);
    assert U32(n)[..2] == [U32(n)[0], U32(n)[1]] && U32(n)[2..] == [U32(n)[2], U32(n)[3]];
  }

  /** Eight bytes of magic, the version 1, the dimension and the count; then the records. */
  lemma HeaderLayout(dim: nat, rs: seq<Record>, text: Text)
    requires dim < 0x1_0000_0000 && |rs| < 0x1_0000_0000
    ensures var out := Encode(dim, rs, text);
            && |out| >= 18 && out[..8] == Ascii("AGBBSRVF") && out[8] == 1 && out[9] == 0
            && out[10] as nat + 0x100 * out[11] as nat + 0x1_0000 * out[12] as nat + 0x100_0000 * out[13] as nat == dim
            && out[14] as nat + 0x100 * out[15] as nat + 0x1_0000 * out[16] as nat + 0x100_0000 * out[17] as nat
               == |rs|
            && out[18..] == EncodeRecords(rs, text)
  {
    var out := Encode(dim, rs, text);
    LowByteFirstOfFour(dim);
    LowByteFirstOfFour(|rs|);
    assert out[8..10] == U16(1) && out[10..14] == U32(dim) && out[14..18] == U32(|rs|);
    assert out[10] == out[10..14][0] && out[11] == out[10..14][1] && out[12] == out[10..14][2]
           && out[13] == out[10..14][3];
    assert out[14] == out[14..18][0] && out[15] == out[14..18][1] && out[16] == out[14..18][2]
           && out[17] == out[14..18][3];
  }

  /** Where word `i` stands. */
  lemma {:induction false} WordLayout(vector: seq<Word>, i: nat)
    requires i < |vector|
    ensures Flat(vector)[4 * i..4 * i + 4] == vector[i]
  {
    if i > 0 {
      WordLayout(vector[1..], i - 1);
      var rest := Flat(vector[1..]);
      assert Flat(vector)[4 * i..4 * i + 4] == rest[4 * (i - 1)..4 * (i - 1) + 4];
    }
  }

  /** Id length, id, metadata length, metadata, then the words one after the other. */
  lemma RecordLayout(r: Record, text: Text)
    requires |r.id| < 0x1_0000 && |text.json(r.meta)| < 0x1_0000_0000
    ensures var out, n, m := EncodeRecord(r, text), |r.id|, |text.json(r.meta)|;
            && |out| == 2 + n + 4 + m + 4 * |r.vector|
            && out[0] as nat + 0x100 * out[1] as nat == n && out[2..2 + n] == r.id
            && out[2 + n] as nat + 0x100 * out[3 + n] as nat + 0x1_0000 * out[4 + n] as nat
               + 0x100_0000 * out[5 + n] as nat == m
            && out[6 + n..6 + n + m] == text.json(r.meta)
            && out[6 + n + m..] == Flat(r.vector)
  {
    var out, n, m := EncodeRecord(r, text), |r.id|, |text.json(r.meta)|;
    LowByteFirst(n);
    LowByteFirstOfFour(m);
    assert out[..2] == U16(n) && out[2 + n..6 + n] == U32(m);
    var len := out[2 + n..6 + n];
    assert out[2 + n] == len[0] && out[3 + n] == len[1] && out[4 + n] == len[2] && out[5 + n] == len[3];
  }

  /** Records follow one another without a gap. */
  lemma {:induction false} RecordsInOrder(rs: seq<Record>, more: seq<Record>, text: Text)
    ensures EncodeRecords(rs + more, text) == EncodeRecords(rs, text) + EncodeRecords(more, text)
  {
    if rs == [] {
      assert rs + more == more;
    } else {
      assert (rs + more)[1..] == rs[1..] + more;
      RecordsInOrder(rs[1..], more, text);
    }
  }

  /** Only that magic and that version are read. */
  lemma OtherHeadersAreRefused(s: Bytes, text: Text)
    requires |s| >= 18
    ensures s[..8] != Ascii("AGBBSRVF") || s[8] != 1 || s[9] != 0 ==> Decode(s, text) == Err(Malformed)
  {
    if s[..8] == Ascii("AGBBSRVF") {
      assert s[8..][..2] == [s[8], s[9]];
    }
  }
}
