/** Byte strings and the two framings the canonical encodings use:
    separator-terminated fields and decimal length prefixes. */
module Bytes {
  newtype byte = x: int | 0 <= x < 256

  type Bytes = seq<byte>

  const NEWLINE: byte := 10
  const COLON: byte := 58
  const DASH: byte := 45

  /** The bytes of an ASCII literal. */
  function Ascii(s: string): (r: Bytes)
    requires forall i :: 0 <= i < |s| ==> s[i] < 128 as char
    ensures |r| == |s|
    ensures forall i :: 0 <= i < |s| ==> r[i] as int == s[i] as int
  {
    seq(|s|, i requires 0 <= i < |s| => s[i] as int as byte)
  }

  /** `field` cannot be confused with what follows a terminating `sep`. */
  predicate Free(sep: byte, field: Bytes) {
    forall i :: 0 <= i < |field| ==> field[i] != sep
  }

  /** A separator-free field is recovered from whatever follows its separator. */
  lemma SplitAtSeparator(sep: byte, a: Bytes, x: Bytes, b: Bytes, y: Bytes)
    requires Free(sep, a) && Free(sep, b)
    requires a + [sep] + x == b + [sep] + y
    ensures a == b && x == y
  {
    var s, t := a + [sep] + x, b + [sep] + y;
    assert s[|a|] == sep && forall i :: 0 <= i < |a| ==> s[i] == a[i] != sep;
    assert t[|b|] == sep && forall i :: 0 <= i < |b| ==> t[i] == b[i] != sep;
    assert a == s[..|a|] && b == t[..|b|];
    assert x == s[|a| + 1..] && y == t[|b| + 1..];
  }

  /** Decimal rendering of a length, as `format!("{}")` prints it. */
  function Decimal(n: nat): (r: Bytes)
    ensures |r| > 0
    ensures forall i :: 0 <= i < |r| ==> 48 <= r[i] <= 57
  {
    if n < 10 then [(48 + n) as byte] else Decimal(n / 10) + [(48 + n % 10) as byte]
  }

  /** The number a digit string denotes. */
  function Value(digits: Bytes): int {
    if digits == [] then 0
    else Value(digits[..|digits| - 1]) * 10 + (digits[|digits| - 1] as int - 48)
  }

  lemma {:induction false} ValueOfDecimal(n: nat)
    ensures Value(Decimal(n)) == n
  {
    if n < 10 {
      assert Decimal(n)[..0] == [];
    } else {
      ValueOfDecimal(n / 10);
      var d := Decimal(n);
      assert d[..|d| - 1] == Decimal(n / 10);
    }
  }

  /** `len:payload`, the length-prefixed framing. */
  function Prefixed(p: Bytes): Bytes {
    Decimal(|p|) + [COLON] + p
  }

  /** Length prefixing recovers both the payload and the rest of the buffer, whatever
      bytes the payload holds. */
  lemma SplitPrefixed(p: Bytes, x: Bytes, q: Bytes, y: Bytes)
    requires Prefixed(p) + x == Prefixed(q) + y
    ensures p == q && x == y
  {
    assert Prefixed(p) + x == Decimal(|p|) + [COLON] + (p + x);
    assert Prefixed(q) + y == Decimal(|q|) + [COLON] + (q + y);
    SplitAtSeparator(COLON, Decimal(|p|), p + x, Decimal(|q|), q + y);
    ValueOfDecimal(|p|);
    ValueOfDecimal(|q|);
    assert p == (p + x)[..|p|] && q == (q + y)[..|q|];
    assert x == (p + x)[|p|..] && y == (q + y)[|q|..];
  }

  /** Lexicographic order. */
  predicate BytesLe(a: Bytes, b: Bytes) {
    a == [] || (b != [] && (a[0] < b[0] || (a[0] == b[0] && BytesLe(a[1..], b[1..]))))
  }

  /** The shorter of two strings one of which continues the other comes first; otherwise the
      first byte in which they differ decides. */
  lemma {:induction false} BytesLeIsLexicographic(a: Bytes, b: Bytes)
    ensures BytesLe(a, b) <==> a <= b || exists i: nat :: i < |a| && i < |b| && a[..i] == b[..i] && a[i] < b[i]
  {
    if a != [] && b != [] {
      var a', b' := a[1..], b[1..];
      assert a == [a[0]] + a' && b == [b[0]] + b';
      BytesLeIsLexicographic(a', b');
      if a[0] < b[0] {
        assert a[..0] == b[..0];
      } else if a[0] == b[0] {
        forall i: nat | i < |a'| && i < |b'| ensures a[..i + 1] == b[..i + 1] <==> a'[..i] == b'[..i] {
          assert a[..i + 1] == [a[0]] + a'[..i] && b[..i + 1] == [b[0]] + b'[..i];
        }
        if i: nat :| i < |a'| && i < |b'| && a'[..i] == b'[..i] && a'[i] < b'[i] {
          assert a[..i + 1] == b[..i + 1] && a[i + 1] < b[i + 1];
        }
        if i: nat :| i < |a| && i < |b| && a[..i] == b[..i] && a[i] < b[i] {
          assert i > 0 && a'[..i - 1] == b'[..i - 1] && a'[i - 1] < b'[i - 1];
        }
      } else {
        assert forall i: nat | i < |a| && i < |b| :: a[..i] == b[..i] ==> i == 0 || a[..i][0] == b[..i][0];
      }
    }
  }

  lemma BytesLeTotal(a: Bytes, b: Bytes)
    ensures BytesLe(a, b) || BytesLe(b, a)
    ensures BytesLe(a, b) && BytesLe(b, a) ==> a == b
  {
    if a != [] && b != [] && a[0] == b[0] {
      BytesLeTotal(a[1..], b[1..]);
      assert a == [a[0]] + a[1..] && b == [b[0]] + b[1..];
    }
  }

  lemma BytesLeTransitive(a: Bytes, b: Bytes, c: Bytes)
    requires BytesLe(a, b) && BytesLe(b, c)
    ensures BytesLe(a, c)
  {
    if a != [] && a[0] == b[0] == c[0] {
      BytesLeTransitive(a[1..], b[1..], c[1..]);
    }
  }
}
