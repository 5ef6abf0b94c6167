/** Strings and bytes: `str` order, UTF-8, hex, decimal numerals and little-endian integers. */
module Text {
  import opened Types
  import opened Sequences

  // ---------- lexicographic order ----------

  predicate LexLeq(a: seq<int>, b: seq<int>) {
    |a| == 0 || (|b| > 0 && (a[0] < b[0] || (a[0] == b[0] && LexLeq(a[1..], b[1..]))))
  }

  lemma {:induction false} LexTotal(a: seq<int>, b: seq<int>)
    ensures LexLeq(a, b) || LexLeq(b, a)
  {
    if |a| == 0 || |b| == 0 {
    } else {
      LexTotal(a[1..], b[1..]);
    }
  }

  lemma {:induction false} LexTransitive(a: seq<int>, b: seq<int>, c: seq<int>)
    requires LexLeq(a, b) && LexLeq(b, c)
    ensures LexLeq(a, c)
  {
    if |a| == 0 || a[0] < b[0] || b[0] < c[0] {
    } else {
      LexTransitive(a[1..], b[1..], c[1..]);
    }
  }

  lemma {:induction false} LexAntisymmetric(a: seq<int>, b: seq<int>)
    requires LexLeq(a, b) && LexLeq(b, a)
    ensures a == b
  {
    if |a| == 0 {
    } else {
      LexAntisymmetric(a[1..], b[1..]);
      assert a == [a[0]] + a[1..] && b == [b[0]] + b[1..];
    }
  }

  function Codes(s: string): seq<int> {
    seq(|s|, i requires 0 <= i < |s| => s[i] as int)
  }

  /** Rust's `str` order: Unicode scalar values compared left to right. */
  predicate StrLeq(a: string, b: string) {
    LexLeq(Codes(a), Codes(b))
  }

  lemma StrAntisymmetric(a: string, b: string)
    requires StrLeq(a, b) && StrLeq(b, a)
    ensures a == b
  {
    LexAntisymmetric(Codes(a), Codes(b));
    assert |a| == |Codes(a)| == |b|;
    forall i | 0 <= i < |a| ensures a[i] == b[i] {
      assert Codes(a)[i] == Codes(b)[i];
    }
  }

  lemma StrOrder()
    ensures TotalPreorder(StrLeq)
  {
    forall a, b ensures StrLeq(a, b) || StrLeq(b, a) {
      LexTotal(Codes(a), Codes(b));
    }
    forall a, b, c | StrLeq(a, b) && StrLeq(b, c) ensures StrLeq(a, c) {
      LexTransitive(Codes(a), Codes(b), Codes(c));
    }
  }

  /** What lexicographic order means: a prefix comes first, and otherwise the
      first difference decides. */
  lemma {:induction false} LexLeqMeans(a: seq<int>, b: seq<int>)
    ensures LexLeq(a, b) <==> a <= b || exists k :: DiffersFirst(a, b, k)
  {
    if |a| == 0 || |b| == 0 {
    } else {
      var x, y := a[1..], b[1..];
      LexLeqMeans(x, y);
      forall k | DiffersFirst(a, b, k) ensures a[0] <= b[0] {
        FirstNotAbove(a, b, k);
      }
      if a[0] == b[0] {
        assert a == [a[0]] + x && b == [b[0]] + y;
        forall k | DiffersFirst(a, b, k) ensures DiffersFirst(x, y, k - 1) {
          assert a[..k][0] == a[0] && a[..k][1..] == x[..k-1] && b[..k][1..] == y[..k-1];
        }
        forall k | DiffersFirst(x, y, k) ensures DiffersFirst(a, b, k + 1) {
          assert a[..k+1] == [a[0]] + x[..k] && b[..k+1] == [b[0]] + y[..k];
        }
      } else if a[0] < b[0] {
        assert DiffersFirst(a, b, 0);
      }
    }
  }

  lemma FirstNotAbove(a: seq<int>, b: seq<int>, k: int)
    requires DiffersFirst(a, b, k)
    ensures a[0] <= b[0]
  {
    if k > 0 {
      assert a[..k][0] == a[0] && b[..k][0] == b[0];
    }
  }

  /** `a` and `b` agree up to position `k`, where `a` has the smaller element. */
  ghost predicate DiffersFirst(a: seq<int>, b: seq<int>, k: int) {
    0 <= k < |a| && k < |b| && a[..k] == b[..k] && a[k] < b[k]
  }

  /** So strings compare by their first differing character, prefixes first. */
  lemma StrLeqMeans(a: string, b: string)
    ensures StrLeq(a, b) <==>
      a <= b || exists k :: 0 <= k < |a| && k < |b| && a[..k] == b[..k] && a[k] < b[k]
  {
    var x, y := Codes(a), Codes(b);
    LexLeqMeans(x, y);
    CodesPrefix(a, b, |a|);
    forall k | 0 <= k < |a| && k < |b|
      ensures DiffersFirst(x, y, k) <==> a[..k] == b[..k] && a[k] < b[k]
    {
      CodesPrefix(a, b, k);
    }
  }

  lemma CodesPrefix(a: string, b: string, k: nat)
    requires k <= |a|
    ensures k <= |b| ==> (Codes(a)[..k] == Codes(b)[..k] <==> a[..k] == b[..k])
    ensures k == |a| ==> (Codes(a) <= Codes(b) <==> a <= b)
  {
    if k <= |b| {
      if Codes(a)[..k] == Codes(b)[..k] {
        forall i | 0 <= i < k ensures a[i] == b[i] {
          assert Codes(a)[..k][i] == Codes(b)[..k][i];
        }
      }
      if a[..k] == b[..k] {
        forall i | 0 <= i < k ensures Codes(a)[i] == Codes(b)[i] {
          assert a[..k][i] == b[..k][i];
        }
      }
    }
  }

  // ---------- UTF-8 ----------

  function CharBytes(c: char): (r: seq<Byte>)
    ensures |r| > 0 && |r| == CodeLength(r[0])
  {
    var n := c as int;
    if n < 0x80 then [n]
    else if n < 0x800 then [0xC0 + n / 64, 0x80 + n % 64]
    else if n < 0x1_0000 then [0xE0 + n / 64 / 64, 0x80 + (n / 64) % 64, 0x80 + n % 64]
    else [0xF0 + n / 64 / 64 / 64, 0x80 + (n / 64 / 64) % 64, 0x80 + (n / 64) % 64, 0x80 + n % 64]
  }

  /** The number of bytes a UTF-8 lead byte announces. */
  function CodeLength(lead: Byte): nat {
    if lead < 0x80 then 1 else if lead < 0xE0 then 2 else if lead < 0xF0 then 3 else 4
  }

  /** The scalar value a whole code spells: the payload bits of its bytes. */
  function CodeValue(p: seq<int>): int
    requires |p| > 0
  {
    if |p| == 1 then p[0]
    else if |p| == 2 then p[0] % 0x20 * 64 + p[1] % 0x40
    else if |p| == 3 then (p[0] % 0x10 * 64 + p[1] % 0x40) * 64 + p[2] % 0x40
    else if |p| == 4 then ((p[0] % 0x08 * 64 + p[1] % 0x40) * 64 + p[2] % 0x40) * 64 + p[3] % 0x40
    else 0
  }

  lemma Payload(x: nat, marker: nat, size: nat)
    requires (marker, size) in {(0xC0, 0x20), (0xE0, 0x10), (0xF0, 0x08), (0x80, 0x40)} && x < size
    ensures (marker + x) % size == x
  {}

  lemma SixBits(n: nat)
    ensures n == n / 64 * 64 + n % 64
  {}

  /** A code reads back as its character. */
  lemma CodeReads(c: char)
    ensures CodeValue(CharBytes(c)) == c as int
  {
    var n := c as int;
    var x := n / 64;
    var y := x / 64;
    SixBits(n);
    SixBits(x);
    SixBits(y);
    Payload(n % 64, 0x80, 0x40);
    Payload(x % 64, 0x80, 0x40);
    Payload(y % 64, 0x80, 0x40);
    if n < 0x80 {
    } else if n < 0x800 {
      Payload(x, 0xC0, 0x20);
    } else if n < 0x1_0000 {
      Payload(y, 0xE0, 0x10);
    } else {
      Payload(y / 64, 0xF0, 0x08);
    }
  }

  /** Lead and continuation bytes lie in the ranges of section 3 of RFC 3629, and
      each character has the shortest code. */
  lemma CodeForm(c: char)
    ensures var p := CharBytes(c);
      && |p| == (if c as int < 0x80 then 1 else if c as int < 0x800 then 2 else if c as int < 0x1_0000 then 3 else 4)
      && (|p| == 1 ==> p[0] < 0x80)
      && (|p| == 2 ==> 0xC0 <= p[0] < 0xE0)
      && (|p| == 3 ==> 0xE0 <= p[0] < 0xF0)
      && (|p| == 4 ==> 0xF0 <= p[0] < 0xF8)
      && forall i :: 0 < i < |p| ==> 0x80 <= p[i] < 0xC0
  {}

  /** `str::as_bytes`. */
  function Utf8(s: string): seq<Byte> {
    if |s| == 0 then [] else CharBytes(s[0]) + Utf8(s[1..])
  }

  /** The lead byte fixes the length of a code and the bytes fix the character. */
  lemma CharBytesCut(c: char, d: char, u: seq<Byte>, w: seq<Byte>)
    requires CharBytes(c) + u == CharBytes(d) + w
    ensures c == d && u == w
  {
    var p, q := CharBytes(c), CharBytes(d);
    assert p[0] == (p + u)[0] && q[0] == (q + w)[0];
    Split(p, u, q, w);
    CodeReads(c);
    CodeReads(d);
    assert c as int == d as int;
  }

  lemma {:induction false} Utf8Injective(a: string, b: string)
    requires Utf8(a) == Utf8(b)
    ensures a == b
  {
    if |a| == 0 || |b| == 0 {
    } else {
      CharBytesCut(a[0], b[0], Utf8(a[1..]), Utf8(b[1..]));
      Utf8Injective(a[1..], b[1..]);
      assert a == [a[0]] + a[1..] && b == [b[0]] + b[1..];
    }
  }

  lemma {:induction false} Utf8Appends(a: string, b: string)
    ensures Utf8(a + b) == Utf8(a) + Utf8(b)
  {
    if |a| == 0 {
      assert a + b == b;
    } else {
      assert (a + b)[0] == a[0] && (a + b)[1..] == a[1..] + b;
      Utf8Appends(a[1..], b);
    }
  }

  predicate IsAscii(s: string) {
    forall i :: 0 <= i < |s| ==> s[i] < 0x80 as char
  }

  lemma {:induction false} AsciiBytes(s: string)
    requires IsAscii(s)
    ensures Utf8(s) == Codes(s)
  {
    if |s| == 0 {
    } else {
      assert s[0] < 0x80 as char;
      assert forall i :: 0 <= i < |s[1..]| ==> s[1..][i] == s[i+1];
      AsciiBytes(s[1..]);
      assert Codes(s) == [s[0] as int] + Codes(s[1..]);
    }
  }

  // ---------- hex ----------

  function HexDigit(d: int): char
    requires 0 <= d < 16
  {
    if d < 10 then '0' + d as char else 'a' + (d - 10) as char
  }

  /** `hex::encode`. */
  function HexEncode(bs: seq<Byte>): string {
    if |bs| == 0 then [] else [HexDigit(bs[0] / 16), HexDigit(bs[0] % 16)] + HexEncode(bs[1..])
  }

  /** Two lower-case digits a byte, the high half first. */
  lemma {:induction false} HexReads(bs: seq<Byte>, i: nat)
    requires i < |bs|
    ensures |HexEncode(bs)| == 2 * |bs|
    ensures HexEncode(bs)[2 * i] == "0123456789abcdef"[bs[i] / 16]
    ensures HexEncode(bs)[2 * i + 1] == "0123456789abcdef"[bs[i] % 16]
  {
    var rest := HexEncode(bs[1..]);
    HexLength(bs[1..]);
    HexDigitIs(bs[0] / 16);
    HexDigitIs(bs[0] % 16);
    if i > 0 {
      HexReads(bs[1..], i - 1);
      assert HexEncode(bs)[2 * i] == rest[2 * (i - 1)] && HexEncode(bs)[2 * i + 1] == rest[2 * (i - 1) + 1];
    }
  }

  lemma {:induction false} HexLength(bs: seq<Byte>)
    ensures |HexEncode(bs)| == 2 * |bs|
  {
    if |bs| == 0 {
    } else {
      HexLength(bs[1..]);
    }
  }

  lemma HexDigitIs(d: int)
    requires 0 <= d < 16
    ensures HexDigit(d) == "0123456789abcdef"[d]
  {}

  lemma {:induction false} HexInjective(a: seq<Byte>, b: seq<Byte>)
    requires HexEncode(a) == HexEncode(b)
    ensures a == b
  {
    if |a| == 0 || |b| == 0 {
    } else {
      var p, q := HexEncode(a), HexEncode(b);
      assert p[0] == q[0] && p[1] == q[1];
      assert HexEncode(a[1..]) == p[2..] && HexEncode(b[1..]) == q[2..];
      HexInjective(a[1..], b[1..]);
      assert a == [a[0]] + a[1..] && b == [b[0]] + b[1..];
    }
  }

  // ---------- decimal numerals ----------

  function Digit(d: int): char
    requires 0 <= d < 10
  {
    '0' + d as char
  }

  predicate IsDigit(c: char) {
    '0' <= c <= '9'
  }

  function DecimalNat(n: nat): (r: string)
    ensures |r| > 0 && forall i :: 0 <= i < |r| ==> IsDigit(r[i])
  {
    if n < 10 then [Digit(n)] else DecimalNat(n / 10) + [Digit(n % 10)]
  }

  /** The compact decimal form of an integer. */
  function Decimal(n: int): string {
    if n < 0 then "-" + DecimalNat(-n) else DecimalNat(n)
  }

  function NatValue(s: string): int
    requires forall i :: 0 <= i < |s| ==> IsDigit(s[i])
  {
    if |s| == 0 then 0 else NatValue(s[..|s|-1]) * 10 + (s[|s|-1] as int - '0' as int)
  }

  lemma {:induction false} DecimalReads(n: nat)
    ensures NatValue(DecimalNat(n)) == n
  {
    var s := DecimalNat(n);
    if n < 10 {
      assert s[..0] == "";
    } else {
      DecimalReads(n / 10);
      assert s[..|s|-1] == DecimalNat(n / 10);
    }
  }

  /** No numeral but zero starts with a zero (section 6 of RFC 8259). */
  lemma {:induction false} NoLeadingZero(n: nat)
    ensures n > 0 ==> DecimalNat(n)[0] != '0'
    ensures n == 0 ==> DecimalNat(n) == "0"
  {
    if n < 10 {
    } else {
      NoLeadingZero(n / 10);
      assert DecimalNat(n)[0] == DecimalNat(n / 10)[0];
    }
  }

  /** An integer's text: a minus sign exactly for a negative one, then its
      magnitude, read most significant digit first, without padding. */
  lemma DecimalForm(n: int)
    ensures var s := Decimal(n); var digits := if n < 0 then s[1..] else s;
      && |s| > 0 && (n < 0 ==> s[0] == '-')
      && |digits| > 0 && (forall i :: 0 <= i < |digits| ==> '0' <= digits[i] <= '9')
      && NatValue(digits) == AbsDiff(n, 0)
      && (|digits| > 1 ==> digits[0] != '0')
  {
    var m := AbsDiff(n, 0);
    DecimalReads(m);
    NoLeadingZero(m);
    if n < 0 {
      assert Decimal(n)[1..] == DecimalNat(m);
    }
  }

  lemma SignShows(a: int, b: int)
    requires a < 0 <= b
    ensures Decimal(a) != Decimal(b)
  {
    assert Decimal(a)[0] == '-' && IsDigit(Decimal(b)[0]);
  }

  lemma DecimalInjective(a: int, b: int)
    requires Decimal(a) == Decimal(b)
    ensures a == b
  {
    if a < 0 <= b {
      SignShows(a, b);
    } else if b < 0 <= a {
      SignShows(b, a);
    } else if a < 0 {
      Cancel("-", DecimalNat(-a), DecimalNat(-b));
      DecimalReads(-a);
      DecimalReads(-b);
    } else {
      DecimalReads(a);
      DecimalReads(b);
    }
  }

  // ---------- little-endian integers ----------

  function Pow256(w: nat): nat {
    if w == 0 then 1 else 256 * Pow256(w - 1)
  }

  /** The low `w` bytes of `n`, least significant first (`to_le_bytes`). */
  function LittleEndian(n: nat, w: nat): (r: seq<Byte>)
    ensures |r| == w
  {
    if w == 0 then [] else [n % 256] + LittleEndian(n / 256, w - 1)
  }

  /** The number the bytes spell, least significant first (`from_le_bytes`). */
  function FromLittleEndian(bs: seq<Byte>): nat {
    if |bs| == 0 then 0 else bs[0] + 256 * FromLittleEndian(bs[1..])
  }

  lemma {:induction false} LittleEndianReads(n: nat, w: nat)
    requires n < Pow256(w)
    ensures FromLittleEndian(LittleEndian(n, w)) == n
  {
    if w == 0 {
    } else {
      LittleEndianReads(n / 256, w - 1);
      assert LittleEndian(n, w)[1..] == LittleEndian(n / 256, w - 1);
    }
  }

  /** Fixed widths, and each integer reads back from its bytes. */
  lemma IntegersRead(a: U32, b: U64, c: U128)
    ensures |LE32(a)| == 4 && FromLittleEndian(LE32(a)) == a
    ensures |LE64(b)| == 8 && FromLittleEndian(LE64(b)) == b
    ensures |LE128(c)| == 16 && FromLittleEndian(LE128(c)) == c
  {
    Widths();
    LittleEndianReads(a, 4);
    LittleEndianReads(b, 8);
    LittleEndianReads(c, 16);
  }

  lemma {:induction false} LittleEndianInjective(a: nat, b: nat, w: nat)
    requires a < Pow256(w) && b < Pow256(w)
    requires LittleEndian(a, w) == LittleEndian(b, w)
    ensures a == b
  {
    if w == 0 {
    } else {
      var p, q := LittleEndian(a, w), LittleEndian(b, w);
      assert p[0] == q[0] && p[1..] == q[1..];
      LittleEndianInjective(a / 256, b / 256, w - 1);
    }
  }

  function LE32(n: U32): seq<Byte> { LittleEndian(n, 4) }
  function LE64(n: U64): seq<Byte> { LittleEndian(n, 8) }
  function LE128(n: U128): seq<Byte> { LittleEndian(n, 16) }

  lemma Widths()
    ensures Pow256(4) == 0x1_0000_0000 && Pow256(8) == TWO_64 && Pow256(16) == TWO_128
  {
    assert Pow256(2) == 0x1_0000;
    assert Pow256(4) == 0x1_0000_0000;
    assert Pow256(6) == 0x1_0000_0000_0000;
    assert Pow256(8) == TWO_64;
    assert Pow256(10) == 0x1_0000 * TWO_64;
    assert Pow256(12) == 0x1_0000_0000 * TWO_64;
    assert Pow256(14) == 0x1_0000_0000_0000 * TWO_64;
  }

  lemma LE32Injective(a: U32, b: U32)
    requires LE32(a) == LE32(b)
    ensures a == b
  { Widths(); LittleEndianInjective(a, b, 4); }

  lemma LE64Injective(a: U64, b: U64)
    requires LE64(a) == LE64(b)
    ensures a == b
  { Widths(); LittleEndianInjective(a, b, 8); }

  lemma LE128Injective(a: U128, b: U128)
    requires LE128(a) == LE128(b)
    ensures a == b
  { Widths(); LittleEndianInjective(a, b, 16); }
}
