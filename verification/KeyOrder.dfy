/** Which order canonical keys are sorted in (src/canonical.rs): Rust compares
    UTF-8 bytes, which orders strings by Unicode scalar value; UTF-16 code
    units agree on the Basic Multilingual Plane and not beyond it. */
module KeyOrder {
  import opened Text

  lemma {:induction false} CommonPrefix(p: seq<int>, u: seq<int>, w: seq<int>)
    ensures LexLeq(p + u, p + w) <==> LexLeq(u, w)
  {
    if |p| == 0 {
      assert p + u == u && p + w == w;
    } else {
      assert (p + u)[1..] == p[1..] + u && (p + w)[1..] == p[1..] + w;
      CommonPrefix(p[1..], u, w);
    }
  }

  /** `x` comes before `y` at their first difference, at position `k`. */
  ghost predicate FirstDifference(x: seq<int>, y: seq<int>, k: nat) {
    k < |x| && k < |y| && x[..k] == y[..k] && x[k] < y[k]
  }

  lemma DifferenceDecides(x: seq<int>, y: seq<int>, k: nat, u: seq<int>, w: seq<int>)
    requires FirstDifference(x, y, k)
    ensures LexLeq(x + u, y + w) && !LexLeq(y + w, x + u)
  {
    assert x + u == x[..k] + ([x[k]] + (x[k+1..] + u));
    assert y + w == x[..k] + ([y[k]] + (y[k+1..] + w));
    CommonPrefix(x[..k], [x[k]] + (x[k+1..] + u), [y[k]] + (y[k+1..] + w));
    CommonPrefix(x[..k], [y[k]] + (y[k+1..] + w), [x[k]] + (x[k+1..] + u));
  }

  /** Codes of characters in scalar order differ first upwards. */
  lemma CodesInOrder(c: char, d: char) returns (k: nat)
    requires c < d
    ensures FirstDifference(CharBytes(c), CharBytes(d), k)
  {
    var x, y := CharBytes(c), CharBytes(d);
    CodeReads(c);
    CodeReads(d);
    k := 0;
    if x[0] == y[0] {
      k := 1;
      if x[1] == y[1] {
        k := 2;
        if x[2] == y[2] {
          k := 3;
        }
      }
    }
  }

  /** Comparing UTF-8 bytes is comparing scalar values. */
  lemma {:induction false} ByteOrderIsScalarOrder(a: string, b: string)
    ensures LexLeq(Utf8(a), Utf8(b)) <==> StrLeq(a, b)
  {
    if |a| == 0 || |b| == 0 {
    } else {
      assert Codes(a)[1..] == Codes(a[1..]) && Codes(b)[1..] == Codes(b[1..]);
      if a[0] == b[0] {
        CommonPrefix(CharBytes(a[0]), Utf8(a[1..]), Utf8(b[1..]));
        ByteOrderIsScalarOrder(a[1..], b[1..]);
      } else if a[0] < b[0] {
        var k := CodesInOrder(a[0], b[0]);
        DifferenceDecides(CharBytes(a[0]), CharBytes(b[0]), k, Utf8(a[1..]), Utf8(b[1..]));
      } else {
        var k := CodesInOrder(b[0], a[0]);
        DifferenceDecides(CharBytes(b[0]), CharBytes(a[0]), k, Utf8(b[1..]), Utf8(a[1..]));
      }
    }
  }

  // ---------- UTF-16 code units ----------

  function CharUnits(c: char): seq<int> {
    var n := c as int;
    if n < 0x1_0000 then [n] else [0xD800 + (n - 0x1_0000) / 0x400, 0xDC00 + (n - 0x1_0000) % 0x400]
  }

  /** The code units JavaScript's `sort` compares. */
  function Utf16(s: string): seq<int> {
    if |s| == 0 then [] else CharUnits(s[0]) + Utf16(s[1..])
  }

  predicate BasicPlane(s: string) {
    forall i :: 0 <= i < |s| ==> s[i] as int < 0x1_0000
  }

  /** UTF-16 puts `c` and `d` the other way round than scalar order: one lies in
      U+E000..U+FFFF, above the surrogates, and the other beyond the plane. */
  predicate SwapsChars(c: char, d: char) {
    || (0xE000 <= c as int < 0x1_0000 <= d as int)
    || (0xE000 <= d as int < 0x1_0000 <= c as int)
  }

  /** The first characters in which the strings differ are such a pair. */
  predicate Swaps(a: string, b: string) {
    && |a| > 0 && |b| > 0
    && if a[0] == b[0] then Swaps(a[1..], b[1..]) else SwapsChars(a[0], b[0])
  }

  /** Different characters first differ in some code unit, in scalar order
      exactly when they are not such a pair. */
  lemma UnitsDiffer(c: char, d: char) returns (k: nat)
    requires c < d
    ensures SwapsChars(c, d) ==> FirstDifference(CharUnits(d), CharUnits(c), k)
    ensures !SwapsChars(c, d) ==> FirstDifference(CharUnits(c), CharUnits(d), k)
  {
    k := if CharUnits(c)[0] == CharUnits(d)[0] then 1 else 0;
  }

  lemma UnitOrder(c: char, d: char, u: seq<int>, w: seq<int>)
    requires c < d
    ensures LexLeq(CharUnits(c) + u, CharUnits(d) + w) <==> !SwapsChars(c, d)
    ensures LexLeq(CharUnits(d) + w, CharUnits(c) + u) <==> SwapsChars(c, d)
  {
    var k := UnitsDiffer(c, d);
    if SwapsChars(c, d) {
      DifferenceDecides(CharUnits(d), CharUnits(c), k, w, u);
    } else {
      DifferenceDecides(CharUnits(c), CharUnits(d), k, u, w);
    }
  }

  /** The two orders agree on a pair of keys exactly when the first characters
      in which the keys differ are not one in U+E000..U+FFFF and one beyond the
      Basic Multilingual Plane. */
  lemma {:induction false} OrdersAgreeIff(a: string, b: string)
    ensures (LexLeq(Utf16(a), Utf16(b)) <==> StrLeq(a, b)) <==> !Swaps(a, b)
  {
    if |a| == 0 || |b| == 0 {
    } else {
      assert Codes(a)[1..] == Codes(a[1..]) && Codes(b)[1..] == Codes(b[1..]);
      if a[0] == b[0] {
        CommonPrefix(CharUnits(a[0]), Utf16(a[1..]), Utf16(b[1..]));
        OrdersAgreeIff(a[1..], b[1..]);
      } else if a[0] < b[0] {
        UnitOrder(a[0], b[0], Utf16(a[1..]), Utf16(b[1..]));
      } else {
        UnitOrder(b[0], a[0], Utf16(b[1..]), Utf16(a[1..]));
      }
    }
  }

  lemma {:induction false} BasicPlaneNeverSwaps(a: string, b: string)
    requires BasicPlane(a) && BasicPlane(b)
    ensures !Swaps(a, b)
  {
    if |a| == 0 || |b| == 0 {
    } else {
      assert a[0] as int < 0x1_0000 && b[0] as int < 0x1_0000;
      assert forall i :: 0 <= i < |a[1..]| ==> a[1..][i] == a[i+1];
      assert forall i :: 0 <= i < |b[1..]| ==> b[1..][i] == b[i+1];
      BasicPlaneNeverSwaps(a[1..], b[1..]);
    }
  }

  /** In particular they agree on the Basic Multilingual Plane. */
  lemma OrdersAgreeOnBasicPlane(a: string, b: string)
    requires BasicPlane(a) && BasicPlane(b)
    ensures LexLeq(Utf16(a), Utf16(b)) <==> StrLeq(a, b)
  {
    BasicPlaneNeverSwaps(a, b);
    OrdersAgreeIff(a, b);
  }

  /** A pair of keys that the two orders put in opposite places. */
  lemma OrdersDifferBeyond()
    ensures var a, b := "\U{FF61}", "\U{10002}";
      StrLeq(a, b) && !StrLeq(b, a) && LexLeq(Utf16(b), Utf16(a)) && !LexLeq(Utf16(a), Utf16(b))
  {
    var a, b := "\U{FF61}", "\U{10002}";
    assert Codes(a)[0] == 0xFF61 && Codes(b)[0] == 0x10002;
    assert Utf16(a)[0] == 0xFF61 && Utf16(b)[0] == 0xD800;
  }
}
