/** Unique readability of compact JSON text: equal texts, however continued,
    come from equal values and leave equal continuations. */
module Readability {
  import opened Sequences
  import opened Text
  import opened Json

  /** Reassociates a printed head and its rest with the continuation. */
  lemma Shift(x: string, more: string, s: string)
    ensures (x + more) + s == x + (more + s)
  {}

  // ---------- strings ----------

  /** An escape is announced by a backslash and its kind by the next character. */
  lemma EscapeLength(c: char)
    ensures var p := EscapeChar(c);
      |p| == if p[0] != '\\' then 1 else if p[1] != 'u' then 2 else 6
  {}

  lemma EscapeCharInjective(c: char, d: char)
    requires EscapeChar(c) == EscapeChar(d)
    ensures c == d
  {
    var p := EscapeChar(c);
    if |p| == 6 {
      assert p[4] == HexDigit(c as int / 16) && p[5] == HexDigit(c as int % 16);
      assert p[4] == HexDigit(d as int / 16) && p[5] == HexDigit(d as int % 16);
    }
  }

  lemma EscapeCharCut(c: char, d: char, s: string, t: string)
    requires EscapeChar(c) + s == EscapeChar(d) + t
    ensures c == d && s == t
  {
    var p, q := EscapeChar(c), EscapeChar(d);
    EscapeLength(c);
    EscapeLength(d);
    assert p[0] == (p + s)[0] && q[0] == (q + t)[0];
    assert |p| > 1 ==> p[1] == (p + s)[1];
    assert |q| > 1 ==> q[1] == (q + t)[1];
    Split(p, s, q, t);
    EscapeCharInjective(c, d);
  }

  lemma {:induction false} EscapeCut(a: string, b: string, s: string, t: string)
    requires Escape(a) + ("\"" + s) == Escape(b) + ("\"" + t)
    ensures a == b && s == t
    decreases |a| + |b|
  {
    if |a| == 0 && |b| == 0 {
      assert Escape(a) + ("\"" + s) == "\"" + s && Escape(b) + ("\"" + t) == "\"" + t;
      Cancel("\"", s, t);
    } else if |a| == 0 {
      QuoteEnds(b, s, t);
    } else if |b| == 0 {
      QuoteEnds(a, t, s);
    } else {
      Shift(EscapeChar(a[0]), Escape(a[1..]), "\"" + s);
      Shift(EscapeChar(b[0]), Escape(b[1..]), "\"" + t);
      EscapeCharCut(a[0], b[0], Escape(a[1..]) + ("\"" + s), Escape(b[1..]) + ("\"" + t));
      EscapeCut(a[1..], b[1..], s, t);
      assert a == [a[0]] + a[1..] && b == [b[0]] + b[1..];
    }
  }

  /** No escaped character starts with the closing quote. */
  lemma QuoteEnds(b: string, s: string, t: string)
    requires |b| > 0
    ensures "\"" + s != Escape(b) + ("\"" + t)
  {
    assert ("\"" + s)[0] == '"';
    assert (Escape(b) + ("\"" + t))[0] == EscapeChar(b[0])[0];
  }

  function HexValue(c: char): int {
    if '0' <= c <= '9' then c as int - '0' as int
    else if 'a' <= c <= 'f' then c as int - 'a' as int + 10
    else if 'A' <= c <= 'F' then c as int - 'A' as int + 10
    else 0
  }

  /** What a two-character escape stands for (section 7 of RFC 8259). */
  function Unescaped(c: char): char {
    match c
    case 'b' => 0x08 as char
    case 't' => 0x09 as char
    case 'n' => 0x0A as char
    case 'f' => 0x0C as char
    case 'r' => 0x0D as char
    case _ => c
  }

  /** The string a JSON reader gets back from the text between the quotes,
      for escapes up to U+00FF. */
  function Unescape(t: string): string {
    if |t| == 0 then ""
    else if t[0] != '\\' || |t| == 1 then [t[0]] + Unescape(t[1..])
    else if t[1] != 'u' || |t| < 6 then [Unescaped(t[1])] + Unescape(t[2..])
    else [(HexValue(t[4]) * 16 + HexValue(t[5])) as char] + Unescape(t[6..])
  }

  lemma UnescapeFirst(c: char, rest: string)
    ensures Unescape(EscapeChar(c) + rest) == [c] + Unescape(rest)
  {
    var p := EscapeChar(c);
    var t := p + rest;
    EscapeLength(c);
    assert t[0] == p[0] && t[|p|..] == rest;
    if |p| >= 2 { assert t[1] == p[1]; }
    if |p| == 6 {
      assert t[4] == p[4] == HexDigit(c as int / 16) && t[5] == p[5] == HexDigit(c as int % 16);
    }
  }

  /** A reader following RFC 8259 recovers every string from its escaped text. */
  lemma {:induction false} UnescapeRoundTrip(s: string)
    ensures Unescape(Escape(s)) == s
  {
    if |s| == 0 {
    } else {
      UnescapeFirst(s[0], Escape(s[1..]));
      UnescapeRoundTrip(s[1..]);
    }
  }

  /** Escaped text holds no control characters, as the standard requires. */
  lemma {:induction false} EscapeHidesControls(s: string)
    ensures forall i :: 0 <= i < |Escape(s)| ==> Escape(s)[i] >= ' '
  {
    if |s| == 0 {
    } else {
      EscapeHidesControls(s[1..]);
    }
  }

  /** Which characters are escaped and how: the two quotes and the five short
      forms, other controls by four hex digits, and nothing else. */
  lemma EscapeForms(c: char)
    ensures c >= ' ' && c != '"' && c != '\\' ==> EscapeChar(c) == [c]
    ensures c == '"' || c == '\\' ==> EscapeChar(c) == "\\" + [c]
    ensures c == 0x08 as char ==> EscapeChar(c) == "\\b"
    ensures c == 0x09 as char ==> EscapeChar(c) == "\\t"
    ensures c == 0x0A as char ==> EscapeChar(c) == "\\n"
    ensures c == 0x0C as char ==> EscapeChar(c) == "\\f"
    ensures c == 0x0D as char ==> EscapeChar(c) == "\\r"
    ensures c < ' ' && (c as int < 8 || c as int == 11 || c as int > 13) ==>
      EscapeChar(c) == "\\u00" + ["0123456789abcdef"[c as int / 16], "0123456789abcdef"[c as int % 16]]
  {
    if c < ' ' {
      HexDigitIs(c as int / 16);
      HexDigitIs(c as int % 16);
    }
  }

  lemma {:induction false} PlainTextIsUnescaped(s: string)
    requires forall i :: 0 <= i < |s| ==> ' ' <= s[i] && s[i] != '"' && s[i] != '\\'
    ensures Escape(s) == s
  {
    if |s| == 0 {
    } else {
      PlainTextIsUnescaped(s[1..]);
      assert s == [s[0]] + s[1..];
    }
  }

  lemma QuoteCut(a: string, b: string, s: string, t: string)
    requires Quote(a) + s == Quote(b) + t
    ensures a == b && s == t
  {
    var u, w := Escape(a) + ("\"" + s), Escape(b) + ("\"" + t);
    assert Quote(a) + s == "\"" + u && Quote(b) + t == "\"" + w;
    Cancel("\"", u, w);
    EscapeCut(a, b, s, t);
  }

  // ---------- numbers ----------

  /** What may follow a value inside a document. */
  predicate Stops(s: string) {
    |s| == 0 || s[0] in ",]}"
  }

  predicate NumberText(x: string) {
    |x| > 0 && forall i :: 0 <= i < |x| ==> IsNumberChar(x[i])
  }

  lemma ShorterNumber(x: string, y: string, s: string, t: string)
    requires NumberText(y) && Stops(s) && |x| < |y|
    ensures x + s != y + t
  {
    assert (y + t)[|x|] == y[|x|];
    assert |s| > 0 ==> (x + s)[|x|] == s[0];
  }

  lemma NumberCut(x: string, y: string, s: string, t: string)
    requires NumberText(x) && NumberText(y) && Stops(s) && Stops(t)
    requires x + s == y + t
    ensures x == y && s == t
  {
    if |x| < |y| {
      ShorterNumber(x, y, s, t);
    } else if |y| < |x| {
      ShorterNumber(y, x, t, s);
    } else {
      Split(x, s, y, t);
    }
  }

  lemma NumberIsText(v: Value)
    requires v.Int? || v.Float?
    ensures NumberText(Print(v))
  {
    if v.Int? && v.n < 0 {
      var d := DecimalNat(-v.n);
      assert Print(v) == "-" + d;
    }
    if v.Float? {
      var i :| 0 <= i < |v.token| && v.token[i] in ".e";
    }
  }

  lemma SameNumber(a: Value, b: Value)
    requires (a.Int? || a.Float?) && (b.Int? || b.Float?) && Print(a) == Print(b)
    ensures a == b
  {
    if a.Int? && b.Int? {
      DecimalInjective(a.n, b.n);
    } else if a.Int? {
      NoFraction(a.n, b.token);
    } else if b.Int? {
      NoFraction(b.n, a.token);
    }
  }

  lemma NoFraction(n: int, t: FloatToken)
    ensures Decimal(n) != t
  {
    var i :| 0 <= i < |t| && t[i] in ".e";
    var d := Decimal(n);
    assert forall k :: 0 <= k < |d| ==> IsDigit(d[k]) || d[k] == '-';
  }

  // ---------- values ----------

  /** The first character of a value's text tells its kind. */
  function Kind(v: Value): char {
    match v
    case Null => 'n'
    case Bool(b) => if b then 't' else 'f'
    case Int(_) => '0'
    case Float(_) => '0'
    case String(_) => '"'
    case Array(_) => '['
    case Object(_) => '{'
  }

  lemma FirstChar(v: Value)
    ensures |Print(v)| > 0
    ensures if Kind(v) == '0' then IsNumberChar(Print(v)[0]) else Print(v)[0] == Kind(v)
  {
    if v.Int? || v.Float? { NumberIsText(v); }
  }

  lemma SameKind(a: Value, b: Value, s: string, t: string)
    requires Print(a) + s == Print(b) + t
    ensures Kind(a) == Kind(b)
  {
    FirstChar(a);
    FirstChar(b);
    assert (Print(a) + s)[0] == Print(a)[0] && (Print(b) + t)[0] == Print(b)[0];
  }

  /** Unique readability: a document's value and continuation are determined by its text. */
  lemma {:induction false} PrintCut(a: Value, b: Value, s: string, t: string)
    requires Stops(s) && Stops(t)
    requires Print(a) + s == Print(b) + t
    ensures a == b && s == t
    decreases a, 0
  {
    SameKind(a, b, s, t);
    match a
    case Null => Cancel("null", s, t);
    case Bool(x) => Cancel(Print(a), s, t);
    case String(x) => QuoteCut(x, b.s, s, t);
    case Array(xs) =>
      BracketCut("[", PrintItems(xs), PrintItems(b.items), s, t);
      ItemsCut(xs, b.items, s, t);
    case Object(ms) =>
      BracketCut("{", PrintMembers(ms), PrintMembers(b.members), s, t);
      MembersCut(ms, b.members, s, t);
    case _ =>
      NumberIsText(a);
      NumberIsText(b);
      NumberCut(Print(a), Print(b), s, t);
      SameNumber(a, b);
  }

  lemma BracketCut(open: string, x: string, y: string, s: string, t: string)
    requires (open + x) + s == (open + y) + t
    ensures x + s == y + t
  {
    assert (open + x) + s == open + (x + s) && (open + y) + t == open + (y + t);
    Cancel(open, x + s, y + t);
  }

  lemma {:induction false} ItemsCut(xs: seq<Value>, ys: seq<Value>, s: string, t: string)
    requires PrintItems(xs) + s == PrintItems(ys) + t
    ensures xs == ys && s == t
    decreases xs, 2
  {
    if |xs| == 0 && |ys| == 0 {
      Cancel("]", s, t);
    } else if |xs| == 0 {
      EmptyDiffers(ys, s, t);
    } else if |ys| == 0 {
      EmptyDiffers(xs, t, s);
    } else {
      var u, w := PrintMoreItems(xs[1..]) + s, PrintMoreItems(ys[1..]) + t;
      Shift(Print(xs[0]), PrintMoreItems(xs[1..]), s);
      Shift(Print(ys[0]), PrintMoreItems(ys[1..]), t);
      MoreItemsStop(xs[1..], s);
      MoreItemsStop(ys[1..], t);
      PrintCut(xs[0], ys[0], u, w);
      MoreItemsCut(xs[1..], ys[1..], s, t);
      assert xs == [xs[0]] + xs[1..] && ys == [ys[0]] + ys[1..];
    }
  }

  lemma EmptyDiffers(ys: seq<Value>, s: string, t: string)
    requires |ys| > 0
    ensures "]" + s != PrintItems(ys) + t
  {
    FirstChar(ys[0]);
    assert ("]" + s)[0] == ']' && (PrintItems(ys) + t)[0] == Print(ys[0])[0];
  }

  lemma MoreItemsStop(xs: seq<Value>, s: string)
    ensures Stops(PrintMoreItems(xs) + s)
  {
    assert (PrintMoreItems(xs) + s)[0] == PrintMoreItems(xs)[0];
  }

  lemma {:induction false} MoreItemsCut(xs: seq<Value>, ys: seq<Value>, s: string, t: string)
    requires PrintMoreItems(xs) + s == PrintMoreItems(ys) + t
    ensures xs == ys && s == t
    decreases xs, 1
  {
    assert (PrintMoreItems(xs) + s)[0] == PrintMoreItems(xs)[0];
    assert (PrintMoreItems(ys) + t)[0] == PrintMoreItems(ys)[0];
    if |xs| == 0 {
      Cancel("]", s, t);
    } else {
      var u, w := PrintMoreItems(xs[1..]) + s, PrintMoreItems(ys[1..]) + t;
      BracketCut(",", Print(xs[0]) + PrintMoreItems(xs[1..]), Print(ys[0]) + PrintMoreItems(ys[1..]), s, t);
      Shift(Print(xs[0]), PrintMoreItems(xs[1..]), s);
      Shift(Print(ys[0]), PrintMoreItems(ys[1..]), t);
      MoreItemsStop(xs[1..], s);
      MoreItemsStop(ys[1..], t);
      PrintCut(xs[0], ys[0], u, w);
      MoreItemsCut(xs[1..], ys[1..], s, t);
      assert xs == [xs[0]] + xs[1..] && ys == [ys[0]] + ys[1..];
    }
  }

  lemma {:induction false} MemberCut(a: Member, b: Member, s: string, t: string)
    requires Stops(s) && Stops(t)
    requires PrintMember(a) + s == PrintMember(b) + t
    ensures a == b && s == t
    decreases a, 1
  {
    Shift(Quote(a.key), ":" + Print(a.value), s);
    Shift(Quote(b.key), ":" + Print(b.value), t);
    QuoteCut(a.key, b.key, (":" + Print(a.value)) + s, (":" + Print(b.value)) + t);
    BracketCut(":", Print(a.value), Print(b.value), s, t);
    PrintCut(a.value, b.value, s, t);
  }

  lemma {:induction false} MembersCut(xs: seq<Member>, ys: seq<Member>, s: string, t: string)
    requires PrintMembers(xs) + s == PrintMembers(ys) + t
    ensures xs == ys && s == t
    decreases xs, 2
  {
    assert (PrintMembers(xs) + s)[0] == PrintMembers(xs)[0];
    assert (PrintMembers(ys) + t)[0] == PrintMembers(ys)[0];
    if |xs| == 0 {
      Cancel("}", s, t);
    } else {
      var u, w := PrintMoreMembers(xs[1..]) + s, PrintMoreMembers(ys[1..]) + t;
      Shift(PrintMember(xs[0]), PrintMoreMembers(xs[1..]), s);
      Shift(PrintMember(ys[0]), PrintMoreMembers(ys[1..]), t);
      MoreMembersStop(xs[1..], s);
      MoreMembersStop(ys[1..], t);
      MemberCut(xs[0], ys[0], u, w);
      MoreMembersCut(xs[1..], ys[1..], s, t);
      assert xs == [xs[0]] + xs[1..] && ys == [ys[0]] + ys[1..];
    }
  }

  lemma MoreMembersStop(xs: seq<Member>, s: string)
    ensures Stops(PrintMoreMembers(xs) + s)
  {
    assert (PrintMoreMembers(xs) + s)[0] == PrintMoreMembers(xs)[0];
  }

  lemma {:induction false} MoreMembersCut(xs: seq<Member>, ys: seq<Member>, s: string, t: string)
    requires PrintMoreMembers(xs) + s == PrintMoreMembers(ys) + t
    ensures xs == ys && s == t
    decreases xs, 1
  {
    assert (PrintMoreMembers(xs) + s)[0] == PrintMoreMembers(xs)[0];
    assert (PrintMoreMembers(ys) + t)[0] == PrintMoreMembers(ys)[0];
    if |xs| == 0 {
      Cancel("}", s, t);
    } else {
      var u, w := PrintMoreMembers(xs[1..]) + s, PrintMoreMembers(ys[1..]) + t;
      BracketCut(",", PrintMember(xs[0]) + PrintMoreMembers(xs[1..]),
                 PrintMember(ys[0]) + PrintMoreMembers(ys[1..]), s, t);
      Shift(PrintMember(xs[0]), PrintMoreMembers(xs[1..]), s);
      Shift(PrintMember(ys[0]), PrintMoreMembers(ys[1..]), t);
      MoreMembersStop(xs[1..], s);
      MoreMembersStop(ys[1..], t);
      MemberCut(xs[0], ys[0], u, w);
      MoreMembersCut(xs[1..], ys[1..], s, t);
      assert xs == [xs[0]] + xs[1..] && ys == [ys[0]] + ys[1..];
    }
  }

  /** Printing is injective on whole documents. */
  lemma PrintInjective(a: Value, b: Value)
    requires Print(a) == Print(b)
    ensures a == b
  {
    assert Print(a) + "" == Print(a) && Print(b) + "" == Print(b);
    PrintCut(a, b, "", "");
  }

  /** A string is escaped character by character. */
  lemma {:induction false} EscapeAppends(a: string, b: string)
    ensures Escape(a + b) == Escape(a) + Escape(b)
  {
    if |a| == 0 {
      assert a + b == b;
    } else {
      assert (a + b)[0] == a[0] && (a + b)[1..] == a[1..] + b;
      EscapeAppends(a[1..], b);
      Shift(EscapeChar(a[0]), Escape(a[1..]), Escape(b));
    }
  }

  lemma EscapeOne(c: char)
    ensures Escape([c]) == EscapeChar(c)
  {
    assert [c][1..] == "";
    assert EscapeChar(c) + "" == EscapeChar(c);
  }

  // ---------- the punctuation ----------

  /** The texts with a separator between neighbours. */
  function Joined(texts: seq<string>, sep: string): string {
    if |texts| == 0 then ""
    else if |texts| == 1 then texts[0]
    else texts[0] + (sep + Joined(texts[1..], sep))
  }

  lemma ScalarTexts(b: bool, n: int, s: string, t: FloatToken)
    ensures Print(Null) == "null" && Print(Bool(true)) == "true" && Print(Bool(false)) == "false"
    ensures Print(Int(n)) == Decimal(n) && Print(Float(t)) == t && Print(String(s)) == "\"" + (Escape(s) + "\"")
  {}

  /** An array is its items' texts, in order, between brackets and commas. */
  lemma ArrayText(items: seq<Value>)
    ensures Print(Array(items)) == "[" + (Joined(Map(Print, items), ",") + "]")
  {
    var texts := Map(Print, items);
    if |items| == 0 {
      assert Joined(texts, ",") + "]" == "]";
    } else {
      MoreItemsText(items[1..], texts[0]);
      assert texts[1..] == Map(Print, items[1..]);
      assert [texts[0]] + Map(Print, items[1..]) == texts;
    }
  }

  lemma {:induction false} MoreItemsText(items: seq<Value>, first: string)
    ensures first + PrintMoreItems(items) == Joined([first] + Map(Print, items), ",") + "]"
  {
    var texts := Map(Print, items);
    var all := [first] + texts;
    assert all[1..] == texts;
    if |items| == 0 {
    } else {
      MoreItemsText(items[1..], texts[0]);
      assert [texts[0]] + Map(Print, items[1..]) == texts;
      Regrouped(first, ",", Joined(texts, ","), "]");
    }
  }

  lemma Regrouped(a: string, b: string, c: string, d: string)
    ensures a + (b + (c + d)) == (a + (b + c)) + d
  {}

  /** An object is its members' texts, in order, between braces and commas. */
  lemma ObjectText(ms: seq<Member>)
    ensures Print(Object(ms)) == "{" + (Joined(Map(MemberText, ms), ",") + "}")
  {
    var texts := Map(MemberText, ms);
    if |ms| == 0 {
      assert Joined(texts, ",") + "}" == "}";
    } else {
      MoreMembersText(ms[1..], texts[0]);
      assert [texts[0]] + Map(MemberText, ms[1..]) == texts;
      assert texts[0] == PrintMember(ms[0]);
      assert PrintMembers(ms) == Joined(texts, ",") + "}";
    }
  }

  /** A quoted key, a colon and the value's text. */
  function MemberText(m: Member): string {
    ("\"" + (Escape(m.key) + "\"")) + (":" + Print(m.value))
  }

  lemma {:induction false} MoreMembersText(ms: seq<Member>, first: string)
    ensures first + PrintMoreMembers(ms) == Joined([first] + Map(MemberText, ms), ",") + "}"
  {
    var texts := Map(MemberText, ms);
    var all := [first] + texts;
    assert all[1..] == texts;
    if |ms| == 0 {
    } else {
      MoreMembersText(ms[1..], texts[0]);
      assert [texts[0]] + Map(MemberText, ms[1..]) == texts;
      Regrouped(first, ",", Joined(texts, ","), "}");
    }
  }

  // ---------- texts spelled out by hand ----------

  /** A literal that spells a separator, a quoted key and a colon. */
  predicate Introduces(literal: string, before: string, key: string) {
    && (forall i :: 0 <= i < |key| ==> ' ' <= key[i] && key[i] != '"' && key[i] != '\\')
    && literal == before + ("\"" + key + "\":")
  }

  lemma FieldText(literal: string, before: string, m: Member, rest: string)
    requires Introduces(literal, before, m.key)
    ensures before + (PrintMember(m) + rest) == literal + (Print(m.value) + rest)
  {
    PlainTextIsUnescaped(m.key);
    FieldRegroups(before, m.key, Print(m.value), rest);
  }

  lemma FieldRegroups(before: string, key: string, value: string, rest: string)
    ensures before + (("\"" + (key + "\"") + (":" + value)) + rest) == (before + ("\"" + key + "\":")) + (value + rest)
  {}

  lemma MoreAt(ms: seq<Member>, i: nat)
    requires i < |ms|
    ensures PrintMoreMembers(ms[i..]) == "," + (PrintMember(ms[i]) + PrintMoreMembers(ms[i+1..]))
  {
    assert ms[i..][0] == ms[i] && ms[i..][1..] == ms[i+1..];
  }

  lemma NextField(ms: seq<Member>, i: nat, literal: string)
    requires i < |ms| && Introduces(literal, ",", ms[i].key)
    ensures PrintMoreMembers(ms[i..]) == literal + (Print(ms[i].value) + PrintMoreMembers(ms[i+1..]))
  {
    MoreAt(ms, i);
    FieldText(literal, ",", ms[i], PrintMoreMembers(ms[i+1..]));
  }
}
