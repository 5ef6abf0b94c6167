/** JSON values and their compact text. A value is read back from its text in
    exactly one way, whatever follows it. */
module Json {
  import opened Text

  /** `serde_json::Value`, with object members in insertion order. An integer
      number is its value; any other number is the token its printer emits. */
  datatype Value =
    | Null
    | Bool(b: bool)
    | Int(n: int)
    | Float(token: FloatToken)
    | String(s: string)
    | Array(items: seq<Value>)
    | Object(members: seq<Member>)

  datatype Member = Member(key: string, value: Value)

  predicate IsNumberChar(c: char) {
    IsDigit(c) || c in "+-.eE"
  }

  /** A non-integer number token: number characters, with a fraction or an exponent. */
  predicate IsFloatToken(t: string) {
    && (forall i :: 0 <= i < |t| ==> IsNumberChar(t[i]))
    && (exists i :: 0 <= i < |t| && t[i] in ".e")
  }

  type FloatToken = t: string | IsFloatToken(t) witness (assert "0.0"[1] == '.'; "0.0")

  /** Member keys are distinct at every depth, as `serde_json::Map` keeps them. */
  predicate WellFormed(v: Value)
    decreases v
  {
    match v
    case Array(items) => forall i :: 0 <= i < |items| ==> WellFormed(items[i])
    case Object(ms) => DistinctKeys(ms) && forall i :: 0 <= i < |ms| ==> WellFormed(ms[i].value)
    case _ => true
  }

  predicate DistinctKeys(ms: seq<Member>) {
    forall i, j :: 0 <= i < j < |ms| ==> ms[i].key != ms[j].key
  }

  // ---------- strings: section 7 of RFC 8259 ----------

  function EscapeChar(c: char): (r: string)
    ensures |r| > 0 && r[0] != '"'
  {
    if c == '"' then "\\\""
    else if c == '\\' then "\\\\"
    else if c == 0x08 as char then "\\b"
    else if c == '\t' then "\\t"
    else if c == '\n' then "\\n"
    else if c == 0x0C as char then "\\f"
    else if c == '\r' then "\\r"
    else if c < ' ' then "\\u00" + [HexDigit(c as int / 16), HexDigit(c as int % 16)]
    else [c]
  }

  function Escape(s: string): string {
    if |s| == 0 then "" else EscapeChar(s[0]) + Escape(s[1..])
  }

  function Quote(s: string): string {
    "\"" + (Escape(s) + "\"")
  }

  // ---------- compact text ----------

  function Print(v: Value): string
    decreases v, 0
  {
    match v
    case Null => "null"
    case Bool(b) => if b then "true" else "false"
    case Int(n) => Decimal(n)
    case Float(t) => t
    case String(s) => Quote(s)
    case Array(items) => "[" + PrintItems(items)
    case Object(ms) => "{" + PrintMembers(ms)
  }

  /** An array's text after its bracket. */
  function PrintItems(items: seq<Value>): string
    decreases items, 1
  {
    if |items| == 0 then "]" else Print(items[0]) + PrintMoreItems(items[1..])
  }

  function PrintMoreItems(items: seq<Value>): string
    decreases items, 0
  {
    if |items| == 0 then "]" else "," + (Print(items[0]) + PrintMoreItems(items[1..]))
  }

  function PrintMember(m: Member): string
    decreases m
  {
    Quote(m.key) + (":" + Print(m.value))
  }

  /** An object's text after its brace. */
  function PrintMembers(ms: seq<Member>): string
    decreases ms, 1
  {
    if |ms| == 0 then "}" else PrintMember(ms[0]) + PrintMoreMembers(ms[1..])
  }

  function PrintMoreMembers(ms: seq<Member>): string
    decreases ms, 0
  {
    if |ms| == 0 then "}" else "," + (PrintMember(ms[0]) + PrintMoreMembers(ms[1..]))
  }
}
