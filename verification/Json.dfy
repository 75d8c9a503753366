/** JSON values, the text the builder writes for them, and a reader for JSON texts
    (sections 2 to 7 of RFC 8259). */
module Json {
  import opened Wrappers
  import opened Decimal
  import opened JsonNumber

  /** Strings are bytes in UTF-8; numbers with a fraction or an exponent stay as they are written. */
  datatype Value =
    | Null
    | Bool(b: bool)
    | Number(n: int)
    | Fraction(numeral: Fractional)
    | String(s: string)
    | Array(elements: seq<Value>)
    | Object(members: seq<Member>)

  datatype Member = Member(key: string, value: Value)

  // ----------------------------------------------------------------------------- escaping

  const HEX := "0123456789abcdef"

  function EscapeChar(c: char): string {
    if c == '"' then "\\\""
    else if c == '\\' then "\\\\"
    else if c == 8 as char then "\\b"
    else if c == 12 as char then "\\f"
    else if c == '\n' then "\\n"
    else if c == '\r' then "\\r"
    else if c == '\t' then "\\t"
    else if c < ' ' then "\\u00" + [HEX[c as int / 16], HEX[c as int % 16]]
    else [c]
  }

  function Escape(s: string): string {
    if s == "" then "" else EscapeChar(s[0]) + Escape(s[1..])
  }

  function Quoted(s: string): string {
    "\"" + Escape(s) + "\""
  }

  function HexValue(c: char): Option<nat> {
    if '0' <= c <= '9' then Some(c as int - '0' as int)
    else if 'a' <= c <= 'f' then Some(c as int - 'a' as int + 10)
    else if 'A' <= c <= 'F' then Some(c as int - 'A' as int + 10)
    else None
  }

  type CodeUnit = n: nat | n < 0x1_0000

  /** A character as it is written, or the code unit of an escape. */
  datatype Unit = Raw(c: char) | Coded(code: CodeUnit)

  /** The code unit of four hexadecimal digits. */
  function HexCode(s: string): Option<CodeUnit>
    requires |s| == 4
  {
    var a :- HexValue(s[0]);
    var b :- HexValue(s[1]);
    var c :- HexValue(s[2]);
    var d :- HexValue(s[3]);
    Some(4096 * a + 256 * b + 16 * c + d)
  }

  /** The character a two-character escape stands for. */
  function ShortEscape(c: char): Option<char> {
    if c == '"' || c == '\\' || c == '/' then Some(c)
    else if c == 'b' then Some(8 as char)
    else if c == 'f' then Some(12 as char)
    else if c == 'n' then Some('\n')
    else if c == 'r' then Some('\r')
    else if c == 't' then Some('\t')
    else None
  }

  /** One character of a string, written as itself or escaped; the quote and the control
      characters do not stand for themselves. */
  function ReadUnit(s: string): (r: Option<(Unit, string)>)
    requires s != ""
    ensures r.Some? ==> |r.value.1| < |s|
  {
    if s[0] == '"' || s[0] < ' ' then None
    else if s[0] != '\\' then Some((Raw(s[0]), s[1..]))
    else if |s| < 2 then None
    else if s[1] == 'u' then
      if |s| < 6 then None
      else
        var code :- HexCode(s[2..6]);
        Some((Coded(code), s[6..]))
    else
      var c :- ShortEscape(s[1]);
      Some((Raw(c), s[2..]))
  }

  /** The rest of a string, up to its closing quote. */
  function ReadUnits(s: string): (r: Option<(seq<Unit>, string)>)
    ensures r.Some? ==> |r.value.1| < |s|
    decreases |s|
  {
    if s == "" then None
    else if s[0] == '"' then Some(([], s[1..]))
    else
      var (u, rest) :- ReadUnit(s);
      var (us, rest') :- ReadUnits(rest);
      Some(([u] + us, rest'))
  }

  function Continuation(n: nat): char {
    (0x80 + n % 0x40) as char
  }

  /** A code point in UTF-8 (section 3 of RFC 3629); a surrogate without its partner is encoded like
      any other code unit. */
  function Utf8(code: nat): string
    requires code < 0x11_0000
  {
    if code < 0x80 then [code as char]
    else if code < 0x800 then [(0xC0 + code / 0x40) as char, Continuation(code)]
    else if code < 0x1_0000 then [(0xE0 + code / 0x1000) as char, Continuation(code / 0x40), Continuation(code)]
    else [(0xF0 + code / 0x4_0000) as char, Continuation(code / 0x1000), Continuation(code / 0x40), Continuation(code)]
  }

  /** Two escapes that together stand for one code point. */
  predicate IsPair(high: Unit, low: Unit) {
    high.Coded? && low.Coded? && 0xD800 <= high.code < 0xDC00 && 0xDC00 <= low.code < 0xE000
  }

  /** The bytes of a string. */
  function StringBytes(us: seq<Unit>): string
    decreases |us|
  {
    if us == [] then ""
    else if 1 < |us| && IsPair(us[0], us[1]) then
      Utf8(0x1_0000 + (us[0].code - 0xD800) * 0x400 + (us[1].code - 0xDC00)) + StringBytes(us[2..])
    else
      (match us[0]
       case Raw(c) => [c]
       case Coded(code) => Utf8(code)) + StringBytes(us[1..])
  }

  function ReadString(s: string): (r: Option<(string, string)>)
    ensures r.Some? ==> |r.value.1| < |s|
  {
    var (us, rest) :- ReadUnits(s);
    Some((StringBytes(us), rest))
  }

  // ----------------------------------------------------------------------------- printing

  /** Where line breaks go: nowhere, or one line per element at a depth of indentation. */
  datatype Spacing = Compact | Indented(level: nat, indent: nat)

  function Blanks(n: nat): string {
    seq(n, i => ' ')
  }

  function Inner(sp: Spacing): Spacing {
    if sp.Compact? then sp else Indented(sp.level + 1, sp.indent)
  }

  function LineBreak(sp: Spacing): string {
    if sp.Compact? then "" else "\n" + Blanks(sp.level * sp.indent)
  }

  function Gap(sp: Spacing): string {
    if sp.Compact? then "" else " "
  }

  function Print(v: Value, sp: Spacing): string
    decreases v
  {
    match v
    case Null => "null"
    case Bool(b) => if b then "true" else "false"
    case Number(n) => Numeral(n)
    case Fraction(w) => w
    case String(s) => Quoted(s)
    case Array(vs) => "[" + LineBreak(Inner(sp)) + PrintElements(vs, sp) + LineBreak(sp) + "]"
    case Object(ms) =>
      "{" + LineBreak(Inner(sp)) + PrintMembers(ms, LineBreak(Inner(sp)), Gap(sp), Inner(sp)) + LineBreak(sp) + "}"
  }

  function PrintElements(vs: seq<Value>, sp: Spacing): string
    decreases vs
  {
    if vs == [] then ""
    else if |vs| == 1 then Print(vs[0], Inner(sp))
    else Print(vs[0], Inner(sp)) + "," + LineBreak(Inner(sp)) + PrintElements(vs[1..], sp)
  }

  /** Members with their values in a spacing of their own. */
  function PrintMembers(ms: seq<Member>, separator: string, gap: string, inner: Spacing): string
    decreases ms
  {
    if ms == [] then ""
    else
      var first := Quoted(ms[0].key) + ":" + gap + Print(ms[0].value, inner);
      if |ms| == 1 then first else first + "," + separator + PrintMembers(ms[1..], separator, gap, inner)
  }

  // ------------------------------------------------------------------------------ reading

  predicate IsBlank(c: char) {
    c == ' ' || c == '\t' || c == '\n' || c == '\r'
  }

  function Skip(s: string): (r: string)
    ensures |r| <= |s|
    ensures r != "" ==> !IsBlank(r[0])
  {
    if s != "" && IsBlank(s[0]) then Skip(s[1..]) else s
  }

  predicate Leads(s: string, word: string) {
    |word| <= |s| && s[..|word|] == word
  }

  /** What a numeral stands for. */
  function NumberValue(w: string): Value
    requires NumberEnd(w) == Some("")
  {
    if HasPoint(w) then Fraction(w) else Number(IntegerValue(w))
  }

  function ReadNumber(s: string): (r: Option<(Value, string)>)
    ensures r.Some? ==> |r.value.1| < |s|
  {
    var rest :- NumberEnd(s);
    NumberAlone(s);
    Some((NumberValue(s[..|s| - |rest|]), rest))
  }

  function ReadScalar(t: string): (r: Option<(Value, string)>)
    ensures r.Some? ==> |r.value.1| < |t|
  {
    if Leads(t, "true") then Some((Bool(true), t[4..]))
    else if Leads(t, "false") then Some((Bool(false), t[5..]))
    else if Leads(t, "null") then Some((Null, t[4..]))
    else ReadNumber(t)
  }

  function ReadValue(s: string): (r: Option<(Value, string)>)
    ensures r.Some? ==> |r.value.1| < |s|
    decreases |s|, 0
  {
    var t := Skip(s);
    if t == "" then None
    else if t[0] == '{' then
      var u := Skip(t[1..]);
      if u != "" && u[0] == '}' then Some((Object([]), u[1..]))
      else
        var (ms, rest) :- ReadMembers(t[1..]);
        Some((Object(ms), rest))
    else if t[0] == '[' then
      var u := Skip(t[1..]);
      if u != "" && u[0] == ']' then Some((Array([]), u[1..]))
      else
        var (vs, rest) :- ReadElements(t[1..]);
        Some((Array(vs), rest))
    else if t[0] == '"' then
      var (cs, rest) :- ReadString(t[1..]);
      Some((String(cs), rest))
    else ReadScalar(t)
  }

  /** Elements and the closing bracket. */
  function ReadElements(s: string): (r: Option<(seq<Value>, string)>)
    ensures r.Some? ==> |r.value.1| < |s|
    decreases |s|, 1
  {
    var (v, rest) :- ReadValue(s);
    var t := Skip(rest);
    if t == "" then None
    else if t[0] == ']' then Some(([v], t[1..]))
    else if t[0] != ',' then None
    else
      var (vs, rest') :- ReadElements(t[1..]);
      Some(([v] + vs, rest'))
  }

  /** Members and the closing brace. */
  function ReadMembers(s: string): (r: Option<(seq<Member>, string)>)
    ensures r.Some? ==> |r.value.1| < |s|
    decreases |s|, 1
  {
    var t := Skip(s);
    if t == "" || t[0] != '"' then None
    else
      var (key, afterKey) :- ReadString(t[1..]);
      var u := Skip(afterKey);
      if u == "" || u[0] != ':' then None
      else
        var (v, rest) :- ReadValue(u[1..]);
        var w := Skip(rest);
        if w == "" then None
        else if w[0] == '}' then Some(([Member(key, v)], w[1..]))
        else if w[0] != ',' then None
        else
          var (ms, rest') :- ReadMembers(w[1..]);
          Some(([Member(key, v)] + ms, rest'))
  }

  /** A whole JSON text. */
  function ReadText(s: string): Option<Value> {
    var (v, rest) :- ReadValue(s);
    if Skip(rest) == "" then Some(v) else None
  }
}
