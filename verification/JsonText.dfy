/**
 JSON texts: printing as JSON.stringify does without indentation, and parsing by the grammar of
 RFC 8259. A surrogate escape is refused.
 */
module JsonText {
  import opened Wrappers
  import opened Text
  import opened JsonNumber

  datatype Json =
    | Null
    | Bool(b: bool)
    | Num(value: Number)
    | Str(text: string)
    | Arr(items: seq<Json>)
    | Obj(members: seq<Member>)

  datatype Member = Member(name: string, value: Json)

  // ---- Printing ----

  function HexDigit(d: nat): (c: char)
    requires d < 16
  {
    if d < 10 then DigitChar(d) else ('a' as int + d - 10) as char
  }

  /** Section 7 of RFC 8259, in the short forms ECMAScript chooses. */
  function EscapeChar(c: char): string {
    if c == '\"' then "\\\""
    else if c == '\\' then "\\\\"
    else if c == '\U{0008}' then "\\b"
    else if c == '\t' then "\\t"
    else if c == '\n' then "\\n"
    else if c == '\U{000C}' then "\\f"
    else if c == '\r' then "\\r"
    else if c < ' ' then ['\\', 'u', '0', '0', HexDigit(c as int / 16), HexDigit(c as int % 16)]
    else [c]
  }

  function Escape(s: string): string {
    if s == [] then [] else EscapeChar(s[0]) + Escape(s[1..])
  }

  function Quote(s: string): string {
    ['\"'] + (Escape(s) + ['\"'])
  }

  function Print(v: Json): string {
    match v
    case Null => "null"
    case Bool(b) => if b then "true" else "false"
    case Num(n) => PrintNumber(n)
    case Str(s) => Quote(s)
    case Arr(items) => ['['] + (PrintItems(items) + [']'])
    case Obj(members) => ['{'] + (PrintMembers(members) + ['}'])
  }

  function PrintItems(items: seq<Json>): string {
    if items == [] then []
    else if |items| == 1 then Print(items[0])
    else Print(items[0]) + ([','] + PrintItems(items[1..]))
  }

  function PrintMembers(members: seq<Member>): string {
    if members == [] then []
    else if |members| == 1 then PrintMember(members[0])
    else PrintMember(members[0]) + ([','] + PrintMembers(members[1..]))
  }

  function PrintMember(m: Member): string {
    Quote(m.name) + ([':'] + Print(m.value))
  }

  // ---- Parsing ----

  predicate IsWs(c: char) {
    c == ' ' || c == '\t' || c == '\n' || c == '\r'
  }

  function SkipWs(s: string): (r: string)
    ensures |r| <= |s|
  {
    if s != [] && IsWs(s[0]) then SkipWs(s[1..]) else s
  }

  predicate IsHex(c: char) {
    IsDigit(c) || 'a' <= c <= 'f' || 'A' <= c <= 'F'
  }

  function HexValue(c: char): (d: nat)
    requires IsHex(c)
    ensures d < 16
  {
    if IsDigit(c) then DigitValue(c)
    else if 'a' <= c <= 'f' then c as int - 'a' as int + 10
    else c as int - 'A' as int + 10
  }

  /** The character an escape stands for; s follows the backslash. */
  function ReadEscape(s: string): (r: Read<char>)
    ensures r.Read? ==> |r.rest| < |s|
  {
    if s == [] then Fail
    else if s[0] == '\"' || s[0] == '\\' || s[0] == '/' then Read(s[0], s[1..])
    else if s[0] == 'b' then Read('\U{0008}', s[1..])
    else if s[0] == 'f' then Read('\U{000C}', s[1..])
    else if s[0] == 'n' then Read('\n', s[1..])
    else if s[0] == 'r' then Read('\r', s[1..])
    else if s[0] == 't' then Read('\t', s[1..])
    else if s[0] == 'u' && |s| >= 5 && IsHex(s[1]) && IsHex(s[2]) && IsHex(s[3]) && IsHex(s[4]) then
      var code := 4096 * HexValue(s[1]) + 256 * HexValue(s[2]) + 16 * HexValue(s[3]) + HexValue(s[4]);
      if 0xD800 <= code < 0xE000 then Fail else Read(code as char, s[5..])
    else Fail
  }

  /** The rest of a string after its opening quote. */
  function ReadString(s: string): (r: Read<string>)
    ensures r.Read? ==> |r.rest| < |s|
  {
    if s == [] then Fail
    else if s[0] == '\"' then Read([], s[1..])
    else if s[0] == '\\' then
      match ReadEscape(s[1..])
      case Fail => Fail
      case Read(c, rest) =>
        (match ReadString(rest)
         case Fail => Fail
         case Read(text, rest') => Read([c] + text, rest'))
    else if s[0] < ' ' then Fail
    else
      match ReadString(s[1..])
      case Fail => Fail
      case Read(text, rest) => Read([s[0]] + text, rest)
  }

  function ReadValue(s: string): (r: Read<Json>)
    ensures r.Read? ==> |r.rest| < |s|
    decreases |s|, 1
  {
    var t := SkipWs(s);
    if t == [] then Fail
    else if t[0] == '\"' then
      match ReadString(t[1..])
      case Fail => Fail
      case Read(text, rest) => Read(Str(text), rest)
    else if t[0] == '[' then
      var u := SkipWs(t[1..]);
      if u != [] && u[0] == ']' then Read(Arr([]), u[1..])
      else
        match ReadItems(t[1..])
        case Fail => Fail
        case Read(items, rest) => Read(Arr(items), rest)
    else if t[0] == '{' then
      var u := SkipWs(t[1..]);
      if u != [] && u[0] == '}' then Read(Obj([]), u[1..])
      else
        match ReadMembers(t[1..])
        case Fail => Fail
        case Read(members, rest) => Read(Obj(LastValues(members)), rest)
    else if "null" <= t then Read(Null, t[4..])
    else if "true" <= t then Read(Bool(true), t[4..])
    else if "false" <= t then Read(Bool(false), t[5..])
    else
      match ReadNumber(t)
      case Fail => Fail
      case Read(v, rest) => Read(Num(v), rest)
  }

  /** The values of an array after its bracket, up to and with the closing one. */
  function ReadItems(s: string): (r: Read<seq<Json>>)
    ensures r.Read? ==> |r.rest| < |s|
    decreases |s|, 2
  {
    match ReadValue(s)
    case Fail => Fail
    case Read(v, rest) =>
      var t := SkipWs(rest);
      if t == [] then Fail
      else if t[0] == ']' then Read([v], t[1..])
      else if t[0] != ',' then Fail
      else
        match ReadItems(t[1..])
        case Fail => Fail
        case Read(more, rest') => Read([v] + more, rest')
  }

  function ReadMembers(s: string): (r: Read<seq<Member>>)
    ensures r.Read? ==> |r.rest| < |s|
    decreases |s|, 2
  {
    match ReadMember(s)
    case Fail => Fail
    case Read(m, rest) =>
      var t := SkipWs(rest);
      if t == [] then Fail
      else if t[0] == '}' then Read([m], t[1..])
      else if t[0] != ',' then Fail
      else
        match ReadMembers(t[1..])
        case Fail => Fail
        case Read(more, rest') => Read([m] + more, rest')
  }

  function ReadMember(s: string): (r: Read<Member>)
    ensures r.Read? ==> |r.rest| < |s|
    decreases |s|, 1
  {
    var t := SkipWs(s);
    if t == [] || t[0] != '\"' then Fail
    else
      match ReadString(t[1..])
      case Fail => Fail
      case Read(name, rest) =>
        var u := SkipWs(rest);
        if u == [] || u[0] != ':' then Fail
        else
          match ReadValue(u[1..])
          case Fail => Fail
          case Read(v, rest') => Read(Member(name, v), rest')
  }

  /** Assigning the members of an object one after the other: a repeated name keeps its last value. */
  function LastValues(members: seq<Member>): seq<Member> {
    if members == [] then [] else Assign(LastValues(members[..|members| - 1]), members[|members| - 1])
  }

  function Assign(members: seq<Member>, m: Member): seq<Member> {
    if members == [] then [m]
    else if members[0].name == m.name then [m] + members[1..]
    else [members[0]] + Assign(members[1..], m)
  }

  /** JSON.parse: one value, with white space around it. */
  function Parse(text: string): Option<Json> {
    match ReadValue(text)
    case Fail => None
    case Read(v, rest) => if SkipWs(rest) == [] then Some(v) else None
  }

  /** JSON.parse(text).name for an object, None when the property is absent. */
  function Property(members: seq<Member>, name: string): Option<Json> {
    if members == [] then None
    else if members[0].name == name then Some(members[0].value)
    else Property(members[1..], name)
  }
}
