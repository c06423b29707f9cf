/** Printed JSON parses back to the value printed, and is a single line of visible text. */
module JsonLaws {
  import opened Sequences
  import opened Wrappers
  import opened Text
  import opened JsonNumber
  import opened JsonText

  ghost predicate UniqueMembers(members: seq<Member>) {
    forall i, j :: 0 <= i < j < |members| ==> members[i].name != members[j].name
  }

  /** No name twice in an object. */
  ghost predicate Printable(v: Json) {
    match v
    case Arr(items) => forall i :: 0 <= i < |items| ==> Printable(items[i])
    case Obj(members) => UniqueMembers(members) && forall i :: 0 <= i < |members| ==> Printable(members[i].value)
    case _ => true
  }

  // ---- Strings ----

  lemma {:induction false} ControlEscape(c: char, tail: string)
    requires c < ' '
    requires EscapeChar(c) == ['\\', 'u', '0', '0', HexDigit(c as int / 16), HexDigit(c as int % 16)]
    ensures ReadEscape((EscapeChar(c) + tail)[1..]) == Read(c, tail)
  {
    var s := (EscapeChar(c) + tail)[1..];
    var h, l := HexDigit(c as int / 16), HexDigit(c as int % 16);
    assert s == ['u', '0', '0', h, l] + tail;
    assert s[5..] == tail;
    assert s[1] == '0' && s[2] == '0' && s[3] == h && s[4] == l;
    assert HexValue(h) == c as int / 16 && HexValue(l) == c as int % 16;
  }

  lemma {:induction false} EscapedChar(c: char, tail: string)
    ensures var s := EscapeChar(c) + tail;
            s != [] && s[0] != '\"' &&
            if s[0] == '\\' then ReadEscape(s[1..]) == Read(c, tail) else s[0] == c && c >= ' ' && s[1..] == tail
  {
    var s := EscapeChar(c) + tail;
    if |EscapeChar(c)| == 1 {
      assert s[1..] == tail;
    } else if |EscapeChar(c)| == 2 {
      assert s[1..] == [EscapeChar(c)[1]] + tail;
      assert s[1..][1..] == tail;
    } else {
      ControlEscape(c, tail);
    }
  }

  lemma {:induction false} StringNext(c: char, s: string, text: string, rest: string)
    requires ReadString(s) == Read(text, rest)
    ensures ReadString(EscapeChar(c) + s) == Read([c] + text, rest)
  {
    EscapedChar(c, s);
  }

  lemma {:induction false} StringRoundTrip(text: string, rest: string)
    ensures ReadString(Escape(text) + (['\"'] + rest)) == Read(text, rest)
  {
    var tail := ['\"'] + rest;
    if text == [] {
      assert Escape(text) + tail == tail && tail[1..] == rest;
    } else {
      StringRoundTrip(text[1..], rest);
      StringNext(text[0], Escape(text[1..]) + tail, text[1..], rest);
      Assoc(EscapeChar(text[0]), Escape(text[1..]), tail);
      assert [text[0]] + text[1..] == text;
    }
  }

  lemma {:induction false} QuoteRoundTrip(text: string, rest: string)
    ensures var s := Quote(text) + rest;
            s != [] && s[0] == '\"' && ReadString(s[1..]) == Read(text, rest)
  {
    var s := Quote(text) + rest;
    assert s[1..] == Escape(text) + (['\"'] + rest);
    StringRoundTrip(text, rest);
  }

  // ---- Objects ----

  lemma {:induction false} AssignNew(members: seq<Member>, m: Member)
    requires forall i :: 0 <= i < |members| ==> members[i].name != m.name
    ensures Assign(members, m) == members + [m]
  {
    if members != [] {
      AssignNew(members[1..], m);
    }
  }

  lemma {:induction false} LastValuesUnique(members: seq<Member>)
    requires UniqueMembers(members)
    ensures LastValues(members) == members
  {
    if members != [] {
      var n := |members| - 1;
      LastValuesUnique(members[..n]);
      AssignNew(members[..n], members[n]);
    }
  }

  // ---- Values ----

  lemma {:induction false} NoSkip(s: string)
    requires s == [] || !IsWs(s[0])
    ensures SkipWs(s) == s
  {
  }

  lemma {:induction false} WordRoundTrip(v: Json, rest: string)
    requires v.Null? || v.Bool?
    ensures ReadValue(Print(v) + rest) == Read(v, rest)
  {
    var s := Print(v) + rest;
    NoSkip(s);
    assert Print(v) <= s && s[|Print(v)|..] == rest;
    assert s[0] == Print(v)[0];
  }

  lemma {:induction false} NumberIsNoWord(s: string)
    requires s != [] && (s[0] == '-' || IsDigit(s[0]))
    ensures !("null" <= s) && !("true" <= s) && !("false" <= s) && SkipWs(s) == s
  {
    assert "null"[0] == 'n' && "true"[0] == 't' && "false"[0] == 'f';
  }

  lemma {:induction false} NumRoundTrip(n: Number, rest: string)
    requires NumberEnds(rest)
    ensures ReadValue(PrintNumber(n) + rest) == Read(Num(n), rest)
  {
    var s := PrintNumber(n) + rest;
    NumberStarts(n);
    NumberRoundTrip(n, rest);
    assert s[0] == PrintNumber(n)[0];
    NumberValue(s, n, rest);
  }

  lemma {:induction false} NumberStarts(n: Number)
    ensures PrintNumber(n) != [] && (PrintNumber(n)[0] == '-' || IsDigit(PrintNumber(n)[0]))
  {
    UnsignedStarts(n);
  }

  lemma {:induction false} NumberValue(s: string, n: Number, rest: string)
    requires s != [] && (s[0] == '-' || IsDigit(s[0])) && ReadNumber(s) == Read(n, rest)
    ensures ReadValue(s) == Read(Num(n), rest)
  {
    NumberIsNoWord(s);
  }

  lemma {:induction false} StrRoundTrip(text: string, rest: string)
    ensures ReadValue(Quote(text) + rest) == Read(Str(text), rest)
  {
    QuoteRoundTrip(text, rest);
    NoSkip(Quote(text) + rest);
  }

  /** Whatever is printed reads back, followed by anything that cannot prolong a number. */
  lemma {:induction false} ValueRoundTrip(v: Json, rest: string)
    requires Printable(v) && NumberEnds(rest)
    ensures ReadValue(Print(v) + rest) == Read(v, rest)
    decreases v, 1
  {
    match v
    case Num(n) => NumRoundTrip(n, rest);
    case Str(text) => StrRoundTrip(text, rest);
    case Arr(items) => ArrayRoundTrip(items, rest);
    case Obj(members) => ObjectRoundTrip(members, rest);
    case _ => WordRoundTrip(v, rest);
  }

  /** No value starts like white space or the end of an array. */
  lemma {:induction false} PrintStarts(v: Json)
    ensures Print(v) != [] && !IsWs(Print(v)[0]) && Print(v)[0] != ']'
  {
    if v.Num? {
      NumberStarts(v.value);
    }
  }

  lemma {:induction false} ArrayRoundTrip(items: seq<Json>, rest: string)
    requires forall i :: 0 <= i < |items| ==> Printable(items[i])
    ensures ReadValue(Print(Arr(items)) + rest) == Read(Arr(items), rest)
    decreases items, 2
  {
    var inner := PrintItems(items) + ([']'] + rest);
    assert Print(Arr(items)) + rest == ['['] + inner;
    if items == [] {
      assert inner == [']'] + rest;
      EmptyArray(rest);
    } else {
      ItemsRoundTrip(items, rest);
      PrintStarts(items[0]);
      assert inner[0] == Print(items[0])[0];
      FilledArray(inner, items, rest);
    }
  }

  lemma {:induction false} EmptyArray(rest: string)
    ensures ReadValue(['['] + ([']'] + rest)) == Read(Arr([]), rest)
  {
    var s := ['['] + ([']'] + rest);
    NoSkip(s);
    assert s[1..] == [']'] + rest && s[1..][1..] == rest;
    NoSkip(s[1..]);
  }

  lemma {:induction false} FilledArray(inner: string, items: seq<Json>, rest: string)
    requires inner != [] && !IsWs(inner[0]) && inner[0] != ']' && ReadItems(inner) == Read(items, rest)
    ensures ReadValue(['['] + inner) == Read(Arr(items), rest)
  {
    NoSkip(['['] + inner);
    assert (['['] + inner)[1..] == inner;
    NoSkip(inner);
  }

  lemma {:induction false} ItemsLast(s: string, v: Json, rest: string)
    requires ReadValue(s) == Read(v, [']'] + rest)
    ensures ReadItems(s) == Read([v], rest)
  {
    NoSkip([']'] + rest);
    assert ([']'] + rest)[1..] == rest;
  }

  lemma {:induction false} ItemsNext(s: string, v: Json, t: string, more: seq<Json>, rest: string)
    requires ReadValue(s) == Read(v, [','] + t) && ReadItems(t) == Read(more, rest)
    ensures ReadItems(s) == Read([v] + more, rest)
  {
    NoSkip([','] + t);
    assert ([','] + t)[1..] == t;
  }

  /** first, comma, rest: the way the list printers nest their text. */
  lemma {:induction false} Regroup(first: string, rest: string, close: string)
    ensures first + ([','] + rest) + close == first + ([','] + (rest + close))
  {
    Assoc(first, [','] + rest, close);
    Assoc([','], rest, close);
  }

  lemma {:induction false} ItemsRoundTrip(items: seq<Json>, rest: string)
    requires items != [] && forall i :: 0 <= i < |items| ==> Printable(items[i])
    ensures ReadItems(PrintItems(items) + ([']'] + rest)) == Read(items, rest)
    decreases items, 0
  {
    var close, first := [']'] + rest, Print(items[0]);
    if |items| == 1 {
      ValueRoundTrip(items[0], close);
      ItemsLast(first + close, items[0], rest);
      assert items == [items[0]];
    } else {
      var more := PrintItems(items[1..]) + close;
      ItemsRoundTrip(items[1..], rest);
      ValueRoundTrip(items[0], [','] + more);
      ItemsNext(first + ([','] + more), items[0], more, items[1..], rest);
      Regroup(first, PrintItems(items[1..]), close);
      assert items == [items[0]] + items[1..];
    }
  }

  lemma {:induction false} ObjectRoundTrip(members: seq<Member>, rest: string)
    requires Printable(Obj(members))
    ensures ReadValue(Print(Obj(members)) + rest) == Read(Obj(members), rest)
    decreases members, 2
  {
    var inner := PrintMembers(members) + (['}'] + rest);
    assert Print(Obj(members)) + rest == ['{'] + inner;
    if members == [] {
      assert inner == ['}'] + rest;
      EmptyObject(rest);
    } else {
      MembersRoundTrip(members, rest);
      LastValuesUnique(members);
      assert inner[0] == '\"';
      FilledObject(inner, members, rest);
    }
  }

  lemma {:induction false} FilledObject(inner: string, members: seq<Member>, rest: string)
    requires inner != [] && inner[0] == '\"'
    requires ReadMembers(inner) == Read(members, rest) && LastValues(members) == members
    ensures ReadValue(['{'] + inner) == Read(Obj(members), rest)
  {
    NoSkip(['{'] + inner);
    assert (['{'] + inner)[1..] == inner;
    NoSkip(inner);
  }

  lemma {:induction false} EmptyObject(rest: string)
    ensures ReadValue(['{'] + (['}'] + rest)) == Read(Obj([]), rest)
  {
    var s := ['{'] + (['}'] + rest);
    NoSkip(s);
    assert s[1..] == ['}'] + rest && s[1..][1..] == rest;
    NoSkip(s[1..]);
  }

  lemma {:induction false} MembersLast(s: string, m: Member, rest: string)
    requires ReadMember(s) == Read(m, ['}'] + rest)
    ensures ReadMembers(s) == Read([m], rest)
  {
    NoSkip(['}'] + rest);
    assert (['}'] + rest)[1..] == rest;
  }

  lemma {:induction false} MembersNext(s: string, m: Member, t: string, more: seq<Member>, rest: string)
    requires ReadMember(s) == Read(m, [','] + t) && ReadMembers(t) == Read(more, rest)
    ensures ReadMembers(s) == Read([m] + more, rest)
  {
    NoSkip([','] + t);
    assert ([','] + t)[1..] == t;
  }

  lemma {:induction false} MembersRoundTrip(members: seq<Member>, rest: string)
    requires members != [] && forall i :: 0 <= i < |members| ==> Printable(members[i].value)
    ensures ReadMembers(PrintMembers(members) + (['}'] + rest)) == Read(members, rest)
    decreases members, 0
  {
    if |members| == 1 {
      MemberRoundTrip(members[0], ['}'] + rest);
      MembersLast(PrintMember(members[0]) + (['}'] + rest), members[0], rest);
      assert members == [members[0]];
    } else {
      var more := PrintMembers(members[1..]) + (['}'] + rest);
      MembersRoundTrip(members[1..], rest);
      MemberRoundTrip(members[0], [','] + more);
      MembersNext(PrintMember(members[0]) + ([','] + more), members[0], more, members[1..], rest);
      MembersText(members, ['}'] + rest);
    }
  }

  lemma {:induction false} MembersText(members: seq<Member>, close: string)
    requires |members| > 1
    ensures PrintMembers(members) + close == PrintMember(members[0]) + ([','] + (PrintMembers(members[1..]) + close))
    ensures members == [members[0]] + members[1..]
  {
    Regroup(PrintMember(members[0]), PrintMembers(members[1..]), close);
  }

  lemma {:induction false} MemberRoundTrip(m: Member, rest: string)
    requires Printable(m.value) && NumberEnds(rest)
    ensures ReadMember(PrintMember(m) + rest) == Read(m, rest)
    decreases m, 3
  {
    var value := Print(m.value) + rest;
    var tail := [':'] + value;
    var s := PrintMember(m) + rest;
    assert s == Quote(m.name) + tail && tail[1..] == value;
    QuoteRoundTrip(m.name, tail);
    NoSkip(s);
    NoSkip(tail);
    ValueRoundTrip(m.value, rest);
  }

  /** JSON.parse(JSON.stringify(v)) is v. */
  lemma {:induction false} JsonRoundTrip(v: Json)
    requires Printable(v)
    ensures Parse(Print(v)) == Some(v)
  {
    ValueRoundTrip(v, []);
    assert Print(v) + [] == Print(v);
  }

  // ---- One line ----

  /** No control character, hence no line terminator, is printed as such. */
  ghost predicate Visible(s: string) {
    forall i :: 0 <= i < |s| ==> s[i] >= ' '
  }

  lemma {:induction false} EscapeVisible(s: string)
    ensures Visible(Escape(s))
  {
    if s != [] {
      EscapeVisible(s[1..]);
      assert Visible(EscapeChar(s[0]));
    }
  }

  lemma {:induction false} LayoutVisible(d: string, point: int)
    requires d != [] && AllDigits(d)
    ensures Visible(Layout(d, point))
    decreases if -6 < point <= 0 then 1 - point else if |d| < point <= 21 then point - |d| else 0
  {
    assert forall i :: 0 <= i < |d| ==> IsDigit(d[i]);
    if point <= -6 || 21 < point {
      ExponentVisible(point - 1);
    } else if point <= 0 {
      LayoutVisible(['0'] + d, point + 1);
    } else if |d| < point {
      LayoutVisible(d + ['0'], point);
    }
  }

  lemma {:induction false} ExponentVisible(e: int)
    ensures Visible(PrintExponent(e))
  {
    var d := Digits(Size(e));
    assert forall i :: 0 <= i < |d| ==> IsDigit(d[i]);
  }

  lemma {:induction false} PrintVisible(v: Json)
    ensures Visible(Print(v))
    decreases v, 1
  {
    match v
    case Num(n) => LayoutVisible(Digits(n.digits), |Digits(n.digits)| + n.exponent);
    case Str(text) => EscapeVisible(text);
    case Arr(items) => ItemsVisible(items);
    case Obj(members) => MembersVisible(members);
    case _ =>
  }

  lemma {:induction false} ItemsVisible(items: seq<Json>)
    ensures Visible(PrintItems(items))
    decreases items, 0
  {
    if items != [] {
      PrintVisible(items[0]);
      ItemsVisible(items[1..]);
    }
  }

  lemma {:induction false} MembersVisible(members: seq<Member>)
    ensures Visible(PrintMembers(members))
    decreases members, 0
  {
    if members != [] {
      MemberVisible(members[0]);
      MembersVisible(members[1..]);
    }
  }

  lemma {:induction false} MemberVisible(m: Member)
    ensures Visible(PrintMember(m))
    decreases m, 2
  {
    EscapeVisible(m.name);
    PrintVisible(m.value);
  }

  // ---- What else is read ----

  ghost predicate AllWs(s: string) {
    forall i :: 0 <= i < |s| ==> s[i] as int == 32 || s[i] as int == 9 || s[i] as int == 10 || s[i] as int == 13
  }

  lemma {:induction false} WsSkipped(ws: string, s: string)
    requires AllWs(ws)
    ensures SkipWs(ws + s) == SkipWs(s)
  {
    if ws == [] {
      assert ws + s == s;
    } else {
      WsSkipped(ws[1..], s);
      assert (ws + s)[1..] == ws[1..] + s;
    }
  }

  lemma {:induction false} OnlyWsSkipped(s: string)
    ensures exists ws :: AllWs(ws) && s == ws + SkipWs(s)
  {
    if s != [] && IsWs(s[0]) {
      OnlyWsSkipped(s[1..]);
      var ws :| AllWs(ws) && s[1..] == ws + SkipWs(s[1..]);
      assert s == ([s[0]] + ws) + SkipWs(s);
    } else {
      assert s == [] + SkipWs(s);
    }
  }

  /** Blanks, tabs, line feeds and carriage returns around a value are passed over. */
  lemma {:induction false} SpacesAround(before: string, v: Json, after: string)
    requires Printable(v) && AllWs(before) && AllWs(after)
    ensures Parse(before + (Print(v) + after)) == Some(v)
  {
    var s := Print(v) + after;
    WsSkipped(before, s);
    WsSkipped(after, []);
    assert after + [] == after;
    ValueRoundTrip(v, after);
    SameValue(before + s, s);
  }

  lemma {:induction false} SameValue(a: string, b: string)
    requires SkipWs(a) == SkipWs(b)
    ensures ReadValue(a) == ReadValue(b)
  {
  }

  /** The value of hexadecimal digits, upper or lower case. */
  function HexNumber(s: string): nat
    requires forall i :: 0 <= i < |s| ==> IsHex(s[i])
  {
    if s == [] then 0 else 16 * HexNumber(s[..|s| - 1]) + HexValue(s[|s| - 1])
  }

  lemma {:induction false} HexDigits(c: char, code: int)
    requires code == c as int
    ensures IsHex(c) <==> 48 <= code <= 57 || 97 <= code <= 102 || 65 <= code <= 70
    ensures IsHex(c) ==> HexValue(c) == if code <= 57 then code - 48 else if code <= 70 then code - 55 else code - 87
  {
  }

  /** A character by its code: four hexadecimal digits, unless they name a surrogate. */
  lemma {:induction false} CodeRead(digits: string, rest: string)
    requires |digits| == 4 && forall i :: 0 <= i < 4 ==> IsHex(digits[i])
    ensures var code, r := HexNumber(digits), ReadEscape(['u'] + digits + rest);
            if 0xD800 <= code < 0xE000 then r == Fail else r.Read? && r.value as int == code && r.rest == rest
  {
    var s := ['u'] + digits + rest;
    assert s[5..] == rest && s[1] == digits[0] && s[2] == digits[1] && s[3] == digits[2] && s[4] == digits[3];
    FourDigits(digits);
  }

  lemma {:induction false} FourDigits(digits: string)
    requires |digits| == 4 && forall i :: 0 <= i < 4 ==> IsHex(digits[i])
    ensures HexNumber(digits)
            == 4096 * HexValue(digits[0]) + 256 * HexValue(digits[1]) + 16 * HexValue(digits[2]) + HexValue(digits[3]) < 65536
  {
    var three, two, one := digits[..3], digits[..2], digits[..1];
    assert three[..2] == two && two[..1] == one && one[..0] == [];
    assert HexNumber(one) == 16 * HexNumber([]) + HexValue(digits[0]);
    assert HexNumber(two) == 16 * HexNumber(one) + HexValue(digits[1]);
    assert HexNumber(three) == 16 * HexNumber(two) + HexValue(digits[2]);
  }

  /** The letters of the short escapes, and the characters they stand for. */
  function ShortEscape(letter: char): Option<int> {
    match letter
    case '\"' => Some(34)
    case '\\' => Some(92)
    case '/' => Some(47)
    case 'b' => Some(8)
    case 'f' => Some(12)
    case 'n' => Some(10)
    case 'r' => Some(13)
    case 't' => Some(9)
    case _ => None
  }

  /** Each of them is read as that character, and printed for it but for the slash. */
  lemma {:induction false} ShortEscapes(letter: char, code: int, rest: string)
    requires ShortEscape(letter) == Some(code)
    ensures ReadEscape([letter] + rest) == Read(code as char, rest)
    ensures letter != '/' ==> EscapeChar(code as char) == ['\\', letter]
  {
    assert ([letter] + rest)[1..] == rest;
  }

  /** Everything else is printed as it is, but for control characters, which are printed by their code. */
  lemma {:induction false} OtherEscapes(c: char)
    requires forall letter :: letter != '/' ==> ShortEscape(letter) != Some(c as int)
    ensures 32 <= c as int ==> EscapeChar(c) == [c]
    ensures c as int < 32 ==> |EscapeChar(c)| == 6 && EscapeChar(c)[..4] == "\\u00"
  {
    assert ShortEscape('\"') == Some(34) && ShortEscape('\\') == Some(92) && ShortEscape('b') == Some(8);
    assert ShortEscape('f') == Some(12) && ShortEscape('n') == Some(10) && ShortEscape('r') == Some(13) && ShortEscape('t') == Some(9);
  }
}
