/** JSON texts as trees that keep their spelling, after sections 2 to 7 of RFC 8259. */
module JsonText {

  /** One character of a string as written. */
  datatype StrChar = Plain(c: char) | Escape(e: char) | Unicode(hex: string)

  /** `blank` is the white space inside empty brackets; `before` and `after` surround a value. */
  datatype Json =
    | JNull
    | JBool(value: bool)
    | JNumber(text: string)
    | JString(chars: seq<StrChar>)
    | JArray(blank: string, items: seq<Item>)
    | JObject(blank: string, members: seq<Member>)

  datatype Item = Item(before: string, value: Json, after: string)

  datatype Member = Member(lead: string, key: seq<StrChar>, trail: string, item: Item)

  /** White space of section 2 of RFC 8259: space, tab, line feed and carriage return. */
  predicate IsSpace(s: string) {
    forall i :: 0 <= i < |s| ==> s[i] == '\U{0020}' || s[i] == '\U{0009}' || s[i] == '\U{000A}' || s[i] == '\U{000D}'
  }

  /** The characters of the numbers of section 6 of RFC 8259. */
  predicate InNumber(c: char) {
    (0x30 <= c as int && c as int <= 0x39) || c == '-' || c == '+' || c == '.' || c == 'e' || c == 'E'
  }

  /** The character an escape of section 7 of RFC 8259 stands for. */
  function EscapeValue(e: char): int
    requires e in "\"\\/bfnrt"
  {
    match e
    case 'b' => 0x0008
    case 'f' => 0x000C
    case 'n' => 0x000A
    case 'r' => 0x000D
    case 't' => 0x0009
    case '"' => 0x0022
    case '\\' => 0x005C
    case _ => 0x002F
  }

  /** The string characters of section 7 of RFC 8259, and control characters; the digits of `\u` are not looked at. */
  predicate Strict(c: StrChar) {
    match c
    case Plain(c) => c != '"' && c != '\\'
    case Escape(e) => e in "\"\\/bfnrt"
    case Unicode(hex) => |hex| == 4 && '"' !in hex && '\\' !in hex
  }

  predicate ValidChars(ok: StrChar -> bool, cs: seq<StrChar>) {
    forall i :: 0 <= i < |cs| ==> ok(cs[i])
  }

  predicate IsNumberText(text: string) {
    text != "" && forall i :: 0 <= i < |text| ==> InNumber(text[i])
  }

  /** A well-formed tree whose string characters all meet `ok`. */
  predicate Valid(ok: StrChar -> bool, j: Json) {
    match j
    case JNumber(text) => IsNumberText(text)
    case JString(chars) => ValidChars(ok, chars)
    case JArray(blank, items) => IsSpace(blank) && ValidItems(ok, items)
    case JObject(blank, members) => IsSpace(blank) && ValidMembers(ok, members)
    case _ => true
  }

  predicate ValidItem(ok: StrChar -> bool, i: Item) {
    IsSpace(i.before) && Valid(ok, i.value) && IsSpace(i.after)
  }

  predicate ValidItems(ok: StrChar -> bool, items: seq<Item>) {
    items == [] || (ValidItem(ok, items[0]) && ValidItems(ok, items[1..]))
  }

  predicate ValidMember(ok: StrChar -> bool, m: Member) {
    IsSpace(m.lead) && ValidChars(ok, m.key) && IsSpace(m.trail) && ValidItem(ok, m.item)
  }

  predicate ValidMembers(ok: StrChar -> bool, members: seq<Member>) {
    members == [] || (ValidMember(ok, members[0]) && ValidMembers(ok, members[1..]))
  }

  function CharText(c: StrChar): string {
    match c
    case Plain(c) => [c]
    case Escape(e) => ['\\', e]
    case Unicode(hex) => ['\\'] + (['u'] + hex)
  }

  function CharsText(cs: seq<StrChar>): string {
    if cs == [] then "" else CharText(cs[0]) + CharsText(cs[1..])
  }

  function Quoted(cs: seq<StrChar>): string {
    ['"'] + (CharsText(cs) + "\"")
  }

  function Text(j: Json): string {
    match j
    case JNull => "null"
    case JBool(b) => if b then "true" else "false"
    case JNumber(text) => text
    case JString(chars) => Quoted(chars)
    case JArray(blank, items) => ['['] + ((if items == [] then blank else ItemsText(items)) + "]")
    case JObject(blank, members) => ['{'] + ((if members == [] then blank else MembersText(members)) + "}")
  }

  function ItemText(i: Item): string {
    i.before + (Text(i.value) + i.after)
  }

  function ItemsText(items: seq<Item>): string {
    if items == [] then ""
    else ItemText(items[0]) + if |items| == 1 then "" else [','] + ItemsText(items[1..])
  }

  function MemberText(m: Member): string {
    m.lead + (Quoted(m.key) + (m.trail + ([':'] + ItemText(m.item))))
  }

  function MembersText(members: seq<Member>): string {
    if members == [] then ""
    else MemberText(members[0]) + if |members| == 1 then "" else [','] + MembersText(members[1..])
  }
}
