/**
 * The language of the built-in JSON parser: it accepts exactly the texts of the trees described
 * here, and the value it returns is the meaning of the tree.
 */
module MiniJsonText {
  import opened JsonText
  import opened MiniJson
  import opened Strings
  import opened Wrappers

  /** String characters the parser takes: any escaped character, any four characters after `\u`. */
  predicate Accepted(c: StrChar) {
    match c
    case Plain(c) => c != '"' && c != '\\'
    case Escape(e) => e != 'u'
    case Unicode(hex) => |hex| == 4
  }

  lemma StrictIsAccepted(c: StrChar)
    requires Strict(c)
    ensures Accepted(c)
  {
  }

  function CharMeaning(c: StrChar): char {
    match c
    case Plain(c) => c
    case Escape(e) => if e in "\"\\/bfnrt" then EscapeValue(e) as char else e
    case Unicode(_) => '?'
  }

  function Chars(cs: seq<StrChar>): string {
    if cs == [] then "" else [CharMeaning(cs[0])] + Chars(cs[1..])
  }

  /** The value a tree stands for; none when the number conversion rejects one of its numbers. */
  function Meaning(stod: Stod, j: Json): Option<Value> {
    match j
    case JNull => Some(Null)
    case JBool(b) => Some(Bool(b))
    case JNumber(text) => (match stod(text) case None => None case Some(n) => Some(Number(n)))
    case JString(chars) => Some(String(Chars(chars)))
    case JArray(_, items) => (match ItemsMeaning(stod, items) case None => None case Some(vs) => Some(Array(vs)))
    case JObject(_, members) =>
      (match MembersMeaning(stod, members, map[]) case None => None case Some(m) => Some(Object(m)))
  }

  function ItemsMeaning(stod: Stod, items: seq<Item>): Option<seq<Value>> {
    if items == [] then Some([])
    else
      match (Meaning(stod, items[0].value), ItemsMeaning(stod, items[1..]))
      case (Some(v), Some(vs)) => Some([v] + vs)
      case _ => None
  }

  /** Of two members with one key, the later one stands. */
  function MembersMeaning(stod: Stod, members: seq<Member>, m: map<string, Value>): Option<map<string, Value>> {
    if members == [] then Some(m)
    else
      match Meaning(stod, members[0].item.value)
      case None => None
      case Some(v) => MembersMeaning(stod, members[1..], m[Chars(members[0].key) := v])
  }

  function Until(v: Option<Value>, q: nat): Parsed {
    match v
    case None => None
    case Some(v) => Some((v, q))
  }

  // ---------------------------------------------------------------- pieces

  /** The white space of the standard is what the parser skips. */
  lemma SpaceIsBlank(s: string)
    ensures IsSpace(s) <==> forall i :: 0 <= i < |s| ==> IsBlank(s[i])
  {
  }

  lemma NumberChars(c: char)
    ensures IsNumberChar(c) <==> InNumber(c)
  {
  }

  /** The parser replaces an escape by the character the standard gives it. */
  lemma EscapeRead(e: char)
    requires e != 'u'
    ensures Unescaped(e) == CharMeaning(Escape(e))
  {
  }

  predicate Digits(ds: string) {
    ds != "" && forall i :: 0 <= i < |ds| ==> '0' <= ds[i] <= '9'
  }

  /** A number of section 6 of RFC 8259: sign, integer part, fraction, exponent. */
  datatype NumberParts = NumberParts(minus: bool, whole: string, fraction: string, mark: string, exponent: string)

  predicate StrictNumber(n: NumberParts) {
    && Digits(n.whole) && (n.whole[0] == '0' ==> |n.whole| == 1) && (n.fraction == "" || Digits(n.fraction))
    && (if n.exponent == "" then n.mark == "" else n.mark in ["e", "E", "e+", "E+", "e-", "E-"] && Digits(n.exponent))
  }

  function NumberSpelling(n: NumberParts): string {
    (if n.minus then "-" else "") + (n.whole + ((if n.fraction == "" then "" else "." + n.fraction) + (n.mark + n.exponent)))
  }

  predicate AllInNumber(s: string) {
    forall i :: 0 <= i < |s| ==> InNumber(s[i])
  }

  lemma InNumberJoin(a: string, b: string)
    requires AllInNumber(a) && AllInNumber(b)
    ensures AllInNumber(a + b)
  {
    hide InNumber;
  }

  lemma MarkInNumber(mark: string)
    requires mark in ["", "-", ".", "e", "E", "e+", "E+", "e-", "E-"]
    ensures AllInNumber(mark)
  {
  }

  /** Every number of the standard is a number text. */
  lemma StrictNumberAccepted(n: NumberParts)
    requires StrictNumber(n)
    ensures IsNumberText(NumberSpelling(n))
  {
    hide AllInNumber, InNumber;
    DigitsAreNumber(n.whole);
    DigitsAreNumber(n.fraction);
    DigitsAreNumber(n.exponent);
    MarkInNumber(if n.minus then "-" else "");
    MarkInNumber(".");
    MarkInNumber(n.mark);
    InNumberJoin(".", n.fraction);
    InNumberJoin(n.mark, n.exponent);
    var fraction := if n.fraction == "" then "" else "." + n.fraction;
    MarkInNumber("");
    InNumberJoin(fraction, n.mark + n.exponent);
    InNumberJoin(n.whole, fraction + (n.mark + n.exponent));
    InNumberJoin(if n.minus then "-" else "", n.whole + (fraction + (n.mark + n.exponent)));
    AllIsText(NumberSpelling(n));
  }

  lemma AllIsText(s: string)
    requires AllInNumber(s) && s != ""
    ensures IsNumberText(s)
  {
  }

  lemma DigitsAreNumber(ds: string)
    requires ds == "" || Digits(ds)
    ensures AllInNumber(ds)
  {
  }

  /** Position `p` is not inside a run of number characters. */
  predicate NumberStops(s: string, p: nat) {
    p >= |s| || !IsNumberChar(s[p])
  }

  predicate BlankStops(s: string, p: nat) {
    p >= |s| || !IsBlank(s[p])
  }

  lemma {:induction false} BlankSkipped(s: string, p: nat, w: string)
    requires Stands(s, p, w) && IsSpace(w) && BlankStops(s, p + |w|)
    ensures SkipWs(s, p) == p + |w|
    decreases |w|
  {
    if w != "" {
      BlankSkipped(s, p + 1, w[1..]);
    }
  }

  lemma {:induction false} SkippedBlank(s: string, p: nat)
    requires p <= |s|
    ensures IsSpace(s[p..SkipWs(s, p)]) && Stands(s, p, s[p..SkipWs(s, p)]) && BlankStops(s, SkipWs(s, p))
    decreases |s| - p
  {
    if p < |s| && IsBlank(s[p]) {
      SkippedBlank(s, p + 1);
      assert s[p..SkipWs(s, p)] == [s[p]] + s[p + 1..SkipWs(s, p + 1)];
    }
  }

  lemma {:induction false} NumberSpan(s: string, p: nat, w: string)
    requires Stands(s, p, w) && (forall i :: 0 <= i < |w| ==> IsNumberChar(w[i])) && NumberStops(s, p + |w|)
    ensures NumberEnd(s, p) == p + |w|
    decreases |w|
  {
    if w != "" {
      NumberSpan(s, p + 1, w[1..]);
    }
  }

  lemma {:induction false} SpannedNumber(s: string, p: nat)
    requires p <= |s|
    ensures forall i :: p <= i < NumberEnd(s, p) ==> IsNumberChar(s[i])
    decreases |s| - p
  {
    if p < |s| && IsNumberChar(s[p]) {
      SpannedNumber(s, p + 1);
    }
  }

  lemma CharStands(s: string, p: nat, c: StrChar, u: string)
    requires Stands(s, p, CharText(c) + u)
    ensures p + |CharText(c)| <= |s| && Stands(s, p + |CharText(c)|, u)
    ensures c.Plain? ==> s[p] == c.c
    ensures c.Escape? ==> s[p] == '\\' && s[p + 1] == c.e
    ensures c.Unicode? ==> s[p] == '\\' && s[p + 1] == 'u'
  {
    StandsSplit(s, p, CharText(c), u);
  }

  lemma {:induction false} StringRead(s: string, p: nat, cs: seq<StrChar>)
    requires ValidChars(Accepted, cs) && Stands(s, p, CharsText(cs) + "\"")
    ensures StringBody(s, p) == Some((Chars(cs), p + |CharsText(cs)| + 1))
    decreases |cs|
  {
    hide Stands, CharMeaning, Unescaped, StringBody, CharText;
    if cs == [] {
      assert CharsText(cs) + "\"" == ['"'] + "";
      StandsOne(s, p, '"', "");
      QuoteRead(s, p);
    } else {
      var c, rest := cs[0], CharsText(cs[1..]) + "\"";
      assert CharsText(cs) + "\"" == CharText(c) + rest;
      CharStands(s, p, c, rest);
      StringRead(s, p + |CharText(c)|, cs[1..]);
      CharRead(s, p, c);
    }
  }

  lemma QuoteRead(s: string, p: nat)
    requires p < |s| && s[p] == '"'
    ensures StringBody(s, p) == Some(("", p + 1))
  {
  }

  lemma CharRead(s: string, p: nat, c: StrChar)
    requires Accepted(c) && p + |CharText(c)| <= |s|
    requires c.Plain? ==> s[p] == c.c
    requires c.Escape? ==> s[p] == '\\' && s[p + 1] == c.e
    requires c.Unicode? ==> s[p] == '\\' && s[p + 1] == 'u'
    ensures StringBody(s, p) == Prepend(CharMeaning(c), StringBody(s, p + |CharText(c)|))
  {
    hide Unescaped;
    if c.Escape? {
      EscapeRead(c.e);
    }
  }

  lemma PutChar(s: string, p: nat, c: StrChar, cs: seq<StrChar>)
    requires Stands(s, p, CharText(c)) && Stands(s, p + |CharText(c)|, CharsText(cs) + "\"")
    ensures Stands(s, p, CharsText([c] + cs) + "\"")
    ensures |CharsText([c] + cs)| == |CharText(c)| + |CharsText(cs)| && Chars([c] + cs) == [CharMeaning(c)] + Chars(cs)
  {
    hide Stands, CharText;
    assert ([c] + cs)[1..] == cs;
    assert (CharText(c) + CharsText(cs)) + "\"" == CharText(c) + (CharsText(cs) + "\"");
    StandsSplit(s, p, CharText(c), CharsText(cs) + "\"");
  }

  lemma CharAt(s: string, p: nat) returns (c: StrChar)
    requires p < |s| && s[p] != '"' && StringBody(s, p).Some?
    ensures Accepted(c) && Stands(s, p, CharText(c)) && p + |CharText(c)| <= |s|
    ensures StringBody(s, p) == Prepend(CharMeaning(c), StringBody(s, p + |CharText(c)|))
  {
    hide Unescaped, EscapeValue;
    if s[p] == '\\' && s[p + 1] != 'u' {
      EscapeRead(s[p + 1]);
    }
    c := if s[p] != '\\' then Plain(s[p])
         else if s[p + 1] != 'u' then Escape(s[p + 1])
         else Unicode(s[p + 2..p + 6]);
  }

  lemma {:induction false} WrittenString(s: string, p: nat) returns (cs: seq<StrChar>)
    requires p <= |s| && StringBody(s, p).Some?
    ensures ValidChars(Accepted, cs) && Stands(s, p, CharsText(cs) + "\"")
    ensures StringBody(s, p) == Some((Chars(cs), p + |CharsText(cs)| + 1))
    decreases |s| - p
  {
    hide Stands, CharText, Accepted, CharMeaning;
    cs := [];
    if s[p] == '"' {
      StandsOne(s, p, '"', "");
      EmptyStands(s, p + 1);
      assert CharsText(cs) + "\"" == ['"'] + "";
    } else {
      var c := CharAt(s, p);
      CharTextLength(c);
      var tail := WrittenString(s, p + |CharText(c)|);
      PutChar(s, p, c, tail);
      cs := [c] + tail;
    }
  }

  lemma EmptyStands(s: string, p: nat)
    requires p <= |s|
    ensures Stands(s, p, "")
  {
  }

  lemma CharTextLength(c: StrChar)
    ensures |CharText(c)| > 0
  {
  }

  lemma WordStarts(s: string, p: nat, word: string)
    ensures StartsWith(s, p, word) <==> Stands(s, p, word)
  {
    if Stands(s, p, word) {
      StandsSlice(s, p, word);
    }
  }

  lemma WordDiffers(s: string, p: nat, word: string)
    requires p < |s| && word != "" && s[p] != word[0]
    ensures !StartsWith(s, p, word)
  {
    if p + |word| <= |s| {
      assert s[p..p + |word|][0] == s[p];
    }
  }

  lemma TextStarts(s: string, p: nat, j: Json)
    requires Valid(Accepted, j) && Stands(s, p, Text(j))
    ensures p < |s| && s[p] == Text(j)[0] && !IsBlank(s[p])
  {
  }

  lemma SkipTwice(s: string, p: nat)
    requires p <= |s|
    ensures SkipWs(s, SkipWs(s, p)) == SkipWs(s, p)
  {
    SkippedBlank(s, p);
  }

  /** Leading white space changes nothing. */
  lemma ParseSkips(stod: Stod, s: string, p: nat)
    requires p <= |s|
    ensures ParseValue(stod, s, p) == ParseValue(stod, s, SkipWs(s, p))
  {
    hide StringBody, Members, Items, StartsWith, NumberEnd;
    SkipTwice(s, p);
  }

  lemma ItemsSkip(stod: Stod, s: string, p: nat, vs: seq<Value>)
    requires p <= |s|
    ensures Items(stod, s, p, vs) == Items(stod, s, SkipWs(s, p), vs)
  {
    hide ParseObject, ParseArray, StringBody, StartsWith, NumberEnd;
    ParseSkips(stod, s, p);
  }

  lemma MembersSkip(stod: Stod, s: string, p: nat, m: map<string, Value>)
    requires p <= |s|
    ensures Members(stod, s, p, m) == Members(stod, s, SkipWs(s, p), m)
  {
    hide ParseValue, StringBody;
    SkipTwice(s, p);
  }

  // ---------------------------------------------------------------- every accepted tree is read

  lemma ScalarRead(stod: Stod, s: string, p: nat, j: Json)
    requires Valid(Accepted, j) && !j.JArray? && !j.JObject?
    requires Stands(s, p, Text(j)) && NumberStops(s, p + |Text(j)|)
    ensures ParseValue(stod, s, p) == Until(Meaning(stod, j), p + |Text(j)|)
  {
    hide Stands, StringBody, NumberEnd;
    TextStarts(s, p, j);
    WordStarts(s, p, "true");
    WordStarts(s, p, "false");
    WordStarts(s, p, "null");
    match j {
      case JString(cs) =>
        StandsOne(s, p, '"', CharsText(cs) + "\"");
        StringRead(s, p + 1, cs);
      case JNumber(text) =>
        NumberSpan(s, p, text);
        StandsSlice(s, p, text);
      case JBool(b) =>
        if !b {
          WordDiffers(s, p, "true");
        }
        assert StartsWith(s, p, if b then "true" else "false");
      case JNull =>
        assert StartsWith(s, p, "null");
    }
  }

  lemma {:induction false} TextRead(stod: Stod, s: string, p: nat, j: Json)
    requires Valid(Accepted, j) && Stands(s, p, Text(j)) && NumberStops(s, p + |Text(j)|)
    ensures ParseValue(stod, s, p) == Until(Meaning(stod, j), p + |Text(j)|)
    decreases j, 1
  {
    hide Stands, StringBody, StartsWith, Items, Members, NumberEnd;
    TextStarts(s, p, j);
    match j {
      case JArray(blank, items) => ArrayRead(stod, s, p, j);
      case JObject(blank, members) => ObjectRead(stod, s, p, j);
      case _ => ScalarRead(stod, s, p, j);
    }
  }

  /** An item and the separator behind it; `d` is where its value ends. */
  lemma {:induction false} ItemRead(stod: Stod, s: string, p: nat, i: Item, c: char) returns (d: nat)
    requires ValidItem(Accepted, i) && Stands(s, p, ItemText(i) + [c]) && !IsBlank(c) && !IsNumberChar(c)
    ensures p < d <= |s| && ParseValue(stod, s, p) == Until(Meaning(stod, i.value), d)
    ensures SkipWs(s, d) == p + |ItemText(i)| < |s| && s[p + |ItemText(i)|] == c
    decreases i
  {
    hide Stands, ParseValue, Meaning;
    var a := p + |i.before|;
    d := a + |Text(i.value)|;
    assert ItemText(i) + [c] == i.before + (Text(i.value) + (i.after + [c]));
    StandsSplit(s, p, i.before, Text(i.value) + (i.after + [c]));
    StandsSplit(s, a, Text(i.value), i.after + [c]);
    TextStarts(s, a, i.value);
    BlankSkipped(s, p, i.before);
    ParseSkips(stod, s, p);
    assert i.after + [c] == i.after + ([c] + "");
    BlankEnds(s, d, i.after, c, "");
    TextRead(stod, s, a, i.value);
  }

  lemma BlankEnds(s: string, p: nat, w: string, c: char, u: string)
    requires IsSpace(w) && Stands(s, p, w + ([c] + u)) && !IsBlank(c)
    ensures SkipWs(s, p) == p + |w| < |s| && s[p + |w|] == c && Stands(s, p + |w| + 1, u)
    ensures IsNumberChar(c) || NumberStops(s, p)
  {
    StandsSplit(s, p, w, [c] + u);
    StandsOne(s, p + |w|, c, u);
    BlankSkipped(s, p, w);
    if w != "" {
      assert s[p] == w[0];
    }
  }

  lemma {:induction false} ItemsRead(stod: Stod, s: string, p: nat, items: seq<Item>, vs: seq<Value>)
    requires items != [] && ValidItems(Accepted, items) && Stands(s, p, ItemsText(items) + "]")
    ensures Items(stod, s, p, vs) ==
      match ItemsMeaning(stod, items)
      case None => None
      case Some(ws) => Some((Array(vs + ws), p + |ItemsText(items)| + 1))
    decreases items
  {
    hide Stands, ParseValue, Meaning, ItemText;
    var i, e := items[0], p + |ItemText(items[0])|;
    var v := Meaning(stod, i.value);
    if |items| == 1 {
      assert ItemsText(items) + "]" == ItemText(i) + "]";
      var d := ItemRead(stod, s, p, i, ']');
      assert ItemsMeaning(stod, items[1..]) == Some([]);
      assert v.Some? ==> [v.value] + [] == [v.value];
    } else {
      var rest := ItemsText(items[1..]) + "]";
      assert ItemsText(items) + "]" == (ItemText(i) + ",") + rest;
      StandsSplit(s, p, ItemText(i) + ",", rest);
      var d := ItemRead(stod, s, p, i, ',');
      if v.Some? {
        ItemsRead(stod, s, e + 1, items[1..], vs + [v.value]);
        var tail := ItemsMeaning(stod, items[1..]);
        assert tail.Some? ==> (vs + [v.value]) + tail.value == vs + ([v.value] + tail.value);
      }
    }
  }

  lemma {:induction false} ArrayRead(stod: Stod, s: string, p: nat, j: Json)
    requires j.JArray? && Valid(Accepted, j) && Stands(s, p, Text(j))
    ensures p < |s| && ParseArray(stod, s, p) == Until(Meaning(stod, j), p + |Text(j)|)
    decreases j, 0
  {
    hide Stands, Items, ItemText;
    if j.items == [] {
      StandsOne(s, p, '[', j.blank + "]");
      assert j.blank + "]" == j.blank + ([']'] + "");
      BlankEnds(s, p + 1, j.blank, ']', "");
    } else {
      StandsOne(s, p, '[', ItemsText(j.items) + "]");
      FirstItem(s, p + 1, j.items, "]");
      ItemsSkip(stod, s, p + 1, []);
      ItemsRead(stod, s, p + 1, j.items, []);
      assert forall vs: seq<Value> {:trigger [] + vs} :: [] + vs == vs;
    }
  }

  lemma FirstItem(s: string, p: nat, items: seq<Item>, u: string)
    requires items != [] && ValidItems(Accepted, items) && Stands(s, p, ItemsText(items) + u)
    ensures SkipWs(s, p) < |s| && s[SkipWs(s, p)] != ']'
  {
    hide Stands;
    var i := items[0];
    var rest := i.after + ((if |items| == 1 then "" else [','] + ItemsText(items[1..])) + u);
    assert ItemsText(items) + u == i.before + (Text(i.value) + rest);
    StandsSplit(s, p, i.before, Text(i.value) + rest);
    StandsSplit(s, p + |i.before|, Text(i.value), rest);
    TextStarts(s, p + |i.before|, i.value);
    BlankSkipped(s, p, i.before);
  }

  lemma KeyRead(s: string, p: nat, m: JsonText.Member, value: string)
    requires IsSpace(m.lead) && ValidChars(Accepted, m.key) && IsSpace(m.trail)
    requires Stands(s, p, m.lead + (Quoted(m.key) + (m.trail + ([':'] + value))))
    ensures var a := p + |m.lead|; var b := a + |Quoted(m.key)|; var c := b + |m.trail|;
      SkipWs(s, p) == a < |s| && s[a] == '"' && StringBody(s, a + 1) == Some((Chars(m.key), b)) &&
      SkipWs(s, b) == c < |s| && s[c] == ':' && Stands(s, c + 1, value)
  {
    hide Stands, StringBody, CharsText;
    var rest := m.trail + ([':'] + value);
    var a := p + |m.lead|;
    assert Quoted(m.key) + rest == ['"'] + ((CharsText(m.key) + "\"") + rest);
    BlankEnds(s, p, m.lead, '"', (CharsText(m.key) + "\"") + rest);
    StandsSplit(s, a + 1, CharsText(m.key) + "\"", rest);
    StringRead(s, a + 1, m.key);
    BlankEnds(s, a + |Quoted(m.key)|, m.trail, ':', value);
  }

  lemma {:induction false} MemberRead(stod: Stod, s: string, p: nat, m: JsonText.Member, c: char) returns (d: nat)
    requires ValidMember(Accepted, m) && Stands(s, p, MemberText(m) + [c]) && !IsBlank(c) && !IsNumberChar(c)
    ensures p < d <= |s| && OneMember(stod, s, p) ==
      match Meaning(stod, m.item.value)
      case None => None
      case Some(v) => Some((Chars(m.key), v, d))
    ensures SkipWs(s, d) == p + |MemberText(m)| < |s| && s[p + |MemberText(m)|] == c
    decreases m
  {
    hide Stands, ParseValue, Meaning, StringBody, ItemText, Quoted;
    var value := ItemText(m.item) + [c];
    assert MemberText(m) + [c] == m.lead + (Quoted(m.key) + (m.trail + ([':'] + value)));
    KeyRead(s, p, m, value);
    d := ItemRead(stod, s, p + |m.lead| + |Quoted(m.key)| + |m.trail| + 1, m.item, c);
  }

  lemma MembersSplit(s: string, p: nat, ms: seq<JsonText.Member>)
    requires ms != [] && Stands(s, p, MembersText(ms) + "}")
    ensures |ms| == 1 ==> Stands(s, p, MemberText(ms[0]) + "}")
    ensures |ms| > 1 ==> Stands(s, p, MemberText(ms[0]) + ",")
    ensures |ms| > 1 ==> Stands(s, p + |MemberText(ms[0])| + 1, MembersText(ms[1..]) + "}")
    ensures |MembersText(ms)| == |MemberText(ms[0])| + if |ms| == 1 then 0 else 1 + |MembersText(ms[1..])|
  {
    hide Stands, MemberText;
    var text := MemberText(ms[0]);
    if |ms| == 1 {
      assert text + "" == text;
    } else {
      var rest := MembersText(ms[1..]) + "}";
      assert (text + ([','] + MembersText(ms[1..]))) + "}" == (text + ",") + rest;
      StandsSplit(s, p, text + ",", rest);
    }
  }

  lemma {:induction false} MembersRead(stod: Stod, s: string, p: nat, ms: seq<JsonText.Member>, m: map<string, Value>)
    requires ms != [] && ValidMembers(Accepted, ms) && Stands(s, p, MembersText(ms) + "}")
    ensures Members(stod, s, p, m) ==
      match MembersMeaning(stod, ms, m)
      case None => None
      case Some(n) => Some((Object(n), p + |MembersText(ms)| + 1))
    decreases ms
  {
    hide Stands, OneMember, Meaning, MemberText, MembersText;
    MembersSplit(s, p, ms);
    if |ms| == 1 {
      var d := MemberRead(stod, s, p, ms[0], '}');
    } else {
      var d := MemberRead(stod, s, p, ms[0], ',');
      var v := Meaning(stod, ms[0].item.value);
      if v.Some? {
        MembersRead(stod, s, p + |MemberText(ms[0])| + 1, ms[1..], m[Chars(ms[0].key) := v.value]);
      }
    }
  }

  lemma {:induction false} ObjectRead(stod: Stod, s: string, p: nat, j: Json)
    requires j.JObject? && Valid(Accepted, j) && Stands(s, p, Text(j))
    ensures p < |s| && ParseObject(stod, s, p) == Until(Meaning(stod, j), p + |Text(j)|)
    decreases j, 0
  {
    hide Stands, Members, MemberText;
    if j.members == [] {
      StandsOne(s, p, '{', j.blank + "}");
      assert j.blank + "}" == j.blank + (['}'] + "");
      BlankEnds(s, p + 1, j.blank, '}', "");
    } else {
      StandsOne(s, p, '{', MembersText(j.members) + "}");
      FirstMember(s, p + 1, j.members, "}");
      MembersSkip(stod, s, p + 1, map[]);
      MembersRead(stod, s, p + 1, j.members, map[]);
    }
  }

  lemma FirstMember(s: string, p: nat, ms: seq<JsonText.Member>, u: string)
    requires ms != [] && ValidMembers(Accepted, ms) && Stands(s, p, MembersText(ms) + u)
    ensures SkipWs(s, p) < |s| && s[SkipWs(s, p)] == '"'
  {
    hide Stands;
    var m := ms[0];
    var rest := CharsText(m.key) + "\"" + (m.trail + ([':'] + ItemText(m.item)))
      + ((if |ms| == 1 then "" else [','] + MembersText(ms[1..])) + u);
    assert MembersText(ms) + u == m.lead + (['"'] + rest);
    BlankEnds(s, p, m.lead, '"', rest);
  }

  /** Reading a text returns the meaning of its tree, whatever white space surrounds it. */
  lemma PrintedParsed(stod: Stod, lead: string, j: Json, trail: string)
    requires IsSpace(lead) && Valid(Accepted, j) && IsSpace(trail)
    ensures Parse(stod, lead + Text(j) + trail) == Meaning(stod, j)
  {
    hide Stands, ParseValue, Meaning;
    var s := lead + Text(j) + trail;
    var a := |lead|;
    var e := a + |Text(j)|;
    WholeStands(s);
    assert s == lead + (Text(j) + trail);
    StandsSplit(s, 0, lead, Text(j) + trail);
    StandsSplit(s, a, Text(j), trail);
    TextStarts(s, a, j);
    BlankSkipped(s, 0, lead);
    BlankSkipped(s, e, trail);
    assert NumberStops(s, e) by {
      if trail != "" {
        assert s[e] == trail[0];
      }
    }
    TextRead(stod, s, a, j);
  }

  // ---------------------------------------------------------------- every accepted text is a tree's

  lemma ScalarWritten(stod: Stod, s: string, p: nat) returns (j: Json)
    requires p < |s| && SkipWs(s, p) == p && s[p] != '{' && s[p] != '[' && ParseValue(stod, s, p).Some?
    ensures Valid(Accepted, j) && Stands(s, p, Text(j))
    ensures ParseValue(stod, s, p) == Until(Meaning(stod, j), p + |Text(j)|)
  {
    hide Stands, StringBody, NumberEnd, Accepted;
    WordStarts(s, p, "true");
    WordStarts(s, p, "false");
    WordStarts(s, p, "null");
    if s[p] == '"' {
      var cs := WrittenString(s, p + 1);
      j := JString(cs);
      StandsOne(s, p, '"', CharsText(cs) + "\"");
    } else if s[p] == 't' || s[p] == 'f' {
      j := JBool(StartsWith(s, p, "true"));
    } else if s[p] == 'n' {
      j := JNull;
    } else {
      SpannedNumber(s, p);
      j := JNumber(s[p..NumberEnd(s, p)]);
      SliceStands(s, p, NumberEnd(s, p));
    }
  }

  lemma SliceStands(s: string, p: nat, q: nat)
    requires p <= q <= |s|
    ensures Stands(s, p, s[p..q])
  {
  }

  lemma {:induction false} ValueWritten(stod: Stod, s: string, p: nat) returns (j: Json)
    requires p < |s| && SkipWs(s, p) == p && ParseValue(stod, s, p).Some?
    ensures Valid(Accepted, j) && Stands(s, p, Text(j))
    ensures ParseValue(stod, s, p) == Until(Meaning(stod, j), p + |Text(j)|)
    decreases |s| - p, 1
  {
    hide Stands, StringBody, StartsWith, Items, Members, NumberEnd, Accepted;
    if s[p] == '{' {
      j := ObjectWritten(stod, s, p);
    } else if s[p] == '[' {
      j := ArrayWritten(stod, s, p);
    } else {
      j := ScalarWritten(stod, s, p);
    }
  }

  lemma {:induction false} ArrayWritten(stod: Stod, s: string, p: nat) returns (j: Json)
    requires p < |s| && s[p] == '[' && ParseArray(stod, s, p).Some?
    ensures Valid(Accepted, j) && Stands(s, p, Text(j))
    ensures ParseArray(stod, s, p) == Until(Meaning(stod, j), p + |Text(j)|)
    decreases |s| - p, 0
  {
    hide Stands, Items, ItemText, Accepted;
    var a := SkipWs(s, p + 1);
    SkippedBlank(s, p + 1);
    if a < |s| && s[a] == ']' {
      j := JArray(s[p + 1..a], []);
      Closed(s, p, '[', s[p + 1..a], ']');
    } else {
      ItemsSkip(stod, s, p + 1, []);
      var items := ItemsWritten(stod, s, p + 1, []);
      assert forall vs: seq<Value> {:trigger [] + vs} :: [] + vs == vs;
      j := JArray("", items);
      StandsOne(s, p, '[', ItemsText(items) + "]");
    }
  }

  lemma Closed(s: string, p: nat, open: char, body: string, close: char)
    requires p < |s| && s[p] == open && Stands(s, p + 1, body) && p + 1 + |body| < |s| && s[p + 1 + |body|] == close
    ensures Stands(s, p, [open] + (body + [close]))
  {
    EmptyStands(s, p + 2 + |body|);
    StandsOne(s, p + 1 + |body|, close, "");
    assert [close] + "" == [close];
    StandsSplit(s, p + 1, body, [close]);
    StandsOne(s, p, open, body + [close]);
  }

  /** An item ending at the separator found behind it. */
  lemma {:induction false} ItemWritten(stod: Stod, s: string, p: nat) returns (i: Item)
    requires p < |s| && ParseValue(stod, s, p).Some?
    ensures ValidItem(Accepted, i) && Stands(s, p, ItemText(i))
    ensures SkipWs(s, ParseValue(stod, s, p).value.1) == p + |ItemText(i)|
    ensures Meaning(stod, i.value) == Some(ParseValue(stod, s, p).value.0)
    decreases |s| - p, 2
  {
    hide Stands, Text, Accepted, Meaning;
    var a := SkipWs(s, p);
    SkippedBlank(s, p);
    ParseSkips(stod, s, p);
    SkipTwice(s, p);
    ParseNeedsText(stod, s, a);
    var j := ValueWritten(stod, s, a);
    var d := a + |Text(j)|;
    SkippedBlank(s, d);
    i := Item(s[p..a], j, s[d..SkipWs(s, d)]);
    StandsSplit(s, a, Text(j), i.after);
    StandsSplit(s, p, i.before, Text(j) + i.after);
  }

  lemma ParseNeedsText(stod: Stod, s: string, p: nat)
    requires p <= |s| && ParseValue(stod, s, p).Some?
    ensures p < |s|
  {
  }

  lemma OneMeaning(stod: Stod, i: Item)
    requires Meaning(stod, i.value).Some?
    ensures ItemsMeaning(stod, [i]) == Some([Meaning(stod, i.value).value])
  {
    hide Meaning;
    assert ItemsMeaning(stod, [i][1..]) == Some([]);
    assert [Meaning(stod, i.value).value] + [] == [Meaning(stod, i.value).value];
  }

  lemma MoreMeaning(stod: Stod, i: Item, rest: seq<Item>, vs: seq<Value>)
    requires Meaning(stod, i.value).Some? && ItemsMeaning(stod, rest).Some?
    ensures ItemsMeaning(stod, [i] + rest).Some?
    ensures vs + ItemsMeaning(stod, [i] + rest).value
         == (vs + [Meaning(stod, i.value).value]) + ItemsMeaning(stod, rest).value
  {
    hide Meaning;
    assert ([i] + rest)[1..] == rest;
  }

  lemma {:induction false} ItemsWritten(stod: Stod, s: string, p: nat, vs: seq<Value>) returns (items: seq<Item>)
    requires p <= |s| && Items(stod, s, p, vs).Some?
    ensures items != [] && ValidItems(Accepted, items) && Stands(s, p, ItemsText(items) + "]")
    ensures ItemsMeaning(stod, items).Some?
    ensures Items(stod, s, p, vs) == Some((Array(vs + ItemsMeaning(stod, items).value), p + |ItemsText(items)| + 1))
    decreases |s| - p, 3
  {
    hide Stands, ItemText, Accepted, ParseValue, Meaning, ItemsMeaning;
    var i := ItemWritten(stod, s, p);
    var v := Meaning(stod, i.value).value;
    var e := p + |ItemText(i)|;
    if s[e] == ']' {
      items := [i];
      assert ItemsText(items) == ItemText(i);
      OneMeaning(stod, i);
      Ended(s, p, ItemText(i), ']');
    } else {
      var rest := ItemsWritten(stod, s, e + 1, vs + [v]);
      items := [i] + rest;
      assert items[1..] == rest;
      Continued(s, p, ItemText(i), ItemsText(rest), "]");
      MoreMeaning(stod, i, rest, vs);
    }
  }

  lemma Ended(s: string, p: nat, t: string, close: char)
    requires Stands(s, p, t) && p + |t| < |s| && s[p + |t|] == close
    ensures Stands(s, p, t + [close])
  {
    StandsSplit(s, p, t, [close]);
  }

  lemma Continued(s: string, p: nat, t: string, rest: string, u: string)
    requires Stands(s, p, t) && p + |t| < |s| && s[p + |t|] == ',' && Stands(s, p + |t| + 1, rest + u)
    ensures Stands(s, p, (t + ([','] + rest)) + u)
  {
    assert (t + ([','] + rest)) + u == t + ([','] + (rest + u));
    StandsOne(s, p + |t|, ',', rest + u);
    StandsSplit(s, p, t, [','] + (rest + u));
  }

  lemma {:induction false} MemberWritten(stod: Stod, s: string, p: nat) returns (m: JsonText.Member)
    requires p <= |s| && OneMember(stod, s, p).Some?
    ensures ValidMember(Accepted, m) && Stands(s, p, MemberText(m))
    ensures SkipWs(s, OneMember(stod, s, p).value.2) == p + |MemberText(m)|
    ensures Meaning(stod, m.item.value) == Some(OneMember(stod, s, p).value.1)
    ensures Chars(m.key) == OneMember(stod, s, p).value.0
    decreases |s| - p, 3
  {
    hide Stands, ItemText, Accepted, ParseValue, Meaning, StringBody, CharsText;
    var a := SkipWs(s, p);
    SkippedBlank(s, p);
    var key := WrittenString(s, a + 1);
    var b := StringBody(s, a + 1).value.1;
    var c := SkipWs(s, b);
    SkippedBlank(s, b);
    ParseNeedsText(stod, s, c + 1);
    var item := ItemWritten(stod, s, c + 1);
    m := JsonText.Member(s[p..a], key, s[b..c], item);
    MemberStands(s, p, m);
  }

  lemma MemberStands(s: string, p: nat, m: JsonText.Member)
    requires Stands(s, p, m.lead)
    requires var a := p + |m.lead|; a < |s| && s[a] == '"' && Stands(s, a + 1, CharsText(m.key) + "\"")
    requires var b := p + |m.lead| + |Quoted(m.key)|; Stands(s, b, m.trail)
    requires var c := p + |m.lead| + |Quoted(m.key)| + |m.trail|;
      c < |s| && s[c] == ':' && Stands(s, c + 1, ItemText(m.item))
    ensures Stands(s, p, MemberText(m))
  {
    hide Stands, ItemText, CharsText;
    var a := p + |m.lead|;
    var b := a + |Quoted(m.key)|;
    StandsOne(s, a, '"', CharsText(m.key) + "\"");
    StandsOne(s, b + |m.trail|, ':', ItemText(m.item));
    StandsSplit(s, b, m.trail, [':'] + ItemText(m.item));
    StandsSplit(s, a, Quoted(m.key), m.trail + ([':'] + ItemText(m.item)));
    StandsSplit(s, p, m.lead, Quoted(m.key) + (m.trail + ([':'] + ItemText(m.item))));
  }

  lemma {:induction false} MembersWritten(stod: Stod, s: string, p: nat, m: map<string, Value>)
    returns (ms: seq<JsonText.Member>)
    requires p <= |s| && Members(stod, s, p, m).Some?
    ensures ms != [] && ValidMembers(Accepted, ms) && Stands(s, p, MembersText(ms) + "}")
    ensures MembersMeaning(stod, ms, m).Some?
    ensures Members(stod, s, p, m) == Some((Object(MembersMeaning(stod, ms, m).value), p + |MembersText(ms)| + 1))
    decreases |s| - p, 4
  {
    hide Stands, MemberText, Accepted, OneMember, Meaning;
    var x := MemberWritten(stod, s, p);
    var v := Meaning(stod, x.item.value).value;
    var e := p + |MemberText(x)|;
    if s[e] == '}' {
      ms := [x];
      assert MembersText(ms) == MemberText(x);
      assert MembersMeaning(stod, ms[1..], m[Chars(x.key) := v]).Some?;
      Ended(s, p, MemberText(x), '}');
    } else {
      var rest := MembersWritten(stod, s, e + 1, m[Chars(x.key) := v]);
      ms := [x] + rest;
      assert ms[1..] == rest;
      Continued(s, p, MemberText(x), MembersText(rest), "}");
    }
  }

  lemma {:induction false} ObjectWritten(stod: Stod, s: string, p: nat) returns (j: Json)
    requires p < |s| && s[p] == '{' && ParseObject(stod, s, p).Some?
    ensures Valid(Accepted, j) && Stands(s, p, Text(j))
    ensures ParseObject(stod, s, p) == Until(Meaning(stod, j), p + |Text(j)|)
    decreases |s| - p, 0
  {
    hide Stands, Members, MemberText, Accepted;
    var a := SkipWs(s, p + 1);
    SkippedBlank(s, p + 1);
    if a < |s| && s[a] == '}' {
      j := JObject(s[p + 1..a], []);
      Closed(s, p, '{', s[p + 1..a], '}');
    } else {
      MembersSkip(stod, s, p + 1, map[]);
      var ms := MembersWritten(stod, s, p + 1, map[]);
      j := JObject("", ms);
      StandsOne(s, p, '{', MembersText(ms) + "}");
    }
  }

  /** `s` is the text of a tree that means `v`, with white space around it. */
  ghost predicate Spells(stod: Stod, s: string, v: Value) {
    exists lead: string, j: Json, trail: string ::
      s == lead + Text(j) + trail && IsSpace(lead) && Valid(Accepted, j) && IsSpace(trail) && Meaning(stod, j) == Some(v)
  }

  lemma ParsedWritten(stod: Stod, s: string) returns (lead: string, j: Json, trail: string)
    requires Parse(stod, s).Some?
    ensures s == lead + Text(j) + trail && IsSpace(lead) && Valid(Accepted, j) && IsSpace(trail)
    ensures Meaning(stod, j) == Parse(stod, s)
  {
    hide Stands, ParseValue, Meaning, Accepted, Text, Valid, SkipWs, IsSpace, BlankStops;
    var a := SkipWs(s, 0);
    SkippedBlank(s, 0);
    SkipTwice(s, 0);
    ParseNeedsText(stod, s, a);
    j := ValueWritten(stod, s, a);
    var q := a + |Text(j)|;
    SkippedBlank(s, q);
    StandsSlice(s, a, Text(j));
    lead, trail := s[..a], s[q..];
    Cut(s, a, q);
  }

  lemma Cut(s: string, a: nat, q: nat)
    requires a <= q <= |s|
    ensures s == s[..a] + s[a..q] + s[q..] && s[..a] == s[0..a] && s[q..] == s[q..|s|]
  {
  }

  /** The accepted language and every value in it, in both directions. */
  lemma AcceptsExactly(stod: Stod, s: string, v: Value)
    ensures Parse(stod, s) == Some(v) <==> Spells(stod, s, v)
  {
    hide Parse, Text, Valid, Meaning, Accepted;
    if Spells(stod, s, v) {
      var lead: string, j: Json, trail: string :|
        s == lead + Text(j) + trail && IsSpace(lead) && Valid(Accepted, j) && IsSpace(trail) && Meaning(stod, j) == Some(v);
      PrintedParsed(stod, lead, j, trail);
    }
    if Parse(stod, s) == Some(v) {
      var lead, j, trail := ParsedWritten(stod, s);
    }
  }
}
