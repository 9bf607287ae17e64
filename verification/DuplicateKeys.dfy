/** The one-pass detector of repeated keys in a JSON body. */
module DuplicateKeys {
  import opened JsonText
  import opened Wrappers

  /** Number of own keys of the value the library's JSON parser returns; none when that throws. */
  type KeyCount = string -> Option<nat>

  /** The scanner's variables; `keys` counts colons at brace depth 1. */
  datatype State = State(depth: int, inString: bool, escape: bool, keys: nat)

  const START := State(0, false, false, 0)

  function Step(st: State, c: char): State {
    if st.inString then
      if st.escape then st.(escape := false)
      else if c == '\\' then st.(escape := true)
      else if c == '"' then st.(inString := false)
      else st
    else if c == '"' then st.(inString := true)
    else if c == '{' then st.(depth := st.depth + 1)
    else if c == '}' then st.(depth := st.depth - 1)
    else if c == ':' && st.depth == 1 then st.(keys := st.keys + 1)
    else st
  }

  function Run(st: State, t: string): State
    decreases |t|
  {
    if t == "" then st else Run(Step(st, t[0]), t[1..])
  }

  predicate Reported(keyCount: KeyCount, text: string) {
    '{' in text && keyCount(text).Some? && Run(START, text).keys > keyCount(text).value
  }

  method HasDuplicateKeys(keyCount: KeyCount, text: string) returns (r: bool)
    ensures r == Reported(keyCount, text)
  {
    if '{' !in text {
      return false;
    }
    var parsedKeyCount := keyCount(text);
    if parsedKeyCount.None? {
      return false;
    }
    var depth: int, inString, escape := 0, false, false;
    var keysAtDepth1: nat := 0;
    assert text[0..] == text;
    for i := 0 to |text|
      invariant Run(State(depth, inString, escape, keysAtDepth1), text[i..]) == Run(START, text)
    {
      var c := text[i];
      assert text[i..][0] == c && text[i..][1..] == text[i + 1..];
      if inString {
        if escape {
          escape := false;
        } else if c == '\\' {
          escape := true;
        } else if c == '"' {
          inString := false;
        }
      } else if c == '"' {
        inString := true;
      } else if c == '{' {
        depth := depth + 1;
      } else if c == '}' {
        depth := depth - 1;
      } else if c == ':' && depth == 1 {
        keysAtDepth1 := keysAtDepth1 + 1;
      }
    }
    return keysAtDepth1 > parsedKeyCount.value;
  }

  // ---------------------------------------------------------------- the scanner on a JSON text

  /** Members of the objects that are inside no other object. */
  function OuterMembers(j: Json): nat {
    match j
    case JObject(_, members) => |members|
    case JArray(_, items) => OuterOfItems(items)
    case _ => 0
  }

  function OuterOfItems(items: seq<Item>): nat {
    if items == [] then 0 else OuterMembers(items[0].value) + OuterOfItems(items[1..])
  }

  /** What a whole value adds to the count when it begins at brace depth `depth`. */
  function Added(depth: int, n: nat): nat {
    if depth == 0 then n else 0
  }

  function More(st: State, n: nat): State {
    st.(keys := st.keys + n)
  }

  predicate Calm(st: State) {
    st.depth >= 0 && !st.inString && !st.escape
  }

  lemma {:induction false} RunConcat(st: State, a: string, b: string)
    ensures Run(st, a + b) == Run(Run(st, a), b)
    decreases |a|
  {
    if a == "" {
      assert a + b == b;
    } else {
      assert (a + b)[1..] == a[1..] + b;
      RunConcat(Step(st, a[0]), a[1..], b);
    }
  }

  /** Characters without a part in the scan. */
  predicate Unseen(c: char) {
    c != '"' && c != '{' && c != '}' && c != ':'
  }

  lemma {:induction false} PlainRun(st: State, t: string)
    requires Calm(st) && forall i :: 0 <= i < |t| ==> Unseen(t[i])
    ensures Run(st, t) == st
    decreases |t|
  {
    if t != "" {
      PlainRun(st, t[1..]);
    }
  }

  lemma FirstRun(st: State, c: char, t: string)
    ensures Run(st, [c] + t) == Run(Step(st, c), t)
  {
    assert ([c] + t)[1..] == t;
  }

  lemma OneRun(st: State, c: char)
    ensures Run(st, [c]) == Step(st, c)
  {
    FirstRun(st, c, "");
    assert [c] + "" == [c];
  }

  lemma {:induction false} InsideRun(st: State, t: string)
    requires st.inString && !st.escape && '"' !in t && '\\' !in t
    ensures Run(st, t) == st
    decreases |t|
  {
    if t != "" {
      InsideRun(st, t[1..]);
    }
  }

  lemma CharRun(st: State, c: StrChar)
    requires st.inString && !st.escape && Strict(c)
    ensures Run(st, CharText(c)) == st
  {
    hide Run;
    match c {
      case Plain(x) => OneRun(st, x);
      case Escape(e) =>
        FirstRun(st, '\\', [e]);
        assert ['\\', e] == ['\\'] + [e];
        OneRun(Step(st, '\\'), e);
      case Unicode(hex) =>
        FirstRun(st, '\\', ['u'] + hex);
        FirstRun(Step(st, '\\'), 'u', hex);
        InsideRun(st, hex);
    }
  }

  lemma {:induction false} CharsRun(st: State, cs: seq<StrChar>)
    requires st.inString && !st.escape && ValidChars(Strict, cs)
    ensures Run(st, CharsText(cs)) == st
    decreases |cs|
  {
    if cs != [] {
      RunConcat(st, CharText(cs[0]), CharsText(cs[1..]));
      CharRun(st, cs[0]);
      CharsRun(st, cs[1..]);
    }
  }

  lemma QuotedRun(st: State, cs: seq<StrChar>)
    requires Calm(st) && ValidChars(Strict, cs)
    ensures Run(st, Quoted(cs)) == st
  {
    var inside := st.(inString := true);
    FirstRun(st, '"', CharsText(cs) + "\"");
    RunConcat(inside, CharsText(cs), "\"");
    CharsRun(inside, cs);
    OneRun(inside, '"');
  }

  lemma {:induction false} TextRun(st: State, j: Json)
    requires Calm(st) && Valid(Strict, j)
    ensures Run(st, Text(j)) == More(st, Added(st.depth, OuterMembers(j)))
    decreases j
  {
    hide Run;
    match j {
      case JString(cs) => QuotedRun(st, cs);
      case JArray(blank, items) =>
        var body := if items == [] then blank else ItemsText(items);
        FirstRun(st, '[', body + "]");
        RunConcat(st, body, "]");
        if items == [] {
          PlainRun(st, blank);
        } else {
          ItemsRun(st, items);
        }
        OneRun(More(st, Added(st.depth, OuterOfItems(items))), ']');
      case JObject(blank, ms) =>
        var body := if ms == [] then blank else MembersText(ms);
        var inside := st.(depth := st.depth + 1);
        FirstRun(st, '{', body + "}");
        RunConcat(inside, body, "}");
        if ms == [] {
          PlainRun(inside, blank);
        } else {
          MembersRun(inside, ms);
        }
        OneRun(More(inside, Added(st.depth, |ms|)), '}');
      case _ => PlainRun(st, Text(j));
    }
  }

  lemma {:induction false} ItemRun(st: State, i: Item)
    requires Calm(st) && ValidItem(Strict, i)
    ensures Run(st, ItemText(i)) == More(st, Added(st.depth, OuterMembers(i.value)))
    decreases i
  {
    hide Run, Text;
    RunConcat(st, i.before, Text(i.value) + i.after);
    RunConcat(st, Text(i.value), i.after);
    PlainRun(st, i.before);
    TextRun(st, i.value);
    PlainRun(More(st, Added(st.depth, OuterMembers(i.value))), i.after);
  }

  lemma {:induction false} ItemsRun(st: State, items: seq<Item>)
    requires Calm(st) && ValidItems(Strict, items)
    ensures Run(st, ItemsText(items)) == More(st, Added(st.depth, OuterOfItems(items)))
    decreases items
  {
    hide Run, ItemText, OuterMembers;
    if items == [] {
      PlainRun(st, "");
    } else {
      var after := More(st, Added(st.depth, OuterMembers(items[0].value)));
      ItemRun(st, items[0]);
      if |items| == 1 {
        assert ItemsText(items) == ItemText(items[0]);
      } else {
        RunConcat(st, ItemText(items[0]), [','] + ItemsText(items[1..]));
        FirstRun(after, ',', ItemsText(items[1..]));
        ItemsRun(after, items[1..]);
      }
    }
  }

  /** A member adds its own colon at depth 1 and nothing else. */
  lemma {:induction false} MemberRun(st: State, m: Member)
    requires Calm(st) && st.depth >= 1 && ValidMember(Strict, m)
    ensures Run(st, MemberText(m)) == More(st, Added(st.depth - 1, 1))
    decreases m
  {
    hide Run, ItemText, Quoted;
    var value := [':'] + ItemText(m.item);
    RunConcat(st, m.lead, Quoted(m.key) + (m.trail + value));
    PlainRun(st, m.lead);
    RunConcat(st, Quoted(m.key), m.trail + value);
    QuotedRun(st, m.key);
    RunConcat(st, m.trail, value);
    PlainRun(st, m.trail);
    FirstRun(st, ':', ItemText(m.item));
    ItemRun(More(st, Added(st.depth - 1, 1)), m.item);
  }

  lemma {:induction false} MembersRun(st: State, ms: seq<Member>)
    requires Calm(st) && st.depth >= 1 && ValidMembers(Strict, ms)
    ensures Run(st, MembersText(ms)) == More(st, Added(st.depth - 1, |ms|))
    decreases ms
  {
    hide Run, MemberText;
    if ms == [] {
      PlainRun(st, "");
    } else {
      var after := More(st, Added(st.depth - 1, 1));
      MemberRun(st, ms[0]);
      if |ms| == 1 {
        assert MembersText(ms) == MemberText(ms[0]);
      } else {
        RunConcat(st, MemberText(ms[0]), [','] + MembersText(ms[1..]));
        FirstRun(after, ',', MembersText(ms[1..]));
        MembersRun(after, ms[1..]);
      }
    }
  }

  /** On every JSON text the counter ends at the number of members of the outermost objects. */
  lemma CountsOuterMembers(lead: string, j: Json, trail: string)
    requires IsSpace(lead) && Valid(Strict, j) && IsSpace(trail)
    ensures Run(START, lead + Text(j) + trail) == More(START, OuterMembers(j))
  {
    hide Run, Text;
    RunConcat(START, lead + Text(j), trail);
    RunConcat(START, lead, Text(j));
    PlainRun(START, lead);
    TextRun(START, j);
    PlainRun(More(START, OuterMembers(j)), trail);
  }

  lemma {:induction false} NoBraceNoKeys(st: State, t: string)
    requires '{' !in t && st.depth <= 0
    ensures Run(st, t).keys == st.keys
    decreases |t|
  {
    if t != "" {
      NoBraceNoKeys(Step(st, t[0]), t[1..]);
    }
  }

  // ---------------------------------------------------------------- the verdict

  /** The distinct keys of an object, once `decode` has undone the escapes. */
  function Keys(decode: seq<StrChar> -> string, ms: seq<Member>): set<string> {
    if ms == [] then {} else {decode(ms[0].key)} + Keys(decode, ms[1..])
  }

  ghost predicate Repeats(decode: seq<StrChar> -> string, ms: seq<Member>) {
    exists i, k :: 0 <= i < k < |ms| && decode(ms[i].key) == decode(ms[k].key)
  }

  lemma {:induction false} InKeys(decode: seq<StrChar> -> string, ms: seq<Member>, key: string)
    ensures key in Keys(decode, ms) <==> exists k :: 0 <= k < |ms| && decode(ms[k].key) == key
  {
    if ms != [] {
      InKeys(decode, ms[1..], key);
      if key in Keys(decode, ms[1..]) {
        var k :| 0 <= k < |ms[1..]| && decode(ms[1..][k].key) == key;
        assert decode(ms[k + 1].key) == key;
      }
      if k :| 0 < k < |ms| && decode(ms[k].key) == key {
        assert decode(ms[1..][k - 1].key) == key;
      }
    }
  }

  lemma RepeatsAt(decode: seq<StrChar> -> string, ms: seq<Member>, i: nat, k: nat)
    requires i < k < |ms| && decode(ms[i].key) == decode(ms[k].key)
    ensures Repeats(decode, ms)
  {
  }

  /** A repetition in the tail is one of the whole, and so is the first key found in the tail. */
  lemma RepeatsLater(decode: seq<StrChar> -> string, ms: seq<Member>)
    requires ms != [] && (Repeats(decode, ms[1..]) || decode(ms[0].key) in Keys(decode, ms[1..]))
    ensures Repeats(decode, ms)
  {
    hide Keys;
    var rest := ms[1..];
    InKeys(decode, rest, decode(ms[0].key));
    if Repeats(decode, rest) {
      var i, k :| 0 <= i < k < |rest| && decode(rest[i].key) == decode(rest[k].key);
      RepeatsAt(decode, ms, i + 1, k + 1);
    } else {
      var k :| 0 <= k < |rest| && decode(rest[k].key) == decode(ms[0].key);
      RepeatsAt(decode, ms, 0, k + 1);
    }
  }

  lemma KeyInTail(decode: seq<StrChar> -> string, ms: seq<Member>, k: nat)
    requires 0 < k < |ms|
    ensures decode(ms[k].key) in Keys(decode, ms[1..])
  {
    InKeys(decode, ms[1..], decode(ms[k].key));
    assert decode(ms[1..][k - 1].key) == decode(ms[k].key);
  }

  lemma RepeatsFirst(decode: seq<StrChar> -> string, ms: seq<Member>)
    requires ms != []
    ensures Repeats(decode, ms) <==> Repeats(decode, ms[1..]) || decode(ms[0].key) in Keys(decode, ms[1..])
  {
    hide Keys;
    if Repeats(decode, ms) {
      var i, k :| 0 <= i < k < |ms| && decode(ms[i].key) == decode(ms[k].key);
      if i == 0 {
        KeyInTail(decode, ms, k);
      } else {
        RepeatsAt(decode, ms[1..], i - 1, k - 1);
      }
    } else if Repeats(decode, ms[1..]) || decode(ms[0].key) in Keys(decode, ms[1..]) {
      RepeatsLater(decode, ms);
    }
  }

  lemma {:induction false} FewerKeysWhenRepeated(decode: seq<StrChar> -> string, ms: seq<Member>)
    ensures |Keys(decode, ms)| <= |ms|
    ensures |Keys(decode, ms)| < |ms| <==> Repeats(decode, ms)
  {
    if ms != [] {
      hide Repeats;
      var key, rest := decode(ms[0].key), ms[1..];
      FewerKeysWhenRepeated(decode, rest);
      RepeatsFirst(decode, ms);
      if key in Keys(decode, rest) {
        assert {key} + Keys(decode, rest) == Keys(decode, rest);
      }
    }
  }

  /** Own keys of a parsed value: members, indices, or characters; `null` has none to ask for. */
  function OwnKeys(decode: seq<StrChar> -> string, j: Json): Option<nat> {
    match j
    case JNull => None
    case JObject(_, ms) => Some(|Keys(decode, ms)|)
    case JArray(_, items) => Some(|items|)
    case JString(cs) => Some(|decode(cs)|)
    case _ => Some(0)
  }

  /**
   * For every JSON text, given a parser that decodes keys by `decode`: an object is reported
   * exactly when two of its keys are equal after decoding, whatever is nested in it. An array is
   * reported when its outermost objects have more members than it has items, which says nothing
   * about repeated keys; no other value is reported.
   */
  lemma Verdict(keyCount: KeyCount, decode: seq<StrChar> -> string, lead: string, j: Json, trail: string)
    requires IsSpace(lead) && Valid(Strict, j) && IsSpace(trail)
    requires keyCount(lead + Text(j) + trail) == OwnKeys(decode, j)
    ensures Reported(keyCount, lead + Text(j) + trail) <==>
      match j
      case JObject(_, ms) => Repeats(decode, ms)
      case JArray(_, items) => OuterOfItems(items) > |items|
      case _ => false
  {
    hide Run;
    var text := lead + Text(j) + trail;
    CountsOuterMembers(lead, j, trail);
    if '{' !in text {
      NoBraceNoKeys(START, text);
    }
    if j.JObject? {
      FewerKeysWhenRepeated(decode, j.members);
      assert text[|lead|] == '{';
    }
  }

  function Flag(key: char): Member {
    Member("", [StrChar.Plain(key)], "", Item("", JBool(true), ""))
  }

  function TwoFlags(): Json {
    JObject("", [Flag('a'), Flag('b')])
  }

  lemma TwoFlagsValid()
    ensures Valid(Strict, TwoFlags())
  {
    var ms := TwoFlags().members;
    assert ms[1..] == [Flag('b')] && [Flag('b')][1..] == [];
    assert ValidMembers(Strict, [Flag('b')]);
  }

  /** `[{"a":true,"b":true}]` is reported although its one object repeats no key. */
  lemma ArrayMisreported(keyCount: KeyCount, decode: seq<StrChar> -> string)
    requires keyCount(Text(JArray("", [Item("", TwoFlags(), "")]))) == Some(1)
    requires decode([StrChar.Plain('a')]) != decode([StrChar.Plain('b')])
    ensures Reported(keyCount, Text(JArray("", [Item("", TwoFlags(), "")])))
    ensures !Repeats(decode, TwoFlags().members)
  {
    hide Text, Reported;
    TwoFlagsValid();
    var items := [Item("", TwoFlags(), "")];
    var j := JArray("", items);
    OneItem(items[0]);
    assert "" + Text(j) + "" == Text(j);
    Verdict(keyCount, decode, "", j, "");
  }

  lemma OneItem(i: Item)
    requires ValidItem(Strict, i)
    ensures ValidItems(Strict, [i]) && OuterOfItems([i]) == OuterMembers(i.value)
  {
    hide ValidItem, OuterMembers;
    assert [i][1..] == [];
    assert ValidItems(Strict, [i][1..]) && OuterOfItems([i][1..]) == 0;
  }
}
