/** Printing a value, and the built-in parser as its inverse. */
module MiniJsonPrint {
  import opened JsonText
  import opened MiniJson
  import opened MiniJsonText
  import opened Numerals
  import opened Wrappers

  // ---------------------------------------------------------------- strings and numbers

  /** What the standard gives a short escape is escaped; every other character stands for itself. */
  function CharOf(c: char): StrChar {
    if c == '"' || c == '\\' || c == '/' then Escape(c)
    else if c as int == 0x0008 then Escape('b')
    else if c as int == 0x000C then Escape('f')
    else if c as int == 0x000A then Escape('n')
    else if c as int == 0x000D then Escape('r')
    else if c as int == 0x0009 then Escape('t')
    else Plain(c)
  }

  function CharsOf(s: string): seq<StrChar> {
    if s == "" then [] else [CharOf(s[0])] + CharsOf(s[1..])
  }

  lemma {:induction false} CharsBack(s: string)
    ensures ValidChars(Strict, CharsOf(s)) && Chars(CharsOf(s)) == s
  {
    if s != "" {
      CharsBack(s[1..]);
      assert Chars(CharsOf(s)) == [s[0]] + s[1..];
    }
  }

  function Integer(z: int): string {
    if z >= 0 then Decimal(z) else "-" + Decimal(-z)
  }

  /** On up to 15 digits, with or without a minus sign, the library's conversion is the integer. */
  ghost predicate ReadsIntegers(stod: Stod) {
    forall s: string :: IsDigits(s) && |s| <= 15 ==>
      stod(s) == Some(Positional(s) as real) && stod("-" + s) == Some(-(Positional(s) as real))
  }

  lemma DigitsAreNumber(s: string)
    requires IsDigits(s)
    ensures IsNumberText(s) && IsNumberText("-" + s)
  {
  }

  lemma IntegerRead(stod: Stod, z: int)
    requires ReadsIntegers(stod) && -EXACT < z < EXACT
    ensures IsNumberText(Integer(z)) && stod(Integer(z)) == Some(z as real)
  {
    hide Decimal, IsNumberText, IsDigits;
    var n := if z >= 0 then z else -z;
    DecimalPositional(n);
    ShortDecimal(n);
    DigitsAreNumber(Decimal(n));
  }

  // ---------------------------------------------------------------- values

  /** Every number in the value is an integer of at most 15 digits. */
  ghost predicate Whole(v: Value) {
    match v
    case Number(n) => n == n.Floor as real && -EXACT < n.Floor < EXACT
    case Array(items) => forall i :: 0 <= i < |items| ==> Whole(items[i])
    case Object(members) => forall k :: k in members ==> Whole(members[k])
    case _ => true
  }

  /** A tree for the value; the members of an object come in any order. */
  ghost function Print(v: Value): Json
    decreases v, 1, 0
  {
    match v
    case Null => JNull
    case Bool(b) => JBool(b)
    case Number(n) => JNumber(Integer(n.Floor))
    case String(s) => JString(CharsOf(s))
    case Array(items) => JArray("", PrintItems(v, 0))
    case Object(members) => JObject("", PrintMembers(v, members.Keys))
  }

  /** The items of an array from the `n`-th on. */
  ghost function PrintItems(v: Value, n: nat): seq<Item>
    requires v.Array? && n <= |v.items|
    decreases v, 0, |v.items| - n
  {
    if n == |v.items| then [] else [Item("", Print(v.items[n]), "")] + PrintItems(v, n + 1)
  }

  /** The members of an object with these keys. */
  ghost function PrintMembers(v: Value, keys: set<string>): seq<JsonText.Member>
    requires v.Object? && keys <= v.members.Keys
    decreases v, 0, |keys|
  {
    if keys == {} then []
    else
      var k :| k in keys;
      [Plainly(k, Print(v.members[k]))] + PrintMembers(v, keys - {k})
  }

  // ---------------------------------------------------------------- the printed tree means the value

  lemma {:induction false} PrintMeans(stod: Stod, v: Value)
    requires ReadsIntegers(stod) && Whole(v)
    ensures Valid(Strict, Print(v)) && Meaning(stod, Print(v)) == Some(v)
    decreases v, 1, 0
  {
    hide ReadsIntegers, Chosen, PrintItems, PrintMembers, ItemsMeaning, MembersMeaning, ValidItems, ValidMembers;
    match v {
      case Number(n) => IntegerRead(stod, n.Floor);
      case String(s) => CharsBack(s);
      case Array(items) => ItemsMean(stod, v, 0);
      case Object(members) =>
        MembersMean(stod, v, members.Keys, map[]);
        ChosenAll(members);
      case _ =>
    }
  }

  lemma {:induction false} ItemsMean(stod: Stod, v: Value, n: nat)
    requires ReadsIntegers(stod) && Whole(v) && v.Array? && n <= |v.items|
    ensures ValidItems(Strict, PrintItems(v, n)) && ItemsMeaning(stod, PrintItems(v, n)) == Some(v.items[n..])
    decreases v, 0, |v.items| - n
  {
    hide ReadsIntegers, Print, Meaning, Valid;
    if n < |v.items| {
      PrintMeans(stod, v.items[n]);
      ItemsMean(stod, v, n + 1);
      ItemFirst(stod, Print(v.items[n]), PrintItems(v, n + 1), v.items[n], v.items[n + 1..]);
      assert [v.items[n]] + v.items[n + 1..] == v.items[n..];
    } else {
      assert v.items[n..] == [];
    }
  }

  /** An item in front of items that mean values. */
  lemma ItemFirst(stod: Stod, j: Json, items: seq<Item>, x: Value, xs: seq<Value>)
    requires Valid(Strict, j) && Meaning(stod, j) == Some(x)
    requires ValidItems(Strict, items) && ItemsMeaning(stod, items) == Some(xs)
    ensures ValidItems(Strict, [Item("", j, "")] + items) && ItemsMeaning(stod, [Item("", j, "")] + items) == Some([x] + xs)
  {
    hide Valid, Meaning;
    var all := [Item("", j, "")] + items;
    assert all[0] == Item("", j, "") && all[1..] == items;
    assert ValidItem(Strict, all[0]);
  }

  ghost function Chosen(m: map<string, Value>, keys: set<string>): map<string, Value>
    requires keys <= m.Keys
  {
    map k | k in keys :: m[k]
  }

  lemma ChosenAll(m: map<string, Value>)
    ensures map[] + Chosen(m, m.Keys) == m
  {
  }

  lemma ChosenNone(v: map<string, Value>, m: map<string, Value>)
    ensures m + Chosen(v, {}) == m
  {
  }

  lemma ChosenMore(v: map<string, Value>, keys: set<string>, k: string, m: map<string, Value>)
    requires k in keys && keys <= v.Keys
    ensures m[k := v[k]] + Chosen(v, keys - {k}) == m + Chosen(v, keys)
  {
  }

  function Plainly(key: string, j: Json): JsonText.Member {
    JsonText.Member("", CharsOf(key), "", Item("", j, ""))
  }

  lemma MoreMembers(stod: Stod, key: string, j: Json, v: Value, rest: seq<JsonText.Member>, m: map<string, Value>)
    requires Valid(Strict, j) && Meaning(stod, j) == Some(v) && ValidMembers(Strict, rest)
    ensures ValidMembers(Strict, [Plainly(key, j)] + rest)
    ensures MembersMeaning(stod, [Plainly(key, j)] + rest, m) == MembersMeaning(stod, rest, m[key := v])
  {
    hide Valid, Meaning;
    CharsBack(key);
    assert ([Plainly(key, j)] + rest)[1..] == rest;
    assert ValidItem(Strict, Item("", j, "")) && ValidMember(Strict, Plainly(key, j));
  }

  lemma {:induction false} MembersMean(stod: Stod, v: Value, keys: set<string>, m: map<string, Value>)
    requires ReadsIntegers(stod) && Whole(v) && v.Object? && keys <= v.members.Keys
    ensures ValidMembers(Strict, PrintMembers(v, keys))
    ensures MembersMeaning(stod, PrintMembers(v, keys), m) == Some(m + Chosen(v.members, keys))
    decreases v, 0, |keys|
  {
    hide ReadsIntegers, Chosen, Meaning, Valid, Print, Whole;
    if keys == {} {
      ChosenNone(v.members, m);
    } else {
      hide MembersMeaning, ValidMembers;
      var k :| k in keys && PrintMembers(v, keys) == [Plainly(k, Print(v.members[k]))] + PrintMembers(v, keys - {k});
      WholeMember(v, k);
      PrintMeans(stod, v.members[k]);
      MembersMean(stod, v, keys - {k}, m[k := v.members[k]]);
      MoreMembers(stod, k, Print(v.members[k]), v.members[k], PrintMembers(v, keys - {k}), m);
      ChosenMore(v.members, keys, k, m);
    }
  }

  lemma WholeMember(v: Value, k: string)
    requires v.Object? && Whole(v) && k in v.members
    ensures Whole(v.members[k])
  {
  }

  lemma {:induction false} StrictTree(j: Json)
    requires Valid(Strict, j)
    ensures Valid(Accepted, j)
    decreases j
  {
    match j {
      case JString(cs) => StrictChars(cs);
      case JArray(_, items) => StrictItems(items);
      case JObject(_, ms) => StrictMembers(ms);
      case _ =>
    }
  }

  lemma StrictChars(cs: seq<StrChar>)
    requires ValidChars(Strict, cs)
    ensures ValidChars(Accepted, cs)
  {
    forall i | 0 <= i < |cs| ensures Accepted(cs[i]) {
      StrictIsAccepted(cs[i]);
    }
  }

  lemma {:induction false} StrictItems(items: seq<Item>)
    requires ValidItems(Strict, items)
    ensures ValidItems(Accepted, items)
    decreases items
  {
    if items != [] {
      StrictTree(items[0].value);
      StrictItems(items[1..]);
    }
  }

  lemma {:induction false} StrictMembers(ms: seq<JsonText.Member>)
    requires ValidMembers(Strict, ms)
    ensures ValidMembers(Accepted, ms)
    decreases ms
  {
    if ms != [] {
      assert ValidMember(Strict, ms[0]) && ValidItem(Strict, ms[0].item);
      StrictChars(ms[0].key);
      StrictTree(ms[0].item.value);
      StrictMembers(ms[1..]);
      assert ValidItem(Accepted, ms[0].item) && ValidMember(Accepted, ms[0]);
    }
  }

  /** Printing any value whose numbers are integers and parsing the text gives the value back. */
  lemma ValueBack(stod: Stod, v: Value)
    requires ReadsIntegers(stod) && Whole(v)
    ensures Parse(stod, Text(Print(v))) == Some(v)
  {
    hide ReadsIntegers, Whole, Print, Text, Valid, Parse, Meaning;
    PrintMeans(stod, v);
    StrictTree(Print(v));
    MiniJsonText.PrintedParsed(stod, "", Print(v), "");
    assert "" + Text(Print(v)) + "" == Text(Print(v));
  }
}
