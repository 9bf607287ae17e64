/** The built-in JSON parser of the configuration loader. */
module MiniJson {
  import opened Strings
  import opened Wrappers

  datatype Value =
    | Null
    | Bool(b: bool)
    | Number(n: real)
    | String(s: string)
    | Array(items: seq<Value>)
    | Object(members: map<string, Value>)

  /** The library's number conversion, which may reject a text. */
  type Stod = string -> Option<real>

  /** A value and the position behind it. */
  type Parsed = Option<(Value, nat)>

  function SkipWs(s: string, p: nat): (q: nat)
    requires p <= |s|
    ensures p <= q <= |s|
    decreases |s| - p
  {
    if p < |s| && IsBlank(s[p]) then SkipWs(s, p + 1) else p
  }

  function Unescaped(e: char): char {
    match e
    case 'b' => '\U{0008}'
    case 'f' => '\U{000C}'
    case 'n' => '\n'
    case 'r' => '\r'
    case 't' => '\t'
    case _ => e
  }

  function Prepend(c: char, r: Option<(string, nat)>): Option<(string, nat)> {
    match r
    case None => None
    case Some((v, q)) => Some(([c] + v, q))
  }

  /** Value of a string whose body starts at `p`, and the position behind its closing quote. */
  function StringBody(s: string, p: nat): (r: Option<(string, nat)>)
    requires p <= |s|
    ensures r.Some? ==> p < r.value.1 <= |s|
    decreases |s| - p
  {
    if p == |s| then None
    else if s[p] == '"' then Some(("", p + 1))
    else if s[p] != '\\' then Prepend(s[p], StringBody(s, p + 1))
    else if p + 1 == |s| then None
    else if s[p + 1] != 'u' then Prepend(Unescaped(s[p + 1]), StringBody(s, p + 2))
    else if p + 6 > |s| then None
    else Prepend('?', StringBody(s, p + 6))
  }

  predicate IsNumberChar(c: char) {
    '0' <= c <= '9' || c in "-+.eE"
  }

  function NumberEnd(s: string, p: nat): (q: nat)
    requires p <= |s|
    ensures p <= q <= |s|
    decreases |s| - p
  {
    if p < |s| && IsNumberChar(s[p]) then NumberEnd(s, p + 1) else p
  }

  predicate StartsWith(s: string, p: nat, word: string) {
    p + |word| <= |s| && s[p..p + |word|] == word
  }

  function ParseValue(stod: Stod, s: string, p: nat): (r: Parsed)
    requires p <= |s|
    ensures r.Some? ==> p < r.value.1 <= |s|
    decreases |s| - p, 1
  {
    var a := SkipWs(s, p);
    if a == |s| then None
    else if s[a] == '{' then ParseObject(stod, s, a)
    else if s[a] == '[' then ParseArray(stod, s, a)
    else if s[a] == '"' then
      match StringBody(s, a + 1)
      case None => None
      case Some((v, q)) => Some((String(v), q))
    else if s[a] == 't' || s[a] == 'f' then
      if StartsWith(s, a, "true") then Some((Bool(true), a + 4))
      else if StartsWith(s, a, "false") then Some((Bool(false), a + 5))
      else None
    else if s[a] == 'n' then
      if StartsWith(s, a, "null") then Some((Null, a + 4)) else None
    else
      var q := NumberEnd(s, a);
      if q == a then None
      else
        match stod(s[a..q])
        case None => None
        case Some(n) => Some((Number(n), q))
  }

  function ParseObject(stod: Stod, s: string, p: nat): (r: Parsed)
    requires p < |s|
    ensures r.Some? ==> p < r.value.1 <= |s|
    decreases |s| - p, 0
  {
    var a := SkipWs(s, p + 1);
    if a < |s| && s[a] == '}' then Some((Object(map[]), a + 1)) else Members(stod, s, a, map[])
  }

  /** One member: key, value and the position behind the value. */
  function OneMember(stod: Stod, s: string, p: nat): (r: Option<(string, Value, nat)>)
    requires p <= |s|
    ensures r.Some? ==> p < r.value.2 <= |s|
    decreases |s| - p, 2
  {
    var a := SkipWs(s, p);
    if a == |s| || s[a] != '"' then None
    else
      match StringBody(s, a + 1)
      case None => None
      case Some((key, b)) =>
        var c := SkipWs(s, b);
        if c == |s| || s[c] != ':' then None
        else
          match ParseValue(stod, s, c + 1)
          case None => None
          case Some((v, d)) => Some((key, v, d))
  }

  /** Members from `p` on, added to those read so far; a later member replaces an earlier one. */
  function Members(stod: Stod, s: string, p: nat, m: map<string, Value>): (r: Parsed)
    requires p <= |s|
    ensures r.Some? ==> p < r.value.1 <= |s|
    decreases |s| - p, 3
  {
    match OneMember(stod, s, p)
    case None => None
    case Some((key, v, d)) =>
      var e := SkipWs(s, d);
      if e == |s| then None
      else if s[e] == ',' then Members(stod, s, e + 1, m[key := v])
      else if s[e] == '}' then Some((Object(m[key := v]), e + 1))
      else None
  }

  function ParseArray(stod: Stod, s: string, p: nat): (r: Parsed)
    requires p < |s|
    ensures r.Some? ==> p < r.value.1 <= |s|
    decreases |s| - p, 0
  {
    var a := SkipWs(s, p + 1);
    if a < |s| && s[a] == ']' then Some((Array([]), a + 1)) else Items(stod, s, a, [])
  }

  function Items(stod: Stod, s: string, p: nat, vs: seq<Value>): (r: Parsed)
    requires p <= |s|
    ensures r.Some? ==> p < r.value.1 <= |s|
    decreases |s| - p, 2
  {
    if p == |s| then None
    else
      match ParseValue(stod, s, p)
      case None => None
      case Some((v, d)) =>
        var e := SkipWs(s, d);
        if e == |s| then None
        else if s[e] == ',' then Items(stod, s, e + 1, vs + [v])
        else if s[e] == ']' then Some((Array(vs + [v]), e + 1))
        else None
  }

  /** The whole source is one value with white space around it. */
  function Parse(stod: Stod, s: string): Option<Value> {
    match ParseValue(stod, s, SkipWs(s, 0))
    case None => None
    case Some((v, q)) => if SkipWs(s, q) == |s| then Some(v) else None
  }

  // ---------------------------------------------------------------- the parser object

  class Parser {
    const stod: Stod
    const src: string
    var pos: nat

    constructor (stod: Stod, src: string)
      ensures this.stod == stod && this.src == src && pos == 0
    {
      this.stod, this.src := stod, src;
      pos := 0;
    }

    predicate Did(r: Option<Value>, spec: Parsed)
      reads this
    {
      pos <= |src| &&
      match spec
      case None => r == None
      case Some((v, q)) => r == Some(v) && pos == q
    }

    method SkipSpace()
      requires pos <= |src|
      modifies this
      ensures pos == SkipWs(src, old(pos))
    {
      while pos < |src| && IsBlank(src[pos])
        invariant pos <= |src| && SkipWs(src, pos) == SkipWs(src, old(pos))
        decreases |src| - pos
      {
        pos := pos + 1;
      }
    }

    method ReadValue() returns (r: Option<Value>)
      requires pos <= |src|
      modifies this
      ensures Did(r, ParseValue(stod, src, old(pos)))
      decreases |src| - pos, 1
    {
      SkipSpace();
      if pos >= |src| {
        return None;
      }
      var c := src[pos];
      if c == '{' {
        r := ReadObject();
      } else if c == '[' {
        r := ReadArray();
      } else if c == '"' {
        var t := ReadString();
        r := if t.None? then None else Some(String(t.value));
      } else if c == 't' || c == 'f' {
        r := ReadBool();
      } else if c == 'n' {
        r := ReadNull();
      } else {
        r := ReadNumber();
      }
    }

    method ReadObject() returns (r: Option<Value>)
      requires pos < |src|
      modifies this
      ensures Did(r, ParseObject(stod, src, old(pos)))
      decreases |src| - pos, 0
    {
      hide Members;
      pos := pos + 1;
      SkipSpace();
      if pos < |src| && src[pos] == '}' {
        pos := pos + 1;
        return Some(Object(map[]));
      }
      r := ReadMembers();
    }

    /** The member loop of an object. */
    method ReadMembers() returns (r: Option<Value>)
      requires pos <= |src|
      modifies this
      ensures Did(r, Members(stod, src, old(pos), map[]))
      decreases |src| - pos, 3
    {
      hide OneMember;
      var members: map<string, Value> := map[];
      ghost var start := pos;
      while pos < |src|
        invariant start <= pos <= |src|
        invariant Members(stod, src, pos, members) == Members(stod, src, start, map[])
        decreases |src| - pos
      {
        var member := ReadMember();
        if member.None? {
          return None;
        }
        members := members[member.value.0 := member.value.1];
        SkipSpace();
        if pos >= |src| {
          return None;
        }
        if src[pos] == ',' {
          pos := pos + 1;
          continue;
        }
        if src[pos] == '}' {
          pos := pos + 1;
          return Some(Object(members));
        }
        return None;
      }
      NoMember(stod, src, pos);
      return None;
    }

    method ReadMember() returns (r: Option<(string, Value)>)
      requires pos <= |src|
      modifies this
      ensures pos <= |src|
      ensures match OneMember(stod, src, old(pos))
              case None => r == None
              case Some((key, v, q)) => r == Some((key, v)) && pos == q
      decreases |src| - pos, 2
    {
      hide ParseValue, StringBody;
      SkipSpace();
      if pos == |src| || src[pos] != '"' {
        return None;
      }
      var key := ReadString();
      if key.None? {
        return None;
      }
      SkipSpace();
      if pos >= |src| || src[pos] != ':' {
        return None;
      }
      pos := pos + 1;
      var v := ReadValue();
      return if v.None? then None else Some((key.value, v.value));
    }

    method ReadArray() returns (r: Option<Value>)
      requires pos < |src|
      modifies this
      ensures Did(r, ParseArray(stod, src, old(pos)))
      decreases |src| - pos, 0
    {
      hide ParseValue;
      var items: seq<Value> := [];
      pos := pos + 1;
      SkipSpace();
      if pos < |src| && src[pos] == ']' {
        pos := pos + 1;
        return Some(Array(items));
      }
      ghost var start := pos;
      while pos < |src|
        invariant start <= pos <= |src|
        invariant Items(stod, src, pos, items) == Items(stod, src, start, [])
        decreases |src| - pos
      {
        var v := ReadValue();
        if v.None? {
          return None;
        }
        items := items + [v.value];
        SkipSpace();
        if pos >= |src| {
          return None;
        }
        if src[pos] == ',' {
          pos := pos + 1;
          continue;
        }
        if src[pos] == ']' {
          pos := pos + 1;
          return Some(Array(items));
        }
        return None;
      }
      return None;
    }

    method ReadString() returns (r: Option<string>)
      requires pos < |src|
      modifies this
      ensures pos <= |src|
      ensures match StringBody(src, old(pos) + 1)
              case None => r == None
              case Some((v, q)) => r == Some(v) && pos == q
    {
      pos := pos + 1;
      var value := "";
      PrependOne("", ' ', StringBody(src, pos));
      while pos < |src|
        invariant old(pos) < pos <= |src|
        invariant StringBody(src, old(pos) + 1) == PrependAll(value, StringBody(src, pos))
        decreases |src| - pos
      {
        var c := src[pos];
        pos := pos + 1;
        if c == '"' {
          assert value + "" == value;
          return Some(value);
        }
        if c == '\\' {
          if pos >= |src| {
            return None;
          }
          var e := src[pos];
          pos := pos + 1;
          if e == 'u' {
            if pos + 4 > |src| {
              return None;
            }
            pos := pos + 4;
            PrependOne(value, '?', StringBody(src, pos));
            value := value + ['?'];
          } else {
            PrependOne(value, Unescaped(e), StringBody(src, pos));
            value := value + [Unescaped(e)];
          }
        } else {
          PrependOne(value, c, StringBody(src, pos));
          value := value + [c];
        }
      }
      return None;
    }

    method ReadBool() returns (r: Option<Value>)
      requires pos < |src|
      modifies this
      ensures Did(r, if StartsWith(src, old(pos), "true") then Some((Bool(true), old(pos) + 4))
                     else if StartsWith(src, old(pos), "false") then Some((Bool(false), old(pos) + 5)) else None)
    {
      if StartsWith(src, pos, "true") {
        pos := pos + 4;
        return Some(Bool(true));
      }
      if StartsWith(src, pos, "false") {
        pos := pos + 5;
        return Some(Bool(false));
      }
      return None;
    }

    method ReadNull() returns (r: Option<Value>)
      requires pos < |src|
      modifies this
      ensures Did(r, if StartsWith(src, old(pos), "null") then Some((Null, old(pos) + 4)) else None)
    {
      if StartsWith(src, pos, "null") {
        pos := pos + 4;
        return Some(Null);
      }
      return None;
    }

    method ReadNumber() returns (r: Option<Value>)
      requires pos < |src|
      modifies this
      ensures pos == NumberEnd(src, old(pos))
      ensures r == if pos == old(pos) then None
                   else match stod(src[old(pos)..pos]) case None => None case Some(n) => Some(Number(n))
    {
      var start := pos;
      while pos < |src| && IsNumberChar(src[pos])
        invariant start <= pos <= |src| && NumberEnd(src, pos) == NumberEnd(src, start)
        decreases |src| - pos
      {
        pos := pos + 1;
      }
      if pos == start {
        return None;
      }
      var n := stod(src[start..pos]);
      return if n.None? then None else Some(Number(n.value));
    }
  }

  function PrependAll(v: string, r: Option<(string, nat)>): Option<(string, nat)> {
    match r
    case None => None
    case Some((w, q)) => Some((v + w, q))
  }

  lemma PrependOne(v: string, c: char, r: Option<(string, nat)>)
    ensures PrependAll(v, Prepend(c, r)) == PrependAll(v + [c], r)
    ensures PrependAll("", r) == r
  {
    if r.Some? {
      assert v + ([c] + r.value.0) == (v + [c]) + r.value.0;
      assert "" + r.value.0 == r.value.0;
    }
  }

  lemma NoMember(stod: Stod, s: string, p: nat)
    requires p == |s|
    ensures OneMember(stod, s, p) == None
  {
  }

  method ParseSource(stod: Stod, src: string) returns (r: Option<Value>)
    ensures r == Parse(stod, src)
  {
    var p := new Parser(stod, src);
    p.SkipSpace();
    r := p.ReadValue();
    if r.None? {
      return None;
    }
    p.SkipSpace();
    if p.pos < |src| {
      return None;
    }
  }
}
