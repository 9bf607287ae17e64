/** The recursive-descent parser for rule conditions. */
module ConditionParser {
  import opened RuleSyntax

  /** A parse result, or the token at which the parser throws. */
  datatype Result<+T> = Ok(value: T) | Fail(at: Token)

  const END := Token(EOF, "", 1, "")

  function Peek(ts: seq<Token>, p: nat): Token {
    if p < |ts| then ts[p] else END
  }

  /** Position after one token, if it has the wanted kind. */
  function Expect(ts: seq<Token>, p: nat, kind: Kind): Result<nat> {
    if Peek(ts, p).kind != kind then Fail(Peek(ts, p)) else Ok(if p < |ts| then p + 1 else p)
  }

  /** End of the run of variables that starts at `p`. */
  function VarsEnd(ts: seq<Token>, p: nat): (q: nat)
    requires p <= |ts|
    ensures p <= q <= |ts|
    decreases |ts| - p
  {
    if Peek(ts, p).kind == DOLLAR_ID then VarsEnd(ts, p + 1) else p
  }

  function Values(ts: seq<Token>): (vs: seq<string>)
    ensures |vs| == |ts|
  {
    seq(|ts|, i requires 0 <= i < |ts| => ts[i].value)
  }

  lemma ValuesSnoc(ts: seq<Token>, a: nat, b: nat)
    requires a <= b < |ts|
    ensures Values(ts[a..b + 1]) == Values(ts[a..b]) + [ts[b].value]
  {
  }

  type Parsed = Result<(Condition, nat)>

  predicate Moves(r: Parsed, ts: seq<Token>, p: nat) {
    r.Ok? ==> p < r.value.1 <= |ts|
  }

  function ParseOr(ts: seq<Token>, p: nat): (r: Parsed)
    requires p <= |ts|
    ensures Moves(r, ts, p)
    decreases |ts| - p, 4
  {
    match ParseAnd(ts, p)
    case Fail(t) => Fail(t)
    case Ok((left, q)) => OrLoop(ts, left, q)
  }

  function OrLoop(ts: seq<Token>, left: Condition, p: nat): (r: Parsed)
    requires p <= |ts|
    ensures r.Ok? ==> p <= r.value.1 <= |ts|
    decreases |ts| - p, 5
  {
    if Peek(ts, p).kind != OR then Ok((left, p))
    else
      match ParseAnd(ts, p + 1)
      case Fail(t) => Fail(t)
      case Ok((right, q)) => OrLoop(ts, Or(left, right), q)
  }

  function ParseAnd(ts: seq<Token>, p: nat): (r: Parsed)
    requires p <= |ts|
    ensures Moves(r, ts, p)
    decreases |ts| - p, 2
  {
    match ParseNot(ts, p)
    case Fail(t) => Fail(t)
    case Ok((left, q)) => AndLoop(ts, left, q)
  }

  function AndLoop(ts: seq<Token>, left: Condition, p: nat): (r: Parsed)
    requires p <= |ts|
    ensures r.Ok? ==> p <= r.value.1 <= |ts|
    decreases |ts| - p, 3
  {
    if Peek(ts, p).kind != AND then Ok((left, p))
    else
      match ParseNot(ts, p + 1)
      case Fail(t) => Fail(t)
      case Ok((right, q)) => AndLoop(ts, And(left, right), q)
  }

  function ParseNot(ts: seq<Token>, p: nat): (r: Parsed)
    requires p <= |ts|
    ensures Moves(r, ts, p)
    decreases |ts| - p, 1
  {
    if Peek(ts, p).kind != NOT then ParsePrimary(ts, p)
    else
      match ParsePrimary(ts, p + 1)
      case Fail(t) => Fail(t)
      case Ok((e, q)) => Ok((Not(e), q))
  }

  function ParsePrimary(ts: seq<Token>, p: nat): (r: Parsed)
    requires p <= |ts|
    ensures Moves(r, ts, p)
    decreases |ts| - p, 0
  {
    var t := Peek(ts, p);
    match t.kind
    case LPAREN =>
      (match ParseOr(ts, p + 1)
       case Fail(u) => Fail(u)
       case Ok((e, q)) => Closed(ts, e, q))
    case ANY_OF => ParseSet(ts, p + 1, true)
    case ALL_OF => ParseSet(ts, p + 1, false)
    case DOLLAR_ID =>
      if Peek(ts, p + 1).kind != IN then Ok((Match(t.value), p + 1))
      else
        (match Expect(ts, p + 2, DOLLAR_ID)
         case Fail(u) => Fail(u)
         case Ok(q) => Ok((MatchIn(t.value, ts[p + 2].value), q)))
    case TRUE => Ok((Boolean(true), p + 1))
    case FALSE => Ok((Boolean(false), p + 1))
    case _ => Fail(t)
  }

  function Closed(ts: seq<Token>, e: Condition, q: nat): (r: Parsed)
    requires q <= |ts|
    ensures r.Ok? ==> q < r.value.1 <= |ts|
  {
    match Expect(ts, q, RPAREN)
    case Fail(t) => Fail(t)
    case Ok(q') => Ok((e, q'))
  }

  function SetOf(any: bool, vars: seq<string>): Condition {
    if any then AnyOf(vars) else AllOf(vars)
  }

  /** What follows `any of` or `all of`: `them`, or variables in parentheses. */
  function ParseSet(ts: seq<Token>, p: nat, any: bool): (r: Parsed)
    requires p <= |ts|
    ensures r.Ok? ==> p < r.value.1 <= |ts|
  {
    var isThem := Peek(ts, p).kind == THEM;
    var p' := if isThem && p < |ts| then p + 1 else p;
    if isThem && Peek(ts, p).value != "" then Ok((if any then AnyOfThem else AllOfThem, p'))
    else
      match Expect(ts, p', LPAREN)
      case Fail(t) => Fail(t)
      case Ok(a) =>
        var b := VarsEnd(ts, a);
        Closed(ts, SetOf(any, Values(ts[a..b])), b)
  }

  // ---------------------------------------------------------------- the parser object

  class Parser {
    const tokens: seq<Token>
    var pos: nat

    constructor (tokens: seq<Token>)
      ensures this.tokens == tokens && pos == 0
    {
      this.tokens := tokens;
      pos := 0;
    }

    /** The result and the new position are those of a specification function started at the old position. */
    predicate Did(r: Result<Condition>, spec: Parsed)
      reads this
    {
      match spec
      case Ok((e, q)) => r == Ok(e) && pos == q
      case Fail(t) => r == Fail(t) && pos <= |tokens|
    }

    function PeekToken(): Token
      reads this
    {
      Peek(tokens, pos)
    }

    method Advance() returns (t: Token)
      requires pos <= |tokens|
      modifies this
      ensures t == Peek(tokens, old(pos))
      ensures pos == if old(pos) < |tokens| then old(pos) + 1 else old(pos)
    {
      if pos < |tokens| {
        t := tokens[pos];
        pos := pos + 1;
      } else {
        t := END;
      }
    }

    method ExpectToken(kind: Kind) returns (r: Result<Token>)
      requires pos <= |tokens|
      modifies this
      ensures pos <= |tokens|
      ensures match Expect(tokens, old(pos), kind)
              case Ok(q) => r == Ok(Peek(tokens, old(pos))) && pos == q
              case Fail(t) => r == Fail(t)
    {
      var t := Advance();
      return if t.kind != kind then Fail(t) else Ok(t);
    }

    method MatchToken(kind: Kind) returns (t: Token)
      requires pos <= |tokens|
      modifies this
      ensures if Peek(tokens, old(pos)).kind == kind
              then t == Peek(tokens, old(pos)) && pos == (if old(pos) < |tokens| then old(pos) + 1 else old(pos))
              else t == END && pos == old(pos)
    {
      if PeekToken().kind == kind {
        t := Advance();
      } else {
        t := END;
      }
    }

    method ParseOrHere() returns (r: Result<Condition>)
      requires pos <= |tokens|
      modifies this
      ensures Did(r, ParseOr(tokens, old(pos)))
      decreases |tokens| - pos, 3
    {
      r := ParseAndHere();
      if r.Fail? {
        return;
      }
      var left := r.value;
      while PeekToken().kind == OR
        invariant pos <= |tokens| && old(pos) < pos
        invariant ParseOr(tokens, old(pos)) == OrLoop(tokens, left, pos)
        decreases |tokens| - pos
      {
        var _ := Advance();
        r := ParseAndHere();
        if r.Fail? {
          return;
        }
        left := Or(left, r.value);
      }
      return Ok(left);
    }

    method ParseAndHere() returns (r: Result<Condition>)
      requires pos <= |tokens|
      modifies this
      ensures Did(r, ParseAnd(tokens, old(pos)))
      decreases |tokens| - pos, 2
    {
      r := ParseNotHere();
      if r.Fail? {
        return;
      }
      var left := r.value;
      while PeekToken().kind == AND
        invariant pos <= |tokens| && old(pos) < pos
        invariant ParseAnd(tokens, old(pos)) == AndLoop(tokens, left, pos)
        decreases |tokens| - pos
      {
        var _ := Advance();
        r := ParseNotHere();
        if r.Fail? {
          return;
        }
        left := And(left, r.value);
      }
      return Ok(left);
    }

    method ParseNotHere() returns (r: Result<Condition>)
      requires pos <= |tokens|
      modifies this
      ensures Did(r, ParseNot(tokens, old(pos)))
      decreases |tokens| - pos, 1
    {
      if PeekToken().kind == NOT {
        var _ := Advance();
        r := ParsePrimaryHere();
        if r.Ok? {
          r := Ok(Not(r.value));
        }
      } else {
        r := ParsePrimaryHere();
      }
    }

    method ParsePrimaryHere() returns (r: Result<Condition>)
      requires pos <= |tokens|
      modifies this
      ensures Did(r, ParsePrimary(tokens, old(pos)))
      decreases |tokens| - pos, 0
    {
      var t := PeekToken();
      match t.kind {
        case LPAREN =>
          var _ := Advance();
          r := ParseOrHere();
          if r.Ok? {
            var close := ExpectToken(RPAREN);
            if close.Fail? {
              r := Fail(close.at);
            }
          }
        case ANY_OF =>
          var _ := Advance();
          r := ParseSetHere(true);
        case ALL_OF =>
          var _ := Advance();
          r := ParseSetHere(false);
        case DOLLAR_ID =>
          var _ := Advance();
          if PeekToken().kind == IN {
            var _ := Advance();
            var target := ExpectToken(DOLLAR_ID);
            r := if target.Fail? then Fail(target.at) else Ok(MatchIn(t.value, target.value.value));
          } else {
            r := Ok(Match(t.value));
          }
        case TRUE =>
          var _ := Advance();
          r := Ok(Boolean(true));
        case FALSE =>
          var _ := Advance();
          r := Ok(Boolean(false));
        case _ =>
          r := Fail(t);
      }
    }

    method ParseSetHere(any: bool) returns (r: Result<Condition>)
      requires pos <= |tokens|
      modifies this
      ensures Did(r, ParseSet(tokens, old(pos), any))
    {
      var t := MatchToken(THEM);
      if t.value != "" {
        return Ok(if any then AnyOfThem else AllOfThem);
      }
      var open := ExpectToken(LPAREN);
      if open.Fail? {
        return Fail(open.at);
      }
      ghost var start := pos;
      assert Values(tokens[start..pos]) == [];
      hide Values;
      var vars: seq<string> := [];
      while PeekToken().kind == DOLLAR_ID
        invariant start <= pos <= |tokens| && vars == Values(tokens[start..pos])
        invariant VarsEnd(tokens, pos) == VarsEnd(tokens, start)
        decreases |tokens| - pos
      {
        ValuesSnoc(tokens, start, pos);
        var v := Advance();
        vars := vars + [v.value];
      }
      var close := ExpectToken(RPAREN);
      return if close.Fail? then Fail(close.at) else Ok(SetOf(any, vars));
    }
  }
}
