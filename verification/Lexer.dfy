/** The lexer of the `.shield` rule language. */
module Lexer {
  import opened Numerals
  import opened RuleSyntax
  import opened Strings

  datatype Result<+T> = Ok(value: T) | Err(error: Error)

  datatype Error =
    | UnterminatedString(line: nat)
    | UnterminatedRegex(line: nat)
    | UnexpectedCharacter(c: char, line: nat)

  // ---------------------------------------------------------------- characters and lines

  predicate IsAlpha(c: char) {
    'a' <= c <= 'z' || 'A' <= c <= 'Z'
  }

  predicate IsIdent(c: char) {
    IsAlpha(c) || IsDigit(c) || c == '_' || c == '.'
  }

  predicate IsFlag(c: char) {
    c in "gimsuy"
  }

  /** Line number of position `p`, counting from 1. */
  function LineAt(s: string, p: nat): nat
    requires p <= |s|
  {
    if p == 0 then 1 else LineAt(s, p - 1) + if s[p - 1] == '\n' then 1 else 0
  }

  // ---------------------------------------------------------------- positions and values, as functions

  predicate Starts(s: string, p: nat, a: char, b: char) {
    p + 1 < |s| && s[p] == a && s[p + 1] == b
  }

  function LineEnd(s: string, p: nat): (q: nat)
    requires p <= |s|
    ensures p <= q <= |s|
    decreases |s| - p
  {
    if p < |s| && s[p] != '\n' then LineEnd(s, p + 1) else p
  }

  /** Behind the next comment end, or the end of the text. */
  function CommentEnd(s: string, p: nat): (q: nat)
    requires p <= |s|
    ensures p <= q <= |s|
    decreases |s| - p
  {
    if p == |s| then p else if Starts(s, p, '*', '/') then p + 2 else CommentEnd(s, p + 1)
  }

  function SkipBlanks(s: string, p: nat): (q: nat)
    requires p <= |s|
    ensures p <= q <= |s|
    ensures q < |s| ==> !IsBlank(s[q]) && !Starts(s, q, '/', '/') && !Starts(s, q, '/', '*')
    decreases |s| - p
  {
    if p == |s| then p
    else if IsBlank(s[p]) then SkipBlanks(s, p + 1)
    else if Starts(s, p, '/', '/') then SkipBlanks(s, LineEnd(s, p + 2))
    else if Starts(s, p, '/', '*') then SkipBlanks(s, CommentEnd(s, p + 2))
    else p
  }

  function Unescaped(e: char): string {
    match e
    case 'n' => "\n"
    case 't' => "\t"
    case 'r' => "\r"
    case '\\' => "\\"
    case '"' => "\""
    case '\'' => "'"
    case _ => ['\\', e]
  }

  /** Value of a string whose body starts at `p`, and the position behind its closing quote. */
  function StringBody(s: string, quote: char, p: nat): (r: Result<(string, nat)>)
    requires p <= |s|
    ensures r.Ok? ==> p < r.value.1 <= |s|
    decreases |s| - p
  {
    if p == |s| then Err(UnterminatedString(0))
    else if s[p] == '\\' && p + 1 < |s| then Prepend(Unescaped(s[p + 1]), StringBody(s, quote, p + 2))
    else if s[p] == quote then Ok(("", p + 1))
    else Prepend([s[p]], StringBody(s, quote, p + 1))
  }

  function Prepend(v: string, r: Result<(string, nat)>): Result<(string, nat)> {
    match r
    case Ok((w, q)) => Ok((v + w, q))
    case Err(e) => Err(e)
  }

  lemma PrependAssoc(v: string, w: string, r: Result<(string, nat)>)
    ensures Prepend(v, Prepend(w, r)) == Prepend(v + w, r)
  {
    if r.Ok? {
      assert v + (w + r.value.0) == (v + w) + r.value.0;
    }
  }

  lemma PrependEmpty(r: Result<(string, nat)>)
    ensures Prepend("", r) == r
  {
    if r.Ok? {
      assert "" + r.value.0 == r.value.0;
    }
  }

  /** Pattern of a regex whose body continues at `p`, and the position behind its closing slash. */
  function RegexBody(s: string, p: nat, escaped: bool, inClass: bool): (r: Result<(string, nat)>)
    requires p <= |s|
    ensures r.Ok? ==> p < r.value.1 <= |s|
    decreases |s| - p
  {
    if p == |s| then Err(UnterminatedRegex(0))
    else
      var c := s[p];
      if escaped then Prepend([c], RegexBody(s, p + 1, false, inClass))
      else if c == '\\' then Prepend([c], RegexBody(s, p + 1, true, inClass))
      else
        var inClass' := if c == '[' then true else if c == ']' then false else inClass;
        if c == '/' && !inClass' then Ok(("", p + 1)) else Prepend([c], RegexBody(s, p + 1, false, inClass'))
  }

  function FlagsEnd(s: string, p: nat): (q: nat)
    requires p <= |s|
    ensures p <= q <= |s|
    decreases |s| - p
  {
    if p < |s| && IsFlag(s[p]) then FlagsEnd(s, p + 1) else p
  }

  function IdentEnd(s: string, p: nat): (q: nat)
    requires p <= |s|
    ensures p <= q <= |s|
    decreases |s| - p
  {
    if p < |s| && IsIdent(s[p]) then IdentEnd(s, p + 1) else p
  }

  function DigitsEnd(s: string, p: nat): (q: nat)
    requires p <= |s|
    ensures p <= q <= |s|
    decreases |s| - p
  {
    if p < |s| && IsDigit(s[p]) then DigitsEnd(s, p + 1) else p
  }

  function WordKind(w: string): Kind {
    if w == "rule" then RULE else if w == "meta" then META else if w == "target" then TARGET
    else if w == "strings" then STRINGS else if w == "condition" then CONDITION
    else if w == "and" then AND else if w == "or" then OR else if w == "not" then NOT
    else if w == "in" then IN else if w == "them" then THEM
    else if w == "true" then TRUE else if w == "false" then FALSE
    else IDENTIFIER
  }

  function Punctuation(c: char): Kind {
    match c
    case '{' => LBRACE
    case '}' => RBRACE
    case '(' => LPAREN
    case ')' => RPAREN
    case ':' => COLON
    case '=' => EQUALS
    case _ => EOF
  }

  /** A word at `p`; `any` and `all` also take the word behind them. */
  function WordTokens(s: string, p: nat): (r: (seq<Token>, nat))
    requires p < |s| && IsIdent(s[p])
    ensures p < r.1 <= |s|
  {
    var q := IdentEnd(s, p);
    var (w, line) := (s[p..q], LineAt(s, p));
    if w == "any" || w == "all" then
      var a := SkipBlanks(s, q);
      var b := IdentEnd(s, a);
      var next := s[a..b];
      if next == "of" then ([Token(if w == "any" then ANY_OF else ALL_OF, w + " of", line, "")], b)
      else if next == "" then ([Token(IDENTIFIER, w, line, "")], b)
      else ([Token(IDENTIFIER, w, line, ""), Token(IDENTIFIER, next, line, "")], b)
    else ([Token(WordKind(w), w, line, "")], q)
  }

  /** The tokens at a position that holds no blank and no comment. */
  function TokensAt(s: string, p: nat): (r: Result<(seq<Token>, nat)>)
    requires p < |s|
    ensures r.Ok? ==> p < r.value.1 <= |s|
  {
    var (c, line) := (s[p], LineAt(s, p));
    if Punctuation(c) != EOF then Ok(([Token(Punctuation(c), [c], line, "")], p + 1))
    else if c == '$' then
      var q := IdentEnd(s, p + 1);
      Ok(([Token(DOLLAR_ID, "$" + s[p + 1..q], line, "")], q))
    else if c == '"' || c == '\'' then
      match StringBody(s, c, p + 1)
      case Err(_) => Err(UnterminatedString(line))
      case Ok((v, q)) => Ok(([Token(STRING, v, line, "")], q))
    else if c == '/' then
      match RegexBody(s, p + 1, false, false)
      case Err(_) => Err(UnterminatedRegex(line))
      case Ok((v, q)) => Ok(([Token(REGEX, v, line, s[q..FlagsEnd(s, q)])], FlagsEnd(s, q)))
    else if IsDigit(c) then Ok(([Token(NUMBER, s[p..DigitsEnd(s, p)], line, "")], DigitsEnd(s, p)))
    else if IsAlpha(c) || c == '_' then Ok(WordTokens(s, p))
    else if c in ",;[]" then Ok(([], p + 1))
    else Err(UnexpectedCharacter(c, line))
  }

  /** All tokens from position `p` on. */
  function Lex(s: string, p: nat): Result<seq<Token>>
    requires p <= |s|
    decreases |s| - p
  {
    var a := SkipBlanks(s, p);
    if a == |s| then Ok([Token(EOF, "", LineAt(s, a), "")])
    else
      match TokensAt(s, a)
      case Err(e) => Err(e)
      case Ok((ts, b)) => After(ts, Lex(s, b))
  }

  function After(ts: seq<Token>, r: Result<seq<Token>>): Result<seq<Token>> {
    match r
    case Err(e) => Err(e)
    case Ok(rest) => Ok(ts + rest)
  }

  lemma AfterAssoc(ts: seq<Token>, us: seq<Token>, r: Result<seq<Token>>)
    ensures After(ts, After(us, r)) == After(ts + us, r)
    ensures After([], r) == r
  {
    if r.Ok? {
      assert ts + (us + r.value) == (ts + us) + r.value;
      assert [] + r.value == r.value;
    }
  }

  // ---------------------------------------------------------------- the lexer object

  class Lexer {
    const source: string
    var pos: nat
    var line: nat

    constructor (source: string)
      ensures this.source == source && pos == 0 && Valid()
    {
      this.source := source;
      pos, line := 0, 1;
    }

    predicate Valid()
      reads this
    {
      pos <= |source| && line == LineAt(source, pos)
    }

    method Advance() returns (c: char)
      requires Valid() && pos < |source|
      modifies this
      ensures Valid() && pos == old(pos) + 1 && c == source[old(pos)]
    {
      c := source[pos];
      pos := pos + 1;
      if c == '\n' {
        line := line + 1;
      }
    }

    method SkipWhitespace()
      requires Valid()
      modifies this
      ensures Valid() && pos == SkipBlanks(source, old(pos))
    {
      while pos < |source|
        invariant Valid() && SkipBlanks(source, pos) == SkipBlanks(source, old(pos))
        decreases |source| - pos
      {
        if IsBlank(source[pos]) {
          var _ := Advance();
        } else if Starts(source, pos, '/', '/') {
          SkipLineComment();
        } else if Starts(source, pos, '/', '*') {
          var _ := Advance();
          var _ := Advance();
          SkipBlockComment();
        } else {
          break;
        }
      }
    }

    method SkipLineComment()
      requires Valid() && Starts(source, pos, '/', '/')
      modifies this
      ensures Valid() && pos == LineEnd(source, old(pos) + 2)
    {
      ghost var end := LineEnd(source, pos + 2);
      assert LineEnd(source, pos + 1) == end;
      while pos < |source| && source[pos] != '\n'
        invariant Valid() && LineEnd(source, pos) == end
        decreases |source| - pos
      {
        var _ := Advance();
      }
    }

    method SkipBlockComment()
      requires Valid()
      modifies this
      ensures Valid() && pos == CommentEnd(source, old(pos))
    {
      while pos < |source|
        invariant Valid() && CommentEnd(source, pos) == CommentEnd(source, old(pos))
        decreases |source| - pos
      {
        if Starts(source, pos, '*', '/') {
          var _ := Advance();
          var _ := Advance();
          return;
        }
        var _ := Advance();
      }
    }

    method ReadString() returns (r: Result<Token>)
      requires Valid() && pos < |source| && source[pos] != '\n'
      modifies this
      ensures match StringBody(source, source[old(pos)], old(pos) + 1)
              case Ok((v, q)) => r == Ok(Token(STRING, v, LineAt(source, old(pos)), "")) && Valid() && pos == q
              case Err(_) => r == Err(UnterminatedString(LineAt(source, old(pos))))
    {
      var quote := Advance();
      var value := "";
      var startLine := line;
      PrependEmpty(StringBody(source, quote, pos));
      while pos < |source|
        invariant Valid() && old(pos) < pos
        invariant StringBody(source, quote, old(pos) + 1) == Prepend(value, StringBody(source, quote, pos))
        decreases |source| - pos
      {
        var ch := source[pos];
        if ch == '\\' && pos + 1 < |source| {
          var _ := Advance();
          var esc := Advance();
          PrependAssoc(value, Unescaped(esc), StringBody(source, quote, pos));
          value := value + Unescaped(esc);
        } else if ch == quote {
          var _ := Advance();
          assert value + "" == value;
          return Ok(Token(STRING, value, startLine, ""));
        } else {
          var c := Advance();
          PrependAssoc(value, [c], StringBody(source, quote, pos));
          value := value + [c];
        }
      }
      return Err(UnterminatedString(startLine));
    }

    method ReadRegex() returns (r: Result<Token>)
      requires Valid() && pos < |source| && source[pos] != '\n'
      modifies this
      ensures match RegexBody(source, old(pos) + 1, false, false)
              case Ok((v, q)) =>
                r == Ok(Token(REGEX, v, LineAt(source, old(pos)), source[q..FlagsEnd(source, q)])) &&
                Valid() && pos == FlagsEnd(source, q)
              case Err(_) => r == Err(UnterminatedRegex(LineAt(source, old(pos))))
    {
      var _ := Advance();
      var pattern := "";
      var escaped, inClass := false, false;
      var startLine := line;
      PrependEmpty(RegexBody(source, pos, false, false));
      while pos < |source|
        invariant Valid() && old(pos) < pos
        invariant RegexBody(source, old(pos) + 1, false, false) == Prepend(pattern, RegexBody(source, pos, escaped, inClass))
        decreases |source| - pos
      {
        var ch := source[pos];
        if escaped {
          PrependAssoc(pattern, [ch], RegexBody(source, pos + 1, false, inClass));
          pattern := pattern + [ch];
          escaped := false;
          var _ := Advance();
          continue;
        }
        if ch == '\\' {
          PrependAssoc(pattern, [ch], RegexBody(source, pos + 1, true, inClass));
          escaped := true;
          pattern := pattern + [ch];
          var _ := Advance();
          continue;
        }
        if ch == '[' {
          inClass := true;
        }
        if ch == ']' {
          inClass := false;
        }
        if ch == '/' && !inClass {
          var _ := Advance();
          assert pattern + "" == pattern;
          var flags := ReadFlags();
          return Ok(Token(REGEX, pattern, startLine, flags));
        }
        var c := Advance();
        PrependAssoc(pattern, [c], RegexBody(source, pos, false, inClass));
        pattern := pattern + [c];
      }
      return Err(UnterminatedRegex(startLine));
    }

    method ReadFlags() returns (v: string)
      requires Valid()
      modifies this
      ensures Valid() && pos == FlagsEnd(source, old(pos)) && v == source[old(pos)..pos]
    {
      v := "";
      while pos < |source| && IsFlag(source[pos])
        invariant Valid() && old(pos) <= pos && v == source[old(pos)..pos]
        invariant FlagsEnd(source, pos) == FlagsEnd(source, old(pos))
        decreases |source| - pos
      {
        var c := Advance();
        v := v + [c];
      }
    }

    method ReadIdentifier() returns (v: string)
      requires Valid()
      modifies this
      ensures Valid() && pos == IdentEnd(source, old(pos)) && v == source[old(pos)..pos]
    {
      v := "";
      while pos < |source| && IsIdent(source[pos])
        invariant Valid() && old(pos) <= pos && v == source[old(pos)..pos]
        invariant IdentEnd(source, pos) == IdentEnd(source, old(pos))
        decreases |source| - pos
      {
        var c := Advance();
        v := v + [c];
      }
    }

    method ReadNumber() returns (t: Token)
      requires Valid()
      modifies this
      ensures Valid() && pos == DigitsEnd(source, old(pos))
      ensures t == Token(NUMBER, source[old(pos)..pos], LineAt(source, old(pos)), "")
    {
      var v := "";
      var startLine := line;
      while pos < |source| && IsDigit(source[pos])
        invariant Valid() && old(pos) <= pos && v == source[old(pos)..pos]
        invariant DigitsEnd(source, pos) == DigitsEnd(source, old(pos))
        decreases |source| - pos
      {
        var c := Advance();
        v := v + [c];
      }
      return Token(NUMBER, v, startLine, "");
    }

    /** One round of the token loop, at a character that is not skipped. */
    method ReadTokens() returns (r: Result<seq<Token>>)
      requires Valid() && pos < |source| && !IsBlank(source[pos])
      modifies this
      ensures match TokensAt(source, old(pos))
              case Ok((ts, q)) => r == Ok(ts) && Valid() && pos == q
              case Err(e) => r == Err(e)
    {
      var ch := source[pos];
      var currentLine := line;
      if Punctuation(ch) != EOF {
        var _ := Advance();
        return Ok([Token(Punctuation(ch), [ch], currentLine, "")]);
      }
      if ch == '$' {
        var _ := Advance();
        var id := ReadIdentifier();
        return Ok([Token(DOLLAR_ID, "$" + id, currentLine, "")]);
      }
      if ch == '"' || ch == '\'' {
        var t := ReadString();
        return if t.Err? then Err(t.error) else Ok([t.value]);
      }
      if ch == '/' {
        var t := ReadRegex();
        return if t.Err? then Err(t.error) else Ok([t.value]);
      }
      if IsDigit(ch) {
        var t := ReadNumber();
        return Ok([t]);
      }
      if IsAlpha(ch) || ch == '_' {
        var ts := ReadWord();
        return Ok(ts);
      }
      if ch in ",;[]" {
        var _ := Advance();
        return Ok([]);
      }
      return Err(UnexpectedCharacter(ch, currentLine));
    }

    method ReadWord() returns (ts: seq<Token>)
      requires Valid() && pos < |source| && IsIdent(source[pos])
      modifies this
      ensures Valid() && ts == WordTokens(source, old(pos)).0 && pos == WordTokens(source, old(pos)).1
    {
      var currentLine := line;
      var val := ReadIdentifier();
      if val == "any" || val == "all" {
        SkipWhitespace();
        var next := ReadIdentifier();
        if next == "of" {
          ts := [Token(if val == "any" then ANY_OF else ALL_OF, val + " of", currentLine, "")];
        } else {
          ts := [Token(IDENTIFIER, val, currentLine, "")];
          if next != "" {
            ts := ts + [Token(IDENTIFIER, next, currentLine, "")];
          }
        }
      } else {
        ts := [Token(WordKind(val), val, currentLine, "")];
      }
    }

    method Tokenize() returns (r: Result<seq<Token>>)
      requires Valid()
      modifies this
      ensures r == Lex(source, old(pos))
    {
      var tokens: seq<Token> := [];
      AfterAssoc([], [], Lex(source, pos));
      while pos < |source|
        invariant Valid()
        invariant Lex(source, old(pos)) == After(tokens, Lex(source, pos))
        decreases |source| - pos
      {
        SkipWhitespace();
        if pos >= |source| {
          break;
        }
        var ts := ReadTokens();
        if ts.Err? {
          return Err(ts.error);
        }
        AfterAssoc(tokens, ts.value, Lex(source, pos));
        tokens := tokens + ts.value;
      }
      return Ok(tokens + [Token(EOF, "", line, "")]);
    }
  }
}
