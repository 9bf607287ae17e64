/** Rendering tokens as rule text, and the lexer as its inverse. */
module LexerText {
  import opened Numerals
  import opened RuleSyntax
  import opened Strings
  import opened Lexer

  // ---------------------------------------------------------------- gaps

  /** Blanks and comments between tokens, and the four marks that make no token. */
  datatype Piece = Blank(c: char) | LineComment(text: string) | BlockComment(body: string) | Mark(m: char)

  predicate ValidPiece(g: Piece) {
    match g
    case Blank(c) => c == ' ' || c == '\t' || c == '\r' || c == '\n'
    case Mark(m) => m == ',' || m == ';' || m == '[' || m == ']'
    case LineComment(text) => '\n' !in text
    case BlockComment(body) => forall i :: 0 <= i < |body| - 1 ==> !(body[i] == '*' && body[i + 1] == '/')
  }

  function PieceText(g: Piece): string {
    match g
    case Blank(c) => [c]
    case Mark(m) => [m]
    case LineComment(text) => ['/'] + (['/'] + (text + "\n"))
    case BlockComment(body) => ['/'] + (['*'] + (body + "*/"))
  }

  function GapText(gs: seq<Piece>): string {
    if gs == [] then "" else PieceText(gs[0]) + GapText(gs[1..])
  }

  predicate ValidGap(gs: seq<Piece>) {
    forall g :: g in gs ==> ValidPiece(g)
  }

  lemma {:induction false} LineEndAt(s: string, p: nat, text: string)
    requires Stands(s, p, text + "\n") && '\n' !in text
    ensures LineEnd(s, p) == p + |text|
    decreases |text|
  {
    if text == "" {
      StandsOne(s, p, '\n', "");
    } else {
      assert text + "\n" == [text[0]] + (text[1..] + "\n");
      StandsOne(s, p, text[0], text[1..] + "\n");
      LineEndAt(s, p + 1, text[1..]);
    }
  }

  lemma {:induction false} CommentEndAt(s: string, p: nat, body: string)
    requires Stands(s, p, body + "*/") && ValidPiece(BlockComment(body))
    ensures CommentEnd(s, p) == p + |body| + 2
    decreases |body|
  {
    if body == "" {
      assert Starts(s, p, '*', '/');
    } else {
      assert body + "*/" == [body[0]] + (body[1..] + "*/");
      StandsOne(s, p, body[0], body[1..] + "*/");
      assert !Starts(s, p, '*', '/') by {
        assert s[p + 1] == (body[1..] + "*/")[0];
        if |body| > 1 {
          assert !(body[0] == '*' && body[0 + 1] == '/');
        }
      }
      forall i | 0 <= i < |body[1..]| - 1 ensures !(body[1..][i] == '*' && body[1..][i + 1] == '/') {
        assert !(body[i + 1] == '*' && body[i + 1 + 1] == '/');
      }
      CommentEndAt(s, p + 1, body[1..]);
    }
  }

  lemma PieceSkipped(s: string, p: nat, g: Piece)
    requires ValidPiece(g) && !g.Mark? && Stands(s, p, PieceText(g))
    ensures SkipBlanks(s, p) == SkipBlanks(s, p + |PieceText(g)|)
  {
    hide Stands, LineEnd, CommentEnd, ValidPiece;
    match g
    case Blank(c) =>
      BlankSkipped(s, p, c);
    case LineComment(text) =>
      StandsOne(s, p, '/', ['/'] + (text + "\n"));
      StandsOne(s, p + 1, '/', text + "\n");
      NoNewline(text);
      LineEndAt(s, p + 2, text);
      NewlineAt(s, p + 2, text);
    case BlockComment(body) =>
      StandsOne(s, p, '/', ['*'] + (body + "*/"));
      StandsOne(s, p + 1, '*', body + "*/");
      CommentEndAt(s, p + 2, body);
  }

  lemma BlankSkipped(s: string, p: nat, c: char)
    requires ValidPiece(Blank(c)) && Stands(s, p, [c])
    ensures p < |s| && SkipBlanks(s, p) == SkipBlanks(s, p + 1)
  {
  }

  lemma NoNewline(text: string)
    requires ValidPiece(LineComment(text))
    ensures '\n' !in text
  {
  }

  lemma NewlineAt(s: string, p: nat, text: string)
    requires Stands(s, p, text + "\n")
    ensures p + |text| < |s| && s[p + |text|] == '\n'
  {
  }

  lemma {:induction false} GapSkipped(s: string, p: nat, gs: seq<Piece>)
    requires ValidGap(gs) && Stands(s, p, GapText(gs)) && forall g :: g in gs ==> !g.Mark?
    ensures SkipBlanks(s, p) == SkipBlanks(s, p + |GapText(gs)|)
    decreases |gs|
  {
    hide Stands, PieceText, ValidPiece, SkipBlanks;
    StandsFits(s, p, GapText(gs));
    if gs != [] {
      StandsSplit(s, p, PieceText(gs[0]), GapText(gs[1..]));
      PieceSkipped(s, p, gs[0]);
      GapSkipped(s, p + |PieceText(gs[0])|, gs[1..]);
    }
  }

  lemma MarkLexed(s: string, p: nat, m: char)
    requires ValidPiece(Mark(m)) && Stands(s, p, [m])
    ensures p < |s| && Lex(s, p) == Lex(s, p + 1)
  {
    hide StringBody, RegexBody, LineAt;
    NoSkip(s, p);
    AfterAssoc([], [], Lex(s, p + 1));
  }

  /** No gap yields a token. */
  lemma {:induction false} GapLexed(s: string, p: nat, gs: seq<Piece>)
    requires ValidGap(gs) && Stands(s, p, GapText(gs))
    ensures p + |GapText(gs)| <= |s| && Lex(s, p) == Lex(s, p + |GapText(gs)|)
    decreases |gs|
  {
    hide Stands, PieceText, ValidPiece, SkipBlanks, Lex;
    StandsFits(s, p, GapText(gs));
    if gs != [] {
      StandsSplit(s, p, PieceText(gs[0]), GapText(gs[1..]));
      StandsFits(s, p, PieceText(gs[0]));
      if gs[0].Mark? {
        MarkText(gs[0].m);
        MarkLexed(s, p, gs[0].m);
      } else {
        PieceSkipped(s, p, gs[0]);
        LexSkips(s, p, p + |PieceText(gs[0])|);
      }
      GapLexed(s, p + |PieceText(gs[0])|, gs[1..]);
    }
  }

  lemma MarkText(m: char)
    ensures PieceText(Mark(m)) == [m]
  {
  }

  lemma LexSkips(s: string, p: nat, q: nat)
    requires p <= |s| && q <= |s| && SkipBlanks(s, p) == SkipBlanks(s, q)
    ensures Lex(s, p) == Lex(s, q)
  {
  }

  lemma NoSkip(s: string, p: nat)
    requires p < |s| && !IsBlank(s[p]) && (s[p] == '/' ==> p + 1 < |s| && s[p + 1] != '/' && s[p + 1] != '*')
    ensures SkipBlanks(s, p) == p
  {
  }

  // ---------------------------------------------------------------- strings and regexes

  function Escaped(c: char): string {
    match c
    case '\n' => "\\n"
    case '\t' => "\\t"
    case '\r' => "\\r"
    case '\\' => "\\\\"
    case '"' => "\\\""
    case _ => [c]
  }

  /** A character of a string as written: itself, or behind a backslash. */
  datatype StringChar = Self(c: char) | Behind(e: char)

  /** Six characters behind a backslash have a meaning; any other keeps its backslash. */
  function CharValue(x: StringChar): string {
    if x.Self? then [x.c]
    else if x.e == 'n' then ['\U{000A}']
    else if x.e == 't' then ['\U{0009}']
    else if x.e == 'r' then ['\U{000D}']
    else if x.e == '\U{005C}' || x.e == '\U{0022}' || x.e == '\U{0027}' then [x.e]
    else ['\U{005C}', x.e]
  }

  function CharSpelling(x: StringChar): string {
    if x.Self? then [x.c] else ['\\', x.e]
  }

  function Values(xs: seq<StringChar>): string {
    if xs == [] then "" else CharValue(xs[0]) + Values(xs[1..])
  }

  function Spellings(xs: seq<StringChar>): string {
    if xs == [] then "" else CharSpelling(xs[0]) + Spellings(xs[1..])
  }

  predicate Within(quote: char, xs: seq<StringChar>) {
    forall i :: 0 <= i < |xs| && xs[i].Self? ==> xs[i].c != quote && xs[i].c != '\\'
  }

  lemma CharTaken(s: string, quote: char, p: nat, x: StringChar)
    requires quote == '"' || quote == '\''
    requires Stands(s, p, CharSpelling(x)) && (x.Self? ==> x.c != quote && x.c != '\\')
    ensures p + |CharSpelling(x)| <= |s|
    ensures StringBody(s, quote, p) == Prepend(CharValue(x), StringBody(s, quote, p + |CharSpelling(x)|))
  {
    assert s[p] == CharSpelling(x)[0];
    if x.Behind? {
      assert s[p + 1] == CharSpelling(x)[1];
    }
  }

  /** A string in either quotes is read to the values of its characters. */
  lemma {:induction false} QuotedRead(s: string, quote: char, p: nat, xs: seq<StringChar>)
    requires (quote == '"' || quote == '\'') && Within(quote, xs) && Stands(s, p, Spellings(xs) + [quote])
    ensures StringBody(s, quote, p) == Ok((Values(xs), p + |Spellings(xs)| + 1))
    decreases |xs|
  {
    hide Stands, StringBody, CharSpelling, CharValue;
    StandsFits(s, p, Spellings(xs) + [quote]);
    if xs == [] {
      assert Spellings(xs) + [quote] == [quote] + "";
      StandsOne(s, p, quote, "");
      QuoteEnds(s, quote, p);
    } else {
      var rest := Spellings(xs[1..]) + [quote];
      assert Spellings(xs) + [quote] == CharSpelling(xs[0]) + rest;
      StandsSplit(s, p, CharSpelling(xs[0]), rest);
      QuotedRead(s, quote, p + |CharSpelling(xs[0])|, xs[1..]);
      CharTaken(s, quote, p, xs[0]);
    }
  }

  lemma QuoteEnds(s: string, quote: char, p: nat)
    requires p < |s| && s[p] == quote && quote != '\\'
    ensures StringBody(s, quote, p) == Ok(("", p + 1))
  {
  }

  /** Whatever is read as a string was written so. */
  lemma {:induction false} QuotedWritten(s: string, quote: char, p: nat) returns (xs: seq<StringChar>)
    requires (quote == '"' || quote == '\'') && p <= |s| && StringBody(s, quote, p).Ok?
    ensures Within(quote, xs) && Stands(s, p, Spellings(xs) + [quote])
    ensures StringBody(s, quote, p) == Ok((Values(xs), p + |Spellings(xs)| + 1))
    decreases |s| - p
  {
    if s[p] == quote {
      xs := [];
    } else {
      var x := if s[p] == '\\' && p + 1 < |s| then Behind(s[p + 1]) else Self(s[p]);
      var ys := QuotedWritten(s, quote, p + |CharSpelling(x)|);
      hide StringBody, Stands, Unescaped;
      StandsHere(s, p, x);
      xs := [x] + ys;
      assert xs[1..] == ys;
      assert (CharSpelling(x) + Spellings(ys)) + [quote] == CharSpelling(x) + (Spellings(ys) + [quote]);
      StandsSplit(s, p, CharSpelling(x), Spellings(ys) + [quote]);
      QuotedRead(s, quote, p, xs);
    }
  }

  lemma StandsHere(s: string, p: nat, x: StringChar)
    requires p < |s| && (if x.Self? then s[p] == x.c else p + 1 < |s| && s[p] == '\\' && s[p + 1] == x.e)
    ensures Stands(s, p, CharSpelling(x))
  {
  }

  function EscapedAll(v: string): string {
    if v == "" then "" else Escaped(v[0]) + EscapedAll(v[1..])
  }

  /** Reading a string undoes escaping it. */
  lemma {:induction false} StringRead(s: string, p: nat, v: string)
    requires Stands(s, p, EscapedAll(v) + "\"")
    ensures StringBody(s, '"', p) == Ok((v, p + |EscapedAll(v)| + 1))
    decreases |v|
  {
    hide Stands, StringBody, Escaped;
    if v == "" {
      QuoteRead(s, p);
    } else {
      StandsFits(s, p, EscapedAll(v) + "\"");
      var rest := EscapedAll(v[1..]) + "\"";
      assert EscapedAll(v) + "\"" == Escaped(v[0]) + rest;
      StandsSplit(s, p, Escaped(v[0]), rest);
      StringRead(s, p + |Escaped(v[0])|, v[1..]);
      EscapeRead(s, p, v[0]);
      assert v == [v[0]] + v[1..];
    }
  }

  lemma QuoteRead(s: string, p: nat)
    requires Stands(s, p, "" + "\"")
    ensures StringBody(s, '"', p) == Ok(("", p + 1))
  {
  }

  lemma EscapeRead(s: string, p: nat, c: char)
    requires Stands(s, p, Escaped(c)) && p + |Escaped(c)| < |s|
    ensures StringBody(s, '"', p) == Prepend([c], StringBody(s, '"', p + |Escaped(c)|))
  {
    assert s[p] == Escaped(c)[0];
    if |Escaped(c)| == 2 {
      assert s[p + 1] == Escaped(c)[1];
    }
  }

  /** The pattern can stand between slashes: no bare slash outside a class, and it ends outside both. */
  predicate RegexOk(v: string, escaped: bool, inClass: bool) {
    if v == "" then !escaped && !inClass
    else if escaped then RegexOk(v[1..], false, inClass)
    else if v[0] == '\\' then RegexOk(v[1..], true, inClass)
    else
      var inClass' := if v[0] == '[' then true else if v[0] == ']' then false else inClass;
      !(v[0] == '/' && !inClass') && RegexOk(v[1..], false, inClass')
  }

  lemma {:induction false} RegexRead(s: string, p: nat, v: string, escaped: bool, inClass: bool)
    requires Stands(s, p, v + "/") && RegexOk(v, escaped, inClass)
    ensures RegexBody(s, p, escaped, inClass) == Ok((v, p + |v| + 1))
    decreases |v|
  {
    if v == "" {
      StandsOne(s, p, '/', "");
    } else {
      assert v + "/" == [v[0]] + (v[1..] + "/");
      StandsOne(s, p, v[0], v[1..] + "/");
      hide Stands;
      assert [v[0]] + v[1..] == v;
      if escaped {
        RegexRead(s, p + 1, v[1..], false, inClass);
      } else if v[0] == '\\' {
        RegexRead(s, p + 1, v[1..], true, inClass);
      } else {
        RegexRead(s, p + 1, v[1..], false, if v[0] == '[' then true else if v[0] == ']' then false else inClass);
      }
    }
  }

  /** And only such patterns are read. */
  lemma {:induction false} RegexReadOk(s: string, p: nat, escaped: bool, inClass: bool)
    requires p <= |s| && RegexBody(s, p, escaped, inClass).Ok?
    ensures RegexOk(RegexBody(s, p, escaped, inClass).value.0, escaped, inClass)
    decreases |s| - p
  {
    var c := s[p];
    var inClass' := if c == '[' then true else if c == ']' then false else inClass;
    if escaped {
      RegexReadOk(s, p + 1, false, inClass);
    } else if c == '\\' {
      RegexReadOk(s, p + 1, true, inClass);
    } else if !(c == '/' && !inClass') {
      RegexReadOk(s, p + 1, false, inClass');
    }
  }

  // ---------------------------------------------------------------- tokens

  /** Letters, digits, underscore and full stop, as ASCII codes. */
  predicate NameChar(c: char) {
    var n := c as int;
    0x30 <= n <= 0x39 || 0x41 <= n <= 0x5A || 0x61 <= n <= 0x7A || n == 0x5F || n == 0x2E
  }

  predicate FlagChar(c: char) {
    c == 'g' || c == 'i' || c == 'm' || c == 's' || c == 'u' || c == 'y'
  }

  predicate AllIdent(v: string) {
    forall i :: 0 <= i < |v| ==> NameChar(v[i])
  }

  predicate AllFlags(v: string) {
    forall i :: 0 <= i < |v| ==> FlagChar(v[i])
  }

  /** The fixed spelling of a kind; none for kinds with a value of their own. */
  function Spelling(k: Kind): string {
    match k
    case LBRACE => "{"
    case RBRACE => "}"
    case LPAREN => "("
    case RPAREN => ")"
    case COLON => ":"
    case EQUALS => "="
    case RULE => "rule"
    case META => "meta"
    case TARGET => "target"
    case STRINGS => "strings"
    case CONDITION => "condition"
    case AND => "and"
    case OR => "or"
    case NOT => "not"
    case IN => "in"
    case THEM => "them"
    case TRUE => "true"
    case FALSE => "false"
    case ANY_OF => "any of"
    case ALL_OF => "all of"
    case _ => ""
  }

  predicate IsMark(k: Kind) {
    k in {LBRACE, RBRACE, LPAREN, RPAREN, COLON, EQUALS}
  }

  predicate IsKeyword(k: Kind) {
    k in {RULE, META, TARGET, STRINGS, CONDITION, AND, OR, NOT, IN, THEM, TRUE, FALSE}
  }

  /** Identifiers are no keywords; `any` and `all` alone would swallow the next word. */
  predicate IsWord(v: string) {
    v != "" && AllIdent(v) && !IsDigit(v[0]) && v[0] != '.' && v != "any" && v != "all"
  }

  predicate Representable(t: Token) {
    (t.kind == REGEX || t.flags == "") &&
    match t.kind
    case DOLLAR_ID => |t.value| > 0 && t.value[0] == '$' && AllIdent(t.value[1..])
    case STRING => true
    case REGEX => t.value != "" && t.value[0] != '*' && RegexOk(t.value, false, false) && AllFlags(t.flags)
    case NUMBER => t.value != "" && AllDigits(t.value)
    case IDENTIFIER => IsWord(t.value) && forall k :: IsKeyword(k) ==> t.value != Spelling(k)
    case EOF => false
    case _ => t.value == Spelling(t.kind)
  }

  /** The lexer's table of words gives each keyword its kind, and every other word none. */
  lemma KeywordRead(k: Kind)
    requires IsKeyword(k)
    ensures IsWord(Spelling(k)) && WordKind(Spelling(k)) == k
  {
  }

  lemma OtherWord(v: string)
    requires forall k :: IsKeyword(k) ==> v != Spelling(k)
    ensures WordKind(v) == IDENTIFIER
  {
    assert v != Spelling(RULE) && v != Spelling(META) && v != Spelling(TARGET) && v != Spelling(STRINGS);
    assert v != Spelling(CONDITION) && v != Spelling(AND) && v != Spelling(OR) && v != Spelling(NOT);
    assert v != Spelling(IN) && v != Spelling(THEM) && v != Spelling(TRUE) && v != Spelling(FALSE);
  }

  lemma MarkRead(k: Kind)
    requires IsMark(k)
    ensures |Spelling(k)| == 1 && Punctuation(Spelling(k)[0]) == k
  {
  }

  function TokenText(t: Token): string {
    match t.kind
    case STRING => ['"'] + (EscapedAll(t.value) + "\"")
    case REGEX => ['/'] + (t.value + "/" + t.flags)
    case _ => t.value
  }

  /** This character behind a token is not taken into it. */
  predicate Ends(t: Token, c: char) {
    match t.kind
    case STRING => true
    case REGEX => !FlagChar(c)
    case NUMBER => !('0' <= c <= '9')
    case _ => IsMark(t.kind) || !NameChar(c)
  }

  /** Where a token may end: at the end of the text, or before a character it does not take. */
  predicate Boundary(s: string, p: nat, t: Token) {
    p >= |s| || Ends(t, s[p])
  }

  lemma {:induction false} IdentRead(s: string, p: nat, v: string)
    requires Stands(s, p, v) && AllIdent(v) && (p + |v| < |s| ==> !NameChar(s[p + |v|]))
    ensures IdentEnd(s, p) == p + |v|
    decreases |v|
  {
    if v != "" {
      assert v == [v[0]] + v[1..];
      StandsOne(s, p, v[0], v[1..]);
      IdentRead(s, p + 1, v[1..]);
    }
  }

  lemma {:induction false} DigitsRead(s: string, p: nat, v: string)
    requires Stands(s, p, v) && AllDigits(v) && (p + |v| < |s| ==> !IsDigit(s[p + |v|]))
    ensures DigitsEnd(s, p) == p + |v|
    decreases |v|
  {
    if v != "" {
      assert v == [v[0]] + v[1..];
      StandsOne(s, p, v[0], v[1..]);
      DigitsRead(s, p + 1, v[1..]);
    }
  }

  lemma {:induction false} FlagsRead(s: string, p: nat, v: string)
    requires Stands(s, p, v) && AllFlags(v) && (p + |v| < |s| ==> !FlagChar(s[p + |v|]))
    ensures FlagsEnd(s, p) == p + |v|
    decreases |v|
  {
    if v != "" {
      assert v == [v[0]] + v[1..];
      StandsOne(s, p, v[0], v[1..]);
      FlagsRead(s, p + 1, v[1..]);
    }
  }

  /** The token `t` is read at `p`, which no blank or comment occupies, and ends at `q`. */
  predicate ReadsAt(s: string, p: nat, t: Token, q: nat) {
    p < |s| && SkipBlanks(s, p) == p && TokensAt(s, p) == Ok(([t.(line := LineAt(s, p))], q))
  }

  /** A rendered token is read back. */
  lemma TokenRead(s: string, p: nat, t: Token)
    requires Representable(t) && Stands(s, p, TokenText(t)) && Boundary(s, p + |TokenText(t)|, t)
    ensures ReadsAt(s, p, t, p + |TokenText(t)|)
  {
    hide Boundary, Stands, TokensAt, SkipBlanks, LineAt, ReadsAt, EscapedAll, RegexOk, Spelling, IsWord;
    if t.kind == STRING {
      StringTokenRead(s, p, t);
    } else if t.kind == REGEX {
      RegexTokenRead(s, p, t);
    } else if t.kind == DOLLAR_ID {
      VarTokenRead(s, p, t);
    } else if t.kind == NUMBER {
      NumberTokenRead(s, p, t);
    } else if t.kind == ANY_OF {
      SetSpelled(t);
      SetTokenRead(s, p, t, "any");
    } else if t.kind == ALL_OF {
      SetSpelled(t);
      SetTokenRead(s, p, t, "all");
    } else if IsMark(t.kind) {
      MarkRead(t.kind);
      PunctuationRead(s, p, t);
    } else if t.kind == IDENTIFIER {
      OtherWord(t.value);
      WordTokenRead(s, p, t);
    } else {
      KeywordRead(t.kind);
      WordTokenRead(s, p, t);
    }
  }

  lemma SetSpelled(t: Token)
    requires (t.kind == ANY_OF || t.kind == ALL_OF) && t.value == Spelling(t.kind)
    ensures t.value == (if t.kind == ANY_OF then "any" else "all") + " of"
  {
  }

  lemma StringTokenRead(s: string, p: nat, t: Token)
    requires t.kind == STRING && t.flags == "" && Stands(s, p, ['"'] + (EscapedAll(t.value) + "\""))
    ensures ReadsAt(s, p, t, p + 2 + |EscapedAll(t.value)|)
  {
    hide Stands, StringBody, LineAt, EscapedAll, RegexBody;
    StandsOne(s, p, '"', EscapedAll(t.value) + "\"");
    StringRead(s, p + 1, t.value);
    NoSkip(s, p);
  }

  lemma RegexTokenRead(s: string, p: nat, t: Token)
    requires t.kind == REGEX && Representable(t) && Stands(s, p, TokenText(t)) && Boundary(s, p + |TokenText(t)|, t)
    ensures ReadsAt(s, p, t, p + |TokenText(t)|)
  {
    hide Stands, RegexBody, LineAt, RegexOk, FlagsEnd, SkipBlanks, StringBody;
    var v := t.value;
    StandsOne(s, p, '/', v + "/" + t.flags);
    StandsSplit(s, p + 1, v + "/", t.flags);
    RegexRead(s, p + 1, v, false, false);
    FlagsRead(s, p + 1 + |v| + 1, t.flags);
    StandsSlice(s, p + 1 + |v| + 1, t.flags);
    assert v + "/" == [v[0]] + (v[1..] + "/");
    StandsOne(s, p + 1, v[0], v[1..] + "/");
    NoBareSlash(v);
    NoSkip(s, p);
  }

  lemma NoBareSlash(v: string)
    requires v != "" && RegexOk(v, false, false)
    ensures v[0] != '/'
  {
  }

  lemma VarTokenRead(s: string, p: nat, t: Token)
    requires t.kind == DOLLAR_ID && Representable(t) && Stands(s, p, t.value) && Boundary(s, p + |t.value|, t)
    ensures ReadsAt(s, p, t, p + |t.value|)
  {
    hide Stands, LineAt, IdentEnd, SkipBlanks, StringBody, RegexBody, AllIdent;
    assert t.value == ['$'] + t.value[1..];
    StandsOne(s, p, '$', t.value[1..]);
    IdentRead(s, p + 1, t.value[1..]);
    StandsSlice(s, p + 1, t.value[1..]);
    NoSkip(s, p);
  }

  lemma NumberTokenRead(s: string, p: nat, t: Token)
    requires t.kind == NUMBER && Representable(t) && Stands(s, p, t.value) && Boundary(s, p + |t.value|, t)
    ensures ReadsAt(s, p, t, p + |t.value|)
  {
    hide LineAt, DigitsEnd, SkipBlanks, StringBody, RegexBody;
    DigitsRead(s, p, t.value);
    StandsSlice(s, p, t.value);
    assert s[p] == t.value[0];
    NoSkip(s, p);
  }

  lemma PunctuationRead(s: string, p: nat, t: Token)
    requires |t.value| == 1 && Punctuation(t.value[0]) == t.kind != EOF && t.flags == "" && Stands(s, p, t.value)
    ensures ReadsAt(s, p, t, p + 1)
  {
    hide LineAt, SkipBlanks, StringBody, RegexBody;
    assert s[p] == t.value[0];
    NoSkip(s, p);
    assert [s[p]] == t.value;
  }

  lemma WordTokenRead(s: string, p: nat, t: Token)
    requires IsWord(t.value) && WordKind(t.value) == t.kind && t.flags == "" && (IsKeyword(t.kind) || t.kind == IDENTIFIER)
    requires Stands(s, p, t.value) && Boundary(s, p + |t.value|, t)
    ensures ReadsAt(s, p, t, p + |t.value|)
  {
    hide LineAt, IdentEnd, SkipBlanks, StringBody, RegexBody, WordKind, WordTokens;
    IdentRead(s, p, t.value);
    StandsSlice(s, p, t.value);
    assert s[p] == t.value[0];
    NoSkip(s, p);
    PlainWord(s, p, t);
  }

  lemma PlainWord(s: string, p: nat, t: Token)
    requires p < |s| && IsIdent(s[p]) && s[p..IdentEnd(s, p)] == t.value
    requires t.value != "any" && t.value != "all" && WordKind(t.value) == t.kind && t.flags == ""
    ensures WordTokens(s, p) == ([t.(line := LineAt(s, p))], IdentEnd(s, p))
  {
    hide LineAt, IdentEnd, WordKind, SkipBlanks;
  }

  lemma SetTokenRead(s: string, p: nat, t: Token, w: string)
    requires w == "any" || w == "all"
    requires t.kind == (if w == "any" then ANY_OF else ALL_OF) && t.value == w + " of" && t.flags == ""
    requires Stands(s, p, t.value) && Boundary(s, p + 6, t)
    ensures ReadsAt(s, p, t, p + 6)
  {
    hide Stands, LineAt, IdentEnd, SkipBlanks, StringBody, RegexBody, WordTokens;
    StandsSplit(s, p, w, " of");
    StandsFits(s, p, t.value);
    StandsSlice(s, p, w);
    assert s[p] == s[p..p + 3][0] == w[0];
    NoSkip(s, p);
    SetWords(s, p, w);
  }

  lemma SetWords(s: string, p: nat, w: string)
    requires w == "any" || w == "all"
    requires Stands(s, p, w) && Stands(s, p + 3, " of") && (p + 6 < |s| ==> !NameChar(s[p + 6])) && IsIdent(s[p])
    ensures WordTokens(s, p) == ([Token(if w == "any" then ANY_OF else ALL_OF, w + " of", LineAt(s, p), "")], p + 6)
  {
    hide LineAt, IdentEnd, SkipBlanks, WordTokens, Stands;
    SpacedOf(s, p + 3);
    WordThenBlank(s, p, w);
    OneBlank(s, p + 3);
    JoinedWords(s, p, w);
  }

  lemma WordThenBlank(s: string, p: nat, w: string)
    requires (w == "any" || w == "all") && Stands(s, p, w) && p + 3 < |s| && s[p + 3] == ' '
    ensures IdentEnd(s, p) == p + 3 && s[p..p + 3] == w
  {
    hide IdentEnd, Stands;
    IdentRead(s, p, w);
    StandsSlice(s, p, w);
  }

  lemma SpacedOf(s: string, p: nat)
    requires Stands(s, p, " of") && (p + 3 < |s| ==> !NameChar(s[p + 3]))
    ensures p + 3 <= |s| && s[p] == ' ' && s[p + 1] == 'o' && IdentEnd(s, p + 1) == p + 3 && s[p + 1..p + 3] == "of"
  {
    hide IdentEnd;
    StandsOne(s, p, ' ', "of");
    assert [' '] + "of" == " of";
    IdentRead(s, p + 1, "of");
    StandsSlice(s, p + 1, "of");
  }

  lemma JoinedWords(s: string, p: nat, w: string)
    requires w == "any" || w == "all"
    requires p + 6 <= |s| && IsIdent(s[p]) && IdentEnd(s, p) == p + 3 && s[p..p + 3] == w
    requires SkipBlanks(s, p + 3) == p + 4 && IdentEnd(s, p + 4) == p + 6 && s[p + 4..p + 6] == "of"
    ensures WordTokens(s, p) == ([Token(if w == "any" then ANY_OF else ALL_OF, w + " of", LineAt(s, p), "")], p + 6)
  {
    hide LineAt, IdentEnd, SkipBlanks, WordKind;
  }

  lemma OneBlank(s: string, p: nat)
    requires p + 1 < |s| && IsBlank(s[p]) && !IsBlank(s[p + 1]) && s[p + 1] != '/'
    ensures SkipBlanks(s, p) == p + 1
  {
    NoSkip(s, p + 1);
  }

  /** `any` or `all` and `of` make one token whatever blanks stand between; before any other word, even a keyword, they make two identifiers. */
  lemma PairRead(s: string, p: nat, w: string, gap: seq<Piece>, v: string)
    requires (w == "any" || w == "all") && gap != [] && ValidGap(gap) && (forall g :: g in gap ==> !g.Mark?)
    requires v != "" && AllIdent(v) && Stands(s, p, w + (GapText(gap) + v))
    requires var q := p + |w + (GapText(gap) + v)|; q < |s| ==> !NameChar(s[q])
    ensures p < |s| && IsIdent(s[p]) && WordTokens(s, p) ==
      (if v == "of" then [Token(if w == "any" then ANY_OF else ALL_OF, w + " of", LineAt(s, p), "")]
       else [Token(IDENTIFIER, w, LineAt(s, p), ""), Token(IDENTIFIER, v, LineAt(s, p), "")],
       p + |w + (GapText(gap) + v)|)
  {
    hide Stands, LineAt, IdentEnd, SkipBlanks, WordKind, PieceText, ValidPiece, NameChar;
    StandsSplit(s, p, w, GapText(gap) + v);
    StandsSplit(s, p + 3, GapText(gap), v);
    StandsFits(s, p + 3, GapText(gap));
    StandsFits(s, p + 3 + |GapText(gap)|, v);
    GapSkipped(s, p + 3, gap);
    GapStartsOutside(s, p + 3, gap);
    IdentRead(s, p, w) by {
      WordChars(w);
    }
    IdentRead(s, p + 3 + |GapText(gap)|, v);
    StandsSlice(s, p, w);
    StandsSlice(s, p + 3 + |GapText(gap)|, v);
    NameStarts(s, p + 3 + |GapText(gap)|, v);
    assert s[p] == s[p..p + 3][0] == w[0];
  }

  lemma WordChars(w: string)
    requires w == "any" || w == "all"
    ensures AllIdent(w)
  {
  }

  lemma NameStarts(s: string, p: nat, v: string)
    requires v != "" && AllIdent(v) && Stands(s, p, v)
    ensures p < |s| && SkipBlanks(s, p) == p
  {
    assert NameChar(v[0]) && s[p] == v[0];
    NoSkip(s, p);
  }

  lemma GapStartsOutside(s: string, p: nat, gap: seq<Piece>)
    requires gap != [] && ValidGap(gap) && Stands(s, p, GapText(gap))
    ensures p < |s| && !NameChar(s[p])
  {
    assert ValidPiece(gap[0]);
    assert GapText(gap)[0] == PieceText(gap[0])[0];
    assert s[p] == GapText(gap)[0];
  }

  // ---------------------------------------------------------------- lines and errors

  /** Lines are counted from 1, one more for each line feed before the position. */
  lemma {:induction false} LineCounts(s: string, p: nat)
    requires p <= |s|
    ensures LineAt(s, p) == 1 + multiset(s[..p])['\U{000A}']
    decreases p
  {
    if p > 0 {
      LineCounts(s, p - 1);
      assert s[..p] == s[..p - 1] + [s[p - 1]];
    }
  }

  /** A string that starts at `p` is closed somewhere. */
  ghost predicate ClosedString(s: string, p: nat)
    requires p < |s|
  {
    exists xs :: Within(s[p], xs) && Stands(s, p + 1, Spellings(xs) + [s[p]])
  }

  ghost predicate ClosedRegex(s: string, p: nat)
    requires p < |s|
  {
    exists v :: RegexOk(v, false, false) && Stands(s, p + 1, v + "/")
  }

  /** Characters with which a token, or a mark that makes none, may start. */
  predicate Starter(c: char) {
    var n := c as int;
    0x41 <= n <= 0x5A || 0x61 <= n <= 0x7A || 0x30 <= n <= 0x39 || c in "_${}():=\"'/,;[]"
  }

  lemma {:induction false} RegexWritten(s: string, p: nat, escaped: bool, inClass: bool)
    requires p <= |s| && RegexBody(s, p, escaped, inClass).Ok?
    ensures var (v, q) := RegexBody(s, p, escaped, inClass).value; q == p + |v| + 1 && Stands(s, p, v + "/")
    decreases |s| - p
  {
    var (v, q) := RegexBody(s, p, escaped, inClass).value;
    var c := s[p];
    var inClass' := if escaped || c == '\\' then inClass else if c == '[' then true else if c == ']' then false else inClass;
    if escaped || c == '\\' || !(c == '/' && !inClass') {
      RegexWritten(s, p + 1, !escaped && c == '\\', inClass');
      assert v + "/" == [c] + (v[1..] + "/");
      StandsOne(s, p, c, v[1..] + "/");
    } else {
      StandsOne(s, p, '/', "");
      assert v + "/" == ['/'] + "";
    }
  }

  /** Which error a position gives: a string or regex that is never closed, or a character no token starts with. */
  lemma FaultExactly(s: string, p: nat)
    requires p < |s|
    ensures TokensAt(s, p) == Err(UnterminatedString(LineAt(s, p))) <==> (s[p] == '"' || s[p] == '\'') && !ClosedString(s, p)
    ensures TokensAt(s, p) == Err(UnterminatedRegex(LineAt(s, p))) <==> s[p] == '/' && !ClosedRegex(s, p)
    ensures TokensAt(s, p) == Err(UnexpectedCharacter(s[p], LineAt(s, p))) <==> !Starter(s[p])
    ensures TokensAt(s, p).Err? ==>
      TokensAt(s, p).error in {UnterminatedString(LineAt(s, p)), UnterminatedRegex(LineAt(s, p)), UnexpectedCharacter(s[p], LineAt(s, p))}
  {
    hide LineAt, Stands, StringBody, RegexBody, WordTokens, Spellings, Within, RegexOk, DigitsEnd, FlagsEnd, IdentEnd;
    if s[p] == '"' || s[p] == '\'' {
      StringFault(s, p);
    } else if s[p] == '/' {
      RegexFault(s, p);
    }
  }

  lemma StringFault(s: string, p: nat)
    requires p < |s| && (s[p] == '"' || s[p] == '\'')
    ensures StringBody(s, s[p], p + 1).Ok? <==> ClosedString(s, p)
  {
    hide Stands, StringBody, Spellings, Within;
    if StringBody(s, s[p], p + 1).Ok? {
      var xs := QuotedWritten(s, s[p], p + 1);
    }
    if xs :| Within(s[p], xs) && Stands(s, p + 1, Spellings(xs) + [s[p]]) {
      QuotedRead(s, s[p], p + 1, xs);
    }
  }

  lemma RegexFault(s: string, p: nat)
    requires p < |s| && s[p] == '/'
    ensures RegexBody(s, p + 1, false, false).Ok? <==> ClosedRegex(s, p)
  {
    hide Stands, RegexBody, RegexOk;
    if RegexBody(s, p + 1, false, false).Ok? {
      RegexReadOk(s, p + 1, false, false);
      RegexWritten(s, p + 1, false, false);
    }
    if v :| RegexOk(v, false, false) && Stands(s, p + 1, v + "/") {
      RegexRead(s, p + 1, v, false, false);
    }
  }

  // ---------------------------------------------------------------- whole texts

  datatype Item = Item(token: Token, gap: seq<Piece>)

  function ItemsText(items: seq<Item>): string {
    if items == [] then "" else TokenText(items[0].token) + (GapText(items[0].gap) + ItemsText(items[1..]))
  }

  predicate ValidItem(i: Item) {
    Representable(i.token) && ValidGap(i.gap)
  }

  /** The token behind this one needs no gap. */
  predicate Touches(t: Token, next: Token) {
    TokenText(next) != "" && Ends(t, TokenText(next)[0])
  }

  /** Tokens that can be written, each separated from the next where it would take the next one's start. */
  predicate ValidItems(items: seq<Item>) {
    (forall i :: 0 <= i < |items| ==> ValidItem(items[i])) &&
    forall i :: 0 <= i < |items| - 1 ==> items[i].gap != [] || Touches(items[i].token, items[i + 1].token)
  }

  /** The tokens with the lines on which they start when the text begins at `p`, and the end marker. */
  function Placed(s: string, p: nat, items: seq<Item>): seq<Token>
    requires p + |ItemsText(items)| == |s|
    decreases |items|
  {
    if items == [] then [Token(EOF, "", LineAt(s, p), "")]
    else
      var next := p + |TokenText(items[0].token)| + |GapText(items[0].gap)|;
      [items[0].token.(line := LineAt(s, p))] + Placed(s, next, items[1..])
  }

  lemma GapEnds(t: Token, g: Piece)
    requires ValidPiece(g)
    ensures PieceText(g) != "" && Ends(t, PieceText(g)[0])
  {
  }

  /** Behind a token stands the end, a gap, or a token it does not run into. */
  lemma GapBoundary(s: string, p: nat, t: Token, gap: seq<Piece>, rest: seq<Item>)
    requires ValidGap(gap) && Stands(s, p, GapText(gap) + ItemsText(rest)) && p + |GapText(gap) + ItemsText(rest)| == |s|
    requires gap != [] || rest == [] || Touches(t, rest[0].token)
    ensures Boundary(s, p, t)
  {
    hide ValidPiece, PieceText, Ends, TokenText;
    var u := GapText(gap) + ItemsText(rest);
    if gap != [] {
      assert ValidPiece(gap[0]);
      GapEnds(t, gap[0]);
      assert u[0] == PieceText(gap[0])[0];
    } else if rest != [] {
      assert u[0] == TokenText(rest[0].token)[0];
    }
    assert u != "" ==> s[p] == u[0];
  }

  lemma LexStep(s: string, p: nat, t: Token, q: nat)
    requires ReadsAt(s, p, t, q) && q <= |s|
    ensures Lex(s, p) == After([t.(line := LineAt(s, p))], Lex(s, q))
  {
    hide TokensAt, LineAt;
  }

  lemma ItemsStep(items: seq<Item>)
    requires items != [] && ValidItems(items)
    ensures var t, gap, rest := items[0].token, items[0].gap, items[1..];
            ItemsText(items) == TokenText(t) + (GapText(gap) + ItemsText(rest)) &&
            Representable(t) && ValidGap(gap) && ValidItems(rest) && (gap != [] || rest == [] || Touches(t, rest[0].token))
  {
    hide ValidItem, TokenText, GapText, Touches;
    var rest := items[1..];
    assert ValidItem(items[0]) ==> Representable(items[0].token) && ValidGap(items[0].gap) by {
      ItemParts(items[0]);
    }
    forall i | 0 <= i < |rest| ensures ValidItem(rest[i]) {
      assert rest[i] == items[i + 1];
    }
    forall i | 0 <= i < |rest| - 1 ensures rest[i].gap != [] || Touches(rest[i].token, rest[i + 1].token) {
      assert rest[i] == items[i + 1] && rest[i + 1] == items[i + 2];
    }
  }

  lemma ItemParts(i: Item)
    ensures ValidItem(i) <==> Representable(i.token) && ValidGap(i.gap)
  {
  }

  lemma PlacedStep(s: string, p: nat, items: seq<Item>)
    requires items != [] && p + |ItemsText(items)| == |s|
    ensures var next := p + |TokenText(items[0].token)| + |GapText(items[0].gap)|;
            next + |ItemsText(items[1..])| == |s| &&
            Placed(s, p, items) == [items[0].token.(line := LineAt(s, p))] + Placed(s, next, items[1..])
  {
    hide TokenText, GapText, LineAt;
  }

  lemma {:induction false} ItemsLexed(s: string, p: nat, items: seq<Item>)
    requires ValidItems(items) && Stands(s, p, ItemsText(items)) && p + |ItemsText(items)| == |s|
    ensures Lex(s, p) == Ok(Placed(s, p, items))
    decreases |items|
  {
    hide *;
    NoText();
    if items == [] {
      NothingLexed(s, p);
    } else {
      var t, gap, rest := items[0].token, items[0].gap, items[1..];
      ItemsStep(items);
      StandsSplit(s, p, TokenText(t), GapText(gap) + ItemsText(rest));
      var q := p + |TokenText(t)|;
      GapBoundary(s, q, t, gap, rest);
      StandsSplit(s, q, GapText(gap), ItemsText(rest));
      StandsFits(s, q, GapText(gap));
      TokenRead(s, p, t);
      LexStep(s, p, t, q);
      GapLexed(s, q, gap);
      ItemsLexed(s, q + |GapText(gap)|, rest);
      PlacedStep(s, p, items);
      AfterOk([t.(line := LineAt(s, p))], Placed(s, q + |GapText(gap)|, rest));
    }
  }

  lemma AfterOk(ts: seq<Token>, rest: seq<Token>)
    ensures After(ts, Ok(rest)) == Ok(ts + rest)
  {
  }

  lemma NothingLexed(s: string, p: nat)
    requires p == |s|
    ensures |ItemsText([])| == 0 && Lex(s, p) == Ok(Placed(s, p, []))
  {
  }

  lemma NoText()
    ensures GapText([]) == "" && ItemsText([]) == ""
  {
  }

  /**
   Main result: lexing undoes rendering. Any representable tokens, written with any blanks and
   comments before, between and after them, are returned with the lines on which they start.
   */
  lemma RenderedLexed(lead: seq<Piece>, items: seq<Item>)
    requires ValidGap(lead) && ValidItems(items)
    ensures var s := GapText(lead) + ItemsText(items);
            Lex(s, 0) == Ok(Placed(s, |GapText(lead)|, items))
  {
    hide *;
    var s := GapText(lead) + ItemsText(items);
    WholeStands(s);
    StandsSplit(s, 0, GapText(lead), ItemsText(items));
    GapLexed(s, 0, lead);
    ItemsLexed(s, |GapText(lead)|, items);
  }
}
