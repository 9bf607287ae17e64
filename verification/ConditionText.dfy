/** From rule text to condition tree: the lexer and the parser together undo the printer. */
module ConditionText {
  import opened RuleSyntax
  import opened ConditionParser
  import opened ConditionGrammar
  import L = Lexer
  import opened LexerText

  /** The tokens of the items, on whatever lines, and the end marker. */
  predicate Keeps(ts: seq<Token>, items: seq<Item>) {
    |ts| == |items| + 1 && ts[|items|].kind == EOF &&
    forall i :: 0 <= i < |items| ==> ts[i] == items[i].token.(line := ts[i].line)
  }

  lemma KeepsCons(t: Token, ts: seq<Token>, items: seq<Item>)
    requires items != [] && Keeps(ts, items[1..]) && t == items[0].token.(line := t.line)
    ensures Keeps([t] + ts, items)
  {
    var us := [t] + ts;
    forall i | 0 <= i < |items| ensures us[i] == items[i].token.(line := us[i].line) {
      if i > 0 {
        assert us[i] == ts[i - 1] && items[i] == items[1..][i - 1];
      }
    }
  }

  lemma EndKept(s: string, p: nat)
    requires p == |s|
    ensures |ItemsText([])| == 0 && Keeps(Placed(s, p, []), [])
  {
  }

  lemma {:induction false} PlacedKeeps(s: string, p: nat, items: seq<Item>)
    requires ValidItems(items) && p + |ItemsText(items)| == |s|
    ensures Keeps(Placed(s, p, items), items)
    decreases |items|
  {
    hide *;
    if items == [] {
      NoText();
      EndKept(s, p);
    } else {
      ItemsStep(items);
      PlacedStep(s, p, items);
      var q := p + |TokenText(items[0].token)| + |GapText(items[0].gap)|;
      PlacedKeeps(s, q, items[1..]);
      KeepsCons(items[0].token.(line := L.LineAt(s, p)), Placed(s, q, items[1..]), items);
    }
  }

  lemma KeptReads(ts: seq<Token>, items: seq<Item>, y: seq<Symbol>)
    requires Keeps(ts, items) && ValidItems(items) && |items| == |y|
    requires forall i :: 0 <= i < |items| ==> SymbolOf(items[i].token) == y[i]
    ensures Lexed(ts) && Reads(ts, 0, y) && Peek(ts, |y|).kind == EOF
  {
    forall i | 0 <= i < |ts| && ts[i].kind == THEM ensures ts[i].value != "" {
      ThemNamed(items[i].token);
    }
  }

  lemma ThemNamed(t: Token)
    requires Representable(t) && t.kind == THEM
    ensures t.value != ""
  {
  }

  /**
   Any spelling of a printed condition, with any blanks and comments, is lexed without error and
   parsed back to that condition, up to the end of the text.
   */
  lemma SpelledCondition(lead: seq<Piece>, items: seq<Item>, c: Condition)
    requires ValidGap(lead) && ValidItems(items)
    requires |items| == |OrYield(PrintOr(c))|
    requires forall i :: 0 <= i < |items| ==> SymbolOf(items[i].token) == OrYield(PrintOr(c))[i]
    ensures var r := L.Lex(GapText(lead) + ItemsText(items), 0);
            r.Ok? && ParseOr(r.value, 0) == Ok((c, |items|)) && Peek(r.value, |items|).kind == EOF
  {
    hide ValidGap, ValidItems, L.Lex, Placed, GapText, ItemsText, ParseOr, PrintOr, OrYield, SymbolOf, Keeps, Lexed, Reads, Peek;
    var s, p := GapText(lead) + ItemsText(items), |GapText(lead)|;
    RenderedLexed(lead, items);
    PlacedKeeps(s, p, items);
    KeptReads(Placed(s, p, items), items, OrYield(PrintOr(c)));
    PrintedParsed(Placed(s, p, items), 0, c);
  }

  // ---------------------------------------------------------------- the text of a condition

  /** A variable as it is written: a dollar sign and a name. */
  predicate IsVar(x: string) {
    |x| > 0 && x[0] == '$' && AllIdent(x[1..])
  }

  predicate AllVars(vars: seq<string>) {
    forall i :: 0 <= i < |vars| ==> IsVar(vars[i])
  }

  predicate Nameable(c: Condition) {
    match c
    case And(l, r) => Nameable(l) && Nameable(r)
    case Or(l, r) => Nameable(l) && Nameable(r)
    case Not(e) => Nameable(e)
    case Match(x) => IsVar(x)
    case MatchIn(x, t) => IsVar(x) && IsVar(t)
    case AnyOf(vars) => AllVars(vars)
    case AllOf(vars) => AllVars(vars)
    case _ => true
  }

  function VarsText(vars: seq<string>): string {
    if vars == [] then "" else if |vars| == 1 then vars[0] else vars[0] + ", " + VarsText(vars[1..])
  }

  function LeafText(c: Condition): string
    requires IsLeaf(c)
  {
    match c
    case Match(x) => x
    case MatchIn(x, t) => x + " in " + t
    case AnyOfThem => "any of them"
    case AllOfThem => "all of them"
    case AnyOf(vars) => "any of (" + VarsText(vars) + ")"
    case AllOf(vars) => "all of (" + VarsText(vars) + ")"
    case Boolean(b) => if b then "true" else "false"
  }

  function OrText(t: OrTree): string
    requires OrOk(t)
  {
    match t
    case OneAnd(a) => AndText(a)
    case OrMore(l, r) => OrText(l) + " or " + AndText(r)
  }

  function AndText(t: AndTree): string
    requires AndOk(t)
  {
    match t
    case OneNot(n) => NotText(n)
    case AndMore(l, r) => AndText(l) + " and " + NotText(r)
  }

  function NotText(t: NotTree): string
    requires PrimOk(t.prim)
  {
    match t
    case Plain(p) => PrimText(p)
    case Negated(p) => "not " + PrimText(p)
  }

  function PrimText(t: PrimTree): string
    requires PrimOk(t)
  {
    match t
    case Paren(o) => "(" + OrText(o) + ")"
    case Leaf(c) => LeafText(c)
  }

  /** A condition as rules are written, with the parentheses it needs. */
  function ConditionSpelling(c: Condition): string {
    OrText(PrintOr(c))
  }

  // ---------------------------------------------------------------- the text as items

  /** The items spell the text and are the tokens of these symbols, with nothing behind the last. */
  predicate Spells(items: seq<Item>, text: string, y: seq<Symbol>) {
    && items != [] && ValidItems(items) && items[|items| - 1].gap == []
    && ItemsText(items) == text && SymbolsAre(items, y)
  }

  function Glued(a: seq<Item>, gap: seq<Piece>, b: seq<Item>): seq<Item>
    requires a != []
  {
    a[..|a| - 1] + ([a[|a| - 1].(gap := gap)] + b)
  }

  lemma {:induction false} GluedText(a: seq<Item>, gap: seq<Piece>, b: seq<Item>)
    requires a != [] && a[|a| - 1].gap == []
    ensures ItemsText(Glued(a, gap, b)) == ItemsText(a) + GapText(gap) + ItemsText(b)
    decreases |a|
  {
    hide GapText, TokenText;
    var g := Glued(a, gap, b);
    NoText();
    if |a| == 1 {
      assert g[1..] == b;
      assert a[1..] == [];
      OneText(a);
    } else {
      assert g[1..] == Glued(a[1..], gap, b);
      GluedText(a[1..], gap, b);
      var t, h, r := TokenText(a[0].token), GapText(a[0].gap), ItemsText(a[1..]);
      assert t + (h + (r + GapText(gap) + ItemsText(b))) == (t + (h + r)) + GapText(gap) + ItemsText(b);
    }
  }

  lemma OneText(a: seq<Item>)
    requires |a| == 1 && a[0].gap == []
    ensures ItemsText(a) == TokenText(a[0].token)
  {
    hide TokenText;
    assert a[1..] == [];
  }

  predicate SymbolsAre(items: seq<Item>, y: seq<Symbol>) {
    |items| == |y| && forall i :: 0 <= i < |items| ==> SymbolOf(items[i].token) == y[i]
  }

  lemma GluedSymbols(a: seq<Item>, y: seq<Symbol>, gap: seq<Piece>, b: seq<Item>, z: seq<Symbol>)
    requires a != [] && SymbolsAre(a, y) && SymbolsAre(b, z)
    ensures SymbolsAre(Glued(a, gap, b), y + z)
  {
    hide SymbolOf;
    var g := Glued(a, gap, b);
    forall i | 0 <= i < |g| ensures SymbolOf(g[i].token) == (y + z)[i] {
      if i < |a| {
        assert g[i].token == a[i].token;
      } else {
        assert g[i] == b[i - |a|];
      }
    }
  }

  /** Two spelled texts with a gap between them, or none where the first does not run into the second. */
  lemma GluedSpells(a: seq<Item>, s: string, y: seq<Symbol>, gap: seq<Piece>, b: seq<Item>, t: string, z: seq<Symbol>)
    requires Spells(a, s, y) && Spells(b, t, z) && ValidGap(gap)
    requires gap != [] || Touches(a[|a| - 1].token, b[0].token)
    ensures Spells(Glued(a, gap, b), s + GapText(gap) + t, y + z)
  {
    hide ValidGap, ValidItems, ItemsText, SymbolsAre, Touches, GapText;
    GluedText(a, gap, b);
    GluedValid(a, gap, b);
    GluedSymbols(a, y, gap, b, z);
  }

  lemma GluedValid(a: seq<Item>, gap: seq<Piece>, b: seq<Item>)
    requires a != [] && b != [] && ValidItems(a) && ValidItems(b) && ValidGap(gap)
    requires gap != [] || Touches(a[|a| - 1].token, b[0].token)
    ensures ValidItems(Glued(a, gap, b))
  {
    hide ValidGap, Representable, Touches;
    var g := Glued(a, gap, b);
    var n := |a| - 1;
    forall i | 0 <= i < |g| ensures ValidItem(g[i]) {
      if i <= n {
        assert g[i].token == a[i].token && (i < n ==> g[i] == a[i]) && ValidItem(a[i]);
      } else {
        assert g[i] == b[i - n - 1];
      }
    }
    forall i | 0 <= i < |g| - 1 ensures g[i].gap != [] || Touches(g[i].token, g[i + 1].token) {
      if i < n {
        assert g[i] == a[i] && g[i + 1].token == a[i + 1].token;
      } else if i == n {
        assert g[i + 1] == b[0];
      } else {
        assert g[i] == b[i - n - 1] && g[i + 1] == b[i - n];
      }
    }
  }

  const SPACE: seq<Piece> := [Blank(' ')]
  const COMMA: seq<Piece> := [Mark(','), Blank(' ')]

  lemma Gaps()
    ensures ValidGap(SPACE) && GapText(SPACE) == " " && ValidGap(COMMA) && GapText(COMMA) == ", "
  {
    assert SPACE[1..] == [] && COMMA[1..] == SPACE;
  }

  function Word(k: Kind): Item {
    Item(Token(k, Spelling(k), 0, ""), [])
  }

  /** One token alone. */
  lemma OneSpells(t: Token)
    requires Representable(t)
    ensures Spells([Item(t, [])], TokenText(t), [SymbolOf(t)])
  {
    hide Representable, TokenText, SymbolOf;
    OneText([Item(t, [])]);
    var none: seq<Piece> := [];
    assert ValidGap(none);
  }

  /** A fixed word or mark alone. */
  lemma WordSpells(k: Kind)
    requires IsKeyword(k) || IsMark(k) || k == ANY_OF || k == ALL_OF
    ensures Spells([Word(k)], Spelling(k), [Sym(k)])
  {
    hide Spells;
    WordToken(k);
    OneSpells(Word(k).token);
  }

  lemma WordToken(k: Kind)
    requires IsKeyword(k) || IsMark(k) || k == ANY_OF || k == ALL_OF
    ensures var t := Word(k).token; Representable(t) && TokenText(t) == Spelling(k) && SymbolOf(t) == Sym(k)
  {
    hide Spelling, IsWord, RegexOk;
  }

  lemma VarSpells(x: string)
    requires IsVar(x)
    ensures Spells([Item(Token(DOLLAR_ID, x, 0, ""), [])], x, [Symbol(DOLLAR_ID, x)])
  {
    hide Spells;
    OneSpells(Token(DOLLAR_ID, x, 0, ""));
  }

  lemma FirstText(t: Token)
    requires Representable(t)
    ensures TokenText(t) != ""
  {
  }

  /** Behind an opening parenthesis, and before a closing one, no gap is needed. */
  lemma ParenthesesTouch(b: seq<Item>, t: string, z: seq<Symbol>)
    requires Spells(b, t, z)
    ensures b != [] && Touches(Word(LPAREN).token, b[0].token) && Touches(b[|b| - 1].token, Word(RPAREN).token)
  {
    hide ItemsText, SymbolsAre, Representable;
    assert ValidItem(b[0]);
    FirstText(b[0].token);
  }

  lemma JoinBare(a: seq<Item>, s: string, y: seq<Symbol>, b: seq<Item>, t: string, z: seq<Symbol>)
    requires Spells(a, s, y) && Spells(b, t, z) && a != [] && b != [] && Touches(a[|a| - 1].token, b[0].token)
    ensures Spells(Glued(a, [], b), s + t, y + z)
  {
    hide ValidItems, ItemsText, SymbolsAre, Touches;
    NoText();
    var none: seq<Piece> := [];
    GluedSpells(a, s, y, none, b, t, z);
    assert s + "" + t == s + t;
  }

  /** Items, a space, a word, a space, items. */
  lemma Infix(a: seq<Item>, s: string, y: seq<Symbol>, k: Kind, b: seq<Item>, t: string, z: seq<Symbol>) returns (items: seq<Item>)
    requires Spells(a, s, y) && Spells(b, t, z) && IsKeyword(k)
    ensures Spells(items, s + " " + Spelling(k) + " " + t, y + ([Sym(k)] + z))
  {
    hide Spells, Spelling;
    Gaps();
    WordSpells(k);
    var w := Prefixed(k, b, t, z);
    JoinSpelled(a, s, y, w, Spelling(k) + " " + t, [Sym(k)] + z);
    items := Glued(a, SPACE, w);
    assert s + " " + (Spelling(k) + " " + t) == s + " " + Spelling(k) + " " + t;
  }

  lemma JoinSpelled(a: seq<Item>, s: string, y: seq<Symbol>, b: seq<Item>, t: string, z: seq<Symbol>)
    requires Spells(a, s, y) && Spells(b, t, z)
    ensures a != [] && Spells(Glued(a, SPACE, b), s + " " + t, y + z)
  {
    hide ValidItems, SymbolsAre, ItemsText;
    Gaps();
    GluedSpells(a, s, y, SPACE, b, t, z);
  }

  /** A word, a space, items. */
  lemma Prefixed(k: Kind, b: seq<Item>, t: string, z: seq<Symbol>) returns (items: seq<Item>)
    requires Spells(b, t, z) && (IsKeyword(k) || k == ANY_OF || k == ALL_OF)
    ensures Spells(items, Spelling(k) + " " + t, [Sym(k)] + z)
  {
    hide Spells, Spelling;
    WordSpells(k);
    JoinSpelled([Word(k)], Spelling(k), [Sym(k)], b, t, z);
    items := Glued([Word(k)], SPACE, b);
  }

  /** Items between parentheses. */
  lemma Enclosed(b: seq<Item>, t: string, z: seq<Symbol>) returns (items: seq<Item>)
    requires Spells(b, t, z)
    ensures Spells(items, "(" + t + ")", [Sym(LPAREN)] + (z + [Sym(RPAREN)]))
  {
    hide Spells, Spelling, Touches;
    WordSpells(LPAREN);
    WordSpells(RPAREN);
    Parentheses();
    ParenthesesTouch(b, t, z);
    JoinBare(b, t, z, [Word(RPAREN)], ")", [Sym(RPAREN)]);
    var c := Glued(b, [], [Word(RPAREN)]);
    ParenthesesTouch(c, t + ")", z + [Sym(RPAREN)]);
    JoinBare([Word(LPAREN)], "(", [Sym(LPAREN)], c, t + ")", z + [Sym(RPAREN)]);
    items := Glued([Word(LPAREN)], [], c);
    assert "(" + (t + ")") == "(" + t + ")";
  }

  lemma Parentheses()
    ensures Spelling(LPAREN) == "(" && Spelling(RPAREN) == ")"
  {
  }

  lemma {:induction false} VarsSpelled(vars: seq<string>) returns (items: seq<Item>)
    requires vars != [] && AllVars(vars)
    ensures Spells(items, VarsText(vars), VarSymbols(vars))
    decreases |vars|
  {
    hide IsVar, ValidItems, SymbolsAre, GapText, Representable, ItemsText;
    VarSpells(vars[0]);
    var first := [Item(Token(DOLLAR_ID, vars[0], 0, ""), [])];
    assert VarSymbols(vars) == [Symbol(DOLLAR_ID, vars[0])] + VarSymbols(vars[1..]);
    if |vars| == 1 {
      items := first;
      assert VarSymbols(vars) == [Symbol(DOLLAR_ID, vars[0])];
    } else {
      Gaps();
      var rest := VarsSpelled(vars[1..]);
      GluedSpells(first, vars[0], [Symbol(DOLLAR_ID, vars[0])], COMMA, rest, VarsText(vars[1..]), VarSymbols(vars[1..]));
      items := Glued(first, COMMA, rest);
    }
  }

  lemma EmptyParentheses() returns (items: seq<Item>)
    ensures Spells(items, "()", [Sym(LPAREN)] + ([] + [Sym(RPAREN)]))
  {
    hide Spells, Spelling, Touches;
    WordSpells(LPAREN);
    WordSpells(RPAREN);
    Parentheses();
    ParenthesesTouch([Word(RPAREN)], ")", [Sym(RPAREN)]);
    JoinBare([Word(LPAREN)], "(", [Sym(LPAREN)], [Word(RPAREN)], ")", [Sym(RPAREN)]);
    items := Glued([Word(LPAREN)], [], [Word(RPAREN)]);
    assert "(" + ")" == "()";
    assert [] + [Sym(RPAREN)] == [Sym(RPAREN)];
  }

  /** `any of` or `all of` before variables in parentheses. */
  lemma SetSpelled(k: Kind, vars: seq<string>) returns (items: seq<Item>)
    requires (k == ANY_OF || k == ALL_OF) && AllVars(vars)
    ensures Spells(items, Spelling(k) + " (" + VarsText(vars) + ")", [Sym(k), Sym(LPAREN)] + (VarSymbols(vars) + [Sym(RPAREN)]))
  {
    hide Spells, Spelling, VarSymbols, VarsText;
    var inner;
    if vars == [] {
      NoVars();
      inner := EmptyParentheses();
      assert "()" == "(" + VarsText(vars) + ")";
    } else {
      var vs := VarsSpelled(vars);
      inner := Enclosed(vs, VarsText(vars), VarSymbols(vars));
    }
    items := Prefixed(k, inner, "(" + VarsText(vars) + ")", [Sym(LPAREN)] + (VarSymbols(vars) + [Sym(RPAREN)]));
    assert Spelling(k) + " " + ("(" + VarsText(vars) + ")") == Spelling(k) + " (" + VarsText(vars) + ")";
    assert [Sym(k)] + ([Sym(LPAREN)] + (VarSymbols(vars) + [Sym(RPAREN)])) == [Sym(k), Sym(LPAREN)] + (VarSymbols(vars) + [Sym(RPAREN)]);
  }

  lemma NoVars()
    ensures VarsText([]) == "" && VarSymbols([]) == []
  {
  }

  lemma ThemSpelled(k: Kind) returns (items: seq<Item>)
    requires k == ANY_OF || k == ALL_OF
    ensures Spells(items, (if k == ANY_OF then "any" else "all") + " of them", [Sym(k), Sym(THEM)])
  {
    hide Spells;
    WordSpells(THEM);
    items := Prefixed(k, [Word(THEM)], Spelling(THEM), [Sym(THEM)]);
    assert Spelling(k) + " " + Spelling(THEM) == (if k == ANY_OF then "any" else "all") + " of them";
    assert [Sym(k)] + [Sym(THEM)] == [Sym(k), Sym(THEM)];
  }

  lemma InSpelled(x: string, t: string) returns (items: seq<Item>)
    requires IsVar(x) && IsVar(t)
    ensures Spells(items, x + " in " + t, [Symbol(DOLLAR_ID, x), Sym(IN), Symbol(DOLLAR_ID, t)])
  {
    hide Spells, IsVar;
    VarSpells(x);
    VarSpells(t);
    items := Infix([Item(Token(DOLLAR_ID, x, 0, ""), [])], x, [Symbol(DOLLAR_ID, x)], IN,
                   [Item(Token(DOLLAR_ID, t, 0, ""), [])], t, [Symbol(DOLLAR_ID, t)]);
    assert x + " " + Spelling(IN) + " " + t == x + " in " + t;
    assert [Symbol(DOLLAR_ID, x)] + ([Sym(IN)] + [Symbol(DOLLAR_ID, t)]) == [Symbol(DOLLAR_ID, x), Sym(IN), Symbol(DOLLAR_ID, t)];
  }

  lemma LeafSpelled(c: Condition) returns (items: seq<Item>)
    requires IsLeaf(c) && Nameable(c)
    ensures Spells(items, LeafText(c), LeafYield(c))
  {
    hide Spells, VarSymbols, VarsText, IsVar;
    match c
    case Match(x) =>
      VarSpells(x);
      items := [Item(Token(DOLLAR_ID, x, 0, ""), [])];
    case MatchIn(x, t) =>
      items := InSpelled(x, t);
    case AnyOfThem =>
      items := ThemSpelled(ANY_OF);
      assert "any" + " of them" == "any of them";
    case AllOfThem =>
      items := ThemSpelled(ALL_OF);
      assert "all" + " of them" == "all of them";
    case AnyOf(vars) =>
      items := SetSpelled(ANY_OF, vars);
      assert Spelling(ANY_OF) + " (" == "any of (";
    case AllOf(vars) =>
      items := SetSpelled(ALL_OF, vars);
      assert Spelling(ALL_OF) + " (" == "all of (";
    case Boolean(b) =>
      WordSpells(if b then TRUE else FALSE);
      items := [Word(if b then TRUE else FALSE)];
  }

  lemma {:induction false} OrSpelled(t: OrTree) returns (items: seq<Item>)
    requires OrOk(t) && Nameable(OrMeaning(t))
    ensures Spells(items, OrText(t), OrYield(t))
    decreases t
  {
    hide Spells, AndText, AndYield, AndMeaning;
    match t
    case OneAnd(a) =>
      items := AndSpelled(a);
    case OrMore(l, r) =>
      var a := OrSpelled(l);
      var b := AndSpelled(r);
      items := Infix(a, OrText(l), OrYield(l), OR, b, AndText(r), AndYield(r));
      assert OrText(l) + " " + Spelling(OR) + " " + AndText(r) == OrText(l) + " or " + AndText(r);
  }

  lemma {:induction false} AndSpelled(t: AndTree) returns (items: seq<Item>)
    requires AndOk(t) && Nameable(AndMeaning(t))
    ensures Spells(items, AndText(t), AndYield(t))
    decreases t
  {
    hide Spells, NotText, NotYield, NotMeaning;
    match t
    case OneNot(n) =>
      items := NotSpelled(n);
    case AndMore(l, r) =>
      var a := AndSpelled(l);
      var b := NotSpelled(r);
      items := Infix(a, AndText(l), AndYield(l), AND, b, NotText(r), NotYield(r));
      assert AndText(l) + " " + Spelling(AND) + " " + NotText(r) == AndText(l) + " and " + NotText(r);
  }

  lemma {:induction false} NotSpelled(t: NotTree) returns (items: seq<Item>)
    requires PrimOk(t.prim) && Nameable(NotMeaning(t))
    ensures Spells(items, NotText(t), NotYield(t))
    decreases t
  {
    hide Spells, PrimText, PrimYield, PrimMeaning;
    match t
    case Plain(p) =>
      items := PrimSpelled(p);
    case Negated(p) =>
      var b := PrimSpelled(p);
      items := Prefixed(NOT, b, PrimText(p), PrimYield(p));
      assert Spelling(NOT) + " " + PrimText(p) == "not " + PrimText(p);
  }

  lemma {:induction false} PrimSpelled(t: PrimTree) returns (items: seq<Item>)
    requires PrimOk(t) && Nameable(PrimMeaning(t))
    ensures Spells(items, PrimText(t), PrimYield(t))
    decreases t
  {
    hide Spells, OrText, OrYield, OrMeaning, LeafText, LeafYield;
    match t
    case Paren(o) =>
      var b := OrSpelled(o);
      items := Enclosed(b, OrText(o), OrYield(o));
    case Leaf(c) =>
      items := LeafSpelled(c);
  }

  /**
   From text to tree: the text printed for any condition over dollar variables is lexed without error
   and parsed back to that condition, up to the end of the text.
   */
  lemma TextBack(c: Condition)
    requires Nameable(c)
    ensures var r := L.Lex(ConditionSpelling(c), 0);
            r.Ok? && ParseOr(r.value, 0) == Ok((c, |OrYield(PrintOr(c))|)) && Peek(r.value, |OrYield(PrintOr(c))|).kind == EOF
  {
    hide L.Lex, ParseOr, OrYield, PrintOr, OrText, ValidItems, ItemsText, SymbolOf, Peek;
    var items := OrSpelled(PrintOr(c));
    NoText();
    var none: seq<Piece> := [];
    assert GapText(none) + ItemsText(items) == OrText(PrintOr(c));
    SpelledCondition(none, items, c);
  }
}
