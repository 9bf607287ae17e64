/** The condition grammar as concrete trees, and the parser's exact relation to it. */
module ConditionGrammar {
  import opened RuleSyntax
  import opened ConditionParser

  // ---------------------------------------------------------------- grammar

  /** or := and | or OR and */
  datatype OrTree = OneAnd(only: AndTree) | OrMore(left: OrTree, right: AndTree)
  /** and := not | and AND not */
  datatype AndTree = OneNot(only: NotTree) | AndMore(left: AndTree, right: NotTree)
  /** not := primary | NOT primary */
  datatype NotTree = Plain(prim: PrimTree) | Negated(prim: PrimTree)
  /** primary := ( or ) | leaf */
  datatype PrimTree = Paren(inner: OrTree) | Leaf(leaf: Condition)

  predicate IsLeaf(c: Condition) {
    !c.And? && !c.Or? && !c.Not?
  }

  predicate OrOk(t: OrTree) {
    match t
    case OneAnd(a) => AndOk(a)
    case OrMore(l, r) => OrOk(l) && AndOk(r)
  }

  predicate AndOk(t: AndTree) {
    match t
    case OneNot(n) => PrimOk(n.prim)
    case AndMore(l, r) => AndOk(l) && PrimOk(r.prim)
  }

  predicate PrimOk(t: PrimTree) {
    match t
    case Paren(o) => OrOk(o)
    case Leaf(c) => IsLeaf(c)
  }

  /** The last leaf is a bare variable, which an `in` behind it would extend. */
  predicate OrOpen(t: OrTree) {
    AndOpen(if t.OneAnd? then t.only else t.right)
  }

  predicate AndOpen(t: AndTree) {
    PrimOpen((if t.OneNot? then t.only else t.right).prim)
  }

  predicate PrimOpen(t: PrimTree) {
    t.Leaf? && t.leaf.Match?
  }

  /** A token as the grammar sees it: its kind, and the name of a variable. */
  datatype Symbol = Symbol(kind: Kind, name: string)

  function Sym(k: Kind): Symbol {
    Symbol(k, "")
  }

  function SymbolOf(t: Token): Symbol {
    Symbol(t.kind, if t.kind == DOLLAR_ID then t.value else "")
  }

  function VarSymbols(vars: seq<string>): (y: seq<Symbol>)
    ensures |y| == |vars|
  {
    seq(|vars|, i requires 0 <= i < |vars| => Symbol(DOLLAR_ID, vars[i]))
  }

  function LeafYield(c: Condition): seq<Symbol>
    requires IsLeaf(c)
  {
    match c
    case Match(x) => [Symbol(DOLLAR_ID, x)]
    case MatchIn(x, t) => [Symbol(DOLLAR_ID, x), Sym(IN), Symbol(DOLLAR_ID, t)]
    case AnyOfThem => [Sym(ANY_OF), Sym(THEM)]
    case AllOfThem => [Sym(ALL_OF), Sym(THEM)]
    case AnyOf(vars) => [Sym(ANY_OF), Sym(LPAREN)] + (VarSymbols(vars) + [Sym(RPAREN)])
    case AllOf(vars) => [Sym(ALL_OF), Sym(LPAREN)] + (VarSymbols(vars) + [Sym(RPAREN)])
    case Boolean(b) => [Sym(if b then TRUE else FALSE)]
  }

  function OrYield(t: OrTree): seq<Symbol>
    requires OrOk(t)
  {
    match t
    case OneAnd(a) => AndYield(a)
    case OrMore(l, r) => OrYield(l) + ([Sym(OR)] + AndYield(r))
  }

  function AndYield(t: AndTree): seq<Symbol>
    requires AndOk(t)
  {
    match t
    case OneNot(n) => NotYield(n)
    case AndMore(l, r) => AndYield(l) + ([Sym(AND)] + NotYield(r))
  }

  function NotYield(t: NotTree): seq<Symbol>
    requires PrimOk(t.prim)
  {
    match t
    case Plain(p) => PrimYield(p)
    case Negated(p) => [Sym(NOT)] + PrimYield(p)
  }

  function PrimYield(t: PrimTree): seq<Symbol>
    requires PrimOk(t)
  {
    match t
    case Paren(o) => [Sym(LPAREN)] + (OrYield(o) + [Sym(RPAREN)])
    case Leaf(c) => LeafYield(c)
  }

  /** The condition a concrete tree denotes: chains associate to the left. */
  function OrMeaning(t: OrTree): Condition {
    match t
    case OneAnd(a) => AndMeaning(a)
    case OrMore(l, r) => Or(OrMeaning(l), AndMeaning(r))
  }

  function AndMeaning(t: AndTree): Condition {
    match t
    case OneNot(n) => NotMeaning(n)
    case AndMore(l, r) => And(AndMeaning(l), NotMeaning(r))
  }

  function NotMeaning(t: NotTree): Condition {
    match t
    case Plain(p) => PrimMeaning(p)
    case Negated(p) => Not(PrimMeaning(p))
  }

  function PrimMeaning(t: PrimTree): Condition {
    match t
    case Paren(o) => OrMeaning(o)
    case Leaf(c) => c
  }

  // ---------------------------------------------------------------- tokens and symbols

  /** The symbols `y` stand at position `p`. */
  predicate Reads(ts: seq<Token>, p: nat, y: seq<Symbol>) {
    p + |y| <= |ts| && forall j :: p <= j < p + |y| ==> SymbolOf(ts[j]) == y[j - p]
  }

  lemma ReadsSplit(ts: seq<Token>, p: nat, y: seq<Symbol>, z: seq<Symbol>)
    ensures Reads(ts, p, y + z) <==> Reads(ts, p, y) && Reads(ts, p + |y|, z)
  {
    if Reads(ts, p, y + z) {
      forall j | p <= j < p + |y| ensures SymbolOf(ts[j]) == y[j - p] {
        assert (y + z)[j - p] == y[j - p];
      }
      forall j | p + |y| <= j < p + |y| + |z| ensures SymbolOf(ts[j]) == z[j - (p + |y|)] {
        assert (y + z)[j - p] == z[j - (p + |y|)];
      }
    }
  }

  lemma ReadsOne(ts: seq<Token>, p: nat, s: Symbol, z: seq<Symbol>)
    ensures Reads(ts, p, [s] + z) <==> p < |ts| && SymbolOf(ts[p]) == s && Reads(ts, p + 1, z)
  {
    ReadsSplit(ts, p, [s], z);
  }

  /** Keyword tokens carry their text, as the lexer makes them. */
  predicate Lexed(ts: seq<Token>) {
    forall i :: 0 <= i < |ts| && ts[i].kind == THEM ==> ts[i].value != ""
  }

  lemma {:induction false} VarsRun(ts: seq<Token>, p: nat, vars: seq<string>)
    requires Reads(ts, p, VarSymbols(vars)) && Peek(ts, p + |vars|).kind != DOLLAR_ID
    ensures VarsEnd(ts, p) == p + |vars| && Values(ts[p..p + |vars|]) == vars
    decreases |vars|
  {
    if vars != [] {
      hide Reads, VarsEnd;
      assert VarSymbols(vars) == [Symbol(DOLLAR_ID, vars[0])] + VarSymbols(vars[1..]);
      ReadsOne(ts, p, Symbol(DOLLAR_ID, vars[0]), VarSymbols(vars[1..]));
      VarsRun(ts, p + 1, vars[1..]);
      assert ts[p..p + |vars|] == [ts[p]] + ts[p + 1..p + |vars|];
    }
  }

  lemma {:induction false} VarsAreVars(ts: seq<Token>, p: nat)
    requires p <= |ts|
    ensures Reads(ts, p, VarSymbols(Values(ts[p..VarsEnd(ts, p)])))
    ensures Peek(ts, VarsEnd(ts, p)).kind != DOLLAR_ID
    decreases |ts| - p
  {
    if Peek(ts, p).kind == DOLLAR_ID {
      VarsAreVars(ts, p + 1);
      var q := VarsEnd(ts, p);
      assert forall i :: 0 < i < q - p ==> ts[p..q][i] == ts[p + 1..q][i - 1];
      forall j | p <= j < q ensures SymbolOf(ts[j]) == VarSymbols(Values(ts[p..q]))[j - p] {
        if j > p {
          assert SymbolOf(ts[j]) == VarSymbols(Values(ts[p + 1..q]))[j - (p + 1)];
        }
      }
    }
  }

  // ---------------------------------------------------------------- every sentence is parsed

  /** `any of` / `all of` with its variables. */
  lemma SetParsed(ts: seq<Token>, p: nat, any: bool, vars: seq<string>)
    requires Reads(ts, p, [Sym(LPAREN)] + (VarSymbols(vars) + [Sym(RPAREN)]))
    ensures ParseSet(ts, p, any) == Ok((SetOf(any, vars), p + |vars| + 2))
  {
    hide Reads, VarSymbols, Values, VarsEnd;
    ReadsOne(ts, p, Sym(LPAREN), VarSymbols(vars) + [Sym(RPAREN)]);
    ReadsSplit(ts, p + 1, VarSymbols(vars), [Sym(RPAREN)]);
    ReadsOne(ts, p + 1 + |vars|, Sym(RPAREN), []);
    assert [Sym(RPAREN)] + [] == [Sym(RPAREN)];
    VarsRun(ts, p + 1, vars);
  }

  lemma ThemParsed(ts: seq<Token>, p: nat, any: bool)
    requires Lexed(ts) && p < |ts| && ts[p].kind == THEM
    ensures ParseSet(ts, p, any) == Ok((if any then AnyOfThem else AllOfThem, p + 1))
  {
  }

  lemma LeafParsed(ts: seq<Token>, p: nat, c: Condition)
    requires Lexed(ts) && IsLeaf(c) && Reads(ts, p, LeafYield(c))
    requires c.Match? ==> Peek(ts, p + |LeafYield(c)|).kind != IN
    ensures ParsePrimary(ts, p) == Ok((c, p + |LeafYield(c)|))
  {
    hide Reads, LeafYield, ParseOr, ParseSet, VarSymbols;
    LeafFirst(ts, p, c);
    if c.AnyOfThem? || c.AllOfThem? {
      ThemParsed(ts, p + 1, c.AnyOfThem?);
    }
    match c
    case AnyOf(vars) => SetParsed(ts, p + 1, true, vars);
    case AllOf(vars) => SetParsed(ts, p + 1, false, vars);
    case _ =>
  }

  lemma ReadsUpTo3(ts: seq<Token>, p: nat, y: seq<Symbol>)
    requires 0 < |y| <= 3
    ensures Reads(ts, p, y) <==>
            p + |y| <= |ts| && SymbolOf(ts[p]) == y[0] &&
            (|y| > 1 ==> SymbolOf(ts[p + 1]) == y[1]) && (|y| > 2 ==> SymbolOf(ts[p + 2]) == y[2])
  {
  }

  /** The tokens of a leaf, one by one. */
  lemma LeafFirst(ts: seq<Token>, p: nat, c: Condition)
    requires IsLeaf(c)
    ensures Reads(ts, p, LeafYield(c)) <==>
            p < |ts| &&
            match c
            case Match(x) => SymbolOf(ts[p]) == Symbol(DOLLAR_ID, x)
            case MatchIn(x, t) =>
              p + 3 <= |ts| && SymbolOf(ts[p]) == Symbol(DOLLAR_ID, x) && SymbolOf(ts[p + 1]) == Sym(IN) &&
              SymbolOf(ts[p + 2]) == Symbol(DOLLAR_ID, t)
            case AnyOfThem => p + 2 <= |ts| && SymbolOf(ts[p]) == Sym(ANY_OF) && SymbolOf(ts[p + 1]) == Sym(THEM)
            case AllOfThem => p + 2 <= |ts| && SymbolOf(ts[p]) == Sym(ALL_OF) && SymbolOf(ts[p + 1]) == Sym(THEM)
            case AnyOf(vars) =>
              SymbolOf(ts[p]) == Sym(ANY_OF) && Reads(ts, p + 1, [Sym(LPAREN)] + (VarSymbols(vars) + [Sym(RPAREN)]))
            case AllOf(vars) =>
              SymbolOf(ts[p]) == Sym(ALL_OF) && Reads(ts, p + 1, [Sym(LPAREN)] + (VarSymbols(vars) + [Sym(RPAREN)]))
            case Boolean(b) => SymbolOf(ts[p]) == Sym(if b then TRUE else FALSE)
    ensures |LeafYield(c)| == match c
                              case MatchIn(_, _) => 3
                              case AnyOfThem => 2
                              case AllOfThem => 2
                              case AnyOf(vars) => |vars| + 3
                              case AllOf(vars) => |vars| + 3
                              case _ => 1
  {
    hide Reads, SymbolOf, VarSymbols;
    if c.AnyOf? || c.AllOf? {
      var first, rest := Sym(if c.AnyOf? then ANY_OF else ALL_OF), [Sym(LPAREN)] + (VarSymbols(c.vars) + [Sym(RPAREN)]);
      assert LeafYield(c) == [first] + rest;
      ReadsOne(ts, p, first, rest);
    } else {
      ReadsUpTo3(ts, p, LeafYield(c));
    }
  }

  lemma OrLoopStep(ts: seq<Token>, left: Condition, p: nat, right: Condition, q: nat)
    requires p < |ts| && ts[p].kind == OR && q <= |ts| && ParseAnd(ts, p + 1) == Ok((right, q))
    ensures OrLoop(ts, left, p) == OrLoop(ts, Or(left, right), q)
  {
  }

  lemma {:induction false} OrParsed(ts: seq<Token>, p: nat, t: OrTree)
    requires Lexed(ts) && OrOk(t) && Reads(ts, p, OrYield(t))
    requires Peek(ts, p + |OrYield(t)|).kind != AND && (OrOpen(t) ==> Peek(ts, p + |OrYield(t)|).kind != IN)
    ensures ParseOr(ts, p) == OrLoop(ts, OrMeaning(t), p + |OrYield(t)|)
    decreases t, 2
  {
    hide Reads, Lexed, AndYield, AndMeaning, AndOpen, ParseAnd, OrLoop;
    match t
    case OneAnd(a) =>
      AndParsedWhole(ts, p, a);
    case OrMore(l, r) =>
      hide ParseOr;
      var k := p + |OrYield(l)|;
      ReadsSplit(ts, p, OrYield(l), [Sym(OR)] + AndYield(r));
      ReadsOne(ts, k, Sym(OR), AndYield(r));
      OrParsed(ts, p, l);
      AndParsedWhole(ts, k + 1, r);
      OrLoopStep(ts, OrMeaning(l), k, AndMeaning(r), k + 1 + |AndYield(r)|);
  }

  lemma {:induction false} AndParsedWhole(ts: seq<Token>, p: nat, t: AndTree)
    requires Lexed(ts) && AndOk(t) && Reads(ts, p, AndYield(t))
    requires Peek(ts, p + |AndYield(t)|).kind != AND && (AndOpen(t) ==> Peek(ts, p + |AndYield(t)|).kind != IN)
    ensures p + |AndYield(t)| <= |ts| && ParseAnd(ts, p) == Ok((AndMeaning(t), p + |AndYield(t)|))
    decreases t, 1
  {
    hide AndOk, AndYield, AndMeaning, AndOpen, ParseAnd, Lexed;
    AndParsed(ts, p, t);
  }

  lemma AndLoopStep(ts: seq<Token>, left: Condition, p: nat, right: Condition, q: nat)
    requires p < |ts| && ts[p].kind == AND && q <= |ts| && ParseNot(ts, p + 1) == Ok((right, q))
    ensures AndLoop(ts, left, p) == AndLoop(ts, And(left, right), q)
  {
  }

  lemma {:induction false} AndParsed(ts: seq<Token>, p: nat, t: AndTree)
    requires Lexed(ts) && AndOk(t) && Reads(ts, p, AndYield(t))
    requires AndOpen(t) ==> Peek(ts, p + |AndYield(t)|).kind != IN
    ensures ParseAnd(ts, p) == AndLoop(ts, AndMeaning(t), p + |AndYield(t)|)
    decreases t, 0
  {
    hide Reads, Lexed, NotYield, NotMeaning, PrimOpen, PrimOk, ParseNot, AndLoop;
    match t
    case OneNot(n) =>
      NotParsed(ts, p, n);
    case AndMore(l, r) =>
      hide ParseAnd;
      var k := p + |AndYield(l)|;
      ReadsSplit(ts, p, AndYield(l), [Sym(AND)] + NotYield(r));
      ReadsOne(ts, k, Sym(AND), NotYield(r));
      AndParsed(ts, p, l);
      NotParsed(ts, k + 1, r);
      AndLoopStep(ts, AndMeaning(l), k, NotMeaning(r), k + 1 + |NotYield(r)|);
  }

  lemma {:induction false} NotParsed(ts: seq<Token>, p: nat, t: NotTree)
    requires Lexed(ts) && PrimOk(t.prim) && Reads(ts, p, NotYield(t))
    requires PrimOpen(t.prim) ==> Peek(ts, p + |NotYield(t)|).kind != IN
    ensures ParseNot(ts, p) == Ok((NotMeaning(t), p + |NotYield(t)|))
    decreases t
  {
    hide Reads, Lexed;
    match t
    case Plain(q) =>
      PrimParsed(ts, p, q);
      PrimStarts(ts, p, q);
    case Negated(q) =>
      ReadsOne(ts, p, Sym(NOT), PrimYield(q));
      PrimParsed(ts, p + 1, q);
  }

  lemma PrimStarts(ts: seq<Token>, p: nat, t: PrimTree)
    requires PrimOk(t) && Reads(ts, p, PrimYield(t))
    ensures p < |ts| && ts[p].kind != NOT
  {
    assert |PrimYield(t)| > 0 && PrimYield(t)[0].kind != NOT;
    assert SymbolOf(ts[p]) == PrimYield(t)[0];
  }

  lemma {:induction false} PrimParsed(ts: seq<Token>, p: nat, t: PrimTree)
    requires Lexed(ts) && PrimOk(t) && Reads(ts, p, PrimYield(t))
    requires PrimOpen(t) ==> Peek(ts, p + |PrimYield(t)|).kind != IN
    ensures ParsePrimary(ts, p) == Ok((PrimMeaning(t), p + |PrimYield(t)|))
    decreases t
  {
    hide Reads, Lexed, LeafYield, OrYield, OrMeaning, ParseOr;
    match t
    case Paren(o) =>
      ReadsOne(ts, p, Sym(LPAREN), OrYield(o) + [Sym(RPAREN)]);
      ReadsSplit(ts, p + 1, OrYield(o), [Sym(RPAREN)]);
      ReadsOne(ts, p + 1 + |OrYield(o)|, Sym(RPAREN), []);
      assert [Sym(RPAREN)] + [] == [Sym(RPAREN)];
      OrParsed(ts, p + 1, o);
    case Leaf(c) =>
      LeafParsed(ts, p, c);
  }

  // ---------------------------------------------------------------- only sentences are parsed

  predicate Derives(ts: seq<Token>, p: nat, t: OrTree, c: Condition, q: nat) {
    OrOk(t) && Reads(ts, p, OrYield(t)) && OrMeaning(t) == c && p + |OrYield(t)| == q
  }

  predicate DerivesAnd(ts: seq<Token>, p: nat, t: AndTree, c: Condition, q: nat) {
    AndOk(t) && Reads(ts, p, AndYield(t)) && AndMeaning(t) == c && p + |AndYield(t)| == q
  }

  predicate DerivesNot(ts: seq<Token>, p: nat, t: NotTree, c: Condition, q: nat) {
    PrimOk(t.prim) && Reads(ts, p, NotYield(t)) && NotMeaning(t) == c && p + |NotYield(t)| == q
  }

  predicate DerivesPrim(ts: seq<Token>, p: nat, t: PrimTree, c: Condition, q: nat) {
    PrimOk(t) && Reads(ts, p, PrimYield(t)) && PrimMeaning(t) == c && p + |PrimYield(t)| == q
  }

  /** The token at `q` does not let the derived condition go on. */
  predicate Stops(ts: seq<Token>, t: OrTree, q: nat) {
    Peek(ts, q).kind !in {OR, AND} && (OrOpen(t) ==> Peek(ts, q).kind != IN)
  }

  predicate StopsAnd(ts: seq<Token>, t: AndTree, q: nat) {
    Peek(ts, q).kind != AND && (AndOpen(t) ==> Peek(ts, q).kind != IN)
  }

  lemma {:induction false} OrDerived(ts: seq<Token>, p: nat) returns (t: OrTree)
    requires Lexed(ts) && p <= |ts| && ParseOr(ts, p).Ok?
    ensures Derives(ts, p, t, ParseOr(ts, p).value.0, ParseOr(ts, p).value.1) && Stops(ts, t, ParseOr(ts, p).value.1)
    decreases |ts| - p, 4
  {
    hide Reads, Lexed;
    var a := AndDerived(ts, p);
    var (left, q) := ParseAnd(ts, p).value;
    t := OrLoopDerived(ts, p, OneAnd(a), left, q);
  }

  lemma {:induction false} OrLoopDerived(ts: seq<Token>, p: nat, t0: OrTree, left: Condition, q: nat) returns (t: OrTree)
    requires Lexed(ts) && p < q <= |ts| && Derives(ts, p, t0, left, q) && OrLoop(ts, left, q).Ok?
    requires Peek(ts, q).kind != AND && (OrOpen(t0) ==> Peek(ts, q).kind != IN)
    ensures Derives(ts, p, t, OrLoop(ts, left, q).value.0, OrLoop(ts, left, q).value.1) && Stops(ts, t, OrLoop(ts, left, q).value.1)
    decreases |ts| - q, 5
  {
    hide Reads, Lexed, ParseAnd, AndYield, AndMeaning;
    if Peek(ts, q).kind != OR {
      t := t0;
    } else {
      var a := AndDerived(ts, q + 1);
      var (right, q') := ParseAnd(ts, q + 1).value;
      ReadsOne(ts, q, Sym(OR), AndYield(a));
      ReadsSplit(ts, p, OrYield(t0), [Sym(OR)] + AndYield(a));
      t := OrLoopDerived(ts, p, OrMore(t0, a), Or(left, right), q');
    }
  }

  lemma {:induction false} AndDerived(ts: seq<Token>, p: nat) returns (t: AndTree)
    requires Lexed(ts) && p <= |ts| && ParseAnd(ts, p).Ok?
    ensures DerivesAnd(ts, p, t, ParseAnd(ts, p).value.0, ParseAnd(ts, p).value.1) && StopsAnd(ts, t, ParseAnd(ts, p).value.1)
    decreases |ts| - p, 2
  {
    hide Reads, Lexed;
    var n := NotDerived(ts, p);
    var (left, q) := ParseNot(ts, p).value;
    t := AndLoopDerived(ts, p, OneNot(n), left, q);
  }

  lemma {:induction false} AndLoopDerived(ts: seq<Token>, p: nat, t0: AndTree, left: Condition, q: nat) returns (t: AndTree)
    requires Lexed(ts) && p < q <= |ts| && DerivesAnd(ts, p, t0, left, q) && AndLoop(ts, left, q).Ok?
    requires AndOpen(t0) ==> Peek(ts, q).kind != IN
    ensures DerivesAnd(ts, p, t, AndLoop(ts, left, q).value.0, AndLoop(ts, left, q).value.1) && StopsAnd(ts, t, AndLoop(ts, left, q).value.1)
    decreases |ts| - q, 3
  {
    hide Reads, Lexed, ParseNot, NotYield, NotMeaning;
    if Peek(ts, q).kind != AND {
      t := t0;
    } else {
      var n := NotDerived(ts, q + 1);
      var (right, q') := ParseNot(ts, q + 1).value;
      ReadsOne(ts, q, Sym(AND), NotYield(n));
      ReadsSplit(ts, p, AndYield(t0), [Sym(AND)] + NotYield(n));
      t := AndLoopDerived(ts, p, AndMore(t0, n), And(left, right), q');
    }
  }

  lemma {:induction false} NotDerived(ts: seq<Token>, p: nat) returns (t: NotTree)
    requires Lexed(ts) && p <= |ts| && ParseNot(ts, p).Ok?
    ensures DerivesNot(ts, p, t, ParseNot(ts, p).value.0, ParseNot(ts, p).value.1)
    ensures PrimOpen(t.prim) ==> Peek(ts, ParseNot(ts, p).value.1).kind != IN
    decreases |ts| - p, 1
  {
    hide Reads, Lexed, ParsePrimary, PrimYield, PrimMeaning;
    if Peek(ts, p).kind != NOT {
      var e := PrimDerived(ts, p);
      t := Plain(e);
    } else {
      var e := PrimDerived(ts, p + 1);
      ReadsOne(ts, p, Sym(NOT), PrimYield(e));
      t := Negated(e);
    }
  }

  lemma {:induction false} PrimDerived(ts: seq<Token>, p: nat) returns (t: PrimTree)
    requires Lexed(ts) && p <= |ts| && ParsePrimary(ts, p).Ok?
    ensures DerivesPrim(ts, p, t, ParsePrimary(ts, p).value.0, ParsePrimary(ts, p).value.1)
    ensures PrimOpen(t) ==> Peek(ts, ParsePrimary(ts, p).value.1).kind != IN
    decreases |ts| - p, 0
  {
    hide Reads, Lexed, ParseOr, OrYield, OrMeaning, LeafYield;
    if Peek(ts, p).kind == LPAREN {
      var o := OrDerived(ts, p + 1);
      var q := ParseOr(ts, p + 1).value.1;
      ReadsNone(ts, q + 1);
      ReadsOne(ts, q, Sym(RPAREN), []);
      assert [Sym(RPAREN)] + [] == [Sym(RPAREN)];
      ReadsSplit(ts, p + 1, OrYield(o), [Sym(RPAREN)]);
      ReadsOne(ts, p, Sym(LPAREN), OrYield(o) + [Sym(RPAREN)]);
      t := Paren(o);
    } else {
      LeafDerived(ts, p);
      t := Leaf(ParsePrimary(ts, p).value.0);
    }
  }

  lemma ReadsNone(ts: seq<Token>, p: nat)
    requires p <= |ts|
    ensures Reads(ts, p, [])
  {
  }

  lemma LeafDerived(ts: seq<Token>, p: nat)
    requires Lexed(ts) && p <= |ts| && Peek(ts, p).kind != LPAREN && ParsePrimary(ts, p).Ok?
    ensures var (c, q) := ParsePrimary(ts, p).value;
            IsLeaf(c) && Reads(ts, p, LeafYield(c)) && q == p + |LeafYield(c)| && (c.Match? ==> Peek(ts, q).kind != IN)
  {
    hide Reads, LeafYield, VarSymbols, ParseOr, Values, VarsEnd;
    var (c, q) := ParsePrimary(ts, p).value;
    if Peek(ts, p).kind == ANY_OF {
      SetDerived(ts, p + 1, true);
    } else if Peek(ts, p).kind == ALL_OF {
      SetDerived(ts, p + 1, false);
    }
    LeafFirst(ts, p, c);
  }

  lemma SetDerived(ts: seq<Token>, p: nat, any: bool)
    requires Lexed(ts) && p <= |ts| && ParseSet(ts, p, any).Ok?
    ensures var (c, q) := ParseSet(ts, p, any).value;
            if Peek(ts, p).kind == THEM then p < |ts| && c == (if any then AnyOfThem else AllOfThem) && q == p + 1
            else
              var vars := Values(ts[p + 1..VarsEnd(ts, p + 1)]);
              c == SetOf(any, vars) && q == p + |vars| + 2 &&
              Reads(ts, p, [Sym(LPAREN)] + (VarSymbols(vars) + [Sym(RPAREN)]))
  {
    hide Reads, Values, VarSymbols, VarsEnd;
    if Peek(ts, p).kind != THEM {
      var b := VarsEnd(ts, p + 1);
      VarsAreVars(ts, p + 1);
      SetReads(ts, p, Values(ts[p + 1..b]), b);
    }
  }

  lemma SetReads(ts: seq<Token>, p: nat, vars: seq<string>, b: nat)
    requires Reads(ts, p + 1, VarSymbols(vars)) && b == p + 1 + |vars|
    requires b < |ts| && ts[p].kind == LPAREN && ts[b].kind == RPAREN
    ensures Reads(ts, p, [Sym(LPAREN)] + (VarSymbols(vars) + [Sym(RPAREN)]))
  {
    hide Reads, VarSymbols;
    ReadsNone(ts, b + 1);
    ReadsOne(ts, b, Sym(RPAREN), []);
    assert [Sym(RPAREN)] + [] == [Sym(RPAREN)];
    ReadsSplit(ts, p + 1, VarSymbols(vars), [Sym(RPAREN)]);
    ReadsOne(ts, p, Sym(LPAREN), VarSymbols(vars) + [Sym(RPAREN)]);
  }

  // ---------------------------------------------------------------- main results

  /**
   On every token list the parser returns a condition and a position if and only if the grammar
   derives the tokens up to there with that meaning, and the next token could not go on: it is no
   `or`, no `and`, and no `in` behind a bare variable.
   */
  lemma AcceptsExactly(ts: seq<Token>, p: nat, c: Condition, q: nat)
    requires Lexed(ts) && p <= |ts|
    ensures ParseOr(ts, p) == Ok((c, q)) <==> exists t :: Derives(ts, p, t, c, q) && Stops(ts, t, q)
  {
    hide ParseOr, OrLoop, OrYield, OrMeaning, OrOk, OrOpen, Reads, Lexed;
    if ParseOr(ts, p) == Ok((c, q)) {
      var t := OrDerived(ts, p);
      assert Derives(ts, p, t, c, q) && Stops(ts, t, q);
    }
    if t :| Derives(ts, p, t, c, q) && Stops(ts, t, q) {
      OrParsed(ts, p, t);
      ReadsFit(ts, p, OrYield(t));
      LoopStops(ts, c, q);
    }
  }

  lemma ReadsFit(ts: seq<Token>, p: nat, y: seq<Symbol>)
    requires Reads(ts, p, y)
    ensures p + |y| <= |ts|
  {
  }

  lemma LoopStops(ts: seq<Token>, c: Condition, q: nat)
    requires q <= |ts| && Peek(ts, q).kind != OR
    ensures OrLoop(ts, c, q) == Ok((c, q))
  {
  }

  /** Cut behind a derived range, the tokens parse to its meaning. */
  lemma CutParsed(ts: seq<Token>, p: nat, t: OrTree, c: Condition, q: nat)
    requires Lexed(ts) && Derives(ts, p, t, c, q)
    ensures p <= q <= |ts| && ParseOr(ts[..q], p) == Ok((c, q))
  {
    hide OrOk, OrYield, OrMeaning, OrOpen, ParseOr;
    ReadsFit(ts, p, OrYield(t));
    var front := ts[..q];
    assert Reads(front, p, OrYield(t)) && Peek(front, q).kind == EOF;
    OrParsed(front, p, t);
  }

  /** A token range denotes at most one condition, however it is derived. */
  lemma UniqueMeaning(ts: seq<Token>, p: nat, t: OrTree, c: Condition, u: OrTree, d: Condition, q: nat)
    requires Lexed(ts) && Derives(ts, p, t, c, q) && Derives(ts, p, u, d, q)
    ensures c == d
  {
    hide Derives, ParseOr;
    CutParsed(ts, p, t, c, q);
    CutParsed(ts, p, u, d, q);
  }

  /** A condition with the parentheses the grammar needs and no others. */
  function PrintOr(c: Condition): (t: OrTree)
    ensures OrOk(t) && OrMeaning(t) == c
    decreases c, 3
  {
    match c
    case Or(l, r) => OrMore(PrintOr(l), PrintAnd(r))
    case _ => OneAnd(PrintAnd(c))
  }

  function PrintAnd(c: Condition): (t: AndTree)
    ensures AndOk(t) && AndMeaning(t) == c
    decreases c, 2
  {
    match c
    case And(l, r) => AndMore(PrintAnd(l), PrintNot(r))
    case _ => OneNot(PrintNot(c))
  }

  function PrintNot(c: Condition): (t: NotTree)
    ensures PrimOk(t.prim) && NotMeaning(t) == c
    decreases c, 1
  {
    match c
    case Not(e) => Negated(PrintPrim(e))
    case _ => Plain(PrintPrim(c))
  }

  function PrintPrim(c: Condition): (t: PrimTree)
    ensures PrimOk(t) && PrimMeaning(t) == c
    decreases c, 0
  {
    match c
    case Or(l, r) => Paren(OrMore(PrintOr(l), PrintAnd(r)))
    case And(l, r) =>
      var a := AndMore(PrintAnd(l), PrintNot(r));
      assert AndMeaning(a) == And(l, r);
      Paren(OneAnd(a))
    case Not(e) =>
      var n := Negated(PrintPrim(e));
      assert AndMeaning(OneNot(n)) == Not(e);
      Paren(OneAnd(OneNot(n)))
    case _ => Leaf(c)
  }

  /** Parsing undoes printing: every condition comes back, and all of its tokens are consumed. */
  lemma PrintedParsed(ts: seq<Token>, p: nat, c: Condition)
    requires Lexed(ts) && Reads(ts, p, OrYield(PrintOr(c)))
    requires Stops(ts, PrintOr(c), p + |OrYield(PrintOr(c))|)
    ensures ParseOr(ts, p) == Ok((c, p + |OrYield(PrintOr(c))|))
  {
    OrParsed(ts, p, PrintOr(c));
  }
}
