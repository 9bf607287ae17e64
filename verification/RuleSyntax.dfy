/** Tokens and condition trees of the `.shield` rule language. */
module RuleSyntax {

  datatype Kind =
    | RULE | IDENTIFIER | COLON | LBRACE | RBRACE | LPAREN | RPAREN
    | EQUALS | DOLLAR_ID | STRING | REGEX | NUMBER | META | TARGET
    | STRINGS | CONDITION | AND | OR | NOT | IN | ANY_OF | ALL_OF
    | THEM | TRUE | FALSE | EOF

  datatype Token = Token(kind: Kind, value: string, line: nat, flags: string)

  datatype Condition =
    | And(left: Condition, right: Condition)
    | Or(left: Condition, right: Condition)
    | Not(expr: Condition)
    | Match(pattern: string)
    | MatchIn(pattern: string, target: string)
    | AnyOfThem
    | AllOfThem
    | AnyOf(vars: seq<string>)
    | AllOf(vars: seq<string>)
    | Boolean(value: bool)
}
