/** The micro-assembler's grammar (micro_asm.py): symbols, productions in table order, parse trees. */
module LrGrammar {
  datatype Symbol =
    LBRACE | RPAREN | ROM | SEMI | NEWLINE | LPAREN | RBRACE | COLON | DOT | MACROOP | EXTERN | PARAMS | ID | DEF |
    End | Start | File | OptRomOrMacros | RomOrMacros | RomOrMacro | RomBlock | MacroopDef | Block | Statements |
    Statement | ContentOfStatement | EndOfStatement | Microop | Labels | Label | Directive

  predicate Terminal(s: Symbol) {
    s.LBRACE? || s.RPAREN? || s.ROM? || s.SEMI? || s.NEWLINE? || s.LPAREN? || s.RBRACE? || s.COLON? || s.DOT? ||
    s.MACROOP? || s.EXTERN? || s.PARAMS? || s.ID? || s.DEF? || s.End?
  }

  datatype RawToken = RawToken(kind: Symbol, text: string)

  /** What the lexer delivers: a terminal other than the end marker. */
  type Token = t: RawToken | Terminal(t.kind) && t.kind != End witness RawToken(ID, "")

  const PRODUCTIONS := 31

  function Lhs(p: nat): Symbol
    requires p < PRODUCTIONS
  {
    match p
    case 0 => Start
    case 1 => File
    case 2 => OptRomOrMacros
    case 3 => OptRomOrMacros
    case 4 => RomOrMacros
    case 5 => RomOrMacros
    case 6 => RomOrMacro
    case 7 => RomOrMacro
    case 8 => RomBlock
    case 9 => MacroopDef
    case 10 => MacroopDef
    case 11 => Block
    case 12 => Statements
    case 13 => Statements
    case 14 => Statement
    case 15 => ContentOfStatement
    case 16 => ContentOfStatement
    case 17 => ContentOfStatement
    case 18 => EndOfStatement
    case 19 => EndOfStatement
    case 20 => Microop
    case 21 => Microop
    case 22 => Microop
    case 23 => Microop
    case 24 => Labels
    case 25 => Labels
    case 26 => Labels
    case 27 => Label
    case 28 => Label
    case 29 => Directive
    case _ => Directive
  }

  function Rhs(p: nat): seq<Symbol>
    requires p < PRODUCTIONS
  {
    match p
    case 0 => [File]
    case 1 => [OptRomOrMacros]
    case 2 => []
    case 3 => [RomOrMacros]
    case 4 => [RomOrMacro]
    case 5 => [RomOrMacros, RomOrMacro]
    case 6 => [RomBlock]
    case 7 => [MacroopDef]
    case 8 => [DEF, ROM, Block, SEMI]
    case 9 => [DEF, MACROOP, ID, LPAREN, ID, RPAREN, SEMI]
    case 10 => [DEF, MACROOP, ID, Block, SEMI]
    case 11 => [LBRACE, Statements, RBRACE]
    case 12 => [Statement]
    case 13 => [Statements, Statement]
    case 14 => [ContentOfStatement, EndOfStatement]
    case 15 => [Microop]
    case 16 => [Directive]
    case 17 => []
    case 18 => [NEWLINE]
    case 19 => [SEMI]
    case 20 => [Labels, ID]
    case 21 => [ID]
    case 22 => [Labels, ID, PARAMS]
    case 23 => [ID, PARAMS]
    case 24 => [Label]
    case 25 => [Labels, Label]
    case 26 => [Labels, NEWLINE]
    case 27 => [ID, COLON]
    case 28 => [EXTERN, ID, COLON]
    case 29 => [DOT, ID]
    case _ => [DOT, ID, PARAMS]
  }

  datatype Tree = Leaf(token: Token) | Node(prod: nat, kids: seq<Tree>)

  function Root(t: Tree): Symbol {
    match t
    case Leaf(token) => token.kind
    case Node(p, _) => if p < PRODUCTIONS then Lhs(p) else Start
  }

  /** t is a derivation by the listed productions; production 0 only marks the start symbol. */
  ghost predicate Valid(t: Tree) {
    match t
    case Leaf(_) => true
    case Node(p, kids) =>
      1 <= p < PRODUCTIONS && Matches(kids, Rhs(p)) && forall i :: 0 <= i < |kids| ==> Valid(kids[i])
  }

  ghost predicate AllValid(ts: seq<Tree>) {
    forall i :: 0 <= i < |ts| ==> Valid(ts[i])
  }

  ghost predicate Matches(ts: seq<Tree>, symbols: seq<Symbol>) {
    |ts| == |symbols| && forall i :: 0 <= i < |ts| ==> Root(ts[i]) == symbols[i]
  }

  /** The tokens at the leaves, left to right. */
  function Yield(t: Tree): seq<Token> {
    match t
    case Leaf(token) => [token]
    case Node(_, kids) => YieldAll(kids)
  }

  function YieldAll(ts: seq<Tree>): seq<Token> {
    if ts == [] then [] else YieldAll(ts[..|ts| - 1]) + Yield(ts[|ts| - 1])
  }

  lemma {:induction false} YieldConcat(a: seq<Tree>, b: seq<Tree>)
    ensures YieldAll(a + b) == YieldAll(a) + YieldAll(b)
  {
    if b == [] {
      assert a + b == a;
    } else {
      assert (a + b)[..|a + b| - 1] == a + b[..|b| - 1];
      YieldConcat(a, b[..|b| - 1]);
    }
  }

  /** The tokens of a parse: the input is a file of the grammar with this derivation. */
  ghost predicate Derives(t: Tree, input: seq<Token>) {
    Valid(t) && Root(t) == File && Yield(t) == input
  }
}
