/** The textbook shift-reduce driver over the micro-assembler's tables: every reduction finds its
    right-hand side and a goto, every run ends, and what is accepted is a file of the grammar. */
module LrDriver {
  import opened Common
  import opened LrGrammar
  import opened LrTables

  // ---- the automaton ----

  /** Where a state goes on a symbol: a shift on a terminal, a goto on a nonterminal. */
  function Trans(q: nat, s: Symbol): Option<nat> {
    if !Terminal(s) then Goto(q, s)
    else match Action(q, s) case None => None case Some(a) => if a > 0 then Some(a) else None
  }

  /** The one symbol that leads into each state. */
  function Entry(q: nat): Symbol {
    match q
    case 1 => MacroopDef
    case 2 => RomOrMacros
    case 3 => RomBlock
    case 4 => File
    case 5 => OptRomOrMacros
    case 6 => DEF
    case 7 => RomOrMacro
    case 8 => RomOrMacro
    case 9 => ROM
    case 10 => MACROOP
    case 11 => LBRACE
    case 12 => Block
    case 13 => ID
    case 14 => Statements
    case 15 => Directive
    case 16 => Labels
    case 17 => Label
    case 18 => Microop
    case 19 => Statement
    case 20 => EXTERN
    case 21 => ContentOfStatement
    case 22 => ID
    case 23 => DOT
    case 24 => SEMI
    case 25 => Block
    case 26 => LPAREN
    case 27 => RBRACE
    case 28 => Statement
    case 29 => NEWLINE
    case 30 => Label
    case 31 => ID
    case 32 => ID
    case 33 => NEWLINE
    case 34 => SEMI
    case 35 => EndOfStatement
    case 36 => COLON
    case 37 => PARAMS
    case 38 => ID
    case 39 => SEMI
    case 40 => ID
    case 41 => PARAMS
    case 42 => COLON
    case 43 => PARAMS
    case 44 => RPAREN
    case 45 => SEMI
    case _ => Start
  }

  /** The states each state is entered from. */
  function Preds(q: nat): set<nat> {
    match q
    case 1 => {0, 2}
    case 2 => {0}
    case 3 => {0, 2}
    case 4 => {0}
    case 5 => {0}
    case 6 => {0, 2}
    case 7 => {0}
    case 8 => {2}
    case 9 => {6}
    case 10 => {6}
    case 11 => {9, 13}
    case 12 => {9}
    case 13 => {10}
    case 14 => {11}
    case 15 => {11, 14}
    case 16 => {11, 14}
    case 17 => {11, 14}
    case 18 => {11, 14}
    case 19 => {11}
    case 20 => {11, 14, 16}
    case 21 => {11, 14}
    case 22 => {11, 14}
    case 23 => {11, 14}
    case 24 => {12}
    case 25 => {13}
    case 26 => {13}
    case 27 => {14}
    case 28 => {14}
    case 29 => {16}
    case 30 => {16}
    case 31 => {16}
    case 32 => {20}
    case 33 => {21}
    case 34 => {21}
    case 35 => {21}
    case 36 => {22, 31}
    case 37 => {22}
    case 38 => {23}
    case 39 => {25}
    case 40 => {26}
    case 41 => {31}
    case 42 => {32}
    case 43 => {38}
    case 44 => {40}
    case 45 => {44}
    case _ => {}
  }

  lemma EnteredByShift(q: nat, s: Symbol, r: nat)
    requires Terminal(s) && Action(q, s) == Some(r) && r > 0
    ensures s == Entry(r) && q in Preds(r)
  {
    match s
    case SEMI =>
    case NEWLINE =>
    case EXTERN =>
    case ID =>
    case _ =>
  }

  lemma EnteredByGoto(q: nat, s: Symbol, r: nat)
    requires Goto(q, s) == Some(r)
    ensures s == Entry(r) && q in Preds(r) && r != 0
  {
  }

  lemma Entered(q: nat, s: Symbol, r: nat)
    requires Trans(q, s) == Some(r)
    ensures s == Entry(r) && q in Preds(r) && r != 0
  {
    if Terminal(s) {
      EnteredByShift(q, s, r);
    } else {
      EnteredByGoto(q, s, r);
    }
  }

  /** The one production each state reduces by, 0 for none. */
  function Reduces(q: nat): nat {
    match q
    case 0 => 2
    case 1 => 7
    case 2 => 3
    case 3 => 6
    case 5 => 1
    case 7 => 4
    case 8 => 5
    case 11 => 17
    case 14 => 17
    case 15 => 16
    case 17 => 24
    case 18 => 15
    case 19 => 12
    case 22 => 21
    case 24 => 8
    case 27 => 11
    case 28 => 13
    case 29 => 26
    case 30 => 25
    case 31 => 20
    case 33 => 18
    case 34 => 19
    case 35 => 14
    case 36 => 27
    case 37 => 23
    case 38 => 29
    case 39 => 10
    case 41 => 22
    case 42 => 28
    case 43 => 30
    case 45 => 9
    case _ => 0
  }

  lemma ReducesBy(q: nat, s: Symbol, a: int)
    requires Action(q, s) == Some(a) && a < 0
    ensures Reduces(q) == -a
  {
    match s
    case SEMI =>
    case NEWLINE =>
    case EXTERN =>
    case ID =>
    case DEF =>
    case End =>
    case _ =>
  }

  // ---- stacks ----

  ghost predicate Edge(states: seq<nat>, symbols: seq<Symbol>, i: nat)
    requires |states| == |symbols| + 1 && i < |symbols|
  {
    Trans(states[i], symbols[i]) == Some(states[i + 1])
  }

  /** The states on the stack are a path of the automaton from state 0, along the symbols between them. */
  ghost predicate Path(states: seq<nat>, symbols: seq<Symbol>) {
    |states| == |symbols| + 1 && states[0] == 0 &&
    forall i {:trigger Edge(states, symbols, i)} :: 0 <= i < |symbols| ==> Edge(states, symbols, i)
  }

  lemma Below(states: seq<nat>, symbols: seq<Symbol>, k: nat)
    requires Path(states, symbols) && k <= |symbols| && states[k] != 0
    ensures k > 0 && symbols[k - 1] == Entry(states[k]) && states[k - 1] in Preds(states[k])
  {
    assert Edge(states, symbols, k - 1);
    Entered(states[k - 1], symbols[k - 1], states[k]);
  }

  /** The top of the stack is the right-hand side of p, over a state with a goto on its left-hand side. */
  ghost predicate Fits(states: seq<nat>, symbols: seq<Symbol>, p: nat)
    requires |states| == |symbols| + 1 && p < PRODUCTIONS
  {
    |Rhs(p)| <= |symbols| && symbols[|symbols| - |Rhs(p)|..] == Rhs(p) &&
    Goto(states[|symbols| - |Rhs(p)|], Lhs(p)).Some?
  }

  lemma UnitBack(q: nat, a: nat)
    requires q in {1, 2, 3, 5, 7, 15, 17, 18, 19, 22, 33, 34} && a in Preds(q)
    ensures Rhs(Reduces(q)) == [Entry(q)] && Goto(a, Lhs(Reduces(q))).Some?
  {
  }

  lemma PairBackDefs(q: nat, a: nat, b: nat)
    requires q in {8, 28, 29, 30} && a in Preds(q) && b in Preds(a)
    ensures Rhs(Reduces(q)) == [Entry(a), Entry(q)] && Goto(b, Lhs(Reduces(q))).Some? && a != 0
  {
  }

  lemma PairBackMicroops(q: nat, a: nat, b: nat)
    requires q in {31, 35, 36, 37, 38} && a in Preds(q) && b in Preds(a)
    ensures Rhs(Reduces(q)) == [Entry(a), Entry(q)] && Goto(b, Lhs(Reduces(q))).Some? && a != 0
  {
  }

  lemma PairBack(q: nat, a: nat, b: nat)
    requires q in {8, 28, 29, 30, 31, 35, 36, 37, 38} && a in Preds(q) && b in Preds(a)
    ensures Rhs(Reduces(q)) == [Entry(a), Entry(q)] && Goto(b, Lhs(Reduces(q))).Some? && a != 0
  {
    if q < 31 {
      PairBackDefs(q, a, b);
    } else {
      PairBackMicroops(q, a, b);
    }
  }

  lemma TripleBackMicroop(a: nat, b: nat, c: nat)
    requires a in Preds(41) && b in Preds(a) && c in Preds(b)
    ensures Rhs(Reduces(41)) == [Entry(b), Entry(a), Entry(41)] && Goto(c, Lhs(Reduces(41))).Some? && a != 0 && b != 0
  {
  }

  lemma TripleBack(q: nat, a: nat, b: nat, c: nat)
    requires q in {27, 41, 42, 43} && a in Preds(q) && b in Preds(a) && c in Preds(b)
    ensures Rhs(Reduces(q)) == [Entry(b), Entry(a), Entry(q)] && Goto(c, Lhs(Reduces(q))).Some? && a != 0 && b != 0
  {
    if q == 41 {
      TripleBackMicroop(a, b, c);
    }
  }

  lemma RomBlockBack(q: nat, a: nat, b: nat, c: nat, d: nat)
    requires q == 24 && a in Preds(q) && b in Preds(a) && c in Preds(b) && d in Preds(c)
    ensures Rhs(Reduces(q)) == [Entry(c), Entry(b), Entry(a), Entry(q)] && Goto(d, Lhs(Reduces(q))).Some? && a != 0 &&
            b != 0 && c != 0
  {
  }

  lemma MacroopBack(q: nat, a: nat, b: nat, c: nat, d: nat, e: nat)
    requires q == 39 && a in Preds(q) && b in Preds(a) && c in Preds(b) && d in Preds(c) && e in Preds(d)
    ensures Rhs(Reduces(q)) == [Entry(d), Entry(c), Entry(b), Entry(a), Entry(q)] && Goto(e, Lhs(Reduces(q))).Some? &&
            a != 0 && b != 0 && c != 0 && d != 0
  {
  }

  lemma RomMacroopBack(q: nat, a: nat, b: nat, c: nat, d: nat, e: nat, f: nat, g: nat)
    requires q == 45 && a in Preds(q) && b in Preds(a) && c in Preds(b) && d in Preds(c) && e in Preds(d) &&
            f in Preds(e) && g in Preds(f)
    ensures Rhs(Reduces(q)) == [Entry(f), Entry(e), Entry(d), Entry(c), Entry(b), Entry(a), Entry(q)] &&
            Goto(g, Lhs(Reduces(q))).Some? && a != 0 && b != 0 && c != 0 && d != 0 && e != 0 && f != 0
  {
  }

  lemma FitsUnit(states: seq<nat>, symbols: seq<Symbol>, n: nat)
    requires Path(states, symbols) && n == |symbols| && states[n] in {1, 2, 3, 5, 7, 15, 17, 18, 19, 22, 33, 34}
    ensures Fits(states, symbols, Reduces(states[n]))
  {
    Below(states, symbols, n);
    UnitBack(states[n], states[n - 1]);
    assert symbols[n - 1..] == [symbols[n - 1]];
  }

  lemma FitsPair(states: seq<nat>, symbols: seq<Symbol>, n: nat)
    requires Path(states, symbols) && n == |symbols| && states[n] in {8, 28, 29, 30, 31, 35, 36, 37, 38}
    ensures Fits(states, symbols, Reduces(states[n]))
  {
    Below(states, symbols, n);
    Below(states, symbols, n - 1);
    PairBack(states[n], states[n - 1], states[n - 2]);
    assert symbols[n - 2..] == [symbols[n - 2], symbols[n - 1]];
  }

  lemma FitsTriple(states: seq<nat>, symbols: seq<Symbol>, n: nat)
    requires Path(states, symbols) && n == |symbols| && states[n] in {27, 41, 42, 43}
    ensures Fits(states, symbols, Reduces(states[n]))
  {
    Below(states, symbols, n);
    Below(states, symbols, n - 1);
    Below(states, symbols, n - 2);
    TripleBack(states[n], states[n - 1], states[n - 2], states[n - 3]);
    assert symbols[n - 3..] == [symbols[n - 3], symbols[n - 2], symbols[n - 1]];
  }

  lemma FitsRomBlock(states: seq<nat>, symbols: seq<Symbol>, n: nat)
    requires Path(states, symbols) && n == |symbols| && states[n] == 24
    ensures Fits(states, symbols, Reduces(states[n]))
  {
    Below(states, symbols, n);
    Below(states, symbols, n - 1);
    Below(states, symbols, n - 2);
    Below(states, symbols, n - 3);
    RomBlockBack(states[n], states[n - 1], states[n - 2], states[n - 3], states[n - 4]);
    assert symbols[n - 4..] == [symbols[n - 4], symbols[n - 3], symbols[n - 2], symbols[n - 1]];
  }

  lemma FitsMacroop(states: seq<nat>, symbols: seq<Symbol>, n: nat)
    requires Path(states, symbols) && n == |symbols| && states[n] == 39
    ensures Fits(states, symbols, Reduces(states[n]))
  {
    Below(states, symbols, n);
    Below(states, symbols, n - 1);
    Below(states, symbols, n - 2);
    Below(states, symbols, n - 3);
    Below(states, symbols, n - 4);
    MacroopBack(states[n], states[n - 1], states[n - 2], states[n - 3], states[n - 4], states[n - 5]);
    assert symbols[n - 5..] == [symbols[n - 5], symbols[n - 4], symbols[n - 3], symbols[n - 2], symbols[n - 1]];
  }

  lemma FitsRomMacroop(states: seq<nat>, symbols: seq<Symbol>, n: nat)
    requires Path(states, symbols) && n == |symbols| && states[n] == 45
    ensures Fits(states, symbols, Reduces(states[n]))
  {
    Below(states, symbols, n);
    Below(states, symbols, n - 1);
    Below(states, symbols, n - 2);
    Below(states, symbols, n - 3);
    Below(states, symbols, n - 4);
    Below(states, symbols, n - 5);
    Below(states, symbols, n - 6);
    RomMacroopBack(states[n], states[n - 1], states[n - 2], states[n - 3], states[n - 4], states[n - 5], states[n - 6],
                   states[n - 7]);
    assert symbols[n - 7..] == [symbols[n - 7], symbols[n - 6], symbols[n - 5], symbols[n - 4], symbols[n - 3],
                                symbols[n - 2], symbols[n - 1]];
  }

  lemma ReducerFits(states: seq<nat>, symbols: seq<Symbol>)
    requires Path(states, symbols) && Reduces(states[|symbols|]) != 0
    ensures Fits(states, symbols, Reduces(states[|symbols|]))
  {
    match |Rhs(Reduces(states[|symbols|]))|
    case 0 =>
    case 1 => FitsUnit(states, symbols, |symbols|);
    case 2 => FitsPair(states, symbols, |symbols|);
    case 3 => FitsTriple(states, symbols, |symbols|);
    case 4 => FitsRomBlock(states, symbols, |symbols|);
    case 5 => FitsMacroop(states, symbols, |symbols|);
    case _ => FitsRomMacroop(states, symbols, |symbols|);
  }

  /** Every reduction finds its production's right-hand side on the stack and a goto beneath it. */
  lemma ReductionFits(states: seq<nat>, symbols: seq<Symbol>, s: Symbol, a: int)
    requires Path(states, symbols) && Action(states[|symbols|], s) == Some(a) && a < 0
    ensures -a < PRODUCTIONS && Fits(states, symbols, -a)
  {
    ReducesBy(states[|symbols|], s, a);
    ReducerFits(states, symbols);
  }

  // ---- the driver ----

  datatype Config = Config(states: seq<nat>, trees: seq<Tree>, input: seq<Token>)

  datatype Outcome = Running(next: Config) | Accepted(tree: Tree) | Rejected

  function Ahead(input: seq<Token>): Symbol {
    if input == [] then End else input[0].kind
  }

  function Roots(trees: seq<Tree>): seq<Symbol> {
    seq(|trees|, i requires 0 <= i < |trees| => Root(trees[i]))
  }

  ghost predicate Inv(c: Config) {
    Path(c.states, Roots(c.trees)) && AllValid(c.trees)
  }

  function Init(input: seq<Token>): Config {
    Config([0], [], input)
  }

  function Shift(c: Config, q: nat): Config
    requires c.input != []
  {
    Config(c.states + [q], c.trees + [Leaf(c.input[0])], c.input[1..])
  }

  function Base(c: Config, p: nat): nat
    requires p < PRODUCTIONS && |Rhs(p)| <= |c.trees|
  {
    |c.trees| - |Rhs(p)|
  }

  function Reduce(c: Config, p: nat): Config
    requires |c.states| == |c.trees| + 1
    requires p < PRODUCTIONS && |Rhs(p)| <= |c.trees| && Goto(c.states[Base(c, p)], Lhs(p)).Some?
  {
    Config(c.states[..Base(c, p) + 1] + [Goto(c.states[Base(c, p)], Lhs(p)).value],
           c.trees[..Base(c, p)] + [Node(p, c.trees[Base(c, p)..])], c.input)
  }

  /** The action the tables give for the top state and the token ahead. */
  function Next(c: Config): Option<int>
    requires Inv(c)
  {
    Action(c.states[|c.trees|], Ahead(c.input))
  }

  lemma NextOk(c: Config)
    requires Inv(c) && Next(c).Some?
    ensures Next(c).value > 0 ==> c.input != []
    ensures Next(c).value == 0 ==> |c.trees| == 1 && c.input == [] && Root(c.trees[0]) == File
    ensures Next(c).value < 0 ==> -Next(c).value < PRODUCTIONS && Fits(c.states, Roots(c.trees), -Next(c).value)
  {
    var q := c.states[|c.trees|];
    if Next(c).value < 0 {
      ReductionFits(c.states, Roots(c.trees), Ahead(c.input), Next(c).value);
    } else if Next(c).value == 0 {
      AcceptsAtEnd(q, Ahead(c.input));
      Below(c.states, Roots(c.trees), |c.trees|);
      AtBottom(c.states, Roots(c.trees), |c.trees| - 1);
    } else {
      NoShiftAtEnd(q);
    }
  }

  lemma AcceptsAtEnd(q: nat, s: Symbol)
    requires Action(q, s) == Some(0)
    ensures q == 4 && s == End && Preds(4) == {0} && Entry(4) == File
  {
  }

  lemma NoShiftAtEnd(q: nat)
    ensures Action(q, End).Some? ==> Action(q, End).value <= 0
  {
  }

  lemma AtBottom(states: seq<nat>, symbols: seq<Symbol>, k: nat)
    requires Path(states, symbols) && k <= |symbols| && states[k] == 0
    ensures k == 0
  {
    if k > 0 {
      assert Edge(states, symbols, k - 1);
      Entered(states[k - 1], symbols[k - 1], states[k]);
    }
  }

  /** The stack has what action a needs. */
  ghost predicate Ready(c: Config, a: int) {
    |c.states| == |c.trees| + 1 && (a > 0 ==> c.input != []) && (a == 0 ==> |c.trees| == 1) &&
    (a < 0 ==>
      -a < PRODUCTIONS && |Rhs(-a)| <= |c.trees| && Goto(c.states[Base(c, -a)], Lhs(-a)).Some?)
  }

  function Act(c: Config, a: int): Outcome
    requires Ready(c, a)
  {
    if a > 0 then Running(Shift(c, a))
    else if a == 0 then Accepted(c.trees[0])
    else Running(Reduce(c, -a))
  }

  function Step(c: Config): Outcome
    requires Inv(c)
  {
    if Next(c).None? then Rejected
    else
      NextOk(c);
      Act(c, Next(c).value)
  }

  // ---- what every step keeps ----

  lemma PathPush(states: seq<nat>, symbols: seq<Symbol>, s: Symbol, r: nat)
    requires Path(states, symbols) && Trans(states[|symbols|], s) == Some(r)
    ensures Path(states + [r], symbols + [s])
  {
    var states', symbols' := states + [r], symbols + [s];
    forall i: nat | i < |symbols'| ensures Edge(states', symbols', i) {
      assert i < |symbols| ==> Edge(states, symbols, i);
    }
  }

  lemma PathPop(states: seq<nat>, symbols: seq<Symbol>, m: nat)
    requires Path(states, symbols) && m <= |symbols|
    ensures Path(states[..m + 1], symbols[..m])
  {
    var states', symbols' := states[..m + 1], symbols[..m];
    forall i: nat | i < m ensures Edge(states', symbols', i) {
      assert Edge(states, symbols, i);
    }
  }

  lemma RootsSplit(ts: seq<Tree>, m: nat, node: Tree)
    requires m <= |ts|
    ensures Roots(ts[..m]) == Roots(ts)[..m] && Roots(ts[m..]) == Roots(ts)[m..]
    ensures Roots(ts[..m] + [node]) == Roots(ts[..m]) + [Root(node)]
  {
  }

  lemma ReducePath(c: Config, p: nat)
    requires Inv(c) && 1 <= p < PRODUCTIONS && Fits(c.states, Roots(c.trees), p)
    ensures Path(Reduce(c, p).states, Roots(Reduce(c, p).trees))
  {
    var m := Base(c, p);
    PathPop(c.states, Roots(c.trees), m);
    RootsSplit(c.trees, m, Node(p, c.trees[m..]));
    ProductionsDefine(p);
    PathPush(c.states[..m + 1], Roots(c.trees[..m]), Lhs(p), Goto(c.states[m], Lhs(p)).value);
  }

  lemma NodeValid(p: nat, kids: seq<Tree>)
    requires 1 <= p < PRODUCTIONS && AllValid(kids) && Roots(kids) == Rhs(p)
    ensures Valid(Node(p, kids))
  {
    assert forall i :: 0 <= i < |kids| ==> Root(kids[i]) == Roots(kids)[i];
  }

  lemma ReduceValid(c: Config, p: nat)
    requires Inv(c) && 1 <= p < PRODUCTIONS && Fits(c.states, Roots(c.trees), p)
    ensures AllValid(Reduce(c, p).trees)
  {
    var m := Base(c, p);
    RootsSplit(c.trees, m, Node(p, c.trees[m..]));
    NodeValid(p, c.trees[m..]);
  }

  lemma ReduceYield(c: Config, p: nat)
    requires Inv(c) && 1 <= p < PRODUCTIONS && Fits(c.states, Roots(c.trees), p)
    ensures YieldAll(Reduce(c, p).trees) == YieldAll(c.trees)
  {
    var m := Base(c, p);
    var node := Node(p, c.trees[m..]);
    YieldConcat(c.trees[..m], c.trees[m..]);
    assert c.trees[..m] + c.trees[m..] == c.trees;
    assert (c.trees[..m] + [node])[..m] == c.trees[..m];
  }

  lemma ShiftKeeps(c: Config)
    requires Inv(c) && Next(c).Some? && Next(c).value > 0 && c.input != []
    ensures Inv(Shift(c, Next(c).value))
    ensures YieldAll(Shift(c, Next(c).value).trees) + c.input[1..] == YieldAll(c.trees) + c.input
  {
    var leaf := Leaf(c.input[0]);
    PathPush(c.states, Roots(c.trees), Root(leaf), Next(c).value);
    assert Roots(c.trees + [leaf]) == Roots(c.trees) + [Root(leaf)];
    assert (c.trees + [leaf])[..|c.trees|] == c.trees;
    assert c.input == [c.input[0]] + c.input[1..];
  }

  lemma ReduceKeeps(c: Config, p: nat)
    requires Inv(c) && 1 <= p < PRODUCTIONS && Fits(c.states, Roots(c.trees), p)
    ensures Inv(Reduce(c, p)) && YieldAll(Reduce(c, p).trees) == YieldAll(c.trees)
  {
    ReducePath(c, p);
    ReduceValid(c, p);
    ReduceYield(c, p);
  }

  lemma ProductionsDefine(p: nat)
    requires p < PRODUCTIONS
    ensures !Terminal(Lhs(p))
  {
  }

  lemma StepKeeps(c: Config)
    requires Inv(c) && Step(c).Running?
    ensures Inv(Step(c).next)
    ensures YieldAll(Step(c).next.trees) + Step(c).next.input == YieldAll(c.trees) + c.input
  {
    NextOk(c);
    if Next(c).value > 0 {
      ShiftKeeps(c);
    } else {
      ReduceKeeps(c, -Next(c).value);
    }
  }

  // ---- every run ends ----

  function Weight(s: Symbol): nat {
    match s
    case File => 0
    case Statements => 0
    case Block => 1
    case OptRomOrMacros => 1
    case Labels => 1
    case ContentOfStatement => 2
    case RomOrMacros => 2
    case Label => 2
    case RomOrMacro => 3
    case Microop => 3
    case Directive => 3
    case RomBlock => 4
    case MacroopDef => 4
    case Statement => 4
    case EndOfStatement => 5
    case _ => 6
  }

  /** Room for the empty productions: the states that may reduce by one. */
  function Slack(q: nat): nat {
    if q == 0 || q == 11 || q == 14 then 3 else 0
  }

  function Weigh(trees: seq<Tree>): nat {
    if trees == [] then 0 else Weigh(trees[..|trees| - 1]) + Weight(Root(trees[|trees| - 1]))
  }

  function Measure(c: Config): nat
    requires |c.states| == |c.trees| + 1
  {
    10 * |c.input| + Weigh(c.trees) + Slack(c.states[|c.trees|])
  }

  lemma {:induction false} WeighConcat(a: seq<Tree>, b: seq<Tree>)
    ensures Weigh(a + b) == Weigh(a) + Weigh(b)
  {
    if b == [] {
      assert a + b == a;
    } else {
      assert (a + b)[..|a + b| - 1] == a + b[..|b| - 1];
      WeighConcat(a, b[..|b| - 1]);
    }
  }

  lemma WeighPush(trees: seq<Tree>, t: Tree)
    ensures Weigh(trees + [t]) == Weigh(trees) + Weight(Root(t))
  {
    assert (trees + [t])[..|trees|] == trees;
  }

  /** A production is lighter than its last symbol, or than the slack of a state that reduces by it. */
  lemma Lighter(p: nat)
    requires 1 <= p < PRODUCTIONS
    ensures |Rhs(p)| > 0 ==>
        Weight(Rhs(p)[|Rhs(p)| - 1]) > Weight(Lhs(p)) + if Lhs(p) == Statements then 3 else 0
    ensures |Rhs(p)| == 0 ==> Weight(Lhs(p)) < 3 && Lhs(p) != Statements && (p == 2 || p == 17)
  {
  }

  lemma SlackAfter(q: nat, s: Symbol)
    requires Goto(q, s).Some?
    ensures Slack(Goto(q, s).value) == if s == Statements then 3 else 0
  {
  }

  lemma EmptyNeedsSlack(q: nat)
    requires Reduces(q) == 2 || Reduces(q) == 17
    ensures Slack(q) == 3
  {
  }

  lemma NodeLighter(p: nat, q: nat, base: nat, weight: nat)
    requires 1 <= p < PRODUCTIONS && Reduces(q) == p && Goto(base, Lhs(p)).Some?
    requires |Rhs(p)| > 0 ==> weight >= Weight(Rhs(p)[|Rhs(p)| - 1])
    ensures Weight(Lhs(p)) + Slack(Goto(base, Lhs(p)).value) < weight + Slack(q)
  {
    SlackAfter(base, Lhs(p));
    Lighter(p);
    if |Rhs(p)| == 0 {
      EmptyNeedsSlack(q);
    }
  }

  lemma WeighLast(trees: seq<Tree>, symbols: seq<Symbol>)
    requires Roots(trees) == symbols && |symbols| > 0
    ensures Weigh(trees) >= Weight(symbols[|symbols| - 1])
  {
    assert Root(trees[|trees| - 1]) == Roots(trees)[|trees| - 1];
  }

  lemma WeighReduce(c: Config, p: nat)
    requires |c.states| == |c.trees| + 1
    requires p < PRODUCTIONS && |Rhs(p)| <= |c.trees| && Goto(c.states[Base(c, p)], Lhs(p)).Some?
    ensures Weigh(Reduce(c, p).trees) + Weigh(c.trees[Base(c, p)..]) == Weigh(c.trees) + Weight(Lhs(p))
  {
    var m := Base(c, p);
    WeighConcat(c.trees[..m], c.trees[m..]);
    assert c.trees[..m] + c.trees[m..] == c.trees;
    WeighPush(c.trees[..m], Node(p, c.trees[m..]));
  }

  lemma WeighTop(states: seq<nat>, trees: seq<Tree>, p: nat)
    requires |states| == |trees| + 1 && p < PRODUCTIONS && Fits(states, Roots(trees), p) && |Rhs(p)| > 0
    ensures Weigh(trees[|trees| - |Rhs(p)|..]) >= Weight(Rhs(p)[|Rhs(p)| - 1])
  {
    var last := trees[|trees| - |Rhs(p)|..];
    assert Roots(last) == Roots(trees)[|trees| - |Rhs(p)|..];
    WeighLast(last, Rhs(p));
  }

  lemma ReduceLightens(c: Config, p: nat)
    requires Inv(c) && 1 <= p < PRODUCTIONS && Fits(c.states, Roots(c.trees), p) && Reduces(c.states[|c.trees|]) == p
    ensures Measure(Reduce(c, p)) < Measure(c)
  {
    var m := Base(c, p);
    WeighReduce(c, p);
    if |Rhs(p)| > 0 {
      WeighTop(c.states, c.trees, p);
    }
    NodeLighter(p, c.states[|c.trees|], c.states[m], Weigh(c.trees[m..]));
  }

  lemma StepDescends(c: Config)
    requires Inv(c) && Step(c).Running?
    ensures Inv(Step(c).next) && Measure(Step(c).next) < Measure(c)
  {
    StepKeeps(c);
    NextOk(c);
    if Next(c).value > 0 {
      WeighPush(c.trees, Leaf(c.input[0]));
    } else {
      ReducesBy(c.states[|c.trees|], Ahead(c.input), Next(c).value);
      ReduceLightens(c, -Next(c).value);
    }
  }

  /** A whole run, which always ends in acceptance or rejection. */
  function Run(c: Config): (o: Outcome)
    requires Inv(c)
    ensures !o.Running?
    decreases Measure(c)
  {
    match Step(c)
    case Running(next) =>
      StepDescends(c);
      Run(next)
    case Accepted(t) => Accepted(t)
    case Rejected => Rejected
  }

  /** The number of steps of a run. */
  function Steps(c: Config): nat
    requires Inv(c)
    decreases Measure(c)
  {
    match Step(c)
    case Running(next) =>
      StepDescends(c);
      1 + Steps(next)
    case _ => 1
  }

  lemma InitInv(input: seq<Token>)
    ensures Inv(Init(input)) && Measure(Init(input)) == 10 * |input| + 3
  {
  }

  lemma {:induction false} StepsBounded(c: Config)
    requires Inv(c)
    ensures Steps(c) <= Measure(c) + 1
    decreases Measure(c)
  {
    if Step(c).Running? {
      StepDescends(c);
      StepsBounded(Step(c).next);
    }
  }

  /** A run takes a number of steps linear in the input, so only finitely many reductions separate shifts. */
  lemma RunIsLinear(input: seq<Token>)
    ensures Inv(Init(input)) && Steps(Init(input)) <= 10 * |input| + 4
  {
    InitInv(input);
    StepsBounded(Init(input));
  }

  // ---- soundness ----

  lemma {:induction false} RunSound(c: Config)
    requires Inv(c) && Run(c).Accepted?
    ensures Derives(Run(c).tree, YieldAll(c.trees) + c.input)
    decreases Measure(c)
  {
    if Step(c).Running? {
      StepDescends(c);
      StepKeeps(c);
      RunSound(Step(c).next);
    } else {
      NextOk(c);
      assert c.trees == [c.trees[0]];
      assert c.trees[..0] == [];
      assert YieldAll(c.trees) + c.input == Yield(c.trees[0]);
    }
  }

  /** Every accepted string is derivable from file by the listed productions. */
  lemma Sound(input: seq<Token>)
    ensures Inv(Init(input))
    ensures Run(Init(input)).Accepted? ==> Derives(Run(Init(input)).tree, input)
  {
    InitInv(input);
    if Run(Init(input)).Accepted? {
      RunSound(Init(input));
      assert YieldAll(Init(input).trees) + input == input;
    }
  }

  // ---- the driver as a loop over the built tables ----

  method Pop(goto: Table, c: Config, p: nat) returns (next: Config)
    requires IsGotoTable(goto) && |c.states| == |c.trees| + 1
    requires p < PRODUCTIONS && |Rhs(p)| <= |c.trees| && Goto(c.states[Base(c, p)], Lhs(p)).Some?
    ensures next == Reduce(c, p)
  {
    var m := |c.trees| - |Rhs(p)|;
    var g := Look(goto, c.states[m], Lhs(p));
    next := Config(c.states[..m + 1] + [g.value], c.trees[..m] + [Node(p, c.trees[m..])], c.input);
  }

  method Perform(goto: Table, c: Config, a: int) returns (o: Outcome)
    requires IsGotoTable(goto) && Ready(c, a)
    ensures o == Act(c, a)
  {
    if a > 0 {
      o := Running(Config(c.states + [a], c.trees + [Leaf(c.input[0])], c.input[1..]));
    } else if a == 0 {
      o := Accepted(c.trees[0]);
    } else {
      var next := Pop(goto, c, -a);
      o := Running(next);
    }
  }

  /** One turn of the loop, reading the dictionaries. */
  method Advance(action: Table, goto: Table, c: Config) returns (o: Outcome)
    requires IsActionTable(action) && IsGotoTable(goto) && Inv(c)
    ensures o == Step(c)
  {
    var a := Look(action, c.states[|c.trees|], Ahead(c.input));
    assert a == Next(c);
    if a.None? {
      return Rejected;
    }
    NextOk(c);
    o := Perform(goto, c, a.value);
  }

  method Parse(action: Table, goto: Table, input: seq<Token>) returns (o: Outcome)
    requires IsActionTable(action) && IsGotoTable(goto)
    ensures Inv(Init(input)) && o == Run(Init(input))
  {
    InitInv(input);
    var c := Init(input);
    o := Running(c);
    while o.Running?
      invariant o.Running? ==> o.next == c && Inv(c) && Run(c) == Run(Init(input))
      invariant !o.Running? ==> o == Run(Init(input))
      decreases o.Running?, if o.Running? then Measure(c) else 0
    {
      o := Advance(action, goto, c);
      if o.Running? {
        StepDescends(c);
        c := o.next;
      }
    }
  }
}
