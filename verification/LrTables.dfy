/** The generated LALR tables of the micro-assembler (parsetab.py): the rows as stored, the loops that
    turn them into action and goto dictionaries, and what those dictionaries answer. */
module LrTables {
  import opened Common
  import opened LrGrammar

  /** One stored row: the states and, in step with them, the entries for one symbol. */
  datatype Row = Row(states: seq<nat>, entries: seq<int>)

  type Table = map<nat, map<Symbol, int>>

  function Look(table: Table, q: nat, s: Symbol): Option<int> {
    if q in table && s in table[q] then Some(table[q][s]) else None
  }

  /** What a row says of a state among its first n pairs: the last pair written wins. */
  function Find(row: Row, q: nat, n: nat): Option<int>
    requires n <= |row.states| && n <= |row.entries|
  {
    if n == 0 then None
    else if row.states[n - 1] == q then Some(row.entries[n - 1])
    else Find(row, q, n - 1)
  }

  /** zip stops at the shorter list. */
  function Pairs(row: Row): nat {
    Min(|row.states|, |row.entries|)
  }

  function Put(table: Table, q: nat, s: Symbol, y: int): Table {
    var line: map<Symbol, int> := if q in table then table[q] else map[];
    table[q := line[s := y]]
  }

  lemma PutLook(table: Table, q: nat, s: Symbol, y: int, q': nat, s': Symbol)
    ensures Look(Put(table, q, s, y), q', s') == if q' == q && s' == s then Some(y) else Look(table, q', s')
  {
  }

  /** table answers done's rows in full, k's first n pairs, and nothing else. */
  ghost predicate Filled(items: map<Symbol, Row>, table: Table, done: set<Symbol>) {
    forall q: nat, s: Symbol ::
      Look(table, q, s) == if s in done && s in items then Find(items[s], q, Pairs(items[s])) else None
  }

  /** The loops at the end of each table: dictionary order does not matter. */
  method Invert(items: map<Symbol, Row>) returns (table: Table)
    ensures Filled(items, table, items.Keys)
  {
    table := map[];
    var todo := items.Keys;
    ghost var done: set<Symbol> := {};
    while todo != {}
      invariant todo !! done && todo + done == items.Keys
      invariant Filled(items, table, done)
      decreases todo
    {
      var k :| k in todo;
      table := FillRow(items, k, table, done);
      todo, done := todo - {k}, done + {k};
    }
  }

  method FillRow(items: map<Symbol, Row>, k: Symbol, before: Table, ghost done: set<Symbol>) returns (table: Table)
    requires k in items && k !in done && Filled(items, before, done)
    ensures Filled(items, table, done + {k})
  {
    table := before;
    var row, n := items[k], 0;
    while n < Pairs(row)
      invariant n <= Pairs(row)
      invariant forall q: nat, s: Symbol :: Look(table, q, s) == if s == k then Find(row, q, n) else Look(before, q, s)
    {
      ghost var was := table;
      table := Put(table, row.states[n], k, row.entries[n]);
      forall q: nat, s: Symbol
        ensures Look(table, q, s) == if s == k then Find(row, q, n + 1) else Look(before, q, s)
      {
        PutLook(was, row.states[n], k, row.entries[n], q, s);
      }
      n := n + 1;
    }
  }

  // ---- the stored rows ----

  function ActionRow(s: Symbol): Row {
    match s
    case LBRACE => Row([9, 13], [11, 11])
    case RPAREN => Row([40], [44])
    case ROM => Row([6], [9])
    case SEMI =>
      Row([11, 12, 14, 15, 18, 19, 21, 22, 25, 27, 28, 31, 33, 34, 35, 37, 38, 41, 43, 44],
          [-17, 24, -17, -16, -15, -12, 34, -21, 39, -11, -13, -20, -18, -19, -14, -23, -29, -22, -30, 45])
    case NEWLINE =>
      Row([11, 14, 15, 16, 17, 18, 19, 21, 22, 28, 29, 30, 31, 33, 34, 35, 36, 37, 38, 41, 42, 43],
          [-17, -17, -16, 29, -24, -15, -12, 33, -21, -13, -26, -25, -20, -18, -19, -14, -27, -23, -29, -22, -28, -30])
    case LPAREN => Row([13], [26])
    case RBRACE => Row([14, 19, 28, 33, 34, 35], [27, -12, -13, -18, -19, -14])
    case COLON => Row([22, 31, 32], [36, 36, 42])
    case DOT => Row([11, 14, 19, 28, 33, 34, 35], [23, 23, -12, -13, -18, -19, -14])
    case MACROOP => Row([6], [10])
    case EXTERN =>
      Row([11, 14, 16, 17, 19, 28, 29, 30, 33, 34, 35, 36, 42],
          [20, 20, 20, -24, -12, -13, -26, -25, -18, -19, -14, -27, -28])
    case PARAMS => Row([22, 31, 38], [37, 41, 43])
    case ID =>
      Row([10, 11, 14, 16, 17, 19, 20, 23, 26, 28, 29, 30, 33, 34, 35, 36, 42],
          [13, 22, 22, 31, -24, -12, 32, 38, 40, -13, -26, -25, -18, -19, -14, -27, -28])
    case DEF => Row([0, 1, 2, 3, 7, 8, 24, 39, 45], [6, -7, 6, -6, -4, -5, -8, -10, -9])
    case End => Row([0, 1, 2, 3, 4, 5, 7, 8, 24, 39, 45], [-2, -7, -3, -6, 0, -1, -4, -5, -8, -10, -9])
    case _ => Row([], [])
  }

  function GotoRow(s: Symbol): Row {
    match s
    case MacroopDef => Row([0, 2], [1, 1])
    case Statements => Row([11], [14])
    case Statement => Row([11, 14], [19, 28])
    case Directive => Row([11, 14], [15, 15])
    case RomOrMacros => Row([0], [2])
    case Labels => Row([11, 14], [16, 16])
    case EndOfStatement => Row([21], [35])
    case Microop => Row([11, 14], [18, 18])
    case Label => Row([11, 14, 16], [17, 17, 30])
    case RomBlock => Row([0, 2], [3, 3])
    case File => Row([0], [4])
    case ContentOfStatement => Row([11, 14], [21, 21])
    case OptRomOrMacros => Row([0], [5])
    case Block => Row([9, 13], [12, 25])
    case RomOrMacro => Row([0, 2], [7, 8])
    case _ => Row([], [])
  }

  // ---- what the filled tables answer ----

  /** A positive entry shifts to that state, a negative one reduces by that production, 0 accepts. */
  function Action(q: nat, s: Symbol): Option<int> {
    match s
    case LBRACE => if q == 9 || q == 13 then Some(11) else None
    case RPAREN => if q == 40 then Some(44) else None
    case ROM => if q == 6 then Some(9) else None
    case SEMI =>
      if q == 11 || q == 14 then Some(-17)
      else if q == 12 then Some(24)
      else if q == 15 then Some(-16)
      else if q == 18 then Some(-15)
      else if q == 19 then Some(-12)
      else if q == 21 then Some(34)
      else if q == 22 then Some(-21)
      else if q == 25 then Some(39)
      else if q == 27 then Some(-11)
      else if q == 28 then Some(-13)
      else if q == 31 then Some(-20)
      else if q == 33 then Some(-18)
      else if q == 34 then Some(-19)
      else if q == 35 then Some(-14)
      else if q == 37 then Some(-23)
      else if q == 38 then Some(-29)
      else if q == 41 then Some(-22)
      else if q == 43 then Some(-30)
      else if q == 44 then Some(45)
      else None
    case NEWLINE =>
      if q == 11 || q == 14 then Some(-17)
      else if q == 15 then Some(-16)
      else if q == 16 then Some(29)
      else if q == 17 then Some(-24)
      else if q == 18 then Some(-15)
      else if q == 19 then Some(-12)
      else if q == 21 then Some(33)
      else if q == 22 then Some(-21)
      else if q == 28 then Some(-13)
      else if q == 29 then Some(-26)
      else if q == 30 then Some(-25)
      else if q == 31 then Some(-20)
      else if q == 33 then Some(-18)
      else if q == 34 then Some(-19)
      else if q == 35 then Some(-14)
      else if q == 36 then Some(-27)
      else if q == 37 then Some(-23)
      else if q == 38 then Some(-29)
      else if q == 41 then Some(-22)
      else if q == 42 then Some(-28)
      else if q == 43 then Some(-30)
      else None
    case LPAREN => if q == 13 then Some(26) else None
    case RBRACE =>
      if q == 14 then Some(27)
      else if q == 19 then Some(-12)
      else if q == 28 then Some(-13)
      else if q == 33 then Some(-18)
      else if q == 34 then Some(-19)
      else if q == 35 then Some(-14)
      else None
    case COLON => if q == 22 || q == 31 then Some(36) else if q == 32 then Some(42) else None
    case DOT =>
      if q == 11 || q == 14 then Some(23)
      else if q == 19 then Some(-12)
      else if q == 28 then Some(-13)
      else if q == 33 then Some(-18)
      else if q == 34 then Some(-19)
      else if q == 35 then Some(-14)
      else None
    case MACROOP => if q == 6 then Some(10) else None
    case EXTERN =>
      if q == 11 || q == 14 || q == 16 then Some(20)
      else if q == 17 then Some(-24)
      else if q == 19 then Some(-12)
      else if q == 28 then Some(-13)
      else if q == 29 then Some(-26)
      else if q == 30 then Some(-25)
      else if q == 33 then Some(-18)
      else if q == 34 then Some(-19)
      else if q == 35 then Some(-14)
      else if q == 36 then Some(-27)
      else if q == 42 then Some(-28)
      else None
    case PARAMS =>
      if q == 22 then Some(37)
      else if q == 31 then Some(41)
      else if q == 38 then Some(43)
      else None
    case ID =>
      if q == 10 then Some(13)
      else if q == 11 || q == 14 then Some(22)
      else if q == 16 then Some(31)
      else if q == 17 then Some(-24)
      else if q == 19 then Some(-12)
      else if q == 20 then Some(32)
      else if q == 23 then Some(38)
      else if q == 26 then Some(40)
      else if q == 28 then Some(-13)
      else if q == 29 then Some(-26)
      else if q == 30 then Some(-25)
      else if q == 33 then Some(-18)
      else if q == 34 then Some(-19)
      else if q == 35 then Some(-14)
      else if q == 36 then Some(-27)
      else if q == 42 then Some(-28)
      else None
    case DEF =>
      if q == 0 || q == 2 then Some(6)
      else if q == 1 then Some(-7)
      else if q == 3 then Some(-6)
      else if q == 7 then Some(-4)
      else if q == 8 then Some(-5)
      else if q == 24 then Some(-8)
      else if q == 39 then Some(-10)
      else if q == 45 then Some(-9)
      else None
    case End =>
      if q == 0 then Some(-2)
      else if q == 1 then Some(-7)
      else if q == 2 then Some(-3)
      else if q == 3 then Some(-6)
      else if q == 4 then Some(0)
      else if q == 5 then Some(-1)
      else if q == 7 then Some(-4)
      else if q == 8 then Some(-5)
      else if q == 24 then Some(-8)
      else if q == 39 then Some(-10)
      else if q == 45 then Some(-9)
      else None
    case _ => None
  }

  function Goto(q: nat, s: Symbol): Option<nat> {
    match s
    case MacroopDef => if q == 0 || q == 2 then Some(1) else None
    case Statements => if q == 11 then Some(14) else None
    case Statement => if q == 11 then Some(19) else if q == 14 then Some(28) else None
    case Directive => if q == 11 || q == 14 then Some(15) else None
    case RomOrMacros => if q == 0 then Some(2) else None
    case Labels => if q == 11 || q == 14 then Some(16) else None
    case EndOfStatement => if q == 21 then Some(35) else None
    case Microop => if q == 11 || q == 14 then Some(18) else None
    case Label => if q == 11 || q == 14 then Some(17) else if q == 16 then Some(30) else None
    case RomBlock => if q == 0 || q == 2 then Some(3) else None
    case File => if q == 0 then Some(4) else None
    case ContentOfStatement => if q == 11 || q == 14 then Some(21) else None
    case OptRomOrMacros => if q == 0 then Some(5) else None
    case Block => if q == 9 then Some(12) else if q == 13 then Some(25) else None
    case RomOrMacro => if q == 0 then Some(7) else if q == 2 then Some(8) else None
    case _ => None
  }

  ghost predicate IsActionTable(table: Table) {
    forall q: nat, s: Symbol {:trigger Look(table, q, s)} :: Look(table, q, s) == Action(q, s)
  }

  ghost predicate IsGotoTable(table: Table) {
    forall q: nat, s: Symbol {:trigger Look(table, q, s)} :: Look(table, q, s) == Widen(Goto(q, s))
  }

  function Widen(x: Option<nat>): Option<int> {
    match x
    case None => None
    case Some(n) => Some(n)
  }

  // Each stored pair is an answer, and each answer is stored.

  /** Entry j of a symbol's row is the action in the state beside it. */
  ghost predicate Paired(s: Symbol, j: nat) {
    var r := ActionRow(s);
    j < |r.states| && j < |r.entries| && Action(r.states[j], s) == Some(r.entries[j])
  }

  lemma SemiPairLow(j: nat)
    requires j < 10
    ensures Paired(SEMI, j)
  {
    if j < 5 {
    } else {
    }
  }

  lemma SemiPair(j: nat)
    requires j < |ActionRow(SEMI).states|
    ensures Paired(SEMI, j)
  {
    if j < 10 {
      SemiPairLow(j);
    } else if j < 15 {
    } else {
    }
  }

  lemma NewlinePairLow(j: nat)
    requires j < 11
    ensures Action(ActionRow(NEWLINE).states[j], NEWLINE) == Some(ActionRow(NEWLINE).entries[j])
  {
    if j < 4 {
    } else if j < 8 {
    } else {
    }
  }

  lemma NewlinePairHigh(j: nat)
    requires 11 <= j < 22
    ensures Action(ActionRow(NEWLINE).states[j], NEWLINE) == Some(ActionRow(NEWLINE).entries[j])
  {
    if j < 15 {
    } else if j < 19 {
    } else {
    }
  }

  lemma NewlinePair(j: nat)
    requires j < |ActionRow(NEWLINE).states|
    ensures Paired(NEWLINE, j)
  {
    if j < 11 {
      NewlinePairLow(j);
    } else {
      NewlinePairHigh(j);
    }
  }

  lemma ExternPair(j: nat)
    requires j < |ActionRow(EXTERN).states|
    ensures Paired(EXTERN, j)
  {
  }

  lemma IdPair(j: nat)
    requires j < |ActionRow(ID).states|
    ensures Paired(ID, j)
  {
    if j < 4 {
    } else if j < 8 {
    } else if j < 12 {
    } else {
    }
  }

  lemma DefPair(j: nat)
    requires j < |ActionRow(DEF).states|
    ensures Paired(DEF, j)
  {
  }

  lemma EndPair(j: nat)
    requires j < |ActionRow(End).states|
    ensures Paired(End, j)
  {
  }

  lemma RbracePair(j: nat)
    requires j < |ActionRow(RBRACE).states|
    ensures Paired(RBRACE, j)
  {
  }

  lemma DotPair(j: nat)
    requires j < |ActionRow(DOT).states|
    ensures Paired(DOT, j)
  {
  }

  /** The rows of up to three entries. */
  lemma ShortPair(s: Symbol, j: nat)
    requires s !in {SEMI, NEWLINE, EXTERN, ID, DEF, End, RBRACE, DOT} && j < |ActionRow(s).states|
    ensures Paired(s, j)
  {
    match s
    case COLON =>
    case PARAMS =>
    case LBRACE =>
    case _ =>
  }

  lemma LongPair(s: Symbol, j: nat)
    requires s in {SEMI, NEWLINE, EXTERN, ID} && j < |ActionRow(s).states|
    ensures Paired(s, j)
  {
    match s
    case SEMI => SemiPair(j);
    case NEWLINE => NewlinePair(j);
    case EXTERN => ExternPair(j);
    case ID => IdPair(j);
  }

  lemma MiddlePair(s: Symbol, j: nat)
    requires s in {DEF, End, RBRACE, DOT} && j < |ActionRow(s).states|
    ensures Paired(s, j)
  {
    match s
    case DEF => DefPair(j);
    case End => EndPair(j);
    case RBRACE => RbracePair(j);
    case DOT => DotPair(j);
  }

  lemma ActionPair(s: Symbol, j: nat)
    requires j < |ActionRow(s).states|
    ensures Paired(s, j)
  {
    if s in {SEMI, NEWLINE, EXTERN, ID} {
      LongPair(s, j);
    } else if s in {DEF, End, RBRACE, DOT} {
      MiddlePair(s, j);
    } else {
      ShortPair(s, j);
    }
  }

  lemma RowLengths(s: Symbol)
    ensures |ActionRow(s).states| == |ActionRow(s).entries|
  {
  }

  lemma ActionPairs(s: Symbol)
    ensures |ActionRow(s).states| == |ActionRow(s).entries|
    ensures forall j :: 0 <= j < |ActionRow(s).states| ==>
        Action(ActionRow(s).states[j], s) == Some(ActionRow(s).entries[j])
  {
    var r := ActionRow(s);
    RowLengths(s);
    forall j | 0 <= j < |r.states| ensures Action(r.states[j], s) == Some(r.entries[j]) {
      ActionPair(s, j);
      assert Paired(s, j);
    }
  }

  lemma ActionStoredLong(q: nat, s: Symbol)
    requires s in {SEMI, NEWLINE} && Action(q, s).Some?
    ensures q in ActionRow(s).states
  {
  }

  lemma ActionStoredMiddle(q: nat, s: Symbol)
    requires s in {EXTERN, ID, DEF, End} && Action(q, s).Some?
    ensures q in ActionRow(s).states
  {
  }

  lemma ActionStored(q: nat, s: Symbol)
    requires Action(q, s).Some?
    ensures q in ActionRow(s).states
  {
    if s in {SEMI, NEWLINE} {
      ActionStoredLong(q, s);
    } else if s in {EXTERN, ID, DEF, End} {
      ActionStoredMiddle(q, s);
    }
  }

  lemma GotoPairs(s: Symbol)
    ensures |GotoRow(s).states| == |GotoRow(s).entries|
    ensures forall j :: 0 <= j < |GotoRow(s).states| ==>
        Widen(Goto(GotoRow(s).states[j], s)) == Some(GotoRow(s).entries[j])
  {
  }

  lemma GotoStored(q: nat, s: Symbol)
    requires Goto(q, s).Some?
    ensures q in GotoRow(s).states
  {
  }

  lemma {:induction false} FindExact(row: Row, q: nat, n: nat, answer: Option<int>)
    requires n <= |row.states| && |row.states| == |row.entries|
    requires forall j :: 0 <= j < |row.states| && row.states[j] == q ==> answer == Some(row.entries[j])
    requires answer.Some? ==> q in row.states
    requires q !in row.states[n..]
    ensures Find(row, q, n) == answer
  {
    if n != 0 && row.states[n - 1] != q {
      assert row.states[n - 1..] == [row.states[n - 1]] + row.states[n..];
      FindExact(row, q, n - 1, answer);
    } else if n == 0 {
      assert row.states[0..] == row.states;
    }
  }

  lemma ActionFound(q: nat, s: Symbol)
    ensures Find(ActionRow(s), q, Pairs(ActionRow(s))) == Action(q, s)
  {
    ActionPairs(s);
    if Action(q, s).Some? {
      ActionStored(q, s);
    }
    FindExact(ActionRow(s), q, |ActionRow(s).states|, Action(q, s));
  }

  lemma GotoFound(q: nat, s: Symbol)
    ensures Find(GotoRow(s), q, Pairs(GotoRow(s))) == Widen(Goto(q, s))
  {
    GotoPairs(s);
    if Goto(q, s).Some? {
      GotoStored(q, s);
    }
    FindExact(GotoRow(s), q, |GotoRow(s).states|, Widen(Goto(q, s)));
  }

  /** The module's own initialisation. */
  method BuildTables() returns (action: Table, goto: Table)
    ensures IsActionTable(action) && IsGotoTable(goto)
  {
    action := Invert(map s: Symbol | Terminal(s) :: ActionRow(s));
    goto := Invert(map s: Symbol | !Terminal(s) :: GotoRow(s));
    forall q: nat, s: Symbol
      ensures Look(action, q, s) == Action(q, s) && Look(goto, q, s) == Widen(Goto(q, s))
    {
      ActionFound(q, s);
      GotoFound(q, s);
    }
  }
}
