/** Completeness of the micro-assembler's tables: every file of the grammar is accepted, with its own
    derivation as the parse tree, so the grammar is unambiguous. */
module LrComplete {
  import opened Common
  import opened LrGrammar
  import opened LrTables
  import opened LrDriver

  // ---- what a symbol starts with and is followed by ----

  predicate Nullable(s: Symbol) {
    s == ContentOfStatement || s == OptRomOrMacros
  }

  predicate StartsStatement(t: Symbol) {
    t == ID || t == EXTERN || t == DOT || t == NEWLINE || t == SEMI
  }

  predicate CanStart(s: Symbol, t: Symbol) {
    match s
    case File => t == DEF
    case OptRomOrMacros => t == DEF
    case RomOrMacros => t == DEF
    case RomOrMacro => t == DEF
    case RomBlock => t == DEF
    case MacroopDef => t == DEF
    case Block => t == LBRACE
    case Statements => StartsStatement(t)
    case Statement => StartsStatement(t)
    case ContentOfStatement => t == ID || t == EXTERN || t == DOT
    case EndOfStatement => t == NEWLINE || t == SEMI
    case Microop => t == ID || t == EXTERN
    case Labels => t == ID || t == EXTERN
    case Label => t == ID || t == EXTERN
    case Directive => t == DOT
    case _ => t == s
  }

  predicate CanFollow(s: Symbol, t: Symbol) {
    match s
    case File => t == End
    case OptRomOrMacros => t == End
    case RomOrMacros => t == DEF || t == End
    case RomOrMacro => t == DEF || t == End
    case RomBlock => t == DEF || t == End
    case MacroopDef => t == DEF || t == End
    case Block => t == SEMI
    case Statements => StartsStatement(t) || t == RBRACE
    case Statement => StartsStatement(t) || t == RBRACE
    case ContentOfStatement => t == NEWLINE || t == SEMI
    case EndOfStatement => StartsStatement(t) || t == RBRACE
    case Microop => t == NEWLINE || t == SEMI
    case Labels => t == ID || t == EXTERN || t == NEWLINE
    case Label => t == ID || t == EXTERN || t == NEWLINE
    case Directive => t == NEWLINE || t == SEMI
    case _ => true
  }

  lemma StartOfFirstInFiles(p: nat, t: Symbol)
    requires 1 <= p < 8 && |Rhs(p)| > 0 && CanStart(Rhs(p)[0], t)
    ensures CanStart(Lhs(p), t)
  {
  }

  lemma StartOfFirstInDefs(p: nat, t: Symbol)
    requires 8 <= p < 12 && |Rhs(p)| > 0 && CanStart(Rhs(p)[0], t)
    ensures CanStart(Lhs(p), t)
  {
  }

  lemma StartOfFirstInStatements(p: nat, t: Symbol)
    requires 12 <= p < 17 && |Rhs(p)| > 0 && CanStart(Rhs(p)[0], t)
    ensures CanStart(Lhs(p), t)
  {
  }

  lemma StartOfFirstInMicroops(p: nat, t: Symbol)
    requires 17 <= p < 24 && |Rhs(p)| > 0 && CanStart(Rhs(p)[0], t)
    ensures CanStart(Lhs(p), t)
  {
  }

  lemma StartOfFirstInLabelLists(p: nat, t: Symbol)
    requires 24 <= p < 28 && |Rhs(p)| > 0 && CanStart(Rhs(p)[0], t)
    ensures CanStart(Lhs(p), t)
  {
  }

  lemma StartOfFirstInLabels(p: nat, t: Symbol)
    requires 24 <= p < 31 && |Rhs(p)| > 0 && CanStart(Rhs(p)[0], t)
    ensures CanStart(Lhs(p), t)
  {
    if p < 28 {
      StartOfFirstInLabelLists(p, t);
    }
  }

  lemma StartOfFirst(p: nat, t: Symbol)
    requires 1 <= p < PRODUCTIONS && |Rhs(p)| > 0 && CanStart(Rhs(p)[0], t)
    ensures CanStart(Lhs(p), t)
  {
    if p < 8 {
      StartOfFirstInFiles(p, t);
    } else if p < 12 {
      StartOfFirstInDefs(p, t);
    } else if p < 17 {
      StartOfFirstInStatements(p, t);
    } else if p < 24 {
      StartOfFirstInMicroops(p, t);
    } else {
      StartOfFirstInLabels(p, t);
    }
  }

  /** An empty right-hand side or an empty first symbol happens only in these places. */
  lemma NullableFirst(p: nat)
    requires 1 <= p < PRODUCTIONS
    ensures |Rhs(p)| == 0 ==> Nullable(Lhs(p))
    ensures |Rhs(p)| > 0 ==> Rhs(p)[0] != File
    ensures |Rhs(p)| == 1 && Nullable(Rhs(p)[0]) ==> Lhs(p) == File
    ensures |Rhs(p)| > 1 && Nullable(Rhs(p)[0]) ==> |Rhs(p)| == 2 && Lhs(p) == Statement && Rhs(p)[1] == EndOfStatement
  {
  }

  lemma NullableOnlyFirst(p: nat, i: nat)
    requires 1 <= p < PRODUCTIONS && 1 <= i < |Rhs(p)|
    ensures !Nullable(Rhs(p)[i]) && Rhs(p)[i] != File
  {
  }

  lemma FollowInsideInFiles(p: nat, i: nat, t: Symbol)
    requires 1 <= p < 9 && i + 1 < |Rhs(p)| && CanStart(Rhs(p)[i + 1], t)
    ensures CanFollow(Rhs(p)[i], t)
  {
  }

  lemma FollowInsideInRomDefs(p: nat, i: nat, t: Symbol)
    requires p == 9 && i + 1 < |Rhs(p)| && CanStart(Rhs(p)[i + 1], t)
    ensures CanFollow(Rhs(p)[i], t)
  {
  }

  lemma FollowInsideInDefs(p: nat, i: nat, t: Symbol)
    requires 10 <= p < 12 && i + 1 < |Rhs(p)| && CanStart(Rhs(p)[i + 1], t)
    ensures CanFollow(Rhs(p)[i], t)
  {
  }

  lemma FollowInsideInStatements(p: nat, i: nat, t: Symbol)
    requires 12 <= p < 17 && i + 1 < |Rhs(p)| && CanStart(Rhs(p)[i + 1], t)
    ensures CanFollow(Rhs(p)[i], t)
  {
  }

  lemma FollowInsideInMicroops(p: nat, i: nat, t: Symbol)
    requires 17 <= p < 24 && i + 1 < |Rhs(p)| && CanStart(Rhs(p)[i + 1], t)
    ensures CanFollow(Rhs(p)[i], t)
  {
  }

  lemma FollowInsideInLabelLists(p: nat, i: nat, t: Symbol)
    requires 24 <= p < 28 && i + 1 < |Rhs(p)| && CanStart(Rhs(p)[i + 1], t)
    ensures CanFollow(Rhs(p)[i], t)
  {
  }

  lemma FollowInsideInLabels(p: nat, i: nat, t: Symbol)
    requires 24 <= p < 31 && i + 1 < |Rhs(p)| && CanStart(Rhs(p)[i + 1], t)
    ensures CanFollow(Rhs(p)[i], t)
  {
    if p < 28 {
      FollowInsideInLabelLists(p, i, t);
    }
  }

  lemma FollowInside(p: nat, i: nat, t: Symbol)
    requires 1 <= p < PRODUCTIONS && i + 1 < |Rhs(p)| && CanStart(Rhs(p)[i + 1], t)
    ensures CanFollow(Rhs(p)[i], t)
  {
    if p < 9 {
      FollowInsideInFiles(p, i, t);
    } else if p < 10 {
      FollowInsideInRomDefs(p, i, t);
    } else if p < 12 {
      FollowInsideInDefs(p, i, t);
    } else if p < 17 {
      FollowInsideInStatements(p, i, t);
    } else if p < 24 {
      FollowInsideInMicroops(p, i, t);
    } else {
      FollowInsideInLabels(p, i, t);
    }
  }

  lemma FollowAtEndInFiles(p: nat, t: Symbol)
    requires 1 <= p < 8 && |Rhs(p)| > 0 && CanFollow(Lhs(p), t)
    ensures CanFollow(Rhs(p)[|Rhs(p)| - 1], t)
  {
  }

  lemma FollowAtEndInDefs(p: nat, t: Symbol)
    requires 8 <= p < 12 && |Rhs(p)| > 0 && CanFollow(Lhs(p), t)
    ensures CanFollow(Rhs(p)[|Rhs(p)| - 1], t)
  {
  }

  lemma FollowAtEndInStatements(p: nat, t: Symbol)
    requires 12 <= p < 17 && |Rhs(p)| > 0 && CanFollow(Lhs(p), t)
    ensures CanFollow(Rhs(p)[|Rhs(p)| - 1], t)
  {
  }

  lemma FollowAtEndInMicroops(p: nat, t: Symbol)
    requires 17 <= p < 24 && |Rhs(p)| > 0 && CanFollow(Lhs(p), t)
    ensures CanFollow(Rhs(p)[|Rhs(p)| - 1], t)
  {
  }

  lemma FollowAtEndInLabels(p: nat, t: Symbol)
    requires 24 <= p < 31 && |Rhs(p)| > 0 && CanFollow(Lhs(p), t)
    ensures CanFollow(Rhs(p)[|Rhs(p)| - 1], t)
  {
  }

  lemma FollowAtEnd(p: nat, t: Symbol)
    requires 1 <= p < PRODUCTIONS && |Rhs(p)| > 0 && CanFollow(Lhs(p), t)
    ensures CanFollow(Rhs(p)[|Rhs(p)| - 1], t)
  {
    if p < 8 {
      FollowAtEndInFiles(p, t);
    } else if p < 12 {
      FollowAtEndInDefs(p, t);
    } else if p < 17 {
      FollowAtEndInStatements(p, t);
    } else if p < 24 {
      FollowAtEndInMicroops(p, t);
    } else {
      FollowAtEndInLabels(p, t);
    }
  }

  // ---- the tables cover every production in every state that expects it ----

  /** The items with the dot past at least one symbol: state q holds production p with k symbols read. */
  predicate Kernel(q: nat, p: nat, k: nat) {
    match q
    case 1 => p == 7 && k == 1
    case 2 => (p == 3 || p == 5) && k == 1
    case 3 => p == 6 && k == 1
    case 4 => p == 0 && k == 1
    case 5 => p == 1 && k == 1
    case 6 => (p == 8 || p == 9 || p == 10) && k == 1
    case 7 => p == 4 && k == 1
    case 8 => p == 5 && k == 2
    case 9 => p == 8 && k == 2
    case 10 => (p == 9 || p == 10) && k == 2
    case 11 => p == 11 && k == 1
    case 12 => p == 8 && k == 3
    case 13 => (p == 9 || p == 10) && k == 3
    case 14 => (p == 11 && k == 2) || (p == 13 && k == 1)
    case 15 => p == 16 && k == 1
    case 16 => (p == 20 || p == 22 || p == 25 || p == 26) && k == 1
    case 17 => p == 24 && k == 1
    case 18 => p == 15 && k == 1
    case 19 => p == 12 && k == 1
    case 20 => p == 28 && k == 1
    case 21 => p == 14 && k == 1
    case 22 => (p == 21 || p == 23 || p == 27) && k == 1
    case 23 => (p == 29 || p == 30) && k == 1
    case 24 => p == 8 && k == 4
    case 25 => p == 10 && k == 4
    case 26 => p == 9 && k == 4
    case 27 => p == 11 && k == 3
    case 28 => p == 13 && k == 2
    case 29 => p == 26 && k == 2
    case 30 => p == 25 && k == 2
    case 31 => ((p == 20 || p == 22) && k == 2) || (p == 27 && k == 1)
    case 32 => p == 28 && k == 2
    case 33 => p == 18 && k == 1
    case 34 => p == 19 && k == 1
    case 35 => p == 14 && k == 2
    case 36 => p == 27 && k == 2
    case 37 => p == 23 && k == 2
    case 38 => (p == 29 || p == 30) && k == 2
    case 39 => p == 10 && k == 5
    case 40 => p == 9 && k == 5
    case 41 => p == 22 && k == 3
    case 42 => p == 28 && k == 3
    case 43 => p == 30 && k == 3
    case 44 => p == 9 && k == 6
    case 45 => p == 9 && k == 7
    case _ => false
  }

  predicate Item(q: nat, p: nat, k: nat)
    requires p < PRODUCTIONS
  {
    if k == 0 then Goto(q, Lhs(p)).Some? else Kernel(q, p, k)
  }

  /** Reading the next symbol of an item moves to a state with the item advanced. */
  ghost predicate Advances(q: nat, p: nat, k: nat)
    requires p < PRODUCTIONS && k < |Rhs(p)|
  {
    Trans(q, Rhs(p)[k]).Some? && Item(Trans(q, Rhs(p)[k]).value, p, k + 1)
  }

  lemma AdvancesFirstInFiles(q: nat, p: nat)
    requires 1 <= p < 8 && |Rhs(p)| > 0 && Goto(q, Lhs(p)).Some?
    ensures Advances(q, p, 0)
  {
  }

  lemma AdvancesFirstInDefs(q: nat, p: nat)
    requires 8 <= p < 12 && |Rhs(p)| > 0 && Goto(q, Lhs(p)).Some?
    ensures Advances(q, p, 0)
  {
  }

  lemma AdvancesFirstInStatements(q: nat, p: nat)
    requires 12 <= p < 17 && |Rhs(p)| > 0 && Goto(q, Lhs(p)).Some?
    ensures Advances(q, p, 0)
  {
  }

  lemma AdvancesFirstInMicroops(q: nat, p: nat)
    requires 17 <= p < 24 && |Rhs(p)| > 0 && Goto(q, Lhs(p)).Some?
    ensures Advances(q, p, 0)
  {
  }

  lemma AdvancesFirstInLabels(q: nat, p: nat)
    requires 24 <= p < 31 && |Rhs(p)| > 0 && Goto(q, Lhs(p)).Some?
    ensures Advances(q, p, 0)
  {
  }

  lemma AdvancesFirst(q: nat, p: nat)
    requires 1 <= p < PRODUCTIONS && |Rhs(p)| > 0 && Goto(q, Lhs(p)).Some?
    ensures Advances(q, p, 0)
  {
    if p < 8 {
      AdvancesFirstInFiles(q, p);
    } else if p < 12 {
      AdvancesFirstInDefs(q, p);
    } else if p < 17 {
      AdvancesFirstInStatements(q, p);
    } else if p < 24 {
      AdvancesFirstInMicroops(q, p);
    } else {
      AdvancesFirstInLabels(q, p);
    }
  }

  lemma AdvancesLaterInFiles(q: nat, p: nat, k: nat)
    requires 1 <= p < 9 && 0 < k < |Rhs(p)| && Kernel(q, p, k)
    ensures Advances(q, p, k)
  {
  }

  lemma AdvancesLaterInRomDefs(q: nat, p: nat, k: nat)
    requires p == 9 && 0 < k < |Rhs(p)| && Kernel(q, p, k)
    ensures Advances(q, p, k)
  {
  }

  lemma AdvancesLaterInDefs(q: nat, p: nat, k: nat)
    requires 10 <= p < 12 && 0 < k < |Rhs(p)| && Kernel(q, p, k)
    ensures Advances(q, p, k)
  {
  }

  lemma AdvancesLaterInStatements(q: nat, p: nat, k: nat)
    requires 12 <= p < 17 && 0 < k < |Rhs(p)| && Kernel(q, p, k)
    ensures Advances(q, p, k)
  {
  }

  lemma AdvancesLaterInMicroops(q: nat, p: nat, k: nat)
    requires 17 <= p < 24 && 0 < k < |Rhs(p)| && Kernel(q, p, k)
    ensures Advances(q, p, k)
  {
  }

  lemma AdvancesLaterInLabels(q: nat, p: nat, k: nat)
    requires 24 <= p < 31 && 0 < k < |Rhs(p)| && Kernel(q, p, k)
    ensures Advances(q, p, k)
  {
  }

  lemma AdvancesLater(q: nat, p: nat, k: nat)
    requires 1 <= p < PRODUCTIONS && 0 < k < |Rhs(p)| && Kernel(q, p, k)
    ensures Advances(q, p, k)
  {
    if p < 9 {
      AdvancesLaterInFiles(q, p, k);
    } else if p < 10 {
      AdvancesLaterInRomDefs(q, p, k);
    } else if p < 12 {
      AdvancesLaterInDefs(q, p, k);
    } else if p < 17 {
      AdvancesLaterInStatements(q, p, k);
    } else if p < 24 {
      AdvancesLaterInMicroops(q, p, k);
    } else {
      AdvancesLaterInLabels(q, p, k);
    }
  }

  lemma FinishedReducesInFiles(q: nat, p: nat, t: Symbol)
    requires 1 <= p < 8 && Item(q, p, |Rhs(p)|) && CanFollow(Lhs(p), t)
    ensures Action(q, t).Some? && Action(q, t).value + p == 0
  {
  }

  lemma FinishedReducesInDefs(q: nat, p: nat, t: Symbol)
    requires 8 <= p < 12 && Item(q, p, |Rhs(p)|) && CanFollow(Lhs(p), t)
    ensures Action(q, t).Some? && Action(q, t).value + p == 0
  {
  }

  lemma FinishedReducesInLists(q: nat, p: nat, t: Symbol)
    requires 12 <= p < 14 && Item(q, p, |Rhs(p)|) && CanFollow(Lhs(p), t)
    ensures Action(q, t).Some? && Action(q, t).value + p == 0
  {
  }

  lemma FinishedReducesInStatementLists(q: nat, p: nat, t: Symbol)
    requires 14 <= p < 16 && Item(q, p, |Rhs(p)|) && CanFollow(Lhs(p), t)
    ensures Action(q, t).Some? && Action(q, t).value + p == 0
  {
  }

  lemma FinishedReducesInStatements(q: nat, p: nat, t: Symbol)
    requires 14 <= p < 18 && Item(q, p, |Rhs(p)|) && CanFollow(Lhs(p), t)
    ensures Action(q, t).Some? && Action(q, t).value + p == 0
  {
    if p < 16 {
      FinishedReducesInStatementLists(q, p, t);
    }
  }

  lemma FinishedReducesInEnds(q: nat, p: nat, t: Symbol)
    requires 18 <= p < 20 && Item(q, p, |Rhs(p)|) && CanFollow(Lhs(p), t)
    ensures Action(q, t).Some? && Action(q, t).value + p == 0
  {
    assert Lhs(p) == EndOfStatement && |Rhs(p)| == 1;
    assert q == p + 15;
  }

  lemma FinishedReducesInMicroops(q: nat, p: nat, t: Symbol)
    requires 20 <= p < 24 && Item(q, p, |Rhs(p)|) && CanFollow(Lhs(p), t)
    ensures Action(q, t).Some? && Action(q, t).value + p == 0
  {
  }

  lemma FinishedReducesInLabelLists(q: nat, p: nat, t: Symbol)
    requires 24 <= p < 28 && Item(q, p, |Rhs(p)|) && CanFollow(Lhs(p), t)
    ensures Action(q, t).Some? && Action(q, t).value + p == 0
  {
  }

  lemma FinishedReducesInLabels(q: nat, p: nat, t: Symbol)
    requires 24 <= p < 31 && Item(q, p, |Rhs(p)|) && CanFollow(Lhs(p), t)
    ensures Action(q, t).Some? && Action(q, t).value + p == 0
  {
    if p < 28 {
      FinishedReducesInLabelLists(q, p, t);
    }
  }

  /** A finished item reduces on everything that may follow. */
  lemma FinishedReduces(q: nat, p: nat, t: Symbol)
    requires 1 <= p < PRODUCTIONS && Item(q, p, |Rhs(p)|) && CanFollow(Lhs(p), t)
    ensures Action(q, t).Some? && Action(q, t).value + p == 0
  {
    if p < 8 {
      FinishedReducesInFiles(q, p, t);
    } else if p < 12 {
      FinishedReducesInDefs(q, p, t);
    } else if p < 14 {
      FinishedReducesInLists(q, p, t);
    } else if p < 18 {
      FinishedReducesInStatements(q, p, t);
    } else if p < 20 {
      FinishedReducesInEnds(q, p, t);
    } else if p < 24 {
      FinishedReducesInMicroops(q, p, t);
    } else {
      FinishedReducesInLabels(q, p, t);
    }
  }

  // ---- every derivation is replayed ----

  lemma LeafStarts(token: Token)
    ensures CanStart(token.kind, token.kind) && !Nullable(token.kind)
  {
  }

  lemma YieldHead(ts: seq<Tree>)
    requires ts != []
    ensures YieldAll(ts) == Yield(ts[0]) + YieldAll(ts[1..])
  {
    assert ts == [ts[0]] + ts[1..];
    YieldConcat([ts[0]], ts[1..]);
    assert YieldAll([ts[0]]) == Yield(ts[0]);
  }

  ghost predicate Starts(s: Symbol, tokens: seq<Token>) {
    if tokens == [] then Nullable(s) || s == File else CanStart(s, tokens[0].kind)
  }

  lemma NodeStarts(p: nat, first: seq<Token>, rest: seq<Token>)
    requires 1 <= p < PRODUCTIONS && |Rhs(p)| > 0 && first != [] && CanStart(Rhs(p)[0], first[0].kind)
    ensures Starts(Lhs(p), first + rest)
  {
    StartOfFirst(p, first[0].kind);
  }

  lemma NodeStartsLater(p: nat, second: seq<Token>, rest: seq<Token>)
    requires 1 <= p < PRODUCTIONS && |Rhs(p)| > 0 && Starts(Rhs(p)[0], [])
    requires if |Rhs(p)| > 1 then Starts(Rhs(p)[1], second) else second == [] && rest == []
    ensures Starts(Lhs(p), second + rest)
  {
    NullableFirst(p);
  }

  /** What a derivation starts with. */
  lemma {:induction false} YieldStarts(t: Tree)
    requires Valid(t)
    ensures Starts(Root(t), Yield(t))
  {
    match t
    case Leaf(token) => LeafStarts(token);
    case Node(p, kids) =>
      if |kids| == 0 {
        NullableFirst(p);
      } else {
        assert Root(kids[0]) == Rhs(p)[0];
        YieldStarts(kids[0]);
        YieldHead(kids);
        if Yield(kids[0]) != [] {
          NodeStarts(p, Yield(kids[0]), YieldAll(kids[1..]));
        } else if |kids| > 1 {
          YieldStarts(kids[1]);
          YieldHead(kids[1..]);
          NodeStartsLater(p, Yield(kids[1]), YieldAll(kids[2..]));
        } else {
          NodeStartsLater(p, [], []);
        }
      }
  }

  lemma HeadOf(ts: seq<Tree>, rest: seq<Token>)
    requires ts != [] && Yield(ts[0]) != []
    ensures Ahead(YieldAll(ts) + rest) == Yield(ts[0])[0].kind
  {
    YieldHead(ts);
  }

  lemma StartsWithToken(t: Tree)
    requires Valid(t) && !Nullable(Root(t)) && Root(t) != File
    ensures Yield(t) != [] && CanStart(Root(t), Yield(t)[0].kind)
  {
    YieldStarts(t);
  }

  /** The token after the first i + 1 children of a node may follow child i. */
  lemma NextFollows(p: nat, kids: seq<Tree>, i: nat, rest: seq<Token>)
    requires 1 <= p < PRODUCTIONS && Matches(kids, Rhs(p)) && AllValid(kids) && i < |kids|
    requires CanFollow(Lhs(p), Ahead(rest))
    ensures CanFollow(Rhs(p)[i], Ahead(YieldAll(kids[i + 1..]) + rest))
  {
    if i + 1 == |kids| {
      FollowAtEnd(p, Ahead(rest));
      assert YieldAll(kids[i + 1..]) + rest == rest;
    } else {
      NullableOnlyFirst(p, i + 1);
      assert Root(kids[i + 1]) == Rhs(p)[i + 1];
      StartsWithToken(kids[i + 1]);
      HeadOf(kids[i + 1..], rest);
      FollowInside(p, i, Yield(kids[i + 1])[0].kind);
    }
  }

  /** c with t shifted or reduced onto the stack and rest left to read. */
  function Pushed(c: Config, t: Tree, rest: seq<Token>): Config
    requires |c.states| == |c.trees| + 1 && Trans(c.states[|c.trees|], Root(t)).Some?
  {
    Config(c.states + [Trans(c.states[|c.trees|], Root(t)).value], c.trees + [t], rest)
  }

  /** Reading a derivation in a state that expects it puts it on the stack. */
  lemma {:induction false} Replay(t: Tree, c: Config, rest: seq<Token>)
    requires Inv(c) && Valid(t) && c.input == Yield(t) + rest
    requires Trans(c.states[|c.trees|], Root(t)).Some? && CanFollow(Root(t), Ahead(rest))
    ensures Inv(Pushed(c, t, rest)) && Run(c) == Run(Pushed(c, t, rest))
    decreases t
  {
    match t
    case Leaf(token) => ReplayLeaf(token, c, rest);
    case Node(p, kids) =>
      assert kids[0..] == kids;
      assert c.trees + kids[..0] == c.trees;
      ReplayKids(t, 0, c, c, rest);
  }

  lemma ReplayLeaf(token: Token, c: Config, rest: seq<Token>)
    requires Inv(c) && c.input == [token] + rest && Trans(c.states[|c.trees|], token.kind).Some?
    ensures Inv(Pushed(c, Leaf(token), rest)) && Run(c) == Run(Pushed(c, Leaf(token), rest))
  {
    assert Ahead(c.input) == token.kind;
    assert c.input[1..] == rest;
    assert Step(c) == Running(Pushed(c, Leaf(token), rest));
    StepDescends(c);
  }

  /** c holds the first i children of t above c0 and has the other children and rest to read. */
  ghost predicate Reading(t: Tree, i: nat, c0: Config, c: Config, rest: seq<Token>) {
    t.Node? && i <= |t.kids| && 1 <= t.prod < PRODUCTIONS && |c.states| == |c.trees| + 1 && |c.states| >= |c0.states| &&
    c.trees == c0.trees + t.kids[..i] && c.states[..|c0.states|] == c0.states &&
    c.input == YieldAll(t.kids[i..]) + rest && Item(c.states[|c.trees|], t.prod, i)
  }

  /** The next child is expected, and may be followed by what comes after it. */
  lemma KidExpected(t: Tree, i: nat, q: nat, rest: seq<Token>)
    requires t.Node? && Valid(t) && i < |t.kids| && CanFollow(Root(t), Ahead(rest)) && Item(q, t.prod, i)
    ensures Root(t.kids[i]) == Rhs(t.prod)[i] && Advances(q, t.prod, i)
    ensures CanFollow(Root(t.kids[i]), Ahead(YieldAll(t.kids[i + 1..]) + rest))
  {
    NextFollows(t.prod, t.kids, i, rest);
    ItemAdvances(q, t.prod, i);
  }

  lemma KidInput(kids: seq<Tree>, i: nat, rest: seq<Token>)
    requires i < |kids|
    ensures YieldAll(kids[i..]) + rest == Yield(kids[i]) + (YieldAll(kids[i + 1..]) + rest)
  {
    YieldHead(kids[i..]);
    assert kids[i..][1..] == kids[i + 1..];
  }

  lemma PushedPrefix(t: Tree, i: nat, c0: Config, c: Config, rest: seq<Token>, q: nat)
    requires Reading(t, i, c0, c, rest) && i < |t.kids|
    ensures c.trees + [t.kids[i]] == c0.trees + t.kids[..i + 1] && (c.states + [q])[..|c0.states|] == c0.states
  {
    assert t.kids[..i + 1] == t.kids[..i] + [t.kids[i]];
    assert (c.states + [q])[..|c0.states|] == c.states[..|c0.states|];
  }

  lemma KidRead(t: Tree, i: nat, c0: Config, c: Config, rest: seq<Token>)
    requires Reading(t, i, c0, c, rest) && i < |t.kids| && i < |Rhs(t.prod)|
    requires Root(t.kids[i]) == Rhs(t.prod)[i] && Advances(c.states[|c.trees|], t.prod, i)
    ensures Reading(t, i + 1, c0, Pushed(c, t.kids[i], YieldAll(t.kids[i + 1..]) + rest), rest)
  {
    PushedPrefix(t, i, c0, c, rest, Trans(c.states[|c.trees|], Root(t.kids[i])).value);
  }

  /** Reading on from child i of a node whose first i children are on the stack. */
  lemma {:induction false} ReplayKids(t: Tree, i: nat, c0: Config, c: Config, rest: seq<Token>)
    requires Valid(t) && CanFollow(Root(t), Ahead(rest)) && Reading(t, i, c0, c, rest)
    requires Inv(c0) && Goto(c0.states[|c0.trees|], Root(t)).Some? && Inv(c)
    ensures Inv(Pushed(c0, t, rest)) && Run(c) == Run(Pushed(c0, t, rest))
    decreases t, |t.kids| - i
  {
    if i == |t.kids| {
      assert t.kids[..i] == t.kids;
      assert YieldAll(t.kids[i..]) + rest == rest;
      FinishNode(t, c0, c, rest);
    } else {
      var after := YieldAll(t.kids[i + 1..]) + rest;
      KidExpected(t, i, c.states[|c.trees|], rest);
      KidInput(t.kids, i, rest);
      Replay(t.kids[i], c, after);
      KidRead(t, i, c0, c, rest);
      ReplayKids(t, i + 1, c0, Pushed(c, t.kids[i], after), rest);
    }
  }

  lemma ItemAdvances(q: nat, p: nat, k: nat)
    requires 1 <= p < PRODUCTIONS && k < |Rhs(p)| && Item(q, p, k)
    ensures Advances(q, p, k)
  {
    if k == 0 {
      AdvancesFirst(q, p);
    } else {
      AdvancesLater(q, p, k);
    }
  }

  lemma FinishNode(t: Tree, c0: Config, c: Config, rest: seq<Token>)
    requires t.Node? && Valid(t) && CanFollow(Root(t), Ahead(rest))
    requires Inv(c0) && Goto(c0.states[|c0.trees|], Root(t)).Some?
    requires Inv(c) && c.trees == c0.trees + t.kids && c.states[..|c0.states|] == c0.states
    requires c.input == rest && Item(c.states[|c.trees|], t.prod, |t.kids|)
    ensures Inv(Pushed(c0, t, rest)) && Run(c) == Run(Pushed(c0, t, rest))
  {
    var p := t.prod;
    FinishedReduces(c.states[|c.trees|], p, Ahead(rest));
    assert Next(c).value + p == 0;
    ProductionsDefine(p);
    NextOk(c);
    assert Base(c, p) == |c0.trees|;
    assert c.states[..|c0.trees| + 1] == c0.states;
    assert c.trees[..|c0.trees|] == c0.trees && c.trees[|c0.trees|..] == t.kids;
    assert Reduce(c, p) == Pushed(c0, t, rest);
    assert Step(c) == Running(Pushed(c0, t, rest));
    StepDescends(c);
  }

  lemma AcceptsFile(c: Config)
    requires Inv(c) && c.states == [0, 4] && |c.trees| == 1 && c.input == []
    ensures Run(c) == Accepted(c.trees[0])
  {
    assert Next(c) == Some(0);
  }

  /** Every file of the grammar is accepted, and the parse is its derivation. */
  lemma Complete(t: Tree, input: seq<Token>)
    requires Derives(t, input)
    ensures Inv(Init(input)) && Run(Init(input)) == Accepted(t)
  {
    InitInv(input);
    assert input == Yield(t) + [];
    Replay(t, Init(input), []);
    AcceptsFile(Pushed(Init(input), t, []));
  }

  /** Acceptance is derivability, both ways. */
  lemma AcceptsExactly(input: seq<Token>)
    ensures Inv(Init(input)) && (Run(Init(input)).Accepted? <==> exists t :: Derives(t, input))
  {
    Sound(input);
    if t :| Derives(t, input) {
      Complete(t, input);
    }
  }

  /** No token string has two derivations. */
  lemma Unambiguous(t: Tree, t': Tree, input: seq<Token>)
    requires Derives(t, input) && Derives(t', input)
    ensures t == t'
  {
    Complete(t, input);
    Complete(t', input);
  }
}
