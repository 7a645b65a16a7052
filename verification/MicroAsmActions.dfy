/** The micro-assembler's rule actions (micro_asm.py): what the lists of statements and labels hold. */
module MicroAsmActions {
  import opened Common
  import opened LrGrammar

  datatype LabelValue = LabelValue(extern: bool, text: string)

  datatype StatementValue =
    | MicroopValue(labels: seq<LabelValue>, mnemonic: string, params: string)
    | DirectiveValue(name: string, params: string)

  ghost predicate Is(t: Tree, s: Symbol) {
    Valid(t) && Root(t) == s
  }

  /** The children of a node are of the kinds its production names. */
  lemma Kid(t: Tree, i: nat)
    requires t.Node? && Valid(t) && i < |Rhs(t.prod)|
    ensures i < |t.kids| && Is(t.kids[i], Rhs(t.prod)[i])
    ensures Terminal(Rhs(t.prod)[i]) ==> t.kids[i].Leaf?
  {
    if t.kids[i].Node? {
      NodesAreNonterminals(t.kids[i].prod);
    }
  }

  lemma NodesAreNonterminals(p: nat)
    requires 1 <= p < PRODUCTIONS
    ensures !Terminal(Lhs(p))
  {
  }

  lemma LabelRules(t: Tree)
    requires Is(t, Label)
    ensures t.Node? && (t.prod == 27 || t.prod == 28)
    ensures t.prod == 27 ==> |t.kids| == 2 && t.kids[0].Leaf?
    ensures t.prod == 28 ==> |t.kids| == 3 && t.kids[1].Leaf?
  {
    if t.prod == 27 {
      Kid(t, 0);
    } else {
      Kid(t, 1);
    }
  }

  ghost function LabelOf(t: Tree): LabelValue
    requires Is(t, Label)
  {
    LabelRules(t);
    if t.prod == 27 then LabelValue(false, t.kids[0].token.text) else LabelValue(true, t.kids[1].token.text)
  }

  lemma LabelsRules(t: Tree)
    requires Is(t, Labels)
    ensures t.Node? && (t.prod == 24 || t.prod == 25 || t.prod == 26)
    ensures t.prod == 24 ==> |t.kids| == 1 && Is(t.kids[0], Label)
    ensures t.prod == 25 ==> |t.kids| == 2 && Is(t.kids[0], Labels) && Is(t.kids[1], Label)
    ensures t.prod == 26 ==> |t.kids| == 2 && Is(t.kids[0], Labels) && t.kids[1].Leaf? && Root(t.kids[1]) == NEWLINE
  {
    Kid(t, 0);
    if t.prod != 24 {
      Kid(t, 1);
    }
  }

  /** The list the label rules build: a new list, then one label appended at a time. */
  ghost function LabelList(t: Tree): seq<LabelValue>
    requires Is(t, Labels)
    decreases t
  {
    LabelsRules(t);
    if t.prod == 24 then [LabelOf(t.kids[0])]
    else if t.prod == 25 then LabelList(t.kids[0]) + [LabelOf(t.kids[1])]
    else LabelList(t.kids[0])
  }

  // ---- the subtrees of a kind, left to right ----

  function Collect(t: Tree, s: Symbol): seq<Tree>
    decreases t, 0
  {
    if Root(t) == s then [t] else if t.Leaf? then [] else CollectAll(t.kids, s)
  }

  function CollectAll(ts: seq<Tree>, s: Symbol): seq<Tree>
    decreases ts, 1
  {
    if ts == [] then [] else Collect(ts[0], s) + CollectAll(ts[1..], s)
  }

  ghost predicate AllAre(ts: seq<Tree>, s: Symbol) {
    forall i :: 0 <= i < |ts| ==> Is(ts[i], s)
  }

  lemma CollectPair(t: Tree, s: Symbol)
    requires t.Node? && Root(t) != s && |t.kids| == 2
    ensures Collect(t, s) == Collect(t.kids[0], s) + Collect(t.kids[1], s)
  {
    assert CollectAll(t.kids[1..][1..], s) == [];
    assert CollectAll(t.kids[1..], s) == Collect(t.kids[1], s);
  }

  lemma CollectSingle(t: Tree, s: Symbol)
    requires t.Node? && Root(t) != s && |t.kids| == 1
    ensures Collect(t, s) == Collect(t.kids[0], s)
  {
    assert CollectAll(t.kids[1..], s) == [];
  }

  ghost function LabelsOf(ts: seq<Tree>): seq<LabelValue>
    requires AllAre(ts, Label)
  {
    seq(|ts|, i requires 0 <= i < |ts| => LabelOf(ts[i]))
  }

  /** The label list holds exactly the labels written, in order; blank lines between them leave no trace. */
  lemma {:induction false} LabelListExact(t: Tree)
    requires Is(t, Labels)
    ensures AllAre(Collect(t, Label), Label) && LabelList(t) == LabelsOf(Collect(t, Label))
    decreases t
  {
    LabelsRules(t);
    if t.prod == 24 {
      CollectSingle(t, Label);
    } else {
      LabelListExact(t.kids[0]);
      CollectPair(t, Label);
    }
  }

  // ---- statements ----

  lemma MicroopRules(t: Tree)
    requires Is(t, Microop)
    ensures t.Node? && 20 <= t.prod <= 23
    ensures t.prod == 20 ==> |t.kids| == 2 && Is(t.kids[0], Labels) && t.kids[1].Leaf?
    ensures t.prod == 21 ==> |t.kids| == 1 && t.kids[0].Leaf?
    ensures t.prod == 22 ==> |t.kids| == 3 && Is(t.kids[0], Labels) && t.kids[1].Leaf? && t.kids[2].Leaf?
    ensures t.prod == 23 ==> |t.kids| == 2 && t.kids[0].Leaf? && t.kids[1].Leaf?
  {
    Kid(t, 0);
    if t.prod != 21 {
      Kid(t, 1);
    }
    if t.prod == 22 {
      Kid(t, 2);
    }
  }

  ghost function MicroopOf(t: Tree): StatementValue
    requires Is(t, Microop)
  {
    MicroopRules(t);
    if t.prod == 20 then MicroopValue(LabelList(t.kids[0]), t.kids[1].token.text, "")
    else if t.prod == 21 then MicroopValue([], t.kids[0].token.text, "")
    else if t.prod == 22 then MicroopValue(LabelList(t.kids[0]), t.kids[1].token.text, t.kids[2].token.text)
    else MicroopValue([], t.kids[0].token.text, t.kids[1].token.text)
  }

  lemma DirectiveRules(t: Tree)
    requires Is(t, Directive)
    ensures t.Node? && (t.prod == 29 || t.prod == 30) && |t.kids| >= 2 && t.kids[1].Leaf?
    ensures t.prod == 30 ==> |t.kids| == 3 && t.kids[2].Leaf?
  {
    Kid(t, 1);
    if t.prod == 30 {
      Kid(t, 2);
    }
  }

  ghost function DirectiveOf(t: Tree): StatementValue
    requires Is(t, Directive)
  {
    DirectiveRules(t);
    DirectiveValue(t.kids[1].token.text, if t.prod == 30 then t.kids[2].token.text else "")
  }

  lemma StatementRules(t: Tree)
    requires Is(t, Statement)
    ensures t.Node? && |t.kids| == 2 && Is(t.kids[0], ContentOfStatement)
  {
    Kid(t, 0);
  }

  lemma ContentRules(t: Tree)
    requires Is(t, ContentOfStatement)
    ensures t.Node? && 15 <= t.prod <= 17
    ensures t.prod == 15 ==> |t.kids| == 1 && Is(t.kids[0], Microop)
    ensures t.prod == 16 ==> |t.kids| == 1 && Is(t.kids[0], Directive)
  {
    if t.prod != 17 {
      Kid(t, 0);
    }
  }

  /** What a statement stands for, nothing if it is empty. */
  ghost function StatementOf(t: Tree): Option<StatementValue>
    requires Is(t, Statement)
  {
    StatementRules(t);
    ContentRules(t.kids[0]);
    if t.kids[0].prod == 15 then Some(MicroopOf(t.kids[0].kids[0]))
    else if t.kids[0].prod == 16 then Some(DirectiveOf(t.kids[0].kids[0]))
    else None
  }

  lemma StatementsRules(t: Tree)
    requires Is(t, Statements)
    ensures t.Node? && (t.prod == 12 || t.prod == 13)
    ensures t.prod == 12 ==> |t.kids| == 1 && Is(t.kids[0], Statement)
    ensures t.prod == 13 ==> |t.kids| == 2 && Is(t.kids[0], Statements) && Is(t.kids[1], Statement)
  {
    Kid(t, 0);
    if t.prod == 13 {
      Kid(t, 1);
    }
  }

  /** The list the statement rules build. */
  ghost function StatementList(t: Tree): seq<StatementValue>
    requires Is(t, Statements)
    decreases t
  {
    StatementsRules(t);
    if t.prod == 12 then
      var s := StatementOf(t.kids[0]);
      if s.Some? then [s.value] else []
    else
      var s := StatementOf(t.kids[1]);
      if s.Some? then StatementList(t.kids[0]) + [s.value] else StatementList(t.kids[0])
  }

  /** The statements that are not empty, in order. */
  ghost function Present(ts: seq<Tree>): seq<StatementValue>
    requires AllAre(ts, Statement)
  {
    if ts == [] then []
    else Present(ts[..|ts| - 1]) + match StatementOf(ts[|ts| - 1]) case None => [] case Some(v) => [v]
  }

  lemma PresentPush(ts: seq<Tree>, t: Tree)
    requires AllAre(ts, Statement) && Is(t, Statement)
    ensures AllAre(ts + [t], Statement)
    ensures Present(ts + [t]) == if StatementOf(t).Some? then Present(ts) + [StatementOf(t).value] else Present(ts)
  {
    assert (ts + [t])[..|ts|] == ts;
  }

  ghost predicate ListExact(list: seq<StatementValue>, ts: seq<Tree>) {
    AllAre(ts, Statement) && list == Present(ts)
  }

  lemma OneStatement(t: Tree)
    requires Is(t, Statement)
    ensures ListExact(if StatementOf(t).Some? then [StatementOf(t).value] else [], [t])
  {
    PresentPush([], t);
    assert [] + [t] == [t];
  }

  lemma OneMore(list: seq<StatementValue>, ts: seq<Tree>, t: Tree)
    requires ListExact(list, ts) && Is(t, Statement)
    ensures ListExact(if StatementOf(t).Some? then list + [StatementOf(t).value] else list, ts + [t])
  {
    PresentPush(ts, t);
  }

  /** A block's list holds exactly its non-empty statements, in order. */
  lemma {:induction false} StatementListExact(t: Tree)
    requires Is(t, Statements)
    ensures ListExact(StatementList(t), Collect(t, Statement))
    decreases t
  {
    StatementsRules(t);
    if t.prod == 12 {
      CollectSingle(t, Statement);
      OneStatement(t.kids[0]);
    } else {
      StatementListExact(t.kids[0]);
      CollectPair(t, Statement);
      OneMore(StatementList(t.kids[0]), Collect(t.kids[0], Statement), t.kids[1]);
    }
  }
}
