/** The micro-assembler's statements as they are written: what the rule actions of micro_asm.py make of a block
    is what its tokens say, read by an independent reader that looks at the tokens alone. */
module MicroAsmText {
  import opened Common
  import opened LrGrammar
  import opened MicroAsmActions

  // ---- tokens that matter ----

  /** Terminators and blank lines say nothing, nor would empty parameters; only names and parameters have text. */
  function Word(t: Token): seq<Token> {
    if t.kind == NEWLINE || t.kind == SEMI || (t.kind == PARAMS && t.text == "") then []
    else if t.kind == ID || t.kind == PARAMS then [t]
    else [RawToken(t.kind, "")]
  }

  function Words(ts: seq<Token>): seq<Token> {
    if ts == [] then [] else Words(ts[..|ts| - 1]) + Word(ts[|ts| - 1])
  }

  lemma Assoc(a: seq<Token>, b: seq<Token>, c: seq<Token>)
    ensures a + (b + c) == a + b + c
  {
  }

  lemma WordsPush(a: seq<Token>, t: Token)
    ensures Words(a + [t]) == Words(a) + Word(t)
  {
    assert (a + [t])[..|a|] == a;
  }

  lemma Snoc<T>(s: seq<T>)
    requires s != []
    ensures s == s[..|s| - 1] + [s[|s| - 1]]
  {
  }

  lemma WordsConcatPush(a: seq<Token>, b: seq<Token>, t: Token)
    requires Words(a + b) == Words(a) + Words(b)
    ensures Words(a + (b + [t])) == Words(a) + Words(b + [t])
  {
    Assoc(a, b, [t]);
    WordsPush(a + b, t);
    WordsPush(b, t);
    Assoc(Words(a), Words(b), Word(t));
  }

  lemma {:induction false} WordsConcat(a: seq<Token>, b: seq<Token>)
    ensures Words(a + b) == Words(a) + Words(b)
  {
    if b == [] {
      assert a + b == a;
    } else {
      Snoc(b);
      WordsConcat(a, b[..|b| - 1]);
      WordsConcatPush(a, b[..|b| - 1], b[|b| - 1]);
    }
  }

  lemma WordsOne(t: Token)
    ensures Words([t]) == Word(t)
  {
    assert [t][..0] == [];
  }

  // ---- how a statement is written ----

  function LabelWords(l: LabelValue): seq<Token> {
    (if l.extern then [RawToken(EXTERN, "")] else []) + [RawToken(ID, l.text), RawToken(COLON, "")]
  }

  function LabelsWords(ls: seq<LabelValue>): seq<Token> {
    if ls == [] then [] else LabelsWords(ls[..|ls| - 1]) + LabelWords(ls[|ls| - 1])
  }

  function ParamWords(params: string): seq<Token> {
    if params == "" then [] else [RawToken(PARAMS, params)]
  }

  /** Labels, mnemonic and parameters, or a dot, a name and parameters. */
  function StatementWords(v: StatementValue): seq<Token> {
    match v
    case MicroopValue(labels, mnemonic, params) => LabelsWords(labels) + [RawToken(ID, mnemonic)] + ParamWords(params)
    case DirectiveValue(name, params) => [RawToken(DOT, "")] + [RawToken(ID, name)] + ParamWords(params)
  }

  function ListWords(vs: seq<StatementValue>): seq<Token> {
    if vs == [] then [] else ListWords(vs[..|vs| - 1]) + StatementWords(vs[|vs| - 1])
  }

  // ---- the actions keep what is written ----

  /** The words of the leaves of t. */
  function TextOf(t: Tree): seq<Token> {
    match t
    case Leaf(token) => Word(token)
    case Node(_, kids) => TextAll(kids)
  }

  function TextAll(ts: seq<Tree>): seq<Token> {
    if ts == [] then [] else TextAll(ts[..|ts| - 1]) + TextOf(ts[|ts| - 1])
  }

  lemma {:induction false} TextIsYield(t: Tree)
    ensures TextOf(t) == Words(Yield(t))
    decreases t, 0
  {
    match t
    case Leaf(token) => WordsOne(token);
    case Node(_, kids) => TextAllIsYield(kids);
  }

  lemma {:induction false} TextAllIsYield(ts: seq<Tree>)
    ensures TextAll(ts) == Words(YieldAll(ts))
    decreases ts, |ts|
  {
    if ts != [] {
      TextAllIsYield(ts[..|ts| - 1]);
      TextIsYield(ts[|ts| - 1]);
      WordsConcat(YieldAll(ts[..|ts| - 1]), Yield(ts[|ts| - 1]));
    }
  }

  lemma TextPush(ts: seq<Tree>, t: Tree)
    ensures TextAll(ts + [t]) == TextAll(ts) + TextOf(t)
  {
    assert (ts + [t])[..|ts|] == ts;
  }

  lemma TextOne(a: Tree)
    ensures TextAll([a]) == TextOf(a)
  {
    TextPush([], a);
    assert [] + [a] == [a] && TextAll([]) + TextOf(a) == TextOf(a);
  }

  lemma TextTwo(a: Tree, b: Tree)
    ensures TextAll([a, b]) == TextOf(a) + TextOf(b)
  {
    TextOne(a);
    TextPush([a], b);
    assert [a] + [b] == [a, b];
  }

  lemma TextThree(a: Tree, b: Tree, c: Tree)
    ensures TextAll([a, b, c]) == TextOf(a) + TextOf(b) + TextOf(c)
  {
    TextTwo(a, b);
    TextPush([a, b], c);
    assert [a, b] + [c] == [a, b, c];
  }

  lemma OneKid(t: Tree)
    requires t.Node? && |t.kids| == 1
    ensures TextOf(t) == TextOf(t.kids[0])
  {
    TextOne(t.kids[0]);
    assert t.kids == [t.kids[0]];
  }

  lemma TwoKids(t: Tree)
    requires t.Node? && |t.kids| == 2
    ensures TextOf(t) == TextOf(t.kids[0]) + TextOf(t.kids[1])
  {
    TextTwo(t.kids[0], t.kids[1]);
    assert t.kids == [t.kids[0], t.kids[1]];
  }

  lemma ThreeKids(t: Tree)
    requires t.Node? && |t.kids| == 3
    ensures TextOf(t) == TextOf(t.kids[0]) + TextOf(t.kids[1]) + TextOf(t.kids[2])
  {
    TextThree(t.kids[0], t.kids[1], t.kids[2]);
    assert t.kids == [t.kids[0], t.kids[1], t.kids[2]];
  }

  /** A child the production says is a token. */
  lemma TokenText(t: Tree, p: nat, i: nat, s: Symbol)
    requires t.Node? && Valid(t) && t.prod == p && i < |Rhs(p)| && Rhs(p)[i] == s && Terminal(s)
    ensures i < |t.kids| && t.kids[i].Leaf? && t.kids[i].token.kind == s && TextOf(t.kids[i]) == Word(t.kids[i].token)
  {
    Kid(t, i);
  }

  lemma LabelWritten(t: Tree)
    requires Is(t, Label)
    ensures TextOf(t) == LabelWords(LabelOf(t))
  {
    LabelRules(t);
    if t.prod == 27 {
      TokenText(t, 27, 0, ID);
      TokenText(t, 27, 1, COLON);
      TwoKids(t);
    } else {
      TokenText(t, 28, 0, EXTERN);
      TokenText(t, 28, 1, ID);
      TokenText(t, 28, 2, COLON);
      ThreeKids(t);
    }
  }

  lemma LabelsPush(ls: seq<LabelValue>, l: LabelValue)
    ensures LabelsWords(ls + [l]) == LabelsWords(ls) + LabelWords(l)
  {
    assert (ls + [l])[..|ls|] == ls;
  }

  lemma LabelsOne(l: LabelValue)
    ensures LabelsWords([l]) == LabelWords(l)
  {
    LabelsPush([], l);
    assert [] + [l] == [l] && LabelsWords([]) + LabelWords(l) == LabelWords(l);
  }

  lemma {:induction false} LabelsWritten(t: Tree)
    requires Is(t, Labels)
    ensures TextOf(t) == LabelsWords(LabelList(t))
    decreases t
  {
    LabelsRules(t);
    if t.prod == 24 {
      OneKid(t);
      LabelWritten(t.kids[0]);
      LabelsOne(LabelOf(t.kids[0]));
    } else if t.prod == 25 {
      TwoKids(t);
      LabelsWritten(t.kids[0]);
      LabelWritten(t.kids[1]);
      LabelsPush(LabelList(t.kids[0]), LabelOf(t.kids[1]));
    } else {
      TwoKids(t);
      LabelsWritten(t.kids[0]);
      TokenText(t, 26, 1, NEWLINE);
    }
  }

  lemma NamedMicroop(t: Tree)
    requires Is(t, Microop) && (t.prod == 21 || t.prod == 23)
    ensures TextOf(t) == StatementWords(MicroopOf(t))
  {
    MicroopRules(t);
    if t.prod == 21 {
      TokenText(t, 21, 0, ID);
      OneKid(t);
    } else {
      TokenText(t, 23, 0, ID);
      TokenText(t, 23, 1, PARAMS);
      TwoKids(t);
    }
  }

  lemma LabelledMicroop(t: Tree)
    requires Is(t, Microop) && (t.prod == 20 || t.prod == 22)
    ensures TextOf(t) == StatementWords(MicroopOf(t))
  {
    MicroopRules(t);
    LabelsWritten(t.kids[0]);
    if t.prod == 20 {
      TokenText(t, 20, 1, ID);
      TwoKids(t);
    } else {
      TokenText(t, 22, 1, ID);
      TokenText(t, 22, 2, PARAMS);
      ThreeKids(t);
    }
  }

  lemma DirectiveWritten(t: Tree)
    requires Is(t, Directive)
    ensures TextOf(t) == StatementWords(DirectiveOf(t))
  {
    DirectiveRules(t);
    if t.prod == 29 {
      TokenText(t, 29, 0, DOT);
      TokenText(t, 29, 1, ID);
      TwoKids(t);
    } else {
      TokenText(t, 30, 0, DOT);
      TokenText(t, 30, 1, ID);
      TokenText(t, 30, 2, PARAMS);
      ThreeKids(t);
    }
  }

  lemma EndWritten(t: Tree)
    requires Is(t, EndOfStatement)
    ensures TextOf(t) == []
  {
    if t.prod == 18 {
      TokenText(t, 18, 0, NEWLINE);
      OneKid(t);
    } else {
      TokenText(t, 19, 0, SEMI);
      OneKid(t);
    }
  }

  function OptionWords(v: Option<StatementValue>): seq<Token> {
    if v.Some? then StatementWords(v.value) else []
  }

  lemma ContentWritten(t: Tree)
    requires Is(t, Statement)
    ensures t.Node? && |t.kids| == 2 && TextOf(t.kids[0]) == OptionWords(StatementOf(t))
  {
    StatementRules(t);
    var content := t.kids[0];
    ContentRules(content);
    if content.prod == 15 {
      OneKid(content);
      MicroopRules(content.kids[0]);
      if content.kids[0].prod == 20 || content.kids[0].prod == 22 {
        LabelledMicroop(content.kids[0]);
      } else {
        NamedMicroop(content.kids[0]);
      }
    } else if content.prod == 16 {
      OneKid(content);
      DirectiveWritten(content.kids[0]);
    } else {
      assert content.kids == [];
    }
  }

  lemma StatementWritten(t: Tree)
    requires Is(t, Statement)
    ensures TextOf(t) == OptionWords(StatementOf(t))
  {
    ContentWritten(t);
    Kid(t, 1);
    TwoKids(t);
    EndWritten(t.kids[1]);
    assert TextOf(t.kids[0]) + [] == TextOf(t.kids[0]);
  }

  lemma ListPush(vs: seq<StatementValue>, v: Option<StatementValue>)
    ensures ListWords(if v.Some? then vs + [v.value] else vs) == ListWords(vs) + OptionWords(v)
  {
    if v.Some? {
      assert (vs + [v.value])[..|vs|] == vs;
    }
  }

  lemma FirstStatement(v: Option<StatementValue>)
    ensures ListWords(if v.Some? then [v.value] else []) == OptionWords(v)
  {
    ListPush([], v);
    assert v.Some? ==> [] + [v.value] == [v.value];
    assert ListWords([]) + OptionWords(v) == OptionWords(v);
  }

  /** The words of a block's statements are those its list is written with. */
  lemma {:induction false} StatementsWritten(t: Tree)
    requires Is(t, Statements)
    ensures TextOf(t) == ListWords(StatementList(t))
    decreases t
  {
    StatementsRules(t);
    if t.prod == 12 {
      OneKid(t);
      StatementWritten(t.kids[0]);
      FirstStatement(StatementOf(t.kids[0]));
    } else {
      TwoKids(t);
      StatementsWritten(t.kids[0]);
      StatementWritten(t.kids[1]);
      ListPush(StatementList(t.kids[0]), StatementOf(t.kids[1]));
    }
  }

  // ---- reading the words back, from the last to the first ----

  function LastKind(ws: seq<Token>): Option<Symbol> {
    if ws == [] then None else Some(ws[|ws| - 1].kind)
  }

  /** The labels at the end of ws, and what comes before them. */
  function ReadLabels(ws: seq<Token>): (r: (seq<LabelValue>, seq<Token>))
    ensures |r.1| <= |ws|
  {
    if |ws| < 2 || ws[|ws| - 1].kind != COLON then ([], ws)
    else
      var before := ws[..|ws| - 2];
      var extern := LastKind(before) == Some(EXTERN);
      var (ls, rest) := ReadLabels(if extern then before[..|before| - 1] else before);
      (ls + [LabelValue(extern, ws[|ws| - 2].text)], rest)
  }

  /** The statements ws is made of. */
  function ReadList(ws: seq<Token>): seq<StatementValue>
    decreases |ws|
  {
    var params := if LastKind(ws) == Some(PARAMS) then ws[|ws| - 1].text else "";
    var named := if LastKind(ws) == Some(PARAMS) then ws[..|ws| - 1] else ws;
    if named == [] then []
    else
      var name, before := named[|named| - 1].text, named[..|named| - 1];
      if LastKind(before) == Some(DOT) then ReadList(before[..|before| - 1]) + [DirectiveValue(name, params)]
      else
        var (labels, rest) := ReadLabels(before);
        ReadList(rest) + [MicroopValue(labels, name, params)]
  }

  lemma LastOfConcat(a: seq<Token>, b: seq<Token>)
    ensures LastKind(a + b) == if b == [] then LastKind(a) else LastKind(b)
  {
    assert b == [] ==> a + b == a;
  }

  lemma {:induction false} LabelsEnd(ls: seq<LabelValue>)
    ensures ls != [] ==> LabelsWords(ls) != [] && LastKind(LabelsWords(ls)) == Some(COLON)
  {
  }

  lemma ReadNoLabels(pre: seq<Token>)
    requires LastKind(pre) != Some(COLON)
    ensures ReadLabels(pre + LabelsWords([])) == ([], pre)
  {
    assert pre + LabelsWords([]) == pre;
  }

  lemma ReadOneMore(pre: seq<Token>, ls: seq<LabelValue>, l: LabelValue)
    requires LastKind(pre) != Some(EXTERN) && ReadLabels(pre + LabelsWords(ls)) == (ls, pre)
    ensures ReadLabels(pre + LabelsWords(ls + [l])) == (ls + [l], pre)
  {
    LabelsEnd(ls);
    LastOfConcat(pre, LabelsWords(ls));
    LabelsPush(ls, l);
    Assoc(pre, LabelsWords(ls), LabelWords(l));
    ReadLabel(pre + LabelsWords(ls), l);
  }

  lemma {:induction false} ReadLabelsBack(pre: seq<Token>, ls: seq<LabelValue>)
    requires LastKind(pre) != Some(COLON) && LastKind(pre) != Some(EXTERN)
    ensures ReadLabels(pre + LabelsWords(ls)) == (ls, pre)
  {
    if ls == [] {
      ReadNoLabels(pre);
    } else {
      Snoc(ls);
      ReadLabelsBack(pre, ls[..|ls| - 1]);
      ReadOneMore(pre, ls[..|ls| - 1], ls[|ls| - 1]);
    }
  }

  lemma ReadLabel(head: seq<Token>, l: LabelValue)
    requires LastKind(head) != Some(EXTERN)
    ensures var (ls, rest) := ReadLabels(head); ReadLabels(head + LabelWords(l)) == (ls + [l], rest)
  {
    var ws := head + LabelWords(l);
    if l.extern {
      var before := ws[..|ws| - 2];
      assert before == head + [RawToken(EXTERN, "")];
      assert before[..|before| - 1] == head;
    } else {
      assert ws[..|ws| - 2] == head;
    }
  }

  lemma {:induction false} ListEnd(vs: seq<StatementValue>)
    ensures vs != [] ==> LastKind(ListWords(vs)) == Some(ID) || LastKind(ListWords(vs)) == Some(PARAMS)
  {
  }

  /** The statement that ends in a name, given what stands before it. */
  function ReadFrom(before: seq<Token>, name: string, params: string): seq<StatementValue> {
    if LastKind(before) == Some(DOT) then ReadList(before[..|before| - 1]) + [DirectiveValue(name, params)]
    else ReadList(ReadLabels(before).1) + [MicroopValue(ReadLabels(before).0, name, params)]
  }

  lemma ReadBare(before: seq<Token>, name: string)
    ensures ReadList(before + [RawToken(ID, name)]) == ReadFrom(before, name, "")
  {
    var ws := before + [RawToken(ID, name)];
    assert ws[..|ws| - 1] == before;
  }

  lemma ReadWithParams(before: seq<Token>, name: string, params: string)
    ensures ReadList(before + [RawToken(ID, name)] + [RawToken(PARAMS, params)]) == ReadFrom(before, name, params)
  {
    var named := before + [RawToken(ID, name)];
    var ws := named + [RawToken(PARAMS, params)];
    assert ws[..|ws| - 1] == named && named[..|named| - 1] == before;
  }

  /** Reading a name with parameters from the end. */
  lemma ReadNamed(before: seq<Token>, name: string, params: string)
    ensures ReadList(before + [RawToken(ID, name)] + ParamWords(params)) == ReadFrom(before, name, params)
  {
    if params == "" {
      ReadBare(before, name);
      assert before + [RawToken(ID, name)] + [] == before + [RawToken(ID, name)];
    } else {
      ReadWithParams(before, name, params);
    }
  }

  lemma ReadMicroop(pre: seq<Token>, v: StatementValue)
    requires LastKind(pre) in {None, Some(ID), Some(PARAMS)} && v.MicroopValue?
    ensures ReadList(pre + StatementWords(v)) == ReadList(pre) + [v]
  {
    var before := pre + LabelsWords(v.labels);
    ReadLabelsBack(pre, v.labels);
    LabelsEnd(v.labels);
    LastOfConcat(pre, LabelsWords(v.labels));
    ReadNamed(before, v.mnemonic, v.params);
    AssocFour(pre, LabelsWords(v.labels), [RawToken(ID, v.mnemonic)], ParamWords(v.params));
  }

  lemma ReadDirective(pre: seq<Token>, v: StatementValue)
    requires v.DirectiveValue?
    ensures ReadList(pre + StatementWords(v)) == ReadList(pre) + [v]
  {
    var before := pre + [RawToken(DOT, "")];
    assert before[..|before| - 1] == pre;
    ReadNamed(before, v.name, v.params);
    AssocFour(pre, [RawToken(DOT, "")], [RawToken(ID, v.name)], ParamWords(v.params));
  }

  lemma AssocFour(a: seq<Token>, b: seq<Token>, c: seq<Token>, d: seq<Token>)
    ensures a + (b + c + d) == a + b + c + d
  {
  }

  /** One statement read from the end of the words. */
  lemma ReadStatement(pre: seq<Token>, v: StatementValue)
    requires LastKind(pre) in {None, Some(ID), Some(PARAMS)}
    ensures ReadList(pre + StatementWords(v)) == ReadList(pre) + [v]
  {
    match v
    case MicroopValue(_, _, _) => ReadMicroop(pre, v);
    case DirectiveValue(_, _) => ReadDirective(pre, v);
  }

  lemma ReadOneStatementMore(vs: seq<StatementValue>, v: StatementValue)
    requires ReadList(ListWords(vs)) == vs
    ensures ReadList(ListWords(vs + [v])) == vs + [v]
  {
    ListPush(vs, Some(v));
    ListEnd(vs);
    ReadStatement(ListWords(vs), v);
  }

  /** What is written is read back: no two lists are written alike. */
  lemma {:induction false} ReadListBack(vs: seq<StatementValue>)
    ensures ReadList(ListWords(vs)) == vs
  {
    if vs != [] {
      Snoc(vs);
      ReadListBack(vs[..|vs| - 1]);
      ReadOneStatementMore(vs[..|vs| - 1], vs[|vs| - 1]);
    }
  }

  /** So a block's list is determined by its tokens: labels with their extern marks, mnemonics, directive names
      and parameters, each where it is written. */
  lemma StatementListRead(t: Tree)
    requires Is(t, Statements)
    ensures StatementList(t) == ReadList(Words(Yield(t)))
  {
    TextIsYield(t);
    StatementsWritten(t);
    ReadListBack(StatementList(t));
  }
}
