/** The decode compiler (isa_parser.py): decode blocks become nested switches.  Cases holding a nested
    switch carry no break, so the text is right only because every inner switch has a default. */
module DecodeCompiler {
  import opened Common
  import opened DecodeTree

  // ---- the emitted code and how C runs it ----

  /** An item of a switch body.  A leaf is an instruction's decode code, which returns. */
  datatype Item =
    | CaseAt(value: nat)
    | DefaultAt
    | Return(def: Def)
    | Break
    | Directive(text: string)
    | Switch(field: string, body: seq<Item>)

  datatype Flow = Returned(def: Def) | Left

  /** Running a body from its first item: labels are passed, break leaves, and a nested switch that is
      left falls through to what follows it. */
  function Exec(items: seq<Item>, env: Fields): Flow
    decreases items, 0
  {
    if items == [] then Left
    else
      match items[0]
      case Return(d) => Returned(d)
      case Break => Left
      case Switch(field, body) =>
        (match ExecSwitch(field, body, env)
         case Returned(d) => Returned(d)
         case Left => Exec(items[1..], env))
      case _ => Exec(items[1..], env)
  }

  /** A switch jumps to the first label for its value, else to the default label, else past its body. */
  function ExecSwitch(field: string, body: seq<Item>, env: Fields): Flow
    decreases body, 2
  {
    match JumpCase(body, env(field), env)
    case Some(flow) => flow
    case None =>
      match JumpDefault(body, env)
      case Some(flow) => flow
      case None => Left
  }

  function JumpCase(items: seq<Item>, v: nat, env: Fields): Option<Flow>
    decreases items, 1
  {
    if items == [] then None
    else if items[0] == CaseAt(v) then Some(Exec(items, env))
    else JumpCase(items[1..], v, env)
  }

  function JumpDefault(items: seq<Item>, env: Fields): Option<Flow>
    decreases items, 1
  {
    if items == [] then None
    else if items[0] == DefaultAt then Some(Exec(items, env))
    else JumpDefault(items[1..], env)
  }

  // ---- what the rules compute ----

  datatype ParseError = NoActiveFormat | UndefinedFormat(name: string) | TwoDefaults | NoDefaultInScope

  /** The parts of a GenCode object: the decode text, whether it holds an explicit default case, and the
      instructions whose definitions go to the other outputs. */
  datatype Code = Code(body: seq<Item>, hasDefault: bool, defs: seq<Def>)

  function Join(a: Code, b: Code): Code {
    Code(a.body + b.body, a.hasDefault || b.hasDefault, a.defs + b.defs)
  }

  function Define(inst: Inst, fmt: Option<string>, formats: set<string>): Result<Def, ParseError> {
    if inst.format.Some? then
      if inst.format.value in formats then Ok(Def(inst.format.value, inst.name))
      else Err(UndefinedFormat(inst.format.value))
    else if fmt.Some? then Ok(Def(fmt.value, inst.name))
    else Err(NoActiveFormat)
  }

  /** An instruction is defined by the format it resolves to, if that is known; the error says which format is
      not, or that there is none. */
  lemma DefineExactly(inst: Inst, fmt: Option<string>, formats: set<string>)
    ensures match Define(inst, fmt, formats)
            case Ok(d) => Resolve(inst, fmt) == Some(d) && (inst.format.Some? ==> inst.format.value in formats)
            case Err(UndefinedFormat(f)) => inst.format == Some(f) && f !in formats
            case Err(e) => e == NoActiveFormat && Resolve(inst, fmt) == None
  {
  }

  function LabelItems(at: CaseLabel): seq<Item> {
    match at
    case DefaultCase => [DefaultAt]
    case Values(first, rest) => [CaseAt(first)] + Cases(rest)
  }

  function Cases(vs: seq<nat>): seq<Item> {
    if vs == [] then [] else [CaseAt(vs[0])] + Cases(vs[1..])
  }

  function DefaultCode(d: Def): Code {
    Code([DefaultAt, Return(d), Break], false, [d])
  }

  function LeafCode(at: CaseLabel, d: Def): Code {
    Code(LabelItems(at) + [Return(d), Break], at.DefaultCase?, [d])
  }

  function NestedCode(at: CaseLabel, code: Code): Code {
    Code(LabelItems(at) + code.body, at.DefaultCase?, code.defs)
  }

  /** The default pushed for a block. */
  function PushedDefault(b: Block, fmt: Option<string>, dflt: Option<Code>, formats: set<string>):
    Result<Option<Code>, ParseError>
  {
    match b.dflt
    case None => Ok(dflt)
    case Some(inst) =>
      match Define(inst, fmt, formats)
      case Err(e) => Err(e)
      case Ok(d) => Ok(Some(DefaultCode(d)))
  }

  /** Closing a block: the default in force is added unless there is an explicit one. */
  function Close(field: string, code: Code, dflt: Option<Code>): Result<Code, ParseError> {
    if code.hasDefault then Ok(Code([Switch(field, code.body)], true, code.defs))
    else if dflt.None? then Err(NoDefaultInScope)
    else Ok(Code([Switch(field, Join(code, dflt.value).body)], dflt.value.hasDefault, Join(code, dflt.value).defs))
  }

  function Compile(b: Block, fmt: Option<string>, dflt: Option<Code>, formats: set<string>): Result<Code, ParseError> {
    match PushedDefault(b, fmt, dflt, formats)
    case Err(e) => Err(e)
    case Ok(d) =>
      match CompileStmts(b.stmts, fmt, d, formats)
      case Err(e) => Err(e)
      case Ok(code) => Close(b.field, code, d)
  }

  function CompileStmts(ss: Stmts, fmt: Option<string>, dflt: Option<Code>, formats: set<string>)
    : Result<Code, ParseError>
  {
    match ss
    case One(s) => CompileStmt(s, fmt, dflt, formats)
    case More(s, rest) =>
      match CompileStmt(s, fmt, dflt, formats)
      case Err(e) => Err(e)
      case Ok(c) =>
        match CompileStmts(rest, fmt, dflt, formats)
        case Err(e) => Err(e)
        case Ok(c') => if c.hasDefault && c'.hasDefault then Err(TwoDefaults) else Ok(Join(c, c'))
  }

  function CompileStmt(s: Stmt, fmt: Option<string>, dflt: Option<Code>, formats: set<string>)
    : Result<Code, ParseError>
  {
    match s
    case Cpp(text) => Ok(Code([Directive(text)], false, []))
    case Format(name, ss) =>
      if name in formats then CompileStmts(ss, Some(name), dflt, formats) else Err(UndefinedFormat(name))
    case Nested(at, block) =>
      (match Compile(block, fmt, dflt, formats)
       case Err(e) => Err(e)
       case Ok(code) => Ok(NestedCode(at, code)))
    case Leaf(at, inst) =>
      match Define(inst, fmt, formats)
      case Err(e) => Err(e)
      case Ok(d) => Ok(LeafCode(at, d))
  }

  // ---- the emitted switch computes the tree's meaning ----

  function AsCode(dflt: Option<Def>): Option<Code> {
    match dflt
    case None => None
    case Some(d) => Some(DefaultCode(d))
  }

  /** What an arm of a block leads to. */
  function ArmMeaning(arm: Arm, env: Fields, dflt: Option<Def>): Option<Def> {
    match arm.target
    case ToInst(inst) => Resolve(inst, arm.format)
    case ToBlock(b) => Decode(b, env, arm.format, dflt)
  }

  /** Running from an arm's code returns what the arm means. */
  ghost predicate Reaches(flow: Option<Flow>, arm: Option<Arm>, env: Fields, dflt: Option<Def>, other: Option<Flow>) {
    match arm
    case None => flow == other
    case Some(a) => ArmMeaning(a, env, dflt).Some? && flow == Some(Returned(ArmMeaning(a, env, dflt).value))
  }

  /** code followed by anything behaves as the cases of these arms, in order, followed by it. */
  ghost predicate Implements(code: Code, arms: seq<Arm>, env: Fields, dflt: Option<Def>) {
    (code.hasDefault <==> FirstDefault(arms).Some?) &&
    forall more: seq<Item> {:trigger code.body + more} ::
      (forall v: nat {:trigger JumpCase(code.body + more, v, env)} ::
        Reaches(JumpCase(code.body + more, v, env), FirstNaming(arms, v), env, dflt, JumpCase(more, v, env))) &&
      Reaches(JumpDefault(code.body + more, env), FirstDefault(arms), env, dflt, JumpDefault(more, env))
  }

  lemma {:induction false} CasesRun(vs: seq<nat>, tail: seq<Item>, v: nat, env: Fields)
    requires Exec(tail, env).Returned?
    ensures Exec(Cases(vs) + tail, env) == Exec(tail, env)
    ensures JumpCase(Cases(vs) + tail, v, env) == if v in vs then Some(Exec(tail, env)) else JumpCase(tail, v, env)
    ensures JumpDefault(Cases(vs) + tail, env) == JumpDefault(tail, env)
  {
    if vs == [] {
      assert Cases(vs) + tail == tail;
    } else {
      assert Cases(vs) + tail == [CaseAt(vs[0])] + (Cases(vs[1..]) + tail);
      CasesRun(vs[1..], tail, v, env);
    }
  }

  lemma LabelRun(at: CaseLabel, tail: seq<Item>, v: nat, env: Fields)
    requires Exec(tail, env).Returned?
    ensures JumpCase(LabelItems(at) + tail, v, env) ==
            if Names(at, v) then Some(Exec(tail, env)) else JumpCase(tail, v, env)
    ensures JumpDefault(LabelItems(at) + tail, env) ==
            if at.DefaultCase? then Some(Exec(tail, env)) else JumpDefault(tail, env)
  {
    match at
    case DefaultCase => assert LabelItems(at) + tail == [DefaultAt] + tail;
    case Values(first, rest) =>
      assert LabelItems(at) + tail == [CaseAt(first)] + (Cases(rest) + tail);
      CasesRun(rest, tail, v, env);
  }

  /** core returns d when run and holds no label of this switch. */
  ghost predicate Solid(core: seq<Item>, d: Def, env: Fields) {
    |core| > 0 &&
    (core[0] == Return(d) || (core[0].Switch? && ExecSwitch(core[0].field, core[0].body, env) == Returned(d))) &&
    (|core| == 1 || (|core| == 2 && core[1] == Break))
  }

  lemma SolidRun(core: seq<Item>, d: Def, env: Fields, more: seq<Item>, v: nat)
    requires Solid(core, d, env)
    ensures Exec(core + more, env) == Returned(d)
    ensures JumpCase(core + more, v, env) == JumpCase(more, v, env)
    ensures JumpDefault(core + more, env) == JumpDefault(more, env)
  {
    var rest := core[1..] + more;
    assert core + more == [core[0]] + rest;
    if |core| == 2 {
      assert rest == [Break] + more;
    } else {
      assert rest == more;
    }
  }

  lemma CaseImplements(arm: Arm, core: seq<Item>, defs: seq<Def>, d: Def, env: Fields, dflt: Option<Def>)
    requires Solid(core, d, env) && ArmMeaning(arm, env, dflt) == Some(d)
    ensures Implements(Code(LabelItems(arm.at) + core, arm.at.DefaultCase?, defs), [arm], env, dflt)
  {
    var items := LabelItems(arm.at) + core;
    forall more: seq<Item>
      ensures forall v: nat {:trigger JumpCase(items + more, v, env)} ::
        Reaches(JumpCase(items + more, v, env), FirstNaming([arm], v), env, dflt, JumpCase(more, v, env))
      ensures Reaches(JumpDefault(items + more, env), FirstDefault([arm]), env, dflt, JumpDefault(more, env))
    {
      assert items + more == LabelItems(arm.at) + (core + more);
      forall v: nat
        ensures Reaches(JumpCase(items + more, v, env), FirstNaming([arm], v), env, dflt, JumpCase(more, v, env))
        ensures Reaches(JumpDefault(items + more, env), FirstDefault([arm]), env, dflt, JumpDefault(more, env))
      {
        SolidRun(core, d, env, more, v);
        LabelRun(arm.at, core + more, v, env);
      }
      var v: nat := 0;
      SolidRun(core, d, env, more, v);
      LabelRun(arm.at, core + more, v, env);
    }
  }

  lemma {:induction false} FirstConcat(a: seq<Arm>, b: seq<Arm>, v: nat)
    ensures FirstNaming(a + b, v) == if FirstNaming(a, v).Some? then FirstNaming(a, v) else FirstNaming(b, v)
    ensures FirstDefault(a + b) == if FirstDefault(a).Some? then FirstDefault(a) else FirstDefault(b)
  {
    if a == [] {
      assert a + b == b;
    } else {
      assert (a + b)[1..] == a[1..] + b;
      FirstConcat(a[1..], b, v);
    }
  }

  lemma JoinImplements(a: Code, b: Code, armsA: seq<Arm>, armsB: seq<Arm>, env: Fields, dflt: Option<Def>)
    requires Implements(a, armsA, env, dflt) && Implements(b, armsB, env, dflt)
    ensures Implements(Join(a, b), armsA + armsB, env, dflt)
  {
    var ab, arms := Join(a, b), armsA + armsB;
    FirstConcat(armsA, armsB, 0);
    forall more: seq<Item>
      ensures forall v: nat {:trigger JumpCase(ab.body + more, v, env)} ::
        Reaches(JumpCase(ab.body + more, v, env), FirstNaming(arms, v), env, dflt, JumpCase(more, v, env))
      ensures Reaches(JumpDefault(ab.body + more, env), FirstDefault(arms), env, dflt, JumpDefault(more, env))
    {
      assert ab.body + more == a.body + (b.body + more);
      forall v: nat
        ensures Reaches(JumpCase(ab.body + more, v, env), FirstNaming(arms, v), env, dflt, JumpCase(more, v, env))
      {
        FirstConcat(armsA, armsB, v);
      }
    }
  }

  lemma CppImplements(text: string, env: Fields, dflt: Option<Def>)
    ensures Implements(Code([Directive(text)], false, []), [], env, dflt)
  {
    forall more: seq<Item>
      ensures forall v: nat {:trigger JumpCase([Directive(text)] + more, v, env)} ::
        JumpCase([Directive(text)] + more, v, env) == JumpCase(more, v, env)
      ensures JumpDefault([Directive(text)] + more, env) == JumpDefault(more, env)
    {
      assert ([Directive(text)] + more)[1..] == more;
    }
  }

  /** A switch closed with a default always returns, and returns what its arms or the default mean. */
  lemma CloseRight(field: string, code: Code, arms: seq<Arm>, env: Fields, dflt: Option<Def>)
    requires Implements(code, arms, env, dflt) && Close(field, code, AsCode(dflt)).Ok?
    ensures var hit := Select(arms, env(field));
            var meaning := if hit.None? then dflt else ArmMeaning(hit.value, env, dflt);
            meaning.Some? && Solid(Close(field, code, AsCode(dflt)).value.body, meaning.value, env)
  {
    var v := env(field);
    var more := if code.hasDefault then [] else DefaultCode(dflt.value).body;
    assert Reaches(JumpCase(code.body + more, v, env), FirstNaming(arms, v), env, dflt, JumpCase(more, v, env));
    assert Reaches(JumpDefault(code.body + more, env), FirstDefault(arms), env, dflt, JumpDefault(more, env));
    if code.hasDefault {
      assert code.body + more == code.body;
    } else {
      DefaultRun(dflt.value, v, env);
    }
  }

  lemma DefaultRun(d: Def, v: nat, env: Fields)
    ensures JumpCase(DefaultCode(d).body, v, env) == None
    ensures JumpDefault(DefaultCode(d).body, env) == Some(Returned(d))
  {
    SolidRun([Return(d), Break], d, env, [], v);
    LabelRun(DefaultCase, [Return(d), Break] + [], v, env);
    assert DefaultCode(d).body == LabelItems(DefaultCase) + ([Return(d), Break] + []);
  }

  // ---- the main theorem ----

  lemma {:induction false} CompileRight(b: Block, fmt: Option<string>, dflt: Option<Def>, formats: set<string>,
                                        env: Fields)
    requires Compile(b, fmt, AsCode(dflt), formats).Ok?
    ensures Decode(b, env, fmt, dflt).Some?
    ensures Solid(Compile(b, fmt, AsCode(dflt), formats).value.body, Decode(b, env, fmt, dflt).value, env)
    decreases b
  {
    var d := InForce(b, fmt, dflt);
    assert PushedDefault(b, fmt, AsCode(dflt), formats) == Ok(AsCode(d));
    var code := CompileStmts(b.stmts, fmt, AsCode(d), formats).value;
    StmtsRight(b.stmts, fmt, d, formats, env);
    CloseRight(b.field, code, Arms(b.stmts, fmt), env, d);
  }

  lemma {:induction false} StmtsRight(ss: Stmts, fmt: Option<string>, dflt: Option<Def>, formats: set<string>,
                                      env: Fields)
    requires CompileStmts(ss, fmt, AsCode(dflt), formats).Ok?
    ensures Implements(CompileStmts(ss, fmt, AsCode(dflt), formats).value, Arms(ss, fmt), env, dflt)
    decreases ss
  {
    match ss
    case One(s) => StmtRight(s, fmt, dflt, formats, env);
    case More(s, rest) =>
      StmtRight(s, fmt, dflt, formats, env);
      StmtsRight(rest, fmt, dflt, formats, env);
      JoinImplements(CompileStmt(s, fmt, AsCode(dflt), formats).value,
                     CompileStmts(rest, fmt, AsCode(dflt), formats).value,
                     StmtArms(s, fmt), Arms(rest, fmt), env, dflt);
  }

  lemma {:induction false} StmtRight(s: Stmt, fmt: Option<string>, dflt: Option<Def>, formats: set<string>, env: Fields)
    requires CompileStmt(s, fmt, AsCode(dflt), formats).Ok?
    ensures Implements(CompileStmt(s, fmt, AsCode(dflt), formats).value, StmtArms(s, fmt), env, dflt)
    decreases s
  {
    match s
    case Cpp(text) => CppImplements(text, env, dflt);
    case Format(name, ss) => StmtsRight(ss, Some(name), dflt, formats, env);
    case Nested(at, block) =>
      CompileRight(block, fmt, dflt, formats, env);
      var code := Compile(block, fmt, AsCode(dflt), formats).value;
      var d := Decode(block, env, fmt, dflt).value;
      CaseImplements(Arm(at, ToBlock(block), fmt), code.body, code.defs, d, env, dflt);
    case Leaf(at, inst) =>
      var d := Define(inst, fmt, formats).value;
      CaseImplements(Arm(at, ToInst(inst), fmt), [Return(d), Break], [d], d, env, dflt);
  }

  /** For every tree the parser accepts and every setting of the fields, the emitted switch returns the
      instruction the tree selects. */
  lemma SwitchRight(b: Block, formats: set<string>, env: Fields)
    requires Compile(b, None, None, formats).Ok?
    ensures Decode(b, env, None, None).Some?
    ensures Exec(Compile(b, None, None, formats).value.body, env) == Returned(Decode(b, env, None, None).value)
  {
    CompileRight(b, None, None, formats, env);
    var body := Compile(b, None, None, formats).value.body;
    SolidRun(body, Decode(b, env, None, None).value, env, [], 0);
    assert body + [] == body;
  }

  // ---- what totality is for ----

  /** Without the default that closing adds, a switch is left exactly for the values no arm selects. */
  lemma LeftExactly(field: string, code: Code, arms: seq<Arm>, env: Fields, dflt: Option<Def>)
    requires Implements(code, arms, env, dflt)
    ensures ExecSwitch(field, code.body, env) == Left <==> Select(arms, env(field)).None?
  {
    var v := env(field);
    assert code.body + [] == code.body;
    assert Reaches(JumpCase(code.body + [], v, env), FirstNaming(arms, v), env, dflt, JumpCase([], v, env));
    assert Reaches(JumpDefault(code.body + [], env), FirstDefault(arms), env, dflt, JumpDefault([], env));
  }

  lemma {:induction false} CasesPassed(vs: seq<nat>, tail: seq<Item>, env: Fields)
    ensures Exec(Cases(vs) + tail, env) == Exec(tail, env)
  {
    if vs == [] {
      assert Cases(vs) + tail == tail;
    } else {
      assert Cases(vs) + tail == [CaseAt(vs[0])] + (Cases(vs[1..]) + tail);
      CasesPassed(vs[1..], tail, env);
    }
  }

  lemma LabelsPassed(at: CaseLabel, tail: seq<Item>, env: Fields)
    ensures Exec(LabelItems(at) + tail, env) == Exec(tail, env)
  {
    match at
    case DefaultCase => assert LabelItems(at) + tail == [DefaultAt] + tail;
    case Values(first, rest) =>
      assert LabelItems(at) + tail == [CaseAt(first)] + (Cases(rest) + tail);
      CasesPassed(rest, tail, env);
  }

  /** So a nested case closed without a default runs, for a value its block does not list, into the case
      written after it, and returns that case's instruction. */
  lemma NextCaseRuns(at: CaseLabel, field: string, code: Code, arms: seq<Arm>, next: CaseLabel, core: seq<Item>,
                     d: Def, more: seq<Item>, v: nat, env: Fields, dflt: Option<Def>)
    requires Implements(code, arms, env, dflt) && Select(arms, env(field)).None?
    requires Names(at, v) && Solid(core, d, env)
    ensures JumpCase(LabelItems(at) + ([Switch(field, code.body)] + (LabelItems(next) + (core + more))), v, env) ==
            Some(Returned(d))
  {
    var rest := LabelItems(next) + (core + more);
    var tail := [Switch(field, code.body)] + rest;
    LeftExactly(field, code, arms, env, dflt);
    SolidRun(core, d, env, more, v);
    LabelsPassed(next, core + more, env);
    assert tail[1..] == rest;
    LabelRun(at, tail, v, env);
  }

  /** For OP 1 and FN 5 this tree means its default, but with the inner switch left open the emitted code
      would return the instruction of OP 2. */
  lemma OpenInnerSwitchDiffers(env: Fields)
    requires env("OP") == 1 && env("FN") == 5
    ensures var inner := Block("FN", None, One(Leaf(Values(0, []), Inst(Some("F"), "a"))));
            var outer := Block("OP", Some(Inst(Some("F"), "d")),
                               More(Nested(Values(1, []), inner), One(Leaf(Values(2, []), Inst(Some("F"), "b")))));
            Decode(outer, env, None, None) == Some(Def("F", "d"))
    ensures var open := Switch("FN", LeafCode(Values(0, []), Def("F", "a")).body);
            JumpCase([CaseAt(1), open] + LeafCode(Values(2, []), Def("F", "b")).body, 1, env) ==
            Some(Returned(Def("F", "b")))
  {
    ExampleMeaning(env);
    var a, b := Def("F", "a"), Def("F", "b");
    var arm := Arm(Values(0, []), ToInst(Inst(Some("F"), "a")), None);
    var code := LeafCode(arm.at, a);
    CaseImplements(arm, [Return(a), Break], [a], a, env, None);
    assert [arm][1..] == [];
    NextCaseRuns(Values(1, []), "FN", code, [arm], Values(2, []), [Return(b), Break], b, [], 1, env, None);
    assert [CaseAt(1), Switch("FN", code.body)] + LeafCode(Values(2, []), b).body ==
           LabelItems(Values(1, [])) +
           ([Switch("FN", code.body)] + (LabelItems(Values(2, [])) + ([Return(b), Break] + [])));
  }

  lemma ExampleMeaning(env: Fields)
    requires env("OP") == 1 && env("FN") == 5
    ensures var inner := Block("FN", None, One(Leaf(Values(0, []), Inst(Some("F"), "a"))));
            var outer := Block("OP", Some(Inst(Some("F"), "d")),
                               More(Nested(Values(1, []), inner), One(Leaf(Values(2, []), Inst(Some("F"), "b")))));
            Decode(outer, env, None, None) == Some(Def("F", "d"))
  {
    var inner := Block("FN", None, One(Leaf(Values(0, []), Inst(Some("F"), "a"))));
    var leaf := One(Leaf(Values(2, []), Inst(Some("F"), "b")));
    var outer := Block("OP", Some(Inst(Some("F"), "d")), More(Nested(Values(1, []), inner), leaf));
    var arms := Arms(outer.stmts, None);
    assert arms[0] == Arm(Values(1, []), ToBlock(inner), None);
    var innerArms := Arms(inner.stmts, None);
    assert innerArms[1..] == [];
    assert Select(innerArms, 5) == None;
    assert Decode(inner, env, None, Some(Def("F", "d"))) == Some(Def("F", "d"));
  }

  // ---- which trees are accepted ----

  ghost predicate Defined(inst: Inst, fmt: Option<string>, formats: set<string>) {
    if inst.format.Some? then inst.format.value in formats else fmt.Some?
  }

  /** At most one of the arms is a default case. */
  function Defaults(arms: seq<Arm>): nat {
    if arms == [] then 0 else (if arms[0].at.DefaultCase? then 1 else 0) + Defaults(arms[1..])
  }

  ghost predicate WellFormed(b: Block, fmt: Option<string>, inScope: bool, formats: set<string>) {
    (b.dflt.Some? ==> Defined(b.dflt.value, fmt, formats)) &&
    StmtsWellFormed(b.stmts, fmt, inScope || b.dflt.Some?, formats) &&
    Defaults(Arms(b.stmts, fmt)) <= 1 &&
    (Defaults(Arms(b.stmts, fmt)) == 1 || inScope || b.dflt.Some?)
  }

  ghost predicate StmtsWellFormed(ss: Stmts, fmt: Option<string>, inScope: bool, formats: set<string>) {
    match ss
    case One(s) => StmtWellFormed(s, fmt, inScope, formats)
    case More(s, rest) => StmtWellFormed(s, fmt, inScope, formats) && StmtsWellFormed(rest, fmt, inScope, formats)
  }

  ghost predicate StmtWellFormed(s: Stmt, fmt: Option<string>, inScope: bool, formats: set<string>) {
    match s
    case Cpp(_) => true
    case Format(name, ss) => name in formats && StmtsWellFormed(ss, Some(name), inScope, formats)
    case Nested(_, block) => WellFormed(block, fmt, inScope, formats)
    case Leaf(_, inst) => Defined(inst, fmt, formats)
  }

  lemma {:induction false} DefaultsConcat(a: seq<Arm>, b: seq<Arm>)
    ensures Defaults(a + b) == Defaults(a) + Defaults(b)
  {
    if a == [] {
      assert a + b == b;
    } else {
      assert (a + b)[1..] == a[1..] + b;
      DefaultsConcat(a[1..], b);
    }
  }

  /** The parser accepts a block exactly when its instructions and formats are defined, no block has two
      default cases, and every block has a default case or a default in scope. */
  lemma {:induction false} AcceptsExactly(b: Block, fmt: Option<string>, dflt: Option<Code>, formats: set<string>)
    requires dflt.Some? ==> !dflt.value.hasDefault
    ensures Compile(b, fmt, dflt, formats).Ok? <==> WellFormed(b, fmt, dflt.Some?, formats)
    decreases b
  {
    var d := PushedDefault(b, fmt, dflt, formats);
    if d.Ok? {
      StmtsExactly(b.stmts, fmt, d.value, formats);
    }
  }

  lemma {:induction false} StmtsExactly(ss: Stmts, fmt: Option<string>, dflt: Option<Code>, formats: set<string>)
    requires dflt.Some? ==> !dflt.value.hasDefault
    ensures var r := CompileStmts(ss, fmt, dflt, formats);
            (r.Ok? <==> StmtsWellFormed(ss, fmt, dflt.Some?, formats) && Defaults(Arms(ss, fmt)) <= 1) &&
            (r.Ok? ==> (r.value.hasDefault <==> Defaults(Arms(ss, fmt)) == 1))
    decreases ss
  {
    match ss
    case One(s) => StmtExactly(s, fmt, dflt, formats);
    case More(s, rest) =>
      StmtExactly(s, fmt, dflt, formats);
      StmtsExactly(rest, fmt, dflt, formats);
      DefaultsConcat(StmtArms(s, fmt), Arms(rest, fmt));
  }

  lemma {:induction false} StmtExactly(s: Stmt, fmt: Option<string>, dflt: Option<Code>, formats: set<string>)
    requires dflt.Some? ==> !dflt.value.hasDefault
    ensures var r := CompileStmt(s, fmt, dflt, formats);
            (r.Ok? <==> StmtWellFormed(s, fmt, dflt.Some?, formats) && Defaults(StmtArms(s, fmt)) <= 1) &&
            (r.Ok? ==> (r.value.hasDefault <==> Defaults(StmtArms(s, fmt)) == 1))
    decreases s
  {
    match s
    case Cpp(_) =>
    case Format(name, ss) => StmtsExactly(ss, Some(name), dflt, formats);
    case Nested(at, block) => AcceptsExactly(block, fmt, dflt, formats);
    case Leaf(_, _) =>
  }

  // ---- the other outputs ----

  /** How often an instruction d is written as a statement of a block. */
  function Written(b: Block, fmt: Option<string>, d: Def): nat { StmtsWritten(b.stmts, fmt, d) }

  function StmtsWritten(ss: Stmts, fmt: Option<string>, d: Def): nat {
    match ss
    case One(s) => StmtWritten(s, fmt, d)
    case More(s, rest) => StmtWritten(s, fmt, d) + StmtsWritten(rest, fmt, d)
  }

  function StmtWritten(s: Stmt, fmt: Option<string>, d: Def): nat {
    match s
    case Cpp(_) => 0
    case Format(name, ss) => StmtsWritten(ss, Some(name), d)
    case Nested(_, block) => Written(block, fmt, d)
    case Leaf(_, inst) => if Resolve(inst, fmt) == Some(d) then 1 else 0
  }

  /** How many blocks without a default case have d as the default in force. */
  function Taken(b: Block, fmt: Option<string>, dflt: Option<Def>, d: Def): nat {
    StmtsTaken(b.stmts, fmt, InForce(b, fmt, dflt), d) +
    if Defaults(Arms(b.stmts, fmt)) == 0 && InForce(b, fmt, dflt) == Some(d) then 1 else 0
  }

  function StmtsTaken(ss: Stmts, fmt: Option<string>, dflt: Option<Def>, d: Def): nat {
    match ss
    case One(s) => StmtTaken(s, fmt, dflt, d)
    case More(s, rest) => StmtTaken(s, fmt, dflt, d) + StmtsTaken(rest, fmt, dflt, d)
  }

  function StmtTaken(s: Stmt, fmt: Option<string>, dflt: Option<Def>, d: Def): nat {
    match s
    case Cpp(_) => 0
    case Format(name, ss) => StmtsTaken(ss, Some(name), dflt, d)
    case Nested(_, block) => Taken(block, fmt, dflt, d)
    case Leaf(_, _) => 0
  }

  /** Every instruction's definitions are emitted once for each statement that writes it and once for each
      block that takes it as its default: a default is not defined once, but as often as it is taken. */
  lemma {:induction false} DefinitionsEmitted(b: Block, fmt: Option<string>, dflt: Option<Def>, formats: set<string>,
                                              d: Def)
    requires Compile(b, fmt, AsCode(dflt), formats).Ok?
    ensures multiset(Compile(b, fmt, AsCode(dflt), formats).value.defs)[d] ==
            Written(b, fmt, d) + Taken(b, fmt, dflt, d)
    decreases b
  {
    var own := InForce(b, fmt, dflt);
    assert PushedDefault(b, fmt, AsCode(dflt), formats) == Ok(AsCode(own));
    StmtsExactly(b.stmts, fmt, AsCode(own), formats);
    StmtsEmitted(b.stmts, fmt, own, formats, d);
    var code := CompileStmts(b.stmts, fmt, AsCode(own), formats).value;
    if !code.hasDefault {
      assert multiset(code.defs + [own.value]) == multiset(code.defs) + multiset{own.value};
    }
  }

  lemma {:induction false} StmtsEmitted(ss: Stmts, fmt: Option<string>, dflt: Option<Def>, formats: set<string>, d: Def)
    requires CompileStmts(ss, fmt, AsCode(dflt), formats).Ok?
    ensures multiset(CompileStmts(ss, fmt, AsCode(dflt), formats).value.defs)[d] ==
            StmtsWritten(ss, fmt, d) + StmtsTaken(ss, fmt, dflt, d)
    decreases ss
  {
    match ss
    case One(s) => StmtEmitted(s, fmt, dflt, formats, d);
    case More(s, rest) =>
      StmtEmitted(s, fmt, dflt, formats, d);
      StmtsEmitted(rest, fmt, dflt, formats, d);
      var c := CompileStmt(s, fmt, AsCode(dflt), formats).value;
      var c' := CompileStmts(rest, fmt, AsCode(dflt), formats).value;
      assert multiset(c.defs + c'.defs) == multiset(c.defs) + multiset(c'.defs);
  }

  lemma {:induction false} StmtEmitted(s: Stmt, fmt: Option<string>, dflt: Option<Def>, formats: set<string>, d: Def)
    requires CompileStmt(s, fmt, AsCode(dflt), formats).Ok?
    ensures multiset(CompileStmt(s, fmt, AsCode(dflt), formats).value.defs)[d] ==
            StmtWritten(s, fmt, d) + StmtTaken(s, fmt, dflt, d)
    decreases s
  {
    match s
    case Cpp(_) =>
    case Format(name, ss) => StmtsEmitted(ss, Some(name), dflt, formats, d);
    case Nested(at, block) => DefinitionsEmitted(block, fmt, dflt, formats, d);
    case Leaf(_, _) =>
  }

  function AsSeq(d: Option<Def>): seq<Def> {
    if d.Some? then [d.value] else []
  }

  /** The definitions in the order the tree is written: statement by statement, nested blocks where they stand,
      and at the end of a block without a default case the default it takes. */
  function InOrder(b: Block, fmt: Option<string>, dflt: Option<Def>): seq<Def> {
    var own := InForce(b, fmt, dflt);
    StmtsInOrder(b.stmts, fmt, own) + if Defaults(Arms(b.stmts, fmt)) == 0 then AsSeq(own) else []
  }

  function StmtsInOrder(ss: Stmts, fmt: Option<string>, dflt: Option<Def>): seq<Def> {
    match ss
    case One(s) => StmtInOrder(s, fmt, dflt)
    case More(s, rest) => StmtInOrder(s, fmt, dflt) + StmtsInOrder(rest, fmt, dflt)
  }

  function StmtInOrder(s: Stmt, fmt: Option<string>, dflt: Option<Def>): seq<Def> {
    match s
    case Cpp(_) => []
    case Format(name, ss) => StmtsInOrder(ss, Some(name), dflt)
    case Nested(_, block) => InOrder(block, fmt, dflt)
    case Leaf(_, inst) => AsSeq(Resolve(inst, fmt))
  }

  /** The definitions are emitted in that order. */
  lemma {:induction false} DefinitionsInOrder(b: Block, fmt: Option<string>, dflt: Option<Def>, formats: set<string>)
    requires Compile(b, fmt, AsCode(dflt), formats).Ok?
    ensures Compile(b, fmt, AsCode(dflt), formats).value.defs == InOrder(b, fmt, dflt)
    decreases b
  {
    var own := InForce(b, fmt, dflt);
    assert PushedDefault(b, fmt, AsCode(dflt), formats) == Ok(AsCode(own));
    StmtsExactly(b.stmts, fmt, AsCode(own), formats);
    StmtsOrdered(b.stmts, fmt, own, formats);
  }

  lemma {:induction false} StmtsOrdered(ss: Stmts, fmt: Option<string>, dflt: Option<Def>, formats: set<string>)
    requires CompileStmts(ss, fmt, AsCode(dflt), formats).Ok?
    ensures CompileStmts(ss, fmt, AsCode(dflt), formats).value.defs == StmtsInOrder(ss, fmt, dflt)
    decreases ss
  {
    match ss
    case One(s) => StmtOrdered(s, fmt, dflt, formats);
    case More(s, rest) =>
      StmtOrdered(s, fmt, dflt, formats);
      StmtsOrdered(rest, fmt, dflt, formats);
  }

  lemma {:induction false} StmtOrdered(s: Stmt, fmt: Option<string>, dflt: Option<Def>, formats: set<string>)
    requires CompileStmt(s, fmt, AsCode(dflt), formats).Ok?
    ensures CompileStmt(s, fmt, AsCode(dflt), formats).value.defs == StmtInOrder(s, fmt, dflt)
    decreases s
  {
    match s
    case Cpp(_) =>
    case Format(name, ss) => StmtsOrdered(ss, Some(name), dflt, formats);
    case Nested(_, block) => DefinitionsInOrder(block, fmt, dflt, formats);
    case Leaf(_, _) =>
  }
}
