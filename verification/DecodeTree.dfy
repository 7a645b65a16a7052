/** Decode blocks of an ISA description (isa_parser.py): the tree the grammar delivers, and which
    instruction it assigns to a setting of the machine word's fields. */
module DecodeTree {
  import opened Common

  /** An instruction use: its mnemonic and the format named with it, if any. */
  datatype Inst = Inst(format: Option<string>, name: string)

  /** The constants of a case, at least one, or the default case. */
  datatype CaseLabel = Values(first: nat, rest: seq<nat>) | DefaultCase

  datatype Block = Block(field: string, dflt: Option<Inst>, stmts: Stmts)
  datatype Stmts = One(stmt: Stmt) | More(stmt: Stmt, rest: Stmts)
  datatype Stmt =
    | Cpp(text: string)
    | Format(name: string, stmts: Stmts)
    | Nested(at: CaseLabel, block: Block)
    | Leaf(at: CaseLabel, inst: Inst)

  /** A defined instruction: the format that defines it and its mnemonic. */
  datatype Def = Def(format: string, name: string)

  type Fields = string -> nat

  predicate Names(at: CaseLabel, v: nat) {
    at.Values? && (v == at.first || v in at.rest)
  }

  // ---- the meaning of a tree ----

  datatype Target = ToInst(inst: Inst) | ToBlock(block: Block)

  /** One case of a block, with the format in force where it is written. */
  datatype Arm = Arm(at: CaseLabel, target: Target, format: Option<string>)

  /** The cases of a statement list in order, format blocks opened up. */
  function Arms(ss: Stmts, fmt: Option<string>): seq<Arm> {
    match ss
    case One(s) => StmtArms(s, fmt)
    case More(s, rest) => StmtArms(s, fmt) + Arms(rest, fmt)
  }

  function StmtArms(s: Stmt, fmt: Option<string>): seq<Arm> {
    match s
    case Cpp(_) => []
    case Format(name, ss) => Arms(ss, Some(name))
    case Nested(at, block) => [Arm(at, ToBlock(block), fmt)]
    case Leaf(at, inst) => [Arm(at, ToInst(inst), fmt)]
  }

  function FirstNaming(arms: seq<Arm>, v: nat): Option<Arm> {
    if arms == [] then None else if Names(arms[0].at, v) then Some(arms[0]) else FirstNaming(arms[1..], v)
  }

  function FirstDefault(arms: seq<Arm>): Option<Arm> {
    if arms == [] then None else if arms[0].at.DefaultCase? then Some(arms[0]) else FirstDefault(arms[1..])
  }

  /** The case a field value selects: one naming it, else the default case. */
  function Select(arms: seq<Arm>, v: nat): Option<Arm> {
    if FirstNaming(arms, v).Some? then FirstNaming(arms, v) else FirstDefault(arms)
  }

  function Height(b: Block): nat { 1 + StmtsHeight(b.stmts) }

  function StmtsHeight(ss: Stmts): nat {
    match ss
    case One(s) => StmtHeight(s)
    case More(s, rest) => Max(StmtHeight(s), StmtsHeight(rest))
  }

  function StmtHeight(s: Stmt): nat {
    match s
    case Cpp(_) => 0
    case Format(_, ss) => StmtsHeight(ss)
    case Nested(_, block) => Height(block)
    case Leaf(_, _) => 0
  }

  ghost predicate Below(arms: seq<Arm>, h: nat) {
    forall i :: 0 <= i < |arms| && arms[i].target.ToBlock? ==> Height(arms[i].target.block) <= h
  }

  lemma {:induction false} ArmsBelow(ss: Stmts, fmt: Option<string>)
    ensures Below(Arms(ss, fmt), StmtsHeight(ss))
  {
    match ss
    case One(s) => StmtArmsBelow(s, fmt);
    case More(s, rest) =>
      StmtArmsBelow(s, fmt);
      ArmsBelow(rest, fmt);
  }

  lemma {:induction false} StmtArmsBelow(s: Stmt, fmt: Option<string>)
    ensures Below(StmtArms(s, fmt), StmtHeight(s))
  {
    match s
    case Format(name, ss) => ArmsBelow(ss, Some(name));
    case _ =>
  }

  lemma {:induction false} SelectIn(arms: seq<Arm>, v: nat)
    ensures FirstNaming(arms, v).Some? ==> FirstNaming(arms, v).value in arms
    ensures FirstDefault(arms).Some? ==> FirstDefault(arms).value in arms
  {
    if arms != [] {
      SelectIn(arms[1..], v);
    }
  }

  /** The format an instruction use names, else the one in force. */
  function Resolve(inst: Inst, fmt: Option<string>): Option<Def> {
    if inst.format.Some? then Some(Def(inst.format.value, inst.name))
    else if fmt.Some? then Some(Def(fmt.value, inst.name))
    else None
  }

  /** The default in force inside a block: its own, else the inherited one. */
  function InForce(b: Block, fmt: Option<string>, dflt: Option<Def>): Option<Def> {
    match b.dflt
    case None => dflt
    case Some(inst) => Resolve(inst, fmt)
  }

  /** The instruction a tree assigns to a setting of the fields: the selected case, followed into nested
      blocks, and where no case is selected the innermost default in force. */
  function Decode(b: Block, env: Fields, fmt: Option<string>, dflt: Option<Def>): Option<Def>
    decreases Height(b)
  {
    var arms := Arms(b.stmts, fmt);
    var hit := Select(arms, env(b.field));
    if hit.None? then InForce(b, fmt, dflt)
    else
      match hit.value.target
      case ToInst(inst) => Resolve(inst, hit.value.format)
      case ToBlock(inner) =>
        ArmsBelow(b.stmts, fmt);
        SelectIn(arms, env(b.field));
        Decode(inner, env, hit.value.format, InForce(b, fmt, dflt))
  }
}
