/** The grammar actions behind the decode compiler, as they run: code objects wrapped in place, a stack
    of formats and a stack of defaults pushed and popped around nested blocks. */
module DecodeRules {
  import opened Common
  import opened DecodeTree
  import opened DecodeCompiler

  class GenCode {
    var body: seq<Item>
    var hasDefault: bool
    var defs: seq<Def>

    ghost function Value(): Code
      reads this
    {
      Code(body, hasDefault, defs)
    }

    constructor (c: Code)
      ensures Value() == c
    {
      body, hasDefault, defs := c.body, c.hasDefault, c.defs;
    }

    /** Addition makes a new object and leaves both operands alone. */
    method Add(other: GenCode) returns (sum: GenCode)
      ensures fresh(sum) && sum.Value() == Join(Value(), other.Value())
    {
      sum := new GenCode(Code(body + other.body, hasDefault || other.hasDefault, defs + other.defs));
    }

    /** Wrap the decode code as a case. */
    method Wrap(pre: seq<Item>, post: seq<Item>)
      modifies this
      ensures Value() == old(Value()).(body := pre + old(body) + post)
    {
      body := pre + body + post;
    }

    method WrapSwitch(field: string)
      modifies this
      ensures Value() == old(Value()).(body := [Switch(field, old(body))])
    {
      body := [Switch(field, body)];
    }
  }

  class Parser {
    const formats: set<string>
    var formatStack: seq<Option<string>>
    var defaultStack: seq<GenCode?>

    /** The stacks start with the no-format marker and with no default. */
    constructor (formats: set<string>)
      ensures this.formats == formats && formatStack == [None] && defaultStack == [null]
    {
      this.formats, formatStack, defaultStack := formats, [None], [null];
    }

    ghost predicate Valid()
      reads this
    {
      formatStack != [] && defaultStack != []
    }

    function TopFormat(): Option<string>
      requires Valid()
      reads this
    {
      formatStack[|formatStack| - 1]
    }

    function TopDefault(): GenCode?
      requires Valid()
      reads this
    {
      defaultStack[|defaultStack| - 1]
    }

    ghost function DefaultValue(): Option<Code>
      requires Valid()
      reads this, TopDefault()
    {
      if TopDefault() == null then None else Some(TopDefault().Value())
    }

    /** Neither stack has changed. */
    twostate predicate Balanced()
      reads this
    {
      formatStack == old(formatStack) && defaultStack == old(defaultStack)
    }

    /** r is an error just when the specification says so, else an object of the specified value. */
    static ghost predicate Gives(r: Result<GenCode, ParseError>, spec: Result<Code, ParseError>)
      reads match r case Ok(g) => {g} case Err(_) => {}
    {
      match r
      case Err(e) => spec == Err(e)
      case Ok(g) => spec == Ok(g.Value())
    }

    method InstRule(inst: Inst) returns (r: Result<Def, ParseError>)
      requires Valid()
      ensures r == Define(inst, TopFormat(), formats)
    {
      if inst.format.Some? {
        r := if inst.format.value in formats then Ok(Def(inst.format.value, inst.name))
             else Err(UndefinedFormat(inst.format.value));
      } else if TopFormat().None? {
        r := Err(NoActiveFormat);
      } else {
        r := Ok(Def(TopFormat().value, inst.name));
      }
    }

    /** Pushes the block's own default, or the current one again. */
    method OptDefaultRule(b: Block) returns (r: Result<(), ParseError>)
      requires Valid()
      modifies this`defaultStack
      ensures Valid()
      ensures match PushedDefault(b, TopFormat(), old(DefaultValue()), formats)
              case Err(e) => r == Err(e)
              case Ok(d) =>
                r == Ok(()) && |defaultStack| == |old(defaultStack)| + 1 &&
                defaultStack[..|old(defaultStack)|] == old(defaultStack) && DefaultValue() == d
    {
      if b.dflt.None? {
        defaultStack := defaultStack + [TopDefault()];
        return Ok(());
      }
      var d := InstRule(b.dflt.value);
      if d.Err? {
        return Err(d.error);
      }
      var code := new GenCode(Code([Return(d.value)], false, [d.value]));
      code.Wrap([DefaultAt], [Break]);
      assert code.Value() == DefaultCode(d.value);
      defaultStack := defaultStack + [code];
      return Ok(());
    }

    method BlockRule(b: Block) returns (r: Result<GenCode, ParseError>)
      requires Valid()
      modifies this
      ensures Gives(r, Compile(b, old(TopFormat()), old(DefaultValue()), formats))
      ensures r.Ok? ==> fresh(r.value) && Balanced()
      decreases b
    {
      var pushed := OptDefaultRule(b);
      if pushed.Err? {
        return Err(pushed.error);
      }
      ghost var d := DefaultValue();
      var stmts := StmtsRule(b.stmts);
      if stmts.Err? {
        return Err(stmts.error);
      }
      var dflt := TopDefault();
      defaultStack := defaultStack[..|defaultStack| - 1];
      var code := stmts.value;
      if !code.hasDefault {
        if dflt == null {
          return Err(NoDefaultInScope);
        }
        code := code.Add(dflt);
      }
      code.WrapSwitch(b.field);
      return Ok(code);
    }

    method StmtsRule(ss: Stmts) returns (r: Result<GenCode, ParseError>)
      requires Valid()
      modifies this
      ensures Gives(r, CompileStmts(ss, old(TopFormat()), old(DefaultValue()), formats))
      ensures r.Ok? ==> fresh(r.value) && Balanced()
      decreases ss
    {
      match ss
      case One(s) => r := StmtRule(s);
      case More(s, rest) =>
        var first := StmtRule(s);
        if first.Err? {
          return first;
        }
        var others := StmtsRule(rest);
        if others.Err? {
          return others;
        }
        if first.value.hasDefault && others.value.hasDefault {
          return Err(TwoDefaults);
        }
        var sum := first.value.Add(others.value);
        r := Ok(sum);
    }

    method StmtRule(s: Stmt) returns (r: Result<GenCode, ParseError>)
      requires Valid()
      modifies this
      ensures Gives(r, CompileStmt(s, old(TopFormat()), old(DefaultValue()), formats))
      ensures r.Ok? ==> fresh(r.value) && Balanced()
      decreases s
    {
      match s
      case Cpp(text) =>
        var code := new GenCode(Code([Directive(text)], false, []));
        r := Ok(code);
      case Format(name, ss) =>
        if name !in formats {
          return Err(UndefinedFormat(name));
        }
        formatStack := formatStack + [Some(name)];
        r := StmtsRule(ss);
        if r.Ok? {
          formatStack := formatStack[..|formatStack| - 1];
        }
      case Nested(at, block) =>
        r := BlockRule(block);
        if r.Ok? {
          ghost var inner := r.value.body;
          r.value.Wrap(LabelItems(at), []);
          r.value.hasDefault := at.DefaultCase?;
          assert LabelItems(at) + inner + [] == LabelItems(at) + inner;
        }
      case Leaf(at, inst) =>
        var d := InstRule(inst);
        if d.Err? {
          return Err(d.error);
        }
        var code := new GenCode(Code([Return(d.value)], false, [d.value]));
        code.Wrap(LabelItems(at), [Break]);
        code.hasDefault := at.DefaultCase?;
        assert code.body == LeafCode(at, d.value).body;
        r := Ok(code);
    }
  }
}
