/** Bit-selector rewriting (isa_parser.py): word<a:b> and (expr)<a:b> become calls of bits, by two textual
    substitutions and a loop that looks back for the opening parenthesis of each group. */
module BitOps {
  import opened Common
  import opened Text

  // ---- characters and the selector expressions ----

  predicate IsWord(c: char) { 'a' <= c <= 'z' || 'A' <= c <= 'Z' || '0' <= c <= '9' || c == '_' }

  /** A character of a selected name: a word character or a dot. */
  predicate IsName(c: char) { IsWord(c) || c == '.' }

  function TakeWord(s: string): string {
    if s != [] && IsWord(s[0]) then [s[0]] + TakeWord(s[1..]) else []
  }

  function DropWord(s: string): string {
    if s != [] && IsWord(s[0]) then DropWord(s[1..]) else s
  }

  function TakeName(s: string): string {
    if s != [] && IsName(s[0]) then [s[0]] + TakeName(s[1..]) else []
  }

  function DropName(s: string): string {
    if s != [] && IsName(s[0]) then DropName(s[1..]) else s
  }

  /** A selector's two bounds and what follows it. */
  datatype Match = Match(hi: string, lo: string, rest: string)

  /** '<' spaces word spaces ':' : the word, and what follows the colon. */
  function MatchFirst(s: string): Option<(string, string)> {
    if s == [] || s[0] != '<' then None
    else
      var t := SkipSpaces(s[1..]);
      var u := SkipSpaces(DropWord(t));
      if TakeWord(t) == [] || u == [] || u[0] != ':' then None else Some((TakeWord(t), SkipSpaces(u[1..])))
  }

  /** A selector with both bounds, at the start of s. */
  function MatchTwo(s: string): Option<Match> {
    match MatchFirst(s)
    case None => None
    case Some((hi, v)) =>
      var x := SkipSpaces(DropWord(v));
      if TakeWord(v) == [] || x == [] || x[0] != '>' then None else Some(Match(hi, TakeWord(v), x[1..]))
  }

  /** A selector with one bound and a colon, at the start of s. */
  function MatchOne(s: string): Option<Match> {
    match MatchFirst(s)
    case None => None
    case Some((hi, v)) => if v == [] || v[0] != '>' then None else Some(Match(hi, hi, v[1..]))
  }

  /** A match is shorter than the text by at least the selector's angle brackets. */
  lemma {:induction false} SkipShorter(s: string)
    ensures |SkipSpaces(s)| <= |s| && |DropWord(s)| <= |s| && |DropName(s)| <= |s|
  {
    if s != [] {
      SkipShorter(s[1..]);
    }
  }

  lemma MatchShorter(s: string)
    ensures MatchFirst(s).Some? ==> |MatchFirst(s).value.1| < |s|
    ensures MatchOne(s).Some? ==> |MatchOne(s).value.rest| < |s|
    ensures MatchTwo(s).Some? ==> |MatchTwo(s).value.rest| < |s|
  {
    if s != [] {
      var t := SkipSpaces(s[1..]);
      SkipShorter(s[1..]);
      SkipShorter(t);
      SkipShorter(DropWord(t));
      var u := SkipSpaces(DropWord(t));
      if u != [] {
        SkipShorter(u[1..]);
        var v := SkipSpaces(u[1..]);
        SkipShorter(v);
        SkipShorter(DropWord(v));
      }
    }
  }

  // ---- the two substitutions ----

  /** A selector with both bounds, then rest. */
  function TwoTo(hi: string, lo: string, rest: string): string {
    "<" + (hi + (":" + (lo + (">" + rest))))
  }

  /** The arguments after the expression, then rest. */
  function ArgsTo(hi: string, lo: string, rest: string): string {
    ", " + (hi + (", " + (lo + (")" + rest))))
  }

  /** A call of bits, then rest. */
  function CallTo(e: string, hi: string, lo: string, rest: string): string {
    "bits(" + (e + ArgsTo(hi, lo, rest))
  }

  /** Selectors with one bound get it twice. */
  function SubOne(s: string): string
    decreases |s|
  {
    if s == [] then []
    else if MatchOne(s).Some? then
      MatchShorter(s);
      TwoTo(MatchOne(s).value.hi, MatchOne(s).value.lo, SubOne(MatchOne(s).value.rest))
    else [s[0]] + SubOne(s[1..])
  }

  /** Selectors on names become calls; no match starts right after a name character. */
  function SubWord(s: string, after: bool): string
    decreases |s|
  {
    if s == [] then []
    else if !after && IsName(s[0]) && MatchTwo(DropName(s)).Some? then
      var m := MatchTwo(DropName(s)).value;
      MatchShorter(DropName(s));
      SkipShorter(s);
      CallTo(TakeName(s), m.hi, m.lo, SubWord(m.rest, false))
    else [s[0]] + SubWord(s[1..], IsName(s[0]))
  }

  // ---- the loop ----

  /** Where a closing parenthesis with a selector behind it is first found. */
  function Find(s: string): Option<nat> {
    if s == [] then None
    else if s[0] == ')' && MatchTwo(s[1..]).Some? then Some(0)
    else match Find(s[1..]) case None => None case Some(i) => Some(i + 1)
  }

  lemma {:induction false} FindFound(s: string)
    ensures Find(s).Some? ==>
              Find(s).value < |s| && s[Find(s).value] == ')' && MatchTwo(s[Find(s).value + 1..]).Some?
  {
    if s != [] && Find(s).Some? && Find(s).value > 0 {
      FindFound(s[1..]);
      assert s[Find(s).value + 1..] == s[1..][Find(s[1..]).value + 1..];
    }
  }

  /** Looking back over the end of s for the parenthesis that brings the level to 0.  The code gives up on
      reaching the first character, even when that is the parenthesis. */
  function Back(s: string, level: nat): Option<nat>
    requires level > 0
  {
    if |s| <= 1 then None
    else
      var c := s[|s| - 1];
      if c == '(' && level == 1 then Some(|s| - 1)
      else Back(s[..|s| - 1], if c == '(' then level - 1 else if c == ')' then level + 1 else level)
  }

  lemma {:induction false} BackFound(s: string, level: nat)
    requires level > 0
    ensures Back(s, level).Some? ==> 0 < Back(s, level).value < |s| && s[Back(s, level).value] == '('
  {
    if |s| > 1 && !(s[|s| - 1] == '(' && level == 1) {
      var c := s[|s| - 1];
      BackFound(s[..|s| - 1], if c == '(' then level - 1 else if c == ')' then level + 1 else level);
    }
  }

  datatype Outcome = Done | Exit | Next(code: string)

  /** One turn of the loop. */
  function Pass(s: string): Outcome {
    FindFound(s);
    match Find(s)
    case None => Done
    case Some(i) =>
      var m := MatchTwo(s[i + 1..]).value;
      BackFound(s[..i], 1);
      match Back(s[..i], 1)
      case None => Exit
      case Some(b) => Next(s[..b] + CallTo(s[b..i + 1], m.hi, m.lo, m.rest))
  }

  function Angles(s: string): nat {
    if s == [] then 0 else Angles(s[..|s| - 1]) + if s[|s| - 1] == '<' then 1 else 0
  }

  lemma {:induction false} AnglesConcat(a: string, b: string)
    ensures Angles(a + b) == Angles(a) + Angles(b)
  {
    if b == [] {
      assert a + b == a;
    } else {
      assert (a + b)[..|a + b| - 1] == a + b[..|b| - 1];
      AnglesConcat(a, b[..|b| - 1]);
    }
  }

  lemma AnglesHead(s: string)
    requires s != []
    ensures Angles(s) == (if s[0] == '<' then 1 else 0) + Angles(s[1..])
  {
    assert s == [s[0]] + s[1..];
    AnglesConcat([s[0]], s[1..]);
    assert Angles([s[0]]) == if s[0] == '<' then 1 else 0 by {
      assert [s[0]][..0] == [];
    }
  }

  lemma {:induction false} AnglesSkip(s: string)
    ensures Angles(SkipSpaces(s)) == Angles(s) == Angles(DropWord(s)) && Angles(TakeWord(s)) == 0
  {
    if s != [] {
      AnglesHead(s);
      AnglesSkip(s[1..]);
      AnglesConcat([s[0]], TakeWord(s[1..]));
      assert [s[0]][..0] == [];
    }
  }

  lemma AnglesMatch(s: string)
    requires MatchTwo(s).Some?
    ensures Angles(s) == 1 + Angles(MatchTwo(s).value.rest)
    ensures Angles(MatchTwo(s).value.hi) == 0 == Angles(MatchTwo(s).value.lo)
  {
    var t := SkipSpaces(s[1..]);
    var u := SkipSpaces(DropWord(t));
    var v := SkipSpaces(u[1..]);
    var x := SkipSpaces(DropWord(v));
    AnglesHead(s);
    AnglesSkip(s[1..]);
    AnglesSkip(t);
    AnglesSkip(DropWord(t));
    AnglesHead(u);
    AnglesSkip(u[1..]);
    AnglesSkip(v);
    AnglesSkip(DropWord(v));
    AnglesHead(x);
  }

  lemma AnglesCall(e: string, hi: string, lo: string, rest: string)
    requires Angles(hi) == 0 == Angles(lo)
    ensures Angles(CallTo(e, hi, lo, rest)) == Angles(e) + Angles(rest)
  {
    Plain("bits(");
    Plain(", ");
    Plain(")");
    var t := lo + (")" + rest);
    AnglesConcat(")", rest);
    AnglesConcat(lo, ")" + rest);
    AnglesConcat(", ", t);
    AnglesConcat(hi, ", " + t);
    AnglesConcat(", ", hi + (", " + t));
    AnglesConcat(e, ArgsTo(hi, lo, rest));
    AnglesConcat("bits(", e + ArgsTo(hi, lo, rest));
  }

  predicate NoAngle(s: string) { forall i :: 0 <= i < |s| ==> s[i] != '<' }

  lemma {:induction false} Plain(s: string)
    requires NoAngle(s)
    ensures Angles(s) == 0
  {
    if s != [] {
      Plain(s[..|s| - 1]);
    }
  }

  lemma AnglesRewritten(s: string, b: nat, e: nat, m: Match)
    requires b <= e <= |s| && MatchTwo(s[e..]) == Some(m)
    ensures Angles(s[..b] + CallTo(s[b..e], m.hi, m.lo, m.rest)) + 1 == Angles(s)
  {
    AnglesMatch(s[e..]);
    AnglesCall(s[b..e], m.hi, m.lo, m.rest);
    AnglesConcat(s[..b], CallTo(s[b..e], m.hi, m.lo, m.rest));
    AnglesSplit(s, b, e);
  }

  /** On any text, each turn of the loop removes exactly one '<'. */
  lemma PassRemovesOne(s: string)
    requires Pass(s).Next?
    ensures Angles(Pass(s).code) + 1 == Angles(s)
  {
    FindFound(s);
    var i := Find(s).value;
    BackFound(s[..i], 1);
    AnglesRewritten(s, Back(s[..i], 1).value, i + 1, MatchTwo(s[i + 1..]).value);
  }

  lemma AnglesSplit(s: string, b: nat, e: nat)
    requires b <= e <= |s|
    ensures Angles(s) == Angles(s[..b]) + Angles(s[b..e]) + Angles(s[e..])
  {
    assert s[..b] + s[b..e] == s[..e];
    AnglesConcat(s[..b], s[b..e]);
    assert s[..e] + s[e..] == s;
    AnglesConcat(s[..e], s[e..]);
  }

  /** The loop, which therefore always ends. */
  function Loop(s: string): Result<string, ()>
    decreases Angles(s)
  {
    match Pass(s)
    case Done => Ok(s)
    case Exit => Err(())
    case Next(code) =>
      PassRemovesOne(s);
      Loop(code)
  }

  function Substitute(s: string): Result<string, ()> {
    Loop(SubWord(SubOne(s), false))
  }

  /** The search for the opening parenthesis, as the code runs it. */
  method FindOpen(code: string, exprEnd: nat) returns (r: Option<nat>)
    requires exprEnd < |code|
    ensures r == Back(code[..exprEnd], 1)
  {
    // With the group's end at the first character the code looks at the last one, and then gives up.
    if exprEnd == 0 {
      return None;
    }
    var here: int := exprEnd - 1;
    var nest := 1;
    while nest > 0
      invariant nest > 0 ==> 0 <= here < exprEnd
      invariant nest > 0 ==> Back(code[..exprEnd], 1) == Back(code[..here + 1], nest)
      invariant nest == 0 ==> 0 <= here < exprEnd && Back(code[..exprEnd], 1) == Some(here + 1)
      decreases nest > 0, here
    {
      assert code[..here + 1][..here] == code[..here];
      if code[here] == '(' {
        nest := nest - 1;
      } else if code[here] == ')' {
        nest := nest + 1;
      }
      here := here - 1;
      if here < 0 {
        return None;
      }
    }
    r := Some(here + 1);
  }

  method SubstBitOps(text: string) returns (r: Result<string, ()>)
    ensures r == Substitute(text)
  {
    var code := SubWord(SubOne(text), false);
    while Find(code).Some?
      invariant Loop(code) == Substitute(text)
      decreases Angles(code)
    {
      FindFound(code);
      var exprEnd := Find(code).value;
      var m := MatchTwo(code[exprEnd + 1..]).value;
      var start := FindOpen(code, exprEnd);
      if start.None? {
        return Err(());
      }
      BackFound(code[..exprEnd], 1);
      PassRemovesOne(code);
      code := code[..start.value] + CallTo(code[start.value..exprEnd + 1], m.hi, m.lo, m.rest);
    }
    r := Ok(code);
  }
}
