/** Bit-selector rewriting on printed expressions: the text printed from an expression tree is rewritten to
    the same tree printed with calls of bits. */
module BitOpsTree {
  import opened Common
  import opened BitOps
  import opened Text

  /** A selector as written, with the spaces around its bounds. */
  datatype Sel =
    | Two(s1: string, hi: string, s2: string, s3: string, lo: string, s4: string)
    | One(s1: string, hi: string, s2: string, s3: string)

  /** An expression as a row of pieces: other text, a group in parentheses, a selected name, a selected
      group. */
  datatype Expr =
    | Nil
    | Text(text: string, next: Expr)
    | Group(inner: Expr, next: Expr)
    | NameSel(name: string, sel: Sel, next: Expr)
    | GroupSel(inner: Expr, sel: Sel, next: Expr)

  function Lo(sel: Sel): string { if sel.Two? then sel.lo else sel.hi }

  /** The selector's text, then tail. */
  function SelTo(sel: Sel, tail: string): string {
    match sel
    case Two(s1, hi, s2, s3, lo, s4) => "<" + (s1 + (hi + (s2 + (":" + (s3 + (lo + (s4 + (">" + tail))))))))
    case One(s1, hi, s2, s3) => "<" + (s1 + (hi + (s2 + (":" + (s3 + (">" + tail))))))
  }

  predicate Spaces(s: string) { forall i :: 0 <= i < |s| ==> IsSpace(s[i]) }
  predicate Word(s: string) { s != [] && forall i :: 0 <= i < |s| ==> IsWord(s[i]) }
  predicate Name(s: string) { s != [] && forall i :: 0 <= i < |s| ==> IsName(s[i]) }

  predicate SelOk(sel: Sel) {
    match sel
    case Two(s1, hi, s2, s3, lo, s4) => Spaces(s1) && Word(hi) && Spaces(s2) && Spaces(s3) && Word(lo) && Spaces(s4)
    case One(s1, hi, s2, s3) => Spaces(s1) && Word(hi) && Spaces(s2) && Spaces(s3)
  }

  /** Other text: no angle bracket opens in it and it has no parentheses. */
  predicate TextOk(s: string) { s != [] && forall i :: 0 <= i < |s| ==> s[i] != '<' && s[i] != '(' && s[i] != ')' }

  /** e is well formed where the text before it ends in a name character or not. */
  predicate ExprOk(e: Expr, after: bool) {
    match e
    case Nil => true
    case Text(text, next) => TextOk(text) && ExprOk(next, IsName(text[|text| - 1]))
    case Group(inner, next) => ExprOk(inner, false) && ExprOk(next, false)
    case NameSel(name, sel, next) => !after && Name(name) && SelOk(sel) && ExprOk(next, false)
    case GroupSel(inner, sel, next) => ExprOk(inner, false) && SelOk(sel) && ExprOk(next, false)
  }

  /** The source text of e, then tail. */
  function Print(e: Expr, tail: string): string {
    match e
    case Nil => tail
    case Text(text, next) => text + Print(next, tail)
    case Group(inner, next) => "(" + Print(inner, ")" + Print(next, tail))
    case NameSel(name, sel, next) => name + SelTo(sel, Print(next, tail))
    case GroupSel(inner, sel, next) => "(" + Print(inner, ")" + SelTo(sel, Print(next, tail)))
  }

  /** The same expression with every selector a call of bits, then tail. */
  function PrintBits(e: Expr, tail: string): string {
    match e
    case Nil => tail
    case Text(text, next) => text + PrintBits(next, tail)
    case Group(inner, next) => "(" + PrintBits(inner, ")" + PrintBits(next, tail))
    case NameSel(name, sel, next) => CallTo(name, sel.hi, Lo(sel), PrintBits(next, tail))
    case GroupSel(inner, sel, next) =>
      "bits(" + ("(" + PrintBits(inner, ")" + ArgsTo(sel.hi, Lo(sel), PrintBits(next, tail))))
  }

  // ---- matching a printed selector ----

  lemma {:induction false} SkipAll(sp: string, y: string)
    requires Spaces(sp) && (y == [] || !IsSpace(y[0]))
    ensures SkipSpaces(sp + y) == y
  {
    if sp == [] {
      assert sp + y == y;
    } else {
      assert (sp + y)[1..] == sp[1..] + y;
      SkipAll(sp[1..], y);
    }
  }

  lemma {:induction false} WordAll(w: string, y: string)
    requires (forall i :: 0 <= i < |w| ==> IsWord(w[i])) && (y == [] || !IsWord(y[0]))
    ensures TakeWord(w + y) == w && DropWord(w + y) == y
  {
    if w == [] {
      assert w + y == y;
    } else {
      assert (w + y)[1..] == w[1..] + y;
      WordAll(w[1..], y);
    }
  }

  lemma {:induction false} NameAll(w: string, y: string)
    requires (forall i :: 0 <= i < |w| ==> IsName(w[i])) && (y == [] || !IsName(y[0]))
    ensures TakeName(w + y) == w && DropName(w + y) == y
  {
    if w == [] {
      assert w + y == y;
    } else {
      assert (w + y)[1..] == w[1..] + y;
      NameAll(w[1..], y);
    }
  }

  /** A word between spaces, before something that is neither. */
  lemma Padded(s1: string, w: string, s2: string, y: string)
    requires Spaces(s1) && Word(w) && Spaces(s2) && y != [] && !IsSpace(y[0]) && !IsWord(y[0])
    ensures TakeWord(SkipSpaces(s1 + (w + (s2 + y)))) == w && SkipSpaces(DropWord(SkipSpaces(s1 + (w + (s2 + y))))) == y
    ensures SkipSpaces(s1 + (w + (s2 + y))) == w + (s2 + y)
  {
    assert (w + (s2 + y))[0] == w[0];
    SkipAll(s1, w + (s2 + y));
    assert (s2 + y)[0] == if s2 == [] then y[0] else s2[0];
    WordAll(w, s2 + y);
    SkipAll(s2, y);
  }

  lemma MatchesFirst(s1: string, hi: string, s2: string, y: string)
    requires Spaces(s1) && Word(hi) && Spaces(s2)
    ensures MatchFirst("<" + (s1 + (hi + (s2 + (":" + y))))) == Some((hi, SkipSpaces(y)))
  {
    var t := s1 + (hi + (s2 + (":" + y)));
    assert ("<" + t)[1..] == t;
    Padded(s1, hi, s2, ":" + y);
    assert (":" + y)[1..] == y;
  }

  lemma MatchesTwo(sel: Sel, y: string)
    requires sel.Two? && SelOk(sel)
    ensures MatchTwo(SelTo(sel, y)) == Some(Match(sel.hi, sel.lo, y)) && MatchOne(SelTo(sel, y)) == None
  {
    MatchesFirst(sel.s1, sel.hi, sel.s2, sel.s3 + (sel.lo + (sel.s4 + (">" + y))));
    Padded(sel.s3, sel.lo, sel.s4, ">" + y);
    assert (sel.lo + (sel.s4 + (">" + y)))[0] == sel.lo[0];
    assert (">" + y)[1..] == y;
  }

  lemma MatchesOne(sel: Sel, y: string)
    requires sel.One? && SelOk(sel)
    ensures MatchOne(SelTo(sel, y)) == Some(Match(sel.hi, sel.hi, y))
  {
    MatchesFirst(sel.s1, sel.hi, sel.s2, sel.s3 + (">" + y));
    SkipAll(sel.s3, ">" + y);
    assert (">" + y)[1..] == y;
  }

  // ---- the first substitution ----

  function Full(sel: Sel): Sel { if sel.Two? then sel else Two("", sel.hi, "", "", sel.hi, "") }

  lemma HeadTail(x: string, y: string)
    requires x != []
    ensures x + y != [] && (x + y)[0] == x[0] && (x + y)[1..] == x[1..] + y && [x[0]] + (x[1..] + y) == x + y
  {
  }

  lemma OneStep(s: string)
    requires s != [] && s[0] != '<'
    ensures SubOne(s) == [s[0]] + SubOne(s[1..])
  {
  }

  function Widen(e: Expr): Expr {
    match e
    case Nil => Nil
    case Text(text, next) => Text(text, Widen(next))
    case Group(inner, next) => Group(Widen(inner), Widen(next))
    case NameSel(name, sel, next) => NameSel(name, Full(sel), Widen(next))
    case GroupSel(inner, sel, next) => GroupSel(Widen(inner), Full(sel), Widen(next))
  }

  lemma {:induction false} OnePasses(x: string, y: string)
    requires NoAngle(x)
    ensures SubOne(x + y) == x + SubOne(y)
  {
    if x == [] {
      assert x + y == y && x + SubOne(y) == SubOne(y);
    } else {
      HeadTail(x, y);
      OneStep(x + y);
      OnePasses(x[1..], y);
      HeadTail(x, SubOne(y));
    }
  }

  lemma OneSelOne(sel: Sel, y: string)
    requires SelOk(sel) && sel.One?
    ensures SubOne(SelTo(sel, y)) == SelTo(Full(sel), SubOne(y))
  {
    MatchesOne(sel, y);
    FullTo(sel.hi, SubOne(y));
  }

  lemma FullTo(hi: string, z: string)
    ensures SelTo(Two("", hi, "", "", hi, ""), z) == TwoTo(hi, hi, z)
  {
    var t1 := ">" + z;
    assert "" + t1 == t1;
    var t2 := hi + t1;
    assert "" + t2 == t2;
    var t3 := ":" + t2;
    assert "" + t3 == t3;
    var t4 := hi + t3;
    assert "" + t4 == t4;
  }

  lemma OneSelTwo(sel: Sel, y: string)
    requires SelOk(sel) && sel.Two?
    ensures SubOne(SelTo(sel, y)) == SelTo(sel, SubOne(y))
  {
    MatchesTwo(sel, y);
    var t4 := ">" + y;
    var t3 := sel.s4 + t4;
    var t2 := sel.lo + t3;
    var t1 := sel.s3 + t2;
    var t0 := ":" + t1;
    var u1 := sel.s2 + t0;
    var u0 := sel.hi + u1;
    var v := sel.s1 + u0;
    assert ("<" + v)[1..] == v;
    OnePasses(sel.s1, u0);
    OnePasses(sel.hi, u1);
    OnePasses(sel.s2, t0);
    OnePasses(":", t1);
    OnePasses(sel.s3, t2);
    OnePasses(sel.lo, t3);
    OnePasses(sel.s4, t4);
    OnePasses(">", y);
  }

  lemma OneSel(sel: Sel, y: string)
    requires SelOk(sel)
    ensures SubOne(SelTo(sel, y)) == SelTo(Full(sel), SubOne(y))
  {
    if sel.One? {
      OneSelOne(sel, y);
    } else {
      OneSelTwo(sel, y);
    }
  }

  /** The first substitution writes every selector with two bounds and changes nothing else. */
  lemma {:induction false} OneOnTree(e: Expr, after: bool, tail: string)
    requires ExprOk(e, after)
    ensures SubOne(Print(e, tail)) == Print(Widen(e), SubOne(tail))
    decreases e
  {
    match e
    case Nil =>
    case Text(text, next) =>
      OnePasses(text, Print(next, tail));
      OneOnTree(next, IsName(text[|text| - 1]), tail);
    case Group(inner, next) =>
      OnePasses("(", Print(inner, ")" + Print(next, tail)));
      OneOnTree(inner, false, ")" + Print(next, tail));
      OnePasses(")", Print(next, tail));
      OneOnTree(next, false, tail);
    case NameSel(name, sel, next) =>
      OnePasses(name, SelTo(sel, Print(next, tail)));
      OneSel(sel, Print(next, tail));
      OneOnTree(next, false, tail);
    case GroupSel(inner, sel, next) =>
      var rest := SelTo(sel, Print(next, tail));
      OnePasses("(", Print(inner, ")" + rest));
      OneOnTree(inner, false, ")" + rest);
      OnePasses(")", rest);
      OneSel(sel, Print(next, tail));
      OneOnTree(next, false, tail);
  }

  // ---- the second substitution ----

  /** e with the selected names already calls, then tail: what the loop starts from. */
  function PrintNames(e: Expr, tail: string): string {
    match e
    case Nil => tail
    case Text(text, next) => text + PrintNames(next, tail)
    case Group(inner, next) => "(" + PrintNames(inner, ")" + PrintNames(next, tail))
    case NameSel(name, sel, next) => CallTo(name, sel.hi, Lo(sel), PrintNames(next, tail))
    case GroupSel(inner, sel, next) => "(" + PrintNames(inner, ")" + SelTo(sel, PrintNames(next, tail)))
  }

  /** The name characters y starts with are not followed by an angle bracket. */
  ghost predicate Blocked(y: string) {
    DropName(y) == [] || DropName(y)[0] != '<'
  }

  lemma WordStep(s: string, after: bool)
    requires s != [] && (after || !IsName(s[0]) || MatchTwo(DropName(s)).None?)
    ensures SubWord(s, after) == [s[0]] + SubWord(s[1..], IsName(s[0]))
  {
  }

  lemma BlockedMatch(s: string)
    requires Blocked(s)
    ensures MatchTwo(DropName(s)).None?
  {
  }

  lemma {:induction false} BlockedText(x: string, y: string)
    requires NoAngle(x) && (x == [] || IsName(x[|x| - 1]) ==> Blocked(y))
    ensures Blocked(x + y)
  {
    if x == [] {
      assert x + y == y;
    } else if IsName(x[0]) {
      assert (x + y)[1..] == x[1..] + y;
      if |x| > 1 {
        assert x[1..][|x| - 2] == x[|x| - 1];
      }
      BlockedText(x[1..], y);
    }
  }

  lemma {:induction false} WordPasses(x: string, y: string, after: bool)
    requires NoAngle(x) && (x != [] && IsName(x[|x| - 1]) ==> Blocked(y))
    ensures SubWord(x + y, after) == x + SubWord(y, if x == [] then after else IsName(x[|x| - 1]))
  {
    if x == [] {
      assert x + y == y && x + SubWord(y, after) == SubWord(y, after);
    } else {
      var last := IsName(x[|x| - 1]);
      BlockedText(x, y);
      BlockedMatch(x + y);
      HeadTail(x, y);
      WordStep(x + y, after);
      if |x| > 1 {
        assert x[1..][|x| - 2] == x[|x| - 1];
      }
      WordPasses(x[1..], y, IsName(x[0]));
      HeadTail(x, SubWord(y, last));
    }
  }

  lemma TreeBlocked(e: Expr, tail: string)
    requires ExprOk(e, true) && Blocked(tail)
    ensures Blocked(Print(e, tail))
  {
    match e
    case Nil =>
    case Text(text, next) =>
      if IsName(text[|text| - 1]) {
        TreeBlocked(next, tail);
      }
      BlockedText(text, Print(next, tail));
    case Group(inner, next) =>
    case GroupSel(inner, sel, next) =>
  }

  lemma WordBound(s1: string, w: string, s2: string, mark: string, y: string)
    requires Spaces(s1) && Word(w) && Spaces(s2) && (mark == ":" || mark == ">")
    ensures SubWord(s1 + (w + (s2 + (mark + y))), false) == s1 + (w + (s2 + (mark + SubWord(y, false))))
  {
    var t0 := mark + y;
    var u1 := s2 + t0;
    WordPasses(s1, w + u1, false);
    assert u1[0] == if s2 == [] then mark[0] else s2[0];
    WordPasses(w, u1, false);
    WordPasses(s2, t0, true);
    WordPasses(mark, y, s2 == []);
  }

  /** A selector standing after a group is left alone. */
  lemma WordSel(sel: Sel, y: string)
    requires SelOk(sel) && sel.Two?
    ensures SubWord(SelTo(sel, y), false) == SelTo(sel, SubWord(y, false))
  {
    var t := sel.s3 + (sel.lo + (sel.s4 + (">" + y)));
    var v := sel.s1 + (sel.hi + (sel.s2 + (":" + t)));
    assert ("<" + v)[1..] == v;
    WordBound(sel.s1, sel.hi, sel.s2, ":", t);
    WordBound(sel.s3, sel.lo, sel.s4, ">", y);
  }

  lemma WordName(name: string, sel: Sel, y: string)
    requires Name(name) && SelOk(sel) && sel.Two?
    ensures SubWord(name + SelTo(sel, y), false) == CallTo(name, sel.hi, sel.lo, SubWord(y, false))
  {
    NameAll(name, SelTo(sel, y));
    MatchesTwo(sel, y);
  }

  predicate AllTwo(e: Expr) {
    match e
    case Nil => true
    case Text(_, next) => AllTwo(next)
    case Group(inner, next) => AllTwo(inner) && AllTwo(next)
    case NameSel(_, sel, next) => sel.Two? && AllTwo(next)
    case GroupSel(inner, sel, next) => sel.Two? && AllTwo(inner) && AllTwo(next)
  }

  /** The second substitution makes every selected name a call and changes nothing else. */
  lemma {:induction false} WordOnTree(e: Expr, after: bool, tail: string)
    requires ExprOk(e, after) && AllTwo(e) && (tail == [] || tail[0] == ')')
    ensures SubWord(Print(e, tail), after) == PrintNames(e, SubWord(tail, false))
    decreases e, 0
  {
    match e
    case Nil => TailFlag(tail, after);
    case Text(text, next) =>
      var last := IsName(text[|text| - 1]);
      if last {
        TreeBlocked(next, tail);
      }
      WordPasses(text, Print(next, tail), after);
      WordOnTree(next, last, tail);
    case Group(inner, next) =>
      WordOnTree(next, false, tail);
      WordOnGroup(inner, Print(next, tail), after);
    case NameSel(name, sel, next) =>
      WordName(name, sel, Print(next, tail));
      WordOnTree(next, false, tail);
    case GroupSel(inner, sel, next) =>
      WordOnTree(next, false, tail);
      WordOnGroup(inner, SelTo(sel, Print(next, tail)), after);
      WordSel(sel, Print(next, tail));
  }

  lemma {:induction false} WordOnGroup(inner: Expr, rest: string, after: bool)
    requires ExprOk(inner, false) && AllTwo(inner)
    ensures SubWord("(" + Print(inner, ")" + rest), after) == "(" + PrintNames(inner, ")" + SubWord(rest, false))
    decreases inner, 1
  {
    WordPasses("(", Print(inner, ")" + rest), after);
    WordOnTree(inner, false, ")" + rest);
    WordPasses(")", rest, false);
  }

  lemma TailFlag(tail: string, after: bool)
    requires tail == [] || tail[0] == ')'
    ensures SubWord(tail, after) == SubWord(tail, false)
  {
  }

  // ---- the loop ----

  lemma Assoc(a: string, b: string, c: string)
    ensures a + (b + c) == (a + b) + c
  {
  }

  lemma Enclosed(open: string, p: string, rest: string, tail: string)
    ensures open + (p + (")" + (rest + tail))) == (open + (p + (")" + rest))) + tail
  {
    Assoc(")", rest, tail);
    Assoc(p, ")" + rest, tail);
    Assoc(open, p + (")" + rest), tail);
  }

  lemma {:induction false} BitsTail(e: Expr, tail: string)
    ensures PrintBits(e, tail) == PrintBits(e, "") + tail
    decreases e
  {
    match e
    case Nil =>
    case Text(text, next) =>
      BitsTail(next, tail);
      Assoc(text, PrintBits(next, ""), tail);
    case Group(inner, next) =>
      BitsTail(next, tail);
      BitsTail(inner, ")" + PrintBits(next, tail));
      BitsTail(inner, ")" + PrintBits(next, ""));
      Enclosed("(", PrintBits(inner, ""), PrintBits(next, ""), tail);
    case NameSel(name, sel, next) =>
      BitsTail(next, tail);
      CallTail(name, sel.hi, Lo(sel), PrintBits(next, ""), tail);
    case GroupSel(inner, sel, next) =>
      BitsTail(next, tail);
      var args := ArgsTo(sel.hi, Lo(sel), PrintBits(next, ""));
      ArgsTail(sel.hi, Lo(sel), PrintBits(next, ""), tail);
      BitsTail(inner, ")" + (args + tail));
      BitsTail(inner, ")" + args);
      Enclosed("(", PrintBits(inner, ""), args, tail);
      Assoc("bits(", "(" + (PrintBits(inner, "") + (")" + args)), tail);
  }

  lemma ArgsTail(hi: string, lo: string, x: string, y: string)
    ensures ArgsTo(hi, lo, x + y) == ArgsTo(hi, lo, x) + y
  {
    var t := ")" + x;
    var u := lo + t;
    var v := ", " + u;
    Assoc(")", x, y);
    Assoc(lo, t, y);
    Assoc(", ", u, y);
    Assoc(hi, v, y);
    Assoc(", ", hi + v, y);
  }

  lemma CallTail(e: string, hi: string, lo: string, x: string, y: string)
    ensures CallTo(e, hi, lo, x + y) == CallTo(e, hi, lo, x) + y
  {
    ArgsTail(hi, lo, x, y);
    Assoc(e, ArgsTo(hi, lo, x), y);
    Assoc("bits(", e + ArgsTo(hi, lo, x), y);
  }

  lemma ArgsPlain(hi: string, lo: string, tail: string)
    requires Word(hi) && Word(lo) && NoAngle(tail)
    ensures NoAngle(ArgsTo(hi, lo, tail))
  {
    assert NoAngle(")" + tail);
    assert NoAngle(lo + (")" + tail));
    assert NoAngle(", " + (lo + (")" + tail)));
    assert NoAngle(hi + (", " + (lo + (")" + tail))));
  }

  /** Nothing is left to select in the final text. */
  lemma {:induction false} BitsPlain(e: Expr, after: bool, tail: string)
    requires ExprOk(e, after) && NoAngle(tail)
    ensures NoAngle(PrintBits(e, tail))
    decreases e
  {
    match e
    case Nil =>
    case Text(text, next) => BitsPlain(next, IsName(text[|text| - 1]), tail);
    case Group(inner, next) =>
      BitsPlain(next, false, tail);
      BitsPlain(inner, false, ")" + PrintBits(next, tail));
    case NameSel(name, sel, next) =>
      BitsPlain(next, false, tail);
      ArgsPlain(sel.hi, Lo(sel), PrintBits(next, tail));
    case GroupSel(inner, sel, next) =>
      BitsPlain(next, false, tail);
      ArgsPlain(sel.hi, Lo(sel), PrintBits(next, tail));
      BitsPlain(inner, false, ")" + ArgsTo(sel.hi, Lo(sel), PrintBits(next, tail)));
  }

  lemma {:induction false} FindNone(s: string)
    requires NoAngle(s)
    ensures Find(s) == None
  {
    if s != [] {
      FindNone(s[1..]);
    }
  }

  lemma {:induction false} FindAt(x: string, sel: Sel, y: string)
    requires NoAngle(x) && sel.Two? && SelOk(sel)
    ensures Find(x + (")" + SelTo(sel, y))) == Some(|x|)
  {
    var s := x + (")" + SelTo(sel, y));
    MatchesTwo(sel, y);
    if x == [] {
      assert s == ")" + SelTo(sel, y);
      assert s[1..] == SelTo(sel, y);
    } else {
      assert s[1..] == x[1..] + (")" + SelTo(sel, y));
      FindAt(x[1..], sel, y);
      assert s[1..][0] != '<';
    }
  }

  // Looking back over balanced text.

  lemma {:induction false} BackText(pre: string, x: string, level: nat)
    requires pre != [] && level > 0 && forall i :: 0 <= i < |x| ==> x[i] != '(' && x[i] != ')'
    ensures Back(pre + x, level) == Back(pre, level)
  {
    if x == [] {
      assert pre + x == pre;
    } else {
      assert (pre + x)[..|pre + x| - 1] == pre + x[..|x| - 1];
      BackText(pre, x[..|x| - 1], level);
    }
  }

  lemma BackClose(pre: string, level: nat)
    requires pre != [] && level > 0
    ensures Back(pre + ")", level) == Back(pre, level + 1)
  {
    assert (pre + ")")[..|pre|] == pre;
  }

  lemma BackOpen(pre: string, level: nat)
    requires pre != [] && level > 0
    ensures Back(pre + "(", level) == if level == 1 then Some(|pre|) else Back(pre, level - 1)
  {
    assert (pre + "(")[..|pre|] == pre;
  }

  /** A call is balanced when what it selects from is. */
  lemma BackCall(pre: string, mid: string, hi: string, lo: string, level: nat)
    requires pre != [] && level > 0 && Word(hi) && Word(lo)
    requires Back(pre + "bits" + "(" + mid, level + 1) == Back(pre + "bits" + "(", level + 1)
    ensures Back(pre + CallTo(mid, hi, lo, ""), level) == Back(pre, level)
  {
    var open := pre + "bits" + "(";
    var args := ", " + hi + ", " + lo;
    assert pre + CallTo(mid, hi, lo, "") == open + mid + args + ")";
    BackClose(open + mid + args, level);
    BackText(open + mid, args, level + 1);
    BackOpen(pre + "bits", level + 1);
    BackText(pre, "bits", level);
  }

  lemma {:induction false} BackTree(pre: string, e: Expr, after: bool, level: nat)
    requires pre != [] && level > 0 && ExprOk(e, after)
    ensures Back(pre + PrintBits(e, ""), level) == Back(pre, level)
    decreases e
  {
    match e
    case Nil => assert pre + "" == pre;
    case Text(text, next) =>
      assert pre + PrintBits(e, "") == pre + text + PrintBits(next, "");
      BackTree(pre + text, next, IsName(text[|text| - 1]), level);
      BackText(pre, text, level);
    case Group(inner, next) => BackGroup(pre, inner, next, level);
    case NameSel(name, sel, next) => BackNameSel(pre, name, sel, next, level);
    case GroupSel(inner, sel, next) =>
      BackGroupSel(pre, inner, sel, next, level);
  }

  lemma {:induction false} BackGroup(pre: string, inner: Expr, next: Expr, level: nat)
    requires pre != [] && level > 0 && ExprOk(inner, false) && ExprOk(next, false)
    ensures Back(pre + PrintBits(Group(inner, next), ""), level) == Back(pre, level)
    decreases Group(inner, next), 0
  {
    var p, q := PrintBits(inner, ""), PrintBits(next, "");
    BitsTail(inner, ")" + q);
    Assoc(pre, "(", p + (")" + q));
    GroupPieces(pre, p, q);
    BackTree(pre + "(" + p + ")", next, false, level);
    BackClose(pre + "(" + p, level);
    BackTree(pre + "(", inner, false, level + 1);
    BackOpen(pre, level + 1);
  }

  lemma {:induction false} BackNameSel(pre: string, name: string, sel: Sel, next: Expr, level: nat)
    requires pre != [] && level > 0 && Name(name) && SelOk(sel) && ExprOk(next, false)
    ensures Back(pre + PrintBits(NameSel(name, sel, next), ""), level) == Back(pre, level)
    decreases NameSel(name, sel, next), 0
  {
    CallPieces(pre, name, sel.hi, Lo(sel), PrintBits(next, ""));
    BackTree(pre + CallTo(name, sel.hi, Lo(sel), ""), next, false, level);
    BackText(pre + "bits" + "(", name, level + 1);
    BackCall(pre, name, sel.hi, Lo(sel), level);
  }

  lemma {:induction false} BackGroupSel(pre: string, inner: Expr, sel: Sel, next: Expr, level: nat)
    requires pre != [] && level > 0 && ExprOk(inner, false) && SelOk(sel) && ExprOk(next, false)
    ensures Back(pre + PrintBits(GroupSel(inner, sel, next), ""), level) == Back(pre, level)
    decreases GroupSel(inner, sel, next), 0
  {
    var mid := "(" + PrintBits(inner, "") + ")";
    var call := CallTo(mid, sel.hi, Lo(sel), "");
    DonePrint(inner, sel, next, "");
    Assoc(pre, call, PrintBits(next, ""));
    BackTree(pre + call, next, false, level);
    var open := pre + "bits" + "(";
    InParens(open, PrintBits(inner, ""));
    BackClose(open + "(" + PrintBits(inner, ""), level + 1);
    BackTree(open + "(", inner, false, level + 2);
    BackOpen(open, level + 2);
    BackCall(pre, mid, sel.hi, Lo(sel), level);
  }

  lemma InParens(open: string, p: string)
    ensures open + ("(" + p + ")") == open + "(" + p + ")"
  {
  }

  /** A selected group printed as a call, in one piece. */
  lemma DonePrint(inner: Expr, sel: Sel, next: Expr, tail: string)
    ensures PrintBits(GroupSel(inner, sel, next), tail) ==
            CallTo("(" + PrintBits(inner, "") + ")", sel.hi, Lo(sel), "") + PrintBits(next, tail)
  {
    var mid := "(" + PrintBits(inner, "") + ")";
    var args := ArgsTo(sel.hi, Lo(sel), PrintBits(next, tail));
    BitsTail(inner, ")" + args);
    assert "(" + (PrintBits(inner, "") + (")" + args)) == mid + args;
    CallTail(mid, sel.hi, Lo(sel), "", PrintBits(next, tail));
    assert "" + PrintBits(next, tail) == PrintBits(next, tail);
  }

  lemma AroundClose(x: string, rest: string, b: nat)
    requires b <= |x|
    ensures var s := x + (")" + rest);
            && s[|x| + 1..] == rest && s[..|x|] == x && s[..b] == x[..b] && s[b..|x| + 1] == x[b..] + ")"
  {
  }

  lemma PassWhere(x: string, rest: string, m: Match)
    requires Find(x + (")" + rest)) == Some(|x|) && MatchTwo(rest) == Some(m)
    ensures Back(x, 1).None? ==> Pass(x + (")" + rest)) == Exit
    ensures Back(x, 1).Some? ==>
              var b := Back(x, 1).value;
              b < |x| && Pass(x + (")" + rest)) == Next(x[..b] + CallTo(x[b..] + ")", m.hi, m.lo, m.rest))
  {
    BackFound(x, 1);
    AroundClose(x, rest, if Back(x, 1).Some? then Back(x, 1).value else 0);
  }

  lemma BackGroupEnd(pre: string, inner: Expr)
    requires ExprOk(inner, false)
    ensures Back(pre + "(" + PrintBits(inner, ""), 1) == if pre == [] then None else Some(|pre|)
  {
    BackTree(pre + "(", inner, false, 1);
    if pre != [] {
      BackOpen(pre, 1);
    } else {
      assert pre + "(" == "(";
    }
  }

  /** One turn of the loop on a selected group whose inside is done. */
  lemma PassGroup(pre: string, inner: Expr, sel: Sel, y: string)
    requires NoAngle(pre) && ExprOk(inner, false) && sel.Two? && SelOk(sel)
    ensures Pass(pre + ("(" + PrintBits(inner, ")" + SelTo(sel, y)))) ==
            if pre == [] then Exit
            else Next(pre + CallTo("(" + PrintBits(inner, "") + ")", sel.hi, sel.lo, y))
  {
    var p := PrintBits(inner, "");
    BitsTail(inner, ")" + SelTo(sel, y));
    BitsPlain(inner, false, "");
    MatchesTwo(sel, y);
    FindAt(pre + "(" + p, sel, y);
    BackGroupEnd(pre, inner);
    PassGroupText(pre, p, SelTo(sel, y), Match(sel.hi, sel.lo, y));
  }

  lemma PassGroupText(pre: string, p: string, rest: string, m: Match)
    requires Find(pre + "(" + p + (")" + rest)) == Some(|pre + "(" + p|) && MatchTwo(rest) == Some(m)
    requires Back(pre + "(" + p, 1) == if pre == [] then None else Some(|pre|)
    ensures Pass(pre + ("(" + (p + (")" + rest)))) ==
            if pre == [] then Exit else Next(pre + CallTo("(" + p + ")", m.hi, m.lo, m.rest))
  {
    var x := pre + "(" + p;
    Assoc(pre, "(", p + (")" + rest));
    Assoc(pre + "(", p, ")" + rest);
    PassWhere(x, rest, m);
    assert x[..|pre|] == pre && x[|pre|..] == "(" + p;
  }

  lemma LoopStep(s: string)
    ensures Pass(s).Next? ==> Loop(s) == Loop(Pass(s).code)
    ensures Pass(s).Exit? ==> Loop(s).Err?
  {
    if Pass(s).Next? {
      PassRemovesOne(s);
    }
  }

  /** Behind text with no selector left, the loop rewrites the groups of e from left to right. */
  lemma {:induction false} LoopTree(pre: string, e: Expr, after: bool, tail: string)
    requires NoAngle(pre) && ExprOk(e, after) && AllTwo(e) && (pre != [] || !e.GroupSel?)
    ensures Loop(pre + PrintNames(e, tail)) == Loop(pre + PrintBits(e, tail))
    decreases e, 2
  {
    match e
    case Nil =>
    case Text(text, next) =>
      Assoc(pre, text, PrintNames(next, tail));
      Assoc(pre, text, PrintBits(next, tail));
      LoopTree(pre + text, next, IsName(text[|text| - 1]), tail);
    case Group(inner, next) => LoopGroup(pre, inner, next, tail);
    case NameSel(name, sel, next) =>
      CallPieces(pre, name, sel.hi, Lo(sel), PrintNames(next, tail));
      CallPieces(pre, name, sel.hi, Lo(sel), PrintBits(next, tail));
      ArgsPlain(sel.hi, Lo(sel), "");
      LoopTree(pre + CallTo(name, sel.hi, Lo(sel), ""), next, false, tail);
    case GroupSel(inner, sel, next) => LoopGroupSel(pre, inner, sel, next, tail);
  }

  lemma CallPieces(pre: string, e: string, hi: string, lo: string, y: string)
    ensures pre + CallTo(e, hi, lo, y) == (pre + CallTo(e, hi, lo, "")) + y
  {
    CallTail(e, hi, lo, "", y);
    assert "" + y == y;
    Assoc(pre, CallTo(e, hi, lo, ""), y);
  }

  lemma GroupPieces(pre: string, p: string, y: string)
    ensures pre + "(" + (p + (")" + y)) == (pre + "(" + p + ")") + y
  {
    Assoc(pre + "(" + p, ")", y);
    Assoc(pre + "(", p, ")" + y);
  }

  lemma {:induction false} LoopGroup(pre: string, inner: Expr, next: Expr, tail: string)
    requires NoAngle(pre) && ExprOk(inner, false) && ExprOk(next, false) && AllTwo(inner) && AllTwo(next)
    ensures Loop(pre + PrintNames(Group(inner, next), tail)) == Loop(pre + PrintBits(Group(inner, next), tail))
    decreases Group(inner, next), 0
  {
    var p := PrintBits(inner, "");
    Assoc(pre, "(", PrintNames(inner, ")" + PrintNames(next, tail)));
    LoopTree(pre + "(", inner, false, ")" + PrintNames(next, tail));
    BitsTail(inner, ")" + PrintNames(next, tail));
    GroupPieces(pre, p, PrintNames(next, tail));
    BitsPlain(inner, false, "");
    LoopTree(pre + "(" + p + ")", next, false, tail);
    GroupPieces(pre, p, PrintBits(next, tail));
    BitsTail(inner, ")" + PrintBits(next, tail));
    Assoc(pre, "(", PrintBits(inner, ")" + PrintBits(next, tail)));
  }

  lemma {:induction false} LoopGroupSel(pre: string, inner: Expr, sel: Sel, next: Expr, tail: string)
    requires NoAngle(pre) && pre != [] && ExprOk(inner, false) && SelOk(sel) && sel.Two? && ExprOk(next, false)
    requires AllTwo(inner) && AllTwo(next)
    ensures Loop(pre + PrintNames(GroupSel(inner, sel, next), tail)) ==
            Loop(pre + PrintBits(GroupSel(inner, sel, next), tail))
    decreases GroupSel(inner, sel, next), 0
  {
    var call := CallTo("(" + PrintBits(inner, "") + ")", sel.hi, sel.lo, "");
    calc {
      Loop(pre + PrintNames(GroupSel(inner, sel, next), tail));
    ==  { LoopGroupHere(pre, inner, sel, PrintNames(next, tail), call); }
      Loop(pre + call + PrintNames(next, tail));
    ==  { LoopGroupHere(pre, inner, sel, "", call); LoopAfter(pre + call, next, tail); }
      Loop(pre + call + PrintBits(next, tail));
    ==  { DonePieces(pre, inner, sel, next, tail); }
      Loop(pre + PrintBits(GroupSel(inner, sel, next), tail));
    }
  }

  /** The group becomes a call. */
  lemma {:induction false} LoopGroupHere(pre: string, inner: Expr, sel: Sel, y: string, call: string)
    requires NoAngle(pre) && pre != [] && ExprOk(inner, false) && SelOk(sel) && sel.Two? && AllTwo(inner)
    requires call == CallTo("(" + PrintBits(inner, "") + ")", sel.hi, sel.lo, "")
    ensures NoAngle(pre + call)
    ensures Loop(pre + ("(" + PrintNames(inner, ")" + SelTo(sel, y)))) == Loop(pre + call + y)
    decreases inner, 4
  {
    LoopInside(pre, inner, sel, y);
    LoopCloses(pre, inner, sel, y);
  }

  lemma {:induction false} LoopAfter(pre: string, next: Expr, tail: string)
    requires NoAngle(pre) && pre != [] && ExprOk(next, false) && AllTwo(next)
    ensures Loop(pre + PrintNames(next, tail)) == Loop(pre + PrintBits(next, tail))
    decreases next, 3
  {
    LoopTree(pre, next, false, tail);
  }

  lemma DonePieces(pre: string, inner: Expr, sel: Sel, next: Expr, tail: string)
    ensures pre + PrintBits(GroupSel(inner, sel, next), tail) ==
            (pre + CallTo("(" + PrintBits(inner, "") + ")", sel.hi, Lo(sel), "")) + PrintBits(next, tail)
  {
    DonePrint(inner, sel, next, tail);
    Assoc(pre, CallTo("(" + PrintBits(inner, "") + ")", sel.hi, Lo(sel), ""), PrintBits(next, tail));
  }

  lemma LoopCloses(pre: string, inner: Expr, sel: Sel, y: string)
    requires NoAngle(pre) && pre != [] && ExprOk(inner, false) && sel.Two? && SelOk(sel)
    ensures NoAngle(pre + CallTo("(" + PrintBits(inner, "") + ")", sel.hi, sel.lo, ""))
    ensures Loop(pre + ("(" + PrintBits(inner, ")" + SelTo(sel, y)))) ==
            Loop((pre + CallTo("(" + PrintBits(inner, "") + ")", sel.hi, sel.lo, "")) + y)
  {
    PassGroup(pre, inner, sel, y);
    LoopStep(pre + ("(" + PrintBits(inner, ")" + SelTo(sel, y))));
    CallPieces(pre, "(" + PrintBits(inner, "") + ")", sel.hi, sel.lo, y);
    BitsPlain(inner, false, "");
    CallPlain(pre, PrintBits(inner, ""), sel.hi, sel.lo);
  }

  lemma CallPlain(pre: string, p: string, hi: string, lo: string)
    requires NoAngle(pre) && NoAngle(p) && Word(hi) && Word(lo)
    ensures NoAngle(pre + CallTo("(" + p + ")", hi, lo, ""))
  {
    ArgsPlain(hi, lo, "");
    assert NoAngle("(" + p + ")");
    assert NoAngle("(" + p + ")" + ArgsTo(hi, lo, ""));
  }

  /** The groups inside a selected group are rewritten before it. */
  lemma {:induction false} LoopInside(pre: string, inner: Expr, sel: Sel, y: string)
    requires NoAngle(pre) && ExprOk(inner, false) && AllTwo(inner)
    ensures Loop(pre + ("(" + PrintNames(inner, ")" + SelTo(sel, y)))) ==
            Loop(pre + ("(" + PrintBits(inner, ")" + SelTo(sel, y))))
    decreases inner, 3
  {
    Assoc(pre, "(", PrintNames(inner, ")" + SelTo(sel, y)));
    Assoc(pre, "(", PrintBits(inner, ")" + SelTo(sel, y)));
    LoopTree(pre + "(", inner, false, ")" + SelTo(sel, y));
  }

  // ---- the main theorem ----

  lemma {:induction false} WidenOk(e: Expr, after: bool)
    requires ExprOk(e, after)
    ensures ExprOk(Widen(e), after) && AllTwo(Widen(e)) && (Widen(e).GroupSel? <==> e.GroupSel?)
  {
    match e
    case Nil =>
    case Text(text, next) => WidenOk(next, IsName(text[|text| - 1]));
    case Group(inner, next) =>
      WidenOk(inner, false);
      WidenOk(next, false);
    case NameSel(_, _, next) => WidenOk(next, false);
    case GroupSel(inner, _, next) =>
      WidenOk(inner, false);
      WidenOk(next, false);
  }

  lemma {:induction false} WidenBits(e: Expr, tail: string)
    ensures PrintBits(Widen(e), tail) == PrintBits(e, tail)
    decreases e
  {
    match e
    case Nil =>
    case Text(_, next) => WidenBits(next, tail);
    case Group(inner, next) =>
      WidenBits(next, tail);
      WidenBits(inner, ")" + PrintBits(next, tail));
    case NameSel(_, _, next) => WidenBits(next, tail);
    case GroupSel(inner, sel, next) =>
      WidenBits(next, tail);
      WidenBits(inner, ")" + ArgsTo(sel.hi, Lo(sel), PrintBits(next, tail)));
  }

  /** The text of an expression is rewritten to the same expression with calls of bits, unless a selected
      group opens at its first character: then the rewriting gives up. */
  lemma SubstituteExact(e: Expr)
    requires ExprOk(e, false)
    ensures Substitute(Print(e, "")) == if e.GroupSel? then Err(()) else Ok(PrintBits(e, ""))
  {
    var w := Widen(e);
    WidenOk(e, false);
    OneOnTree(e, false, "");
    WordOnTree(w, false, "");
    assert "" + PrintNames(w, "") == PrintNames(w, "");
    if w.GroupSel? {
      FirstGroupExits(w);
    } else {
      LoopTree("", w, false, "");
      assert "" + PrintBits(w, "") == PrintBits(w, "");
      WidenBits(e, "");
      BitsPlain(e, false, "");
      FindNone(PrintBits(e, ""));
    }
  }

  lemma FirstGroupExits(e: Expr)
    requires e.GroupSel? && ExprOk(e, false) && AllTwo(e)
    ensures Loop(PrintNames(e, "")) == Err(())
  {
    var y := PrintNames(e.next, "");
    LoopInside("", e.inner, e.sel, y);
    Empty(PrintNames(e, ""));
    Empty("(" + PrintBits(e.inner, ")" + SelTo(e.sel, y)));
    GroupExits(e.inner, e.sel, y);
  }

  lemma GroupExits(inner: Expr, sel: Sel, y: string)
    requires ExprOk(inner, false) && sel.Two? && SelOk(sel)
    ensures Loop("(" + PrintBits(inner, ")" + SelTo(sel, y))) == Err(())
  {
    var s := "(" + PrintBits(inner, ")" + SelTo(sel, y));
    PassGroup("", inner, sel, y);
    Empty(s);
    LoopStep(s);
  }

  // ---- selectors on calls ----

  /** Where the name begins that a text ends in. */
  function NameAt(s: string): (n: nat)
    ensures n <= |s| && forall i :: n <= i < |s| ==> IsName(s[i])
    ensures n == |s| <==> s == [] || !IsName(s[|s| - 1])
  {
    if s == [] || !IsName(s[|s| - 1]) then |s| else NameAt(s[..|s| - 1])
  }

  /** That name, and the text before it. */
  function NameEnd(s: string): string { s[NameAt(s)..] }
  function Stem(s: string): string { s[..NameAt(s)] }

  /** The expression the author means, with calls of bits, then tail; name is the end of the text before e.
      A group directly behind a name is the argument list of a call, and a selector behind it selects from
      the value of that call. */
  function Meant(e: Expr, name: string, tail: string): string {
    match e
    case Nil => name + tail
    case Text(text, next) =>
      var all := name + text;
      Stem(all) + Meant(next, NameEnd(all), tail)
    case Group(inner, next) => name + ("(" + Meant(inner, "", ")" + Meant(next, "", tail)))
    case NameSel(called, sel, next) => name + CallTo(called, sel.hi, Lo(sel), Meant(next, "", tail))
    case GroupSel(inner, sel, next) =>
      "bits(" + (name + ("(" + Meant(inner, "", ")" + ArgsTo(sel.hi, Lo(sel), Meant(next, "", tail)))))
  }

  /** A call is selected from somewhere in e; after says that the text before e ends in a name. */
  predicate HasCall(e: Expr, after: bool) {
    match e
    case Nil => false
    case Text(text, next) => HasCall(next, text != [] && IsName(text[|text| - 1]))
    case Group(inner, next) => HasCall(inner, false) || HasCall(next, false)
    case NameSel(_, _, next) => HasCall(next, false)
    case GroupSel(inner, _, next) => after || HasCall(inner, false) || HasCall(next, false)
  }

  lemma Empty(a: string)
    ensures "" + a == a
  {
  }

  lemma Prefixed(x: string, a: string, b: string)
    requires a != b
    ensures x + a != x + b
  {
    assert a == (x + a)[|x|..] && b == (x + b)[|x|..];
  }

  lemma ArgsDiffer(hi: string, lo: string, x: string, y: string)
    requires x != y
    ensures ArgsTo(hi, lo, x) != ArgsTo(hi, lo, y)
  {
    ArgsTail(hi, lo, "", x);
    ArgsTail(hi, lo, "", y);
    Empty(x);
    Empty(y);
    Prefixed(ArgsTo(hi, lo, ""), x, y);
  }

  lemma CallDiffers(e: string, hi: string, lo: string, x: string, y: string)
    requires x != y
    ensures CallTo(e, hi, lo, x) != CallTo(e, hi, lo, y)
  {
    ArgsDiffer(hi, lo, x, y);
    Prefixed(e, ArgsTo(hi, lo, x), ArgsTo(hi, lo, y));
    Prefixed("bits(", e + ArgsTo(hi, lo, x), e + ArgsTo(hi, lo, y));
  }

  /** The fifth character tells a name before the call of bits from one inside it. */
  lemma MisplacedCall(name: string, a: string, b: string)
    requires name != [] && forall i :: 0 <= i < |name| ==> IsName(name[i])
    ensures name + ("bits(" + a) != "bits(" + (name + b)
  {
    assert ("bits(" + (name + b))[4] == '(';
    if |name| <= 4 {
      assert (name + ("bits(" + a))[4] == "bits("[4 - |name|];
    } else {
      assert (name + ("bits(" + a))[4] == name[4];
    }
  }

  lemma TextPieces(name: string, text: string, p: string)
    ensures name + (text + p) == Stem(name + text) + (NameEnd(name + text) + p)
  {
    Assoc(name, text, p);
    assert name + text == Stem(name + text) + NameEnd(name + text);
    Assoc(Stem(name + text), NameEnd(name + text), p);
  }

  lemma LastOfText(name: string, text: string)
    requires text != []
    ensures NameEnd(name + text) != [] <==> IsName(text[|text| - 1])
    ensures forall i :: 0 <= i < |NameEnd(name + text)| ==> IsName(NameEnd(name + text)[i])
  {
    assert (name + text)[|name + text| - 1] == text[|text| - 1];
  }

  /** What the rewriting prints is what is meant, if no call is selected from. */
  lemma {:induction false} MeantSame(e: Expr, name: string, x: string)
    requires ExprOk(e, name != []) && !HasCall(e, name != [])
    ensures Meant(e, name, x) == name + PrintBits(e, x)
    decreases e, 1
  {
    match e
    case Nil =>
    case Text(text, next) =>
      LastOfText(name, text);
      MeantSame(next, NameEnd(name + text), x);
      TextPieces(name, text, PrintBits(next, x));
    case Group(inner, next) =>
      MeantSameEmpty(next, x);
      MeantSameEmpty(inner, ")" + PrintBits(next, x));
    case NameSel(_, _, next) =>
      MeantSameEmpty(next, x);
    case GroupSel(inner, sel, next) =>
      MeantSameEmpty(next, x);
      MeantSameEmpty(inner, ")" + ArgsTo(sel.hi, Lo(sel), PrintBits(next, x)));
      Empty("(" + PrintBits(inner, ")" + ArgsTo(sel.hi, Lo(sel), PrintBits(next, x))));
      Empty(PrintBits(e, x));
  }

  lemma {:induction false} MeantSameEmpty(e: Expr, x: string)
    requires ExprOk(e, false) && !HasCall(e, false)
    ensures Meant(e, "", x) == PrintBits(e, x)
    decreases e, 2
  {
    MeantSame(e, "", x);
    Empty(PrintBits(e, x));
  }

  /** It is not if a call is selected from, or what follows is something else. */
  lemma {:induction false} MeantDiffers(e: Expr, name: string, x: string, y: string)
    requires ExprOk(e, name != []) && forall i :: 0 <= i < |name| ==> IsName(name[i])
    requires HasCall(e, name != []) || x != y
    ensures name + PrintBits(e, x) != Meant(e, name, y)
    decreases e, 1
  {
    match e
    case Nil => Prefixed(name, x, y);
    case Text(_, _) => TextDiffers(e, name, x, y);
    case Group(inner, next) =>
      GroupDiffers(inner, next, x, y);
      Prefixed(name, PrintBits(e, x), "(" + Meant(inner, "", ")" + Meant(next, "", y)));
    case NameSel(called, sel, next) =>
      Empty(PrintBits(next, x));
      MeantDiffers(next, "", x, y);
      CallDiffers(called, sel.hi, Lo(sel), PrintBits(next, x), Meant(next, "", y));
      Prefixed(name, PrintBits(e, x), CallTo(called, sel.hi, Lo(sel), Meant(next, "", y)));
    case GroupSel(_, _, _) => GroupSelDiffers(e, name, x, y);
  }

  lemma {:induction false} TextDiffers(e: Expr, name: string, x: string, y: string)
    requires e.Text? && ExprOk(e, name != []) && (HasCall(e, name != []) || x != y)
    ensures name + PrintBits(e, x) != Meant(e, name, y)
    decreases e, 0
  {
    var end := NameEnd(name + e.text);
    LastOfText(name, e.text);
    MeantDiffers(e.next, end, x, y);
    TextPieces(name, e.text, PrintBits(e.next, x));
    Prefixed(Stem(name + e.text), end + PrintBits(e.next, x), Meant(e.next, end, y));
  }

  lemma {:induction false} GroupDiffers(inner: Expr, next: Expr, x: string, y: string)
    requires ExprOk(inner, false) && ExprOk(next, false)
    requires HasCall(inner, false) || HasCall(next, false) || x != y
    ensures "(" + PrintBits(inner, ")" + PrintBits(next, x)) != "(" + Meant(inner, "", ")" + Meant(next, "", y))
    decreases Group(inner, next), 0
  {
    var a, b := ")" + PrintBits(next, x), ")" + Meant(next, "", y);
    if !HasCall(inner, false) {
      MeantDiffers(next, "", x, y);
      Empty(PrintBits(next, x));
      Prefixed(")", PrintBits(next, x), Meant(next, "", y));
    }
    MeantDiffers(inner, "", a, b);
    Empty(PrintBits(inner, a));
    Prefixed("(", PrintBits(inner, a), Meant(inner, "", b));
  }

  lemma {:induction false} GroupSelDiffers(e: Expr, name: string, x: string, y: string)
    requires e.GroupSel? && ExprOk(e, name != []) && forall i :: 0 <= i < |name| ==> IsName(name[i])
    requires HasCall(e, name != []) || x != y
    ensures name + PrintBits(e, x) != Meant(e, name, y)
    decreases e, 0
  {
    var inner, sel, next := e.inner, e.sel, e.next;
    var a := ")" + ArgsTo(sel.hi, Lo(sel), PrintBits(next, x));
    var b := ")" + ArgsTo(sel.hi, Lo(sel), Meant(next, "", y));
    var p, m := "(" + PrintBits(inner, a), "(" + Meant(inner, "", b);
    if name != [] {
      MisplacedCall(name, p, m);
    } else {
      if !HasCall(inner, false) {
        MeantDiffers(next, "", x, y);
        Empty(PrintBits(next, x));
        ArgsDiffer(sel.hi, Lo(sel), PrintBits(next, x), Meant(next, "", y));
        Prefixed(")", ArgsTo(sel.hi, Lo(sel), PrintBits(next, x)), ArgsTo(sel.hi, Lo(sel), Meant(next, "", y)));
      }
      MeantDiffers(inner, "", a, b);
      Empty(PrintBits(inner, a));
      Prefixed("(", PrintBits(inner, a), Meant(inner, "", b));
      Prefixed("bits(", p, m);
      Empty(m);
      Empty(PrintBits(e, x));
    }
  }

  /** The rewriting gives the expression its author means exactly when no selected group opens the text and
      no selector stands behind a call. */
  lemma SubstituteMeans(e: Expr)
    requires ExprOk(e, false)
    ensures Substitute(Print(e, "")) == Ok(Meant(e, "", "")) <==> !e.GroupSel? && !HasCall(e, false)
  {
    SubstituteExact(e);
    Empty(PrintBits(e, ""));
    if HasCall(e, false) {
      MeantDiffers(e, "", "", "");
    } else {
      MeantSame(e, "", "");
    }
  }

  lemma {:induction false} NameWhole(s: string)
    requires forall i :: 0 <= i < |s| ==> IsName(s[i])
    ensures NameAt(s) == 0 && NameEnd(s) == s && Stem(s) == ""
  {
    if s != [] {
      NameWhole(s[..|s| - 1]);
    }
  }

  /** f(x) with a selector, for names f and x. */
  function SelectedCall(f: string, x: string, sel: Sel): Expr {
    Text(f, GroupSel(Text(x, Nil), sel, Nil))
  }

  lemma NameMeant(x: string, tail: string)
    requires Name(x)
    ensures Meant(Text(x, Nil), "", tail) == x + tail
  {
    Empty(x);
    NameWhole(x);
    assert Meant(Nil, x, tail) == x + tail;
  }

  lemma CallMeant(f: string, x: string, sel: Sel)
    requires Name(f) && Name(x)
    ensures Meant(SelectedCall(f, x, sel), "", "") == "bits(" + (f + ("(" + (x + (")" + ArgsTo(sel.hi, Lo(sel), "")))))
  {
    var g := SelectedCall(f, x, sel).next;
    assert Meant(Nil, "", "") == "";
    NameMeant(x, ")" + ArgsTo(sel.hi, Lo(sel), ""));
    NameWhole(f);
    Empty(f);
  }

  lemma CallPrinted(f: string, x: string, sel: Sel)
    ensures Print(SelectedCall(f, x, sel), "") == f + ("(" + (x + (")" + SelTo(sel, ""))))
    ensures PrintBits(SelectedCall(f, x, sel), "") == f + ("bits(" + ("(" + (x + (")" + ArgsTo(sel.hi, Lo(sel), "")))))
  {
    var e := SelectedCall(f, x, sel);
    assert Print(Text(x, Nil), ")" + SelTo(sel, "")) == x + (")" + SelTo(sel, ""));
    assert PrintBits(Text(x, Nil), ")" + ArgsTo(sel.hi, Lo(sel), "")) == x + (")" + ArgsTo(sel.hi, Lo(sel), ""));
    assert Print(e.next, "") == "(" + (x + (")" + SelTo(sel, "")));
    assert PrintBits(e.next, "") == "bits(" + ("(" + (x + (")" + ArgsTo(sel.hi, Lo(sel), ""))));
  }

  lemma CallOk(f: string, x: string, sel: Sel)
    requires Name(f) && Name(x) && SelOk(sel)
    ensures ExprOk(SelectedCall(f, x, sel), false)
  {
    assert ExprOk(Text(x, Nil), false);
    assert ExprOk(SelectedCall(f, x, sel).next, true);
  }

  /** The bits of f(x) become a call of fbits. */
  lemma SelectedCallRewritten(f: string, x: string, sel: Sel)
    requires Name(f) && Name(x) && SelOk(sel)
    ensures Substitute(f + ("(" + (x + (")" + SelTo(sel, ""))))) ==
            Ok(f + ("bits(" + ("(" + (x + (")" + ArgsTo(sel.hi, Lo(sel), ""))))))
    ensures Meant(SelectedCall(f, x, sel), "", "") == "bits(" + (f + ("(" + (x + (")" + ArgsTo(sel.hi, Lo(sel), "")))))
  {
    CallMeant(f, x, sel);
    CallOk(f, x, sel);
    CallPrinted(f, x, sel);
    SubstituteExact(SelectedCall(f, x, sel));
  }
}
