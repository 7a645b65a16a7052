/** The operand list object (isa_parser.py): descriptors updated in place while the code is scanned, then
    sorted and numbered, and the parser's running maxima. */
module OperandList {
  import opened Common
  import opened Operands

  class Operand {
    const base: string
    const ext: Option<string>
    const kind: Kind
    const pri: int
    var isSrc: bool
    var isDest: bool
    var srcIdx: Option<nat>
    var destIdx: Option<nat>

    constructor (d: Desc)
      ensures Value() == d && srcIdx == None && destIdx == None
    {
      base, ext, kind, pri := d.base, d.ext, d.kind, d.pri;
      isSrc, isDest, srcIdx, destIdx := d.isSrc, d.isDest, None, None;
    }

    ghost function Value(): Desc
      reads this
    {
      Desc(base, ext, isSrc, isDest, kind, pri)
    }
  }

  ghost function Values(items: seq<Operand>): seq<Desc>
    reads items
  {
    seq(|items|, i requires 0 <= i < |items| reads items => items[i].Value())
  }

  datatype Totals = Totals(src: nat, dest: nat, fp: nat, integer: nat, misc: nat)

  function TotalsOf(ds: seq<Desc>, k: nat): Totals
    requires k <= |ds|
  {
    Totals(Count(ds, k, false), Count(ds, k, true), CountKind(ds, k, FloatReg), CountKind(ds, k, IntReg),
           CountKind(ds, k, ControlReg))
  }

  /** op carries the numbers descriptor i of ds calls for. */
  ghost predicate HasNumbers(op: Operand, ds: seq<Desc>, i: nat)
    requires i < |ds|
    reads op
  {
    (Numbered(ds[i], false) ==> op.srcIdx == Some(Count(ds, i, false))) &&
    (Numbered(ds[i], true) ==> op.destIdx == Some(Count(ds, i, true)))
  }

  class List {
    var items: seq<Operand>
    var bases: map<string, Operand>
    var numSrcRegs: nat
    var numDestRegs: nat
    var numFPDestRegs: nat
    var numIntDestRegs: nat
    var numMiscDestRegs: nat
    var memOperand: Operand?

    constructor ()
      ensures Valid() && items == []
    {
      items, bases, memOperand := [], map[], null;
      numSrcRegs, numDestRegs, numFPDestRegs, numIntDestRegs, numMiscDestRegs := 0, 0, 0, 0, 0;
    }

    /** The dictionary and the list hold the same operands, each under its base name. */
    ghost predicate Valid()
      reads this`items, this`bases
    {
      Distinct(items) &&
      (forall x :: x in items ==> x.base in bases && bases[x.base] == x) &&
      forall b :: b in bases ==> bases[b] in items && bases[b].base == b
    }

    method Append(op: Operand)
      requires Valid() && op !in items && op.base !in bases
      modifies this
      ensures Valid() && items == old(items) + [op]
    {
      items := items + [op];
      bases := bases[op.base := op];
    }

    /** A name seen before: the flags of its descriptor are updated in place. */
    method Again(o: Occ, classes: Classes) returns (err: Option<OperandError>)
      requires Valid() && o.base in bases
      modifies items
      ensures match Note(old(Values(items)), o, classes)
              case Err(e) => err == Some(e)
              case Ok(ds) => err == None && Values(items) == ds
    {
      ghost var was := Values(items);
      var op := bases[o.base];
      ghost var i: nat :| i < |items| && items[i] == op;
      assert was[i].base == o.base;
      Located(was, o.base, i);
      if op.ext != o.ext {
        return Some(InconsistentExtensions(o.base));
      }
      op.isSrc := op.isSrc || !o.dest;
      op.isDest := op.isDest || o.dest;
      assert Values(items) == was[i := Merge(was[i], o)];
      return None;
    }

    method FirstTime(o: Occ, classes: Classes)
      requires Valid() && o.base !in bases
      modifies this
      ensures Valid() && |items| == |old(items)| + 1 && items[..|old(items)|] == old(items) &&
              fresh(items[|old(items)|])
      ensures Note(old(Values(items)), o, classes) == Ok(Values(items))
    {
      ghost var was := Values(items);
      NotLocated(was, o.base);
      var op := new Operand(Fresh(o, classes(o.base)));
      Append(op);
      assert Values(items) == was + [Fresh(o, classes(o.base))];
    }

    /** One turn of the scanning loop. */
    method NoteOcc(o: Occ, classes: Classes) returns (err: Option<OperandError>)
      requires Valid()
      modifies this, items
      ensures Valid() && forall x :: x in items ==> x in old(items) || fresh(x)
      ensures match Note(old(Values(items)), o, classes)
              case Err(e) => err == Some(e)
              case Ok(ds) => err == None && Values(items) == ds
    {
      if o.base in bases {
        err := Again(o, classes);
      } else {
        FirstTime(o, classes);
        assert items == items[..|old(items)|] + [items[|old(items)|]];
        err := None;
      }
    }

    method ScanAll(occs: seq<Occ>, classes: Classes) returns (err: Option<OperandError>)
      requires Valid() && items == []
      modifies this
      ensures Valid() && forall i :: 0 <= i < |items| ==> fresh(items[i])
      ensures match Scan(occs, classes)
              case Err(e) => err == Some(e)
              case Ok(ds) => err == None && Values(items) == ds
    {
      var k := 0;
      assert Values(items) == [];
      while k < |occs|
        invariant k <= |occs| && Valid() && forall i :: 0 <= i < |items| ==> fresh(items[i])
        invariant Scan(occs[..k], classes) == Ok(Values(items))
      {
        assert occs[..k + 1][..k] == occs[..k];
        ghost var was := items;
        assert forall x :: x in was ==> fresh(x);
        err := NoteOcc(occs[k], classes);
        assert forall i :: 0 <= i < |items| ==> items[i] in was || fresh(items[i]);
        if err.Some? {
          ScanStops(occs, k + 1, classes);
          return;
        }
        k := k + 1;
      }
      assert occs[..k] == occs;
      err := None;
    }

    /** items.sort() by priority. */
    method SortItems()
      requires Valid()
      modifies this`items
      ensures Valid() && Values(items) == Sort(old(Values(items)))
      ensures forall x :: x in items <==> x in old(items)
    {
      items := SortedCopy(items);
    }

    /** The numbers of the first k operands, as the descriptors ds call for. */
    ghost predicate NumberedUpTo(ds: seq<Desc>, k: nat)
      requires k <= |ds| == |items|
      reads this`items, this`numSrcRegs, this`numDestRegs, this`numFPDestRegs, this`numIntDestRegs, this`numMiscDestRegs
      reads items
    {
      Totals(numSrcRegs, numDestRegs, numFPDestRegs, numIntDestRegs, numMiscDestRegs) == TotalsOf(ds, k) &&
      forall i :: 0 <= i < k ==> HasNumbers(items[i], ds, i)
    }

    /** One operand's turn: the counters move on and the operand keeps their values. */
    method NumberOne(op: Operand)
      modifies this, op
      ensures op.Value() == old(op.Value()) && items == old(items) && bases == old(bases) &&
              memOperand == old(memOperand)
      ensures numSrcRegs == old(numSrcRegs) + if Numbered(op.Value(), false) then 1 else 0
      ensures numDestRegs == old(numDestRegs) + if Numbered(op.Value(), true) then 1 else 0
      ensures numFPDestRegs == old(numFPDestRegs) + if Numbered(op.Value(), true) && op.kind == FloatReg then 1 else 0
      ensures numIntDestRegs == old(numIntDestRegs) + if Numbered(op.Value(), true) && op.kind == IntReg then 1 else 0
      ensures numMiscDestRegs ==
              old(numMiscDestRegs) + if Numbered(op.Value(), true) && op.kind == ControlReg then 1 else 0
      ensures Numbered(op.Value(), false) ==> op.srcIdx == Some(old(numSrcRegs))
      ensures Numbered(op.Value(), true) ==> op.destIdx == Some(old(numDestRegs))
    {
      if IsReg(op.kind) {
        if op.isSrc {
          op.srcIdx := Some(numSrcRegs);
          numSrcRegs := numSrcRegs + 1;
        }
        if op.isDest {
          op.destIdx := Some(numDestRegs);
          numDestRegs := numDestRegs + 1;
          if op.kind.FloatReg? {
            numFPDestRegs := numFPDestRegs + 1;
          } else if op.kind.IntReg? {
            numIntDestRegs := numIntDestRegs + 1;
          } else if op.kind.ControlReg? {
            numMiscDestRegs := numMiscDestRegs + 1;
          }
        }
      }
    }

    method NumberAt(k: nat, ghost ds: seq<Desc>)
      requires Distinct(items) && k < |items| && Values(items) == ds && NumberedUpTo(ds, k)
      modifies this, items[k]
      ensures items == old(items) && bases == old(bases) && memOperand == old(memOperand)
      ensures Values(items) == ds && NumberedUpTo(ds, k + 1)
    {
      ghost var was := items;
      assert items[k].Value() == ds[k];
      NumberOne(items[k]);
      forall i | 0 <= i < |items| ensures items[i].Value() == ds[i] {
        assert i != k ==> was[i] != was[k];
        assert old(was[i].Value()) == ds[i];
      }
    }

    /** A second memory operand is an error. */
    method NoteMem(op: Operand) returns (ok: bool)
      modifies this`memOperand
      ensures ok <==> !(op.kind.Mem? && old(memOperand) != null)
      ensures memOperand == if op.kind.Mem? && ok then op else old(memOperand)
    {
      ok := true;
      if op.kind.Mem? {
        if memOperand != null {
          return false;
        }
        memOperand := op;
      }
    }

    method Start()
      modifies this
      ensures items == old(items) && bases == old(bases) && memOperand == null && NumberedUpTo(Values(items), 0)
    {
      numSrcRegs, numDestRegs, numFPDestRegs, numIntDestRegs, numMiscDestRegs := 0, 0, 0, 0, 0;
      memOperand := null;
    }

    ghost predicate Progress(ds: seq<Desc>, k: nat)
      reads this, items
    {
      k <= |ds| == |items| && Values(items) == ds && NumberedUpTo(ds, k) && MemNoted(ds, k)
    }

    /** The memory operand kept is the one among the first k, if there is one. */
    ghost predicate MemNoted(ds: seq<Desc>, k: nat)
      requires k <= |ds| == |items|
      reads this`items, this`memOperand
    {
      && CountMem(ds, k) == (if memOperand == null then 0 else 1)
      && (memOperand != null ==> memOperand.kind.Mem? && memOperand in items[..k])
    }

    /** One turn of the numbering loop. */
    method Turn(k: nat, ghost ds: seq<Desc>) returns (ok: bool)
      requires Distinct(items) && k < |items| && Progress(ds, k)
      modifies this, items[k]
      ensures items == old(items) && bases == old(bases) && Values(items) == ds
      ensures ok <==> CountMem(ds, k + 1) <= 1
      ensures ok ==> Progress(ds, k + 1)
    {
      NumberAt(k, ds);
      assert items[k].Value() == ds[k];
      assert items[..k + 1] == items[..k] + [items[k]];
      ok := NoteMem(items[k]);
    }

    method Enumerate() returns (err: Option<OperandError>)
      requires Valid()
      modifies this, items
      ensures items == old(items) && bases == old(bases) && Values(items) == old(Values(items))
      ensures match err
              case Some(e) => e == TwoMemoryOperands && CountMem(Values(items), |items|) > 1
              case None => NumberedUpTo(Values(items), |items|) && MemNoted(Values(items), |items|)
    {
      ghost var ds := Values(items);
      Start();
      var k := 0;
      while k < |items|
        invariant k <= |items| && items == old(items) && bases == old(bases) && Progress(ds, k)
      {
        var ok := Turn(k, ds);
        if !ok {
          MemGrows(ds, k + 1, |items|);
          return Some(TwoMemoryOperands);
        }
        k := k + 1;
      }
      err := None;
    }

    /** Sorting and numbering the scanned operands. */
    method Finish() returns (err: Option<OperandError>)
      requires Valid()
      modifies this, items
      ensures Valid() && Values(items) == Sort(old(Values(items))) && |items| == |Sort(old(Values(items)))|
      ensures match err
              case Some(e) => e == TwoMemoryOperands && CountMem(Values(items), |items|) > 1
              case None => NumberedUpTo(Values(items), |items|) && MemNoted(Values(items), |items|)
    {
      ghost var was := items;
      SortItems();
      assert forall i :: 0 <= i < |items| ==> items[i] in was;
      err := Enumerate();
    }
  }

  lemma {:induction false} MemGrows(ds: seq<Desc>, i: nat, j: nat)
    requires i <= j <= |ds|
    ensures CountMem(ds, i) <= CountMem(ds, j)
    decreases j
  {
    if i < j {
      MemGrows(ds, i, j - 1);
    }
  }

  method SortedCopy(items: seq<Operand>) returns (sorted: seq<Operand>)
    requires Distinct(items)
    ensures Distinct(sorted) && (forall x :: x in sorted <==> x in items) && Values(sorted) == Sort(Values(items))
  {
    var k := 0;
    sorted := [];
    while k < |items|
      invariant k <= |items| && Distinct(sorted) && forall x :: x in sorted <==> x in items[..k]
      invariant Values(sorted) == Sort(Values(items[..k]))
    {
      NextValues(items, k);
      sorted := PlaceItem(sorted, items[k]);
      k := k + 1;
    }
    assert items[..k] == items;
  }

  lemma NextValues(items: seq<Operand>, k: nat)
    requires k < |items| && Distinct(items)
    ensures items[k] !in items[..k] && forall x :: x in items[..k + 1] <==> x in items[..k] || x == items[k]
    ensures Sort(Values(items[..k + 1])) == Place(Sort(Values(items[..k])), items[k].Value())
  {
    assert items[..k + 1] == items[..k] + [items[k]];
    assert Values(items[..k + 1])[..k] == Values(items[..k]);
  }

  lemma Inserted(s: seq<Operand>, op: Operand, j: nat)
    requires Distinct(s) && op !in s && j <= |s|
    ensures Distinct(s[..j] + [op] + s[j..])
    ensures forall x :: x in s[..j] + [op] + s[j..] <==> x in s || x == op
  {
    var r := s[..j] + [op] + s[j..];
    assert forall i :: 0 <= i < |r| ==> r[i] == if i < j then s[i] else if i == j then op else s[i - 1];
    assert s == s[..j] + s[j..];
  }

  lemma ValuesInserted(s: seq<Operand>, op: Operand, j: nat)
    requires j <= |s|
    ensures Values(s[..j] + [op] + s[j..]) == Values(s)[..j] + [op.Value()] + Values(s)[j..]
  {
  }

  method PlaceItem(s: seq<Operand>, op: Operand) returns (r: seq<Operand>)
    requires Distinct(s) && op !in s
    ensures Distinct(r) && forall x :: x in r <==> x in s || x == op
    ensures Values(r) == Place(Values(s), op.Value())
  {
    var j := |s|;
    while j > 0 && op.pri < s[j - 1].pri
      invariant 0 <= j <= |s| && forall i :: j <= i < |s| ==> op.pri < s[i].pri
    {
      j := j - 1;
    }
    r := s[..j] + [op] + s[j..];
    Inserted(s, op, j);
    ValuesInserted(s, op, j);
    PlaceAt(Values(s), op.Value(), j);
  }

  lemma {:induction false} PlaceAt(vs: seq<Desc>, d: Desc, j: nat)
    requires j <= |vs| && (forall i :: j <= i < |vs| ==> d.pri < vs[i].pri) && (j > 0 ==> vs[j - 1].pri <= d.pri)
    ensures Place(vs, d) == vs[..j] + [d] + vs[j..]
  {
    if j < |vs| {
      var rest := vs[..|vs| - 1];
      PlaceAt(rest, d, j);
      assert rest[..j] == vs[..j] && rest[j..] + [vs[|vs| - 1]] == vs[j..];
    } else {
      assert vs[..j] == vs && vs[j..] == [];
    }
  }

  lemma {:induction false} ScanStops(occs: seq<Occ>, k: nat, classes: Classes)
    requires k <= |occs| && Scan(occs[..k], classes).Err?
    ensures Scan(occs, classes) == Scan(occs[..k], classes)
  {
    if k < |occs| {
      var rest := occs[..|occs| - 1];
      assert rest[..k] == occs[..k];
      ScanStops(rest, k, classes);
    } else {
      assert occs[..k] == occs;
    }
  }

  lemma Located(ds: seq<Desc>, base: string, i: nat)
    requires i < |ds| && ds[i].base == base && OncePerBase(ds)
    ensures IndexOf(ds, base) == Some(i)
  {
    IndexOfExact(ds, base);
  }

  lemma NotLocated(ds: seq<Desc>, base: string)
    requires !Has(ds, base)
    ensures IndexOf(ds, base) == None
  {
    IndexOfExact(ds, base);
  }

  /** The register counts of one instruction. */
  datatype Counts = Counts(src: nat, dest: nat, misc: nat)

  class Parser {
    var maxInstSrcRegs: nat
    var maxInstDestRegs: nat
    var maxMiscDestRegs: nat
    /** The counts of every instruction so far. */
    ghost var seen: seq<Counts>

    constructor ()
      ensures Bounds() && seen == []
    {
      maxInstSrcRegs, maxInstDestRegs, maxMiscDestRegs, seen := 0, 0, 0, [];
    }

    /** The maxima bound every instruction so far, and none is larger than it has to be. */
    ghost predicate Bounds()
      reads this
    {
      (forall i :: 0 <= i < |seen| ==>
        seen[i].src <= maxInstSrcRegs && seen[i].dest <= maxInstDestRegs && seen[i].misc <= maxMiscDestRegs) &&
      (maxInstSrcRegs == 0 || exists i :: 0 <= i < |seen| && seen[i].src == maxInstSrcRegs) &&
      (maxInstDestRegs == 0 || exists i :: 0 <= i < |seen| && seen[i].dest == maxInstDestRegs) &&
      (maxMiscDestRegs == 0 || exists i :: 0 <= i < |seen| && seen[i].misc == maxMiscDestRegs)
    }

    method Record(l: List)
      requires Bounds()
      modifies this
      ensures Bounds() && seen == old(seen) + [Counts(l.numSrcRegs, l.numDestRegs, l.numMiscDestRegs)]
    {
      if maxInstSrcRegs < l.numSrcRegs {
        maxInstSrcRegs := l.numSrcRegs;
      }
      if maxInstDestRegs < l.numDestRegs {
        maxInstDestRegs := l.numDestRegs;
      }
      if maxMiscDestRegs < l.numMiscDestRegs {
        maxMiscDestRegs := l.numMiscDestRegs;
      }
      ghost var was, c := seen, Counts(l.numSrcRegs, l.numDestRegs, l.numMiscDestRegs);
      seen := seen + [c];
      assert seen[|was|] == c;
      assert forall i :: 0 <= i < |was| ==> seen[i] == was[i];
    }

    /** Building the operand list of a code block. */
    method Analyse(occs: seq<Occ>, classes: Classes) returns (l: List, err: Option<OperandError>)
      requires Bounds()
      modifies this
      ensures fresh(l) && Bounds() && Answers(l, err, occs, classes)
      ensures err.Some? ==> unchanged(this)
      ensures err.None? ==> seen == old(seen) + [CountsOf(Sort(Scan(occs, classes).value))]
    {
      l, err := Build(occs, classes);
      if err.None? {
        Record(l);
      }
    }
  }

  function CountsOf(ds: seq<Desc>): Counts {
    Counts(Count(ds, |ds|, false), Count(ds, |ds|, true), CountKind(ds, |ds|, ControlReg))
  }

  /** l holds the descriptors ds, numbered. */
  ghost predicate Holds(l: List, ds: seq<Desc>)
    reads l, l.items
  {
    l.Valid() && |ds| == |l.items| && Values(l.items) == ds && l.NumberedUpTo(ds, |ds|) && l.MemNoted(ds, |ds|)
  }

  /** An error exactly for a name with two extensions or a second memory operand, else the sorted and
      numbered descriptors. */
  ghost predicate Answers(l: List, err: Option<OperandError>, occs: seq<Occ>, classes: Classes)
    reads l, l.items
  {
    match Scan(occs, classes)
    case Err(e) => err == Some(e)
    case Ok(ds) =>
      match err
      case Some(e) => e == TwoMemoryOperands && CountMem(Sort(ds), |Sort(ds)|) > 1
      case None => Holds(l, Sort(ds)) && CountMem(Sort(ds), |Sort(ds)|) <= 1
  }

  method Build(occs: seq<Occ>, classes: Classes) returns (l: List, err: Option<OperandError>)
    ensures fresh(l) && Answers(l, err, occs, classes)
  {
    l := new List();
    err := l.ScanAll(occs, classes);
    if err.None? {
      err := l.Finish();
    }
  }
}
