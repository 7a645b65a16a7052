/** Operand enumeration (isa_parser.py): the operands a code block mentions become one descriptor per base
    name, sorted by priority, with numbered source and destination registers. */
module Operands {
  import opened Common

  datatype Kind = IntReg | FloatReg | ControlReg | Mem | PCState

  predicate IsReg(k: Kind) {
    k.IntReg? || k.FloatReg? || k.ControlReg?
  }

  /** What an ISA description says of an operand name. */
  datatype OpClass = OpClass(kind: Kind, pri: int)

  /** One match of the operand expression in the code: an assignment after it makes it a destination. */
  datatype Occ = Occ(base: string, ext: Option<string>, dest: bool)

  datatype Desc = Desc(base: string, ext: Option<string>, isSrc: bool, isDest: bool, kind: Kind, pri: int)

  datatype OperandError = InconsistentExtensions(base: string) | TwoMemoryOperands

  // ---- scanning ----

  function IndexOf(ds: seq<Desc>, base: string): Option<nat> {
    if ds == [] then None
    else if ds[|ds| - 1].base == base then Some(|ds| - 1)
    else IndexOf(ds[..|ds| - 1], base)
  }

  lemma {:induction false} IndexOfExact(ds: seq<Desc>, base: string)
    ensures IndexOf(ds, base).Some? ==> IndexOf(ds, base).value < |ds| && ds[IndexOf(ds, base).value].base == base
    ensures IndexOf(ds, base).None? ==> forall i :: 0 <= i < |ds| ==> ds[i].base != base
  {
    if ds != [] {
      IndexOfExact(ds[..|ds| - 1], base);
    }
  }

  function Merge(d: Desc, o: Occ): Desc {
    d.(isSrc := d.isSrc || !o.dest, isDest := d.isDest || o.dest)
  }

  function Fresh(o: Occ, c: OpClass): Desc {
    Desc(o.base, o.ext, !o.dest, o.dest, c.kind, c.pri)
  }

  type Classes = string -> OpClass

  /** The descriptors after one more occurrence. */
  function Note(ds: seq<Desc>, o: Occ, classes: Classes): Result<seq<Desc>, OperandError> {
    IndexOfExact(ds, o.base);
    match IndexOf(ds, o.base)
    case None => Ok(ds + [Fresh(o, classes(o.base))])
    case Some(i) =>
      if ds[i].ext != o.ext then Err(InconsistentExtensions(o.base)) else Ok(ds[i := Merge(ds[i], o)])
  }

  function Scan(occs: seq<Occ>, classes: Classes): Result<seq<Desc>, OperandError> {
    if occs == [] then Ok([])
    else
      match Scan(occs[..|occs| - 1], classes)
      case Err(e) => Err(e)
      case Ok(ds) => Note(ds, occs[|occs| - 1], classes)
  }

  ghost predicate OncePerBase(ds: seq<Desc>) {
    forall i, j :: 0 <= i < j < |ds| ==> ds[i].base != ds[j].base
  }

  ghost predicate Mentions(occs: seq<Occ>, base: string, dest: bool) {
    exists k :: 0 <= k < |occs| && occs[k].base == base && occs[k].dest == dest
  }

  /** d is what the occurrences of its name say. */
  ghost predicate Describes(d: Desc, occs: seq<Occ>, classes: Classes) {
    (d.isSrc <==> Mentions(occs, d.base, false)) && (d.isDest <==> Mentions(occs, d.base, true)) &&
    (d.isSrc || d.isDest) && d.kind == classes(d.base).kind && d.pri == classes(d.base).pri &&
    forall k :: 0 <= k < |occs| && occs[k].base == d.base ==> occs[k].ext == d.ext
  }

  /** One descriptor for each name mentioned, its flags the union over the occurrences. */
  ghost predicate Faithful(ds: seq<Desc>, occs: seq<Occ>, classes: Classes) {
    OncePerBase(ds) && (forall i :: 0 <= i < |ds| ==> Describes(ds[i], occs, classes)) &&
    forall k :: 0 <= k < |occs| ==> Has(ds, occs[k].base)
  }

  ghost predicate Has(ds: seq<Desc>, base: string) {
    exists i :: 0 <= i < |ds| && ds[i].base == base
  }

  /** No name is used with two extensions. */
  ghost predicate Consistent(occs: seq<Occ>) {
    forall j, k :: 0 <= j < |occs| && 0 <= k < |occs| && occs[j].base == occs[k].base ==> occs[j].ext == occs[k].ext
  }

  lemma MentionsMore(occs: seq<Occ>, o: Occ, base: string, dest: bool)
    ensures Mentions(occs + [o], base, dest) <==> Mentions(occs, base, dest) || (o.base == base && o.dest == dest)
  {
    var all := occs + [o];
    if Mentions(occs, base, dest) {
      var k :| 0 <= k < |occs| && occs[k].base == base && occs[k].dest == dest;
      assert all[k] == occs[k];
    }
    if o.base == base && o.dest == dest {
      assert all[|occs|] == o;
    }
  }

  lemma NoteFresh(ds: seq<Desc>, occs: seq<Occ>, o: Occ, classes: Classes)
    requires Faithful(ds, occs, classes) && !Has(ds, o.base)
    ensures Faithful(ds + [Fresh(o, classes(o.base))], occs + [o], classes)
  {
    var all, ds' := occs + [o], ds + [Fresh(o, classes(o.base))];
    forall i | 0 <= i < |ds'| ensures Describes(ds'[i], all, classes) {
      MentionsMore(occs, o, ds'[i].base, false);
      MentionsMore(occs, o, ds'[i].base, true);
    }
    forall k | 0 <= k < |all| ensures Has(ds', all[k].base) {
      if k < |occs| {
        assert Has(ds, occs[k].base);
        var i :| 0 <= i < |ds| && ds[i].base == occs[k].base;
        assert ds'[i].base == all[k].base;
      } else {
        assert ds'[|ds|].base == o.base;
      }
    }
  }

  lemma NoteMerge(ds: seq<Desc>, occs: seq<Occ>, o: Occ, i: nat, classes: Classes)
    requires Faithful(ds, occs, classes) && i < |ds| && ds[i].base == o.base && ds[i].ext == o.ext
    ensures Faithful(ds[i := Merge(ds[i], o)], occs + [o], classes)
  {
    var all, ds' := occs + [o], ds[i := Merge(ds[i], o)];
    forall j | 0 <= j < |ds'| ensures Describes(ds'[j], all, classes) {
      MentionsMore(occs, o, ds'[j].base, false);
      MentionsMore(occs, o, ds'[j].base, true);
    }
    forall k | 0 <= k < |all| ensures Has(ds', all[k].base) {
      if k < |occs| {
        assert Has(ds, occs[k].base);
        var j :| 0 <= j < |ds| && ds[j].base == occs[k].base;
        assert ds'[j].base == all[k].base;
      } else {
        assert ds'[i].base == o.base;
      }
    }
  }

  /** Scanning succeeds exactly when no name has two extensions, and is then faithful. */
  lemma {:induction false} ScanExact(occs: seq<Occ>, classes: Classes)
    ensures Scan(occs, classes).Ok? <==> Consistent(occs)
    ensures Scan(occs, classes).Ok? ==> Faithful(Scan(occs, classes).value, occs, classes)
  {
    if occs != [] {
      var before, o := occs[..|occs| - 1], occs[|occs| - 1];
      assert occs == before + [o];
      ScanExact(before, classes);
      if Scan(before, classes).Ok? {
        NoteExact(Scan(before, classes).value, before, o, classes);
      } else {
        Inherited(before, o);
      }
    }
  }

  /** The error names the first operand that is used with another extension than before. */
  lemma {:induction false} ScanFirstError(occs: seq<Occ>, k: nat, classes: Classes)
    requires k < |occs| && Consistent(occs[..k]) && !Consistent(occs[..k + 1])
    ensures Scan(occs, classes) == Err(InconsistentExtensions(occs[k].base))
  {
    if k == |occs| - 1 {
      assert occs[..k + 1] == occs && occs[..|occs| - 1] == occs[..k];
      ScanExact(occs, classes);
      ScanExact(occs[..k], classes);
    } else {
      var before := occs[..|occs| - 1];
      assert before[..k] == occs[..k] && before[..k + 1] == occs[..k + 1];
      ScanFirstError(before, k, classes);
    }
  }

  lemma Inherited(before: seq<Occ>, o: Occ)
    requires !Consistent(before)
    ensures !Consistent(before + [o])
  {
    var all := before + [o];
    var j, k :| 0 <= j < |before| && 0 <= k < |before| &&
                before[j].base == before[k].base && before[j].ext != before[k].ext;
    assert all[j] == before[j] && all[k] == before[k];
  }

  lemma NoteExact(ds: seq<Desc>, before: seq<Occ>, o: Occ, classes: Classes)
    requires Faithful(ds, before, classes) && Consistent(before)
    ensures Note(ds, o, classes).Ok? <==> Consistent(before + [o])
    ensures Note(ds, o, classes).Ok? ==> Faithful(Note(ds, o, classes).value, before + [o], classes)
  {
    var all := before + [o];
    IndexOfExact(ds, o.base);
    match IndexOf(ds, o.base)
    case None =>
      NoteFresh(ds, before, o, classes);
      forall k | 0 <= k < |before| ensures before[k].base != o.base {
        assert Has(ds, before[k].base);
      }
    case Some(i) =>
      if ds[i].ext == o.ext {
        NoteMerge(ds, before, o, i, classes);
      } else {
        var d := ds[i];
        assert Describes(d, before, classes);
        assert Mentions(before, d.base, false) || Mentions(before, d.base, true);
        var k :| 0 <= k < |before| && before[k].base == d.base;
        assert all[k].ext != all[|before|].ext;
      }
  }

  // ---- sorting ----

  /** Insertion behind everything of the same or a smaller priority. */
  function Place(s: seq<Desc>, d: Desc): seq<Desc> {
    if s != [] && d.pri < s[|s| - 1].pri then Place(s[..|s| - 1], d) + [s[|s| - 1]] else s + [d]
  }

  function Sort(ds: seq<Desc>): seq<Desc> {
    if ds == [] then [] else Place(Sort(ds[..|ds| - 1]), ds[|ds| - 1])
  }

  ghost predicate Sorted(s: seq<Desc>) {
    forall i, j :: 0 <= i < j < |s| ==> s[i].pri <= s[j].pri
  }

  /** The descriptors of one priority, in order. */
  function OfPriority(s: seq<Desc>, p: int): seq<Desc> {
    if s == [] then []
    else OfPriority(s[..|s| - 1], p) + if s[|s| - 1].pri == p then [s[|s| - 1]] else []
  }

  lemma {:induction false} PlaceSorts(s: seq<Desc>, d: Desc)
    requires Sorted(s)
    ensures Sorted(Place(s, d)) && forall x :: x in Place(s, d) <==> x in s || x == d
  {
    if s != [] && d.pri < s[|s| - 1].pri {
      var rest, last := s[..|s| - 1], s[|s| - 1];
      PlaceSorts(rest, d);
      assert s == rest + [last];
      var r := Place(rest, d);
      forall i | 0 <= i < |r| ensures r[i].pri <= last.pri {
        assert r[i] in r;
      }
    }
  }

  lemma OfPriorityPush(s: seq<Desc>, d: Desc, p: int)
    ensures OfPriority(s + [d], p) == if d.pri == p then OfPriority(s, p) + [d] else OfPriority(s, p)
  {
    assert (s + [d])[..|s|] == s;
  }

  lemma PlaceMoves(s: seq<Desc>, last: Desc, d: Desc)
    requires d.pri < last.pri
    ensures Place(s + [last], d) == Place(s, d) + [last]
  {
    assert (s + [last])[..|s|] == s;
  }

  lemma PlaceStays(s: seq<Desc>, d: Desc, p: int)
    requires s == [] || s[|s| - 1].pri <= d.pri
    ensures OfPriority(Place(s, d), p) == if d.pri == p then OfPriority(s, p) + [d] else OfPriority(s, p)
  {
    OfPriorityPush(s, d, p);
  }

  lemma {:induction false} PlaceKeepsOrder(s: seq<Desc>, d: Desc, p: int)
    ensures OfPriority(Place(s, d), p) == if d.pri == p then OfPriority(s, p) + [d] else OfPriority(s, p)
  {
    if s != [] && d.pri < s[|s| - 1].pri {
      var rest, last := s[..|s| - 1], s[|s| - 1];
      assert s == rest + [last];
      PlaceMoves(rest, last, d);
      PlaceKeepsOrder(rest, d, p);
      OfPriorityPush(Place(rest, d), last, p);
      OfPriorityPush(rest, last, p);
    } else {
      PlaceStays(s, d, p);
    }
  }

  lemma {:induction false} SortSorts(ds: seq<Desc>)
    ensures Sorted(Sort(ds)) && |Sort(ds)| == |ds| && forall x :: x in Sort(ds) <==> x in ds
  {
    if ds != [] {
      var rest, last := ds[..|ds| - 1], ds[|ds| - 1];
      SortSorts(rest);
      PlaceSorts(Sort(rest), last);
      PlaceLength(Sort(rest), last);
      assert ds == rest + [last];
    }
  }

  lemma {:induction false} SortKeepsOrder(ds: seq<Desc>, p: int)
    ensures OfPriority(Sort(ds), p) == OfPriority(ds, p)
  {
    if ds != [] {
      SortKeepsOrder(ds[..|ds| - 1], p);
      PlaceKeepsOrder(Sort(ds[..|ds| - 1]), ds[|ds| - 1], p);
    }
  }

  /** Sorting orders by priority and keeps, within each priority, exactly the descriptors there were in the
      order they had. */
  lemma SortStable(ds: seq<Desc>, p: int)
    ensures Sorted(Sort(ds)) && OfPriority(Sort(ds), p) == OfPriority(ds, p)
    ensures |Sort(ds)| == |ds| && forall x :: x in Sort(ds) <==> x in ds
  {
    SortSorts(ds);
    SortKeepsOrder(ds, p);
  }

  lemma {:induction false} PlaceLength(s: seq<Desc>, d: Desc)
    ensures |Place(s, d)| == |s| + 1
  {
    if s != [] && d.pri < s[|s| - 1].pri {
      PlaceLength(s[..|s| - 1], d);
    }
  }

  lemma {:induction false} PlaceOnce(s: seq<Desc>, d: Desc)
    requires OncePerBase(s) && !Has(s, d.base)
    ensures OncePerBase(Place(s, d)) && forall x :: x in Place(s, d) <==> x in s || x == d
  {
    if s != [] && d.pri < s[|s| - 1].pri {
      var rest, last := s[..|s| - 1], s[|s| - 1];
      assert s == rest + [last];
      PlaceOnce(rest, d);
      var r := Place(rest, d);
      forall i | 0 <= i < |r| ensures r[i].base != last.base {
        assert r[i] in r;
      }
    }
  }

  /** Sorting keeps one faithful descriptor per name. */
  lemma {:induction false} SortOnce(ds: seq<Desc>)
    requires OncePerBase(ds)
    ensures OncePerBase(Sort(ds)) && forall x :: x in Sort(ds) <==> x in ds
  {
    if ds != [] {
      var rest, last := ds[..|ds| - 1], ds[|ds| - 1];
      assert ds == rest + [last];
      SortOnce(rest);
      forall i | 0 <= i < |Sort(rest)| ensures Sort(rest)[i].base != last.base {
        assert Sort(rest)[i] in rest;
      }
      PlaceOnce(Sort(rest), last);
    }
  }

  lemma SortFaithful(ds: seq<Desc>, occs: seq<Occ>, classes: Classes)
    requires Faithful(ds, occs, classes)
    ensures Faithful(Sort(ds), occs, classes)
  {
    SortOnce(ds);
    forall i | 0 <= i < |Sort(ds)| ensures Describes(Sort(ds)[i], occs, classes) {
      assert Sort(ds)[i] in ds;
    }
    forall k | 0 <= k < |occs| ensures Has(Sort(ds), occs[k].base) {
      assert Has(ds, occs[k].base);
      var i :| 0 <= i < |ds| && ds[i].base == occs[k].base;
      assert ds[i] in Sort(ds);
    }
  }

  // ---- numbering ----

  /** Whether d takes a source (or destination) register number. */
  predicate Numbered(d: Desc, dest: bool) {
    IsReg(d.kind) && if dest then d.isDest else d.isSrc
  }

  /** How many of the first k do: the number the next one gets. */
  function Count(ds: seq<Desc>, k: nat, dest: bool): nat
    requires k <= |ds|
  {
    if k == 0 then 0 else Count(ds, k - 1, dest) + if Numbered(ds[k - 1], dest) then 1 else 0
  }

  function CountKind(ds: seq<Desc>, k: nat, kind: Kind): nat
    requires k <= |ds|
  {
    if k == 0 then 0
    else CountKind(ds, k - 1, kind) + if Numbered(ds[k - 1], true) && ds[k - 1].kind == kind then 1 else 0
  }

  function CountMem(ds: seq<Desc>, k: nat): nat
    requires k <= |ds|
  {
    if k == 0 then 0 else CountMem(ds, k - 1) + if ds[k - 1].kind.Mem? then 1 else 0
  }

  lemma {:induction false} CountGrows(ds: seq<Desc>, i: nat, j: nat, dest: bool)
    requires i <= j <= |ds|
    ensures Count(ds, i, dest) <= Count(ds, j, dest)
    ensures i < j && Numbered(ds[i], dest) ==> Count(ds, i, dest) < Count(ds, j, dest)
    decreases j
  {
    if i < j {
      CountGrows(ds, i, j - 1, dest);
    }
  }

  /** Numbers follow the sorted order and stay below the total. */
  lemma NumbersAscend(ds: seq<Desc>, i: nat, j: nat, dest: bool)
    requires i < j < |ds| && Numbered(ds[i], dest) && Numbered(ds[j], dest)
    ensures Count(ds, i, dest) < Count(ds, j, dest) < Count(ds, |ds|, dest)
  {
    CountGrows(ds, i, j, dest);
    CountGrows(ds, j, |ds|, dest);
  }

  /** Every number below the total is given out. */
  lemma {:induction false} NumbersReach(ds: seq<Desc>, k: nat, m: nat, dest: bool) returns (i: nat)
    requires k <= |ds| && m < Count(ds, k, dest)
    ensures i < k && Numbered(ds[i], dest) && Count(ds, i, dest) == m
  {
    if m < Count(ds, k - 1, dest) {
      i := NumbersReach(ds, k - 1, m, dest);
    } else {
      i := k - 1;
    }
  }

  /** The floating-point, integer and control destinations make up all of them. */
  lemma {:induction false} KindsAddUp(ds: seq<Desc>, k: nat)
    requires k <= |ds|
    ensures CountKind(ds, k, FloatReg) + CountKind(ds, k, IntReg) + CountKind(ds, k, ControlReg) == Count(ds, k, true)
  {
    if k > 0 {
      KindsAddUp(ds, k - 1);
    }
  }

  // ---- what the numbers count ----

  /** The registers of one kind the code reads, or writes. */
  ghost function Used(occs: seq<Occ>, classes: Classes, dest: bool, kind: Kind): set<string> {
    set k | 0 <= k < |occs| && occs[k].dest == dest && classes(occs[k].base).kind == kind :: occs[k].base
  }

  /** All of them. */
  ghost function Registers(occs: seq<Occ>, classes: Classes, dest: bool): set<string> {
    Used(occs, classes, dest, IntReg) + Used(occs, classes, dest, FloatReg) + Used(occs, classes, dest, ControlReg)
  }

  /** An operand takes a source number exactly when it is a register the code reads, and a destination number
      exactly when it is one the code writes. */
  lemma NumberedMeans(ds: seq<Desc>, occs: seq<Occ>, classes: Classes, i: nat, dest: bool)
    requires Faithful(ds, occs, classes) && i < |ds|
    ensures Numbered(ds[i], dest) <==> ds[i].base in Registers(occs, classes, dest)
  {
    var d := ds[i];
    assert Describes(d, occs, classes);
    if Mentions(occs, d.base, dest) {
      var k :| 0 <= k < |occs| && occs[k].base == d.base && occs[k].dest == dest;
      assert classes(occs[k].base).kind == d.kind;
    }
  }

  /** The names of those of the first k descriptors that take a number and are picked. */
  ghost function Picked(ds: seq<Desc>, k: nat, dest: bool, kinds: set<Kind>): set<string>
    requires k <= |ds|
  {
    set i | 0 <= i < k && Numbered(ds[i], dest) && ds[i].kind in kinds :: ds[i].base
  }

  lemma PickedStep(ds: seq<Desc>, k: nat, dest: bool, kinds: set<Kind>)
    requires OncePerBase(ds) && k < |ds|
    ensures |Picked(ds, k + 1, dest, kinds)| ==
            |Picked(ds, k, dest, kinds)| + if Numbered(ds[k], dest) && ds[k].kind in kinds then 1 else 0
  {
    var before, after := Picked(ds, k, dest, kinds), Picked(ds, k + 1, dest, kinds);
    assert ds[k].base !in before;
    if Numbered(ds[k], dest) && ds[k].kind in kinds {
      assert after == before + {ds[k].base};
    } else {
      assert after == before;
    }
  }

  const REGS := {IntReg, FloatReg, ControlReg}

  lemma {:induction false} CountIsPicked(ds: seq<Desc>, k: nat, dest: bool)
    requires OncePerBase(ds) && k <= |ds|
    ensures Count(ds, k, dest) == |Picked(ds, k, dest, REGS)|
  {
    if k > 0 {
      CountIsPicked(ds, k - 1, dest);
      PickedStep(ds, k - 1, dest, REGS);
    }
  }

  lemma {:induction false} CountKindIsPicked(ds: seq<Desc>, k: nat, kind: Kind)
    requires OncePerBase(ds) && k <= |ds|
    ensures CountKind(ds, k, kind) == |Picked(ds, k, true, {kind})|
  {
    if k > 0 {
      CountKindIsPicked(ds, k - 1, kind);
      PickedStep(ds, k - 1, true, {kind});
    }
  }

  lemma PickedIsUsed(ds: seq<Desc>, occs: seq<Occ>, classes: Classes, dest: bool, kind: Kind)
    requires Faithful(ds, occs, classes) && IsReg(kind)
    ensures Picked(ds, |ds|, dest, {kind}) == Used(occs, classes, dest, kind)
  {
    var picked, used := Picked(ds, |ds|, dest, {kind}), Used(occs, classes, dest, kind);
    forall b | b in picked ensures b in used {
      var i :| 0 <= i < |ds| && Numbered(ds[i], dest) && ds[i].kind == kind && ds[i].base == b;
      assert Describes(ds[i], occs, classes) && Mentions(occs, b, dest);
      var k :| 0 <= k < |occs| && occs[k].base == b && occs[k].dest == dest;
    }
    forall b | b in used ensures b in picked {
      var k :| 0 <= k < |occs| && occs[k].dest == dest && classes(occs[k].base).kind == kind && occs[k].base == b;
      assert Has(ds, occs[k].base);
      var i :| 0 <= i < |ds| && ds[i].base == b;
      assert Describes(ds[i], occs, classes) && Mentions(occs, b, dest);
    }
  }

  lemma PickedSplits(ds: seq<Desc>, dest: bool)
    ensures Picked(ds, |ds|, dest, REGS) ==
            Picked(ds, |ds|, dest, {IntReg}) + Picked(ds, |ds|, dest, {FloatReg}) +
            Picked(ds, |ds|, dest, {ControlReg})
  {
  }

  /** The totals are the numbers of different registers the code reads and writes, and writes of each kind. */
  lemma TotalsMean(ds: seq<Desc>, occs: seq<Occ>, classes: Classes, dest: bool, kind: Kind)
    requires Faithful(ds, occs, classes) && IsReg(kind)
    ensures Count(ds, |ds|, dest) == |Registers(occs, classes, dest)|
    ensures CountKind(ds, |ds|, kind) == |Used(occs, classes, true, kind)|
  {
    CountIsPicked(ds, |ds|, dest);
    CountKindIsPicked(ds, |ds|, kind);
    PickedIsUsed(ds, occs, classes, true, kind);
    PickedIsUsed(ds, occs, classes, dest, IntReg);
    PickedIsUsed(ds, occs, classes, dest, FloatReg);
    PickedIsUsed(ds, occs, classes, dest, ControlReg);
    PickedSplits(ds, dest);
  }
}
