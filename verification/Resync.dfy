/** _libelf_resync_sections: sizes every section, then sorts the section list in place by moving
    out-of-order sections while walking it. */
module Resync {
  import opened Common
  import opened ElfTypes
  import opened Stailq
  import Extents

  // ---- the two passes as functions of the section list ----

  /** The sizing pass. */
  function SizeAll(items: seq<Section>, cfg: Config, rc: nat): Result<(seq<Section>, nat), Error> {
    if items == [] then Ok(([], rc))
    else
      match Extents.Extent(items[0], cfg, rc)
      case Err(e) => Err(e)
      case Ok((s, rc')) =>
        match SizeAll(items[1..], cfg, rc')
        case Err(e) => Err(e)
        case Ok((rest, rc'')) => Ok(([s] + rest, rc''))
  }

  /** The list after the sizing pass, whether or not it fails: sections up to the failing one are sized. */
  function SizedUntil(items: seq<Section>, cfg: Config, rc: nat): seq<Section> {
    if items == [] then []
    else
      match Extents.Extent(items[0], cfg, rc)
      case Err(_) => items
      case Ok((s, rc')) => [s] + SizedUntil(items[1..], cfg, rc')
  }

  /** When sizing fails, it fails at some section k: those before it are sized, as if they were all there is,
      and it and those behind it are as they were. */
  lemma {:induction false} SizedUntilExact(items: seq<Section>, cfg: Config, rc: nat) returns (k: nat, end: nat)
    requires SizeAll(items, cfg, rc).Err?
    ensures k < |items| && SizeAll(items[..k], cfg, rc).Ok? && SizeAll(items[..k], cfg, rc).value.1 == end
    ensures Extents.Extent(items[k], cfg, end) == Err(SizeAll(items, cfg, rc).error)
    ensures SizedUntil(items, cfg, rc) == SizeAll(items[..k], cfg, rc).value.0 + items[k..]
  {
    if Extents.Extent(items[0], cfg, rc).Err? {
      k, end := 0, rc;
      assert items[..0] == [] && [] + items[0..] == items;
    } else {
      var (s, rc') := Extents.Extent(items[0], cfg, rc).value;
      k, end := SizedUntilExact(items[1..], cfg, rc');
      SizeAllCons(items[0], items[1..][..k], cfg, rc);
      assert [items[0]] + items[1..][..k] == items[..k + 1] && items[1..][k..] == items[k + 1..];
      assert items[1..][k] == items[k + 1];
      var done := SizeAll(items[1..][..k], cfg, rc').value.0;
      assert [s] + (done + items[k + 1..]) == [s] + done + items[k + 1..];
      k := k + 1;
    }
  }

  lemma SizeAllCons(s: Section, rest: seq<Section>, cfg: Config, rc: nat)
    requires Extents.Extent(s, cfg, rc).Ok? && SizeAll(rest, cfg, Extents.Extent(s, cfg, rc).value.1).Ok?
    ensures var (s', rc') := Extents.Extent(s, cfg, rc).value;
            var (out, end) := SizeAll(rest, cfg, rc').value;
            SizeAll([s] + rest, cfg, rc) == Ok(([s'] + out, end))
  {
    assert ([s] + rest)[1..] == rest;
  }

  /** Where the insertion scan stops: the first section not ending before smin. */
  function ScanStop(items: seq<Section>, smin: nat): (j: nat)
    ensures j <= |items|
    ensures forall i :: 0 <= i < j ==> items[i].End() < smin
    ensures j < |items| ==> items[j].End() >= smin
  {
    if items == [] || items[0].End() >= smin then 0 else 1 + ScanStop(items[1..], smin)
  }

  /** No section begins before the end of the headers. */
  ghost predicate Behind(items: seq<Section>, base: nat) {
    forall s :: s in items && s.Occupies() ==> base <= s.offset
  }

  /** Sections that take no space carry no placement. */
  ghost predicate Bare(items: seq<Section>) {
    forall s :: s in items && !s.Occupies() ==> s.offset == 0 && s.size == 0
  }

  /** Ascending and pairwise disjoint. */
  ghost predicate Ascending(items: seq<Section>) {
    forall i, j :: 0 <= i < j < |items| && items[i].Occupies() && items[j].Occupies() ==>
      items[i].End() <= items[j].offset
  }

  /** m is the furthest end of the sections, or base when there are none beyond it. */
  ghost predicate Furthest(m: nat, base: nat, items: seq<Section>) {
    && base <= m
    && (forall s :: s in items && s.Occupies() ==> s.End() <= m)
    && (m == base || exists s :: s in items && s.Occupies() && s.End() == m)
  }

  /** The walk stands at position k and rc is the furthest end before it. */
  ghost predicate Reached(items: seq<Section>, k: nat, rc: nat, base: nat) {
    k <= |items| && Furthest(rc, base, items[..k])
  }

  /** What the walk does with the section at position k: the list and the running end afterwards.
      None is the LAYOUT error. */
  function SweepStep(items: seq<Section>, k: nat, rc: nat): Option<(seq<Section>, nat)>
    requires k < |items|
  {
    var s := items[k];
    if !s.Occupies() then Some((items, rc))
    else if s.offset >= rc then Some((items, s.End()))
    else if s.End() >= rc then None
    else
      var rest := Drop(items, k);
      var j := ScanStop(rest, s.offset);
      if j < |rest| && s.End() >= rest[j].offset then None else Some((Insert(rest, j, s), rc))
  }

  /** Where the section now stands that followed position k before the step: the walk goes on there, so
      a section put in further down is met again. */
  function NextPos(items: seq<Section>, k: nat, rc: nat): nat
    requires k < |items|
  {
    if Moves(items, k, rc) && ScanStop(Drop(items, k), items[k].offset) > k then k else k + 1
  }

  /** The walk takes the section at position k out to insert it anew. */
  predicate Moves(items: seq<Section>, k: nat, rc: nat)
    requires k < |items|
  {
    items[k].Occupies() && items[k].offset < rc && items[k].End() < rc
  }

  /** The list when a step fails: a section overlapping the current end stays, one that cannot be put in
      again has already been taken out. */
  function StepLeft(items: seq<Section>, k: nat, rc: nat): seq<Section>
    requires k < |items|
  {
    if items[k].End() >= rc then items else Drop(items, k)
  }

  function OffsetAt(items: seq<Section>, k: nat): nat {
    if k < |items| then items[k].offset else 0
  }

  /** A section put in further down makes room for one that starts earlier. */
  lemma StepDescends(items: seq<Section>, k: nat, rc: nat)
    requires k < |items| && SweepStep(items, k, rc).Some?
    ensures |SweepStep(items, k, rc).value.0| == |items| && k <= NextPos(items, k, rc) <= |items|
    ensures NextPos(items, k, rc) == k ==> OffsetAt(SweepStep(items, k, rc).value.0, k) < OffsetAt(items, k)
  {
  }

  /** The sorting walk from position k on. */
  function Sweep(items: seq<Section>, k: nat, rc: nat): Option<(seq<Section>, nat)>
    requires k <= |items|
    decreases |items| - k, OffsetAt(items, k)
  {
    if k == |items| then Some((items, rc))
    else
      match SweepStep(items, k, rc)
      case None => None
      case Some((items', rc')) =>
        StepDescends(items, k, rc);
        Sweep(items', NextPos(items, k, rc), rc')
  }

  /** The list a failed walk leaves behind. */
  function SweepLeft(items: seq<Section>, k: nat, rc: nat): seq<Section>
    requires k <= |items|
    decreases |items| - k, OffsetAt(items, k)
  {
    if k == |items| then items
    else
      match SweepStep(items, k, rc)
      case None => StepLeft(items, k, rc)
      case Some((items', rc')) =>
        StepDescends(items, k, rc);
        SweepLeft(items', NextPos(items, k, rc), rc')
  }

  // ---- one step ----

  /** Moving element k to position j <= k rearranges the first k + 1 elements only. */
  lemma MovedShape<T>(items: seq<T>, k: nat, j: nat)
    requires j <= k < |items|
    ensures var moved := Insert(Drop(items, k), j, items[k]);
            && |moved| == |items|
            && moved[..k + 1] == items[..k][..j] + [items[k]] + items[..k][j..]
            && moved[k + 1..] == items[k + 1..]
            && multiset(moved[..k + 1]) == multiset(items[..k + 1])
            && multiset(moved) == multiset(items)
  {
    var s, pre, post := items[k], items[..k], items[k + 1..];
    var moved := Insert(Drop(items, k), j, s);
    assert moved[..k + 1] == pre[..j] + [s] + pre[j..];
    assert moved[k + 1..] == post;
    assert items[..k + 1] == pre[..j] + pre[j..] + [s];
    assert moved == moved[..k + 1] + post;
    assert items == items[..k + 1] + post;
  }

  lemma DropLoses<T>(s: seq<T>, k: nat)
    requires k < |s|
    ensures multiset(Drop(s, k)) + multiset{s[k]} == multiset(s)
  {
    assert s == s[..k] + ([s[k]] + s[k + 1..]);
    assert Drop(s, k) == s[..k] + s[k + 1..];
  }

  lemma InsertGains<T>(s: seq<T>, j: nat, x: T)
    requires j <= |s|
    ensures multiset(Insert(s, j, x)) == multiset(s) + multiset{x}
  {
    assert Insert(s, j, x) == s[..j] + ([x] + s[j..]);
    assert s == s[..j] + s[j..];
  }

  lemma MovedSame<T>(items: seq<T>, k: nat, j: nat)
    requires k < |items| && j < |items|
    ensures var moved := Insert(Drop(items, k), j, items[k]);
            |moved| == |items| && multiset(moved) == multiset(items)
  {
    DropLoses(items, k);
    InsertGains(Drop(items, k), j, items[k]);
  }

  /** A step rearranges the list. */
  lemma StepPermutes(items: seq<Section>, k: nat, rc: nat)
    requires k < |items| && SweepStep(items, k, rc).Some?
    ensures multiset(SweepStep(items, k, rc).value.0) == multiset(items)
  {
    if Moves(items, k, rc) {
      MovedSame(items, k, ScanStop(Drop(items, k), items[k].offset));
    }
  }

  lemma FurthestPerm(m: nat, a: seq<Section>, b: seq<Section>, base: nat)
    requires multiset(a) == multiset(b) && Furthest(m, base, a)
    ensures Furthest(m, base, b)
  {
    SameMembers(a, b);
  }

  lemma FurthestSnoc(m: nat, base: nat, pre: seq<Section>, s: Section)
    requires Furthest(m, base, pre)
    ensures !s.Occupies() || s.End() <= m ==> Furthest(m, base, pre + [s])
    ensures s.Occupies() && m <= s.End() ==> Furthest(s.End(), base, pre + [s])
  {
    assert s in pre + [s];
    if m != base {
      var t :| t in pre && t.Occupies() && t.End() == m;
      assert t in pre + [s];
    }
  }

  /** The running end stays the furthest end. */
  lemma StepReaches(items: seq<Section>, k: nat, rc: nat, base: nat)
    requires Reached(items, k, rc, base) && k < |items| && SweepStep(items, k, rc).Some?
    ensures var (items', rc') := SweepStep(items, k, rc).value; Reached(items', NextPos(items, k, rc), rc', base)
  {
    TakeSnoc(items, k);
    FurthestSnoc(rc, base, items[..k], items[k]);
    if Moves(items, k, rc) {
      var j := ScanStop(Drop(items, k), items[k].offset);
      if j <= k {
        MovedShape(items, k, j);
        FurthestPerm(rc, items[..k + 1], Insert(Drop(items, k), j, items[k])[..k + 1], base);
      } else {
        assert Insert(Drop(items, k), j, items[k])[..k] == items[..k];
      }
    }
  }

  lemma BarePerm(a: seq<Section>, b: seq<Section>)
    requires multiset(a) == multiset(b) && Bare(a)
    ensures Bare(b)
  {
    SameMembers(a, b);
  }

  lemma BehindPerm(a: seq<Section>, b: seq<Section>, base: nat)
    requires multiset(a) == multiset(b) && Behind(a, base)
    ensures Behind(b, base)
  {
    SameMembers(a, b);
  }

  lemma MovedAscending(pre: seq<Section>, j: nat, s: Section)
    requires Ascending(pre) && j <= |pre| && s.Occupies() && Bare(pre)
    requires forall i :: 0 <= i < j ==> pre[i].End() < s.offset
    requires j < |pre| ==> s.End() < pre[j].offset
    ensures Ascending(pre[..j] + [s] + pre[j..])
  {
    var m := pre[..j] + [s] + pre[j..];
    assert j < |pre| ==> pre[j] in pre && pre[j].Occupies();
    forall a, b | 0 <= a < b < |m| && m[a].Occupies() && m[b].Occupies() ensures m[a].End() <= m[b].offset {
      if a < j && b > j {
        assert m[b] == pre[b - 1];
      } else if a == j && b > j {
        assert m[b] == pre[b - 1];
      } else if a > j {
        assert m[a] == pre[a - 1] && m[b] == pre[b - 1];
      }
    }
  }

  lemma BeforeDropped<T>(items: seq<T>, k: nat)
    requires k < |items|
    ensures forall i :: 0 <= i < k ==> Drop(items, k)[i] == items[..k][i] == items[i]
  {
  }

  lemma MoveAscends(items: seq<Section>, k: nat, rc: nat)
    requires k < |items| && Moves(items, k, rc) && SweepStep(items, k, rc).Some?
    requires Bare(items) && Ascending(items[..k])
    ensures Ascending(SweepStep(items, k, rc).value.0[..NextPos(items, k, rc)])
  {
    var j := ScanStop(Drop(items, k), items[k].offset);
    BeforeDropped(items, k);
    if j <= k {
      MovedShape(items, k, j);
      MovedAscending(items[..k], j, items[k]);
    } else {
      assert Insert(Drop(items, k), j, items[k])[..k] == items[..k];
    }
  }

  /** The part already walked stays ascending. */
  lemma StepAscends(items: seq<Section>, k: nat, rc: nat, base: nat)
    requires Reached(items, k, rc, base) && k < |items| && SweepStep(items, k, rc).Some?
    requires Bare(items) && Ascending(items[..k])
    ensures Ascending(SweepStep(items, k, rc).value.0[..NextPos(items, k, rc)])
  {
    if Moves(items, k, rc) {
      MoveAscends(items, k, rc);
    } else {
      TakeSnoc(items, k);
      assert forall i :: 0 <= i < k ==> items[..k][i] in items[..k];
    }
  }

  /** Behind the headers a section that starts before the current end finds its place inside the part
      already walked. */
  lemma ScanStopsEarly(items: seq<Section>, k: nat, rc: nat, base: nat)
    requires Reached(items, k, rc, base) && Behind(items, base) && k < |items|
    requires items[k].Occupies() && items[k].offset < rc
    ensures ScanStop(Drop(items, k), items[k].offset) < k
  {
    assert items[k] in items;
    var s :| s in items[..k] && s.Occupies() && s.End() == rc;
    var i :| 0 <= i < k && items[i] == s;
    assert Drop(items, k)[i] == s;
  }

  /** So the walk goes on with the section that followed, and what comes after is as it was. */
  lemma StepOn(items: seq<Section>, k: nat, rc: nat, base: nat)
    requires Reached(items, k, rc, base) && Behind(items, base) && k < |items| && SweepStep(items, k, rc).Some?
    ensures var items' := SweepStep(items, k, rc).value.0;
            && NextPos(items, k, rc) == k + 1
            && |items'| == |items| && items'[k + 1..] == items[k + 1..]
            && multiset(items'[..k + 1]) == multiset(items[..k + 1])
  {
    if Moves(items, k, rc) {
      ScanStopsEarly(items, k, rc, base);
      MovedShape(items, k, ScanStop(Drop(items, k), items[k].offset));
    }
  }

  // ---- what a successful walk achieves, and exactly when it succeeds ----

  /** The walk permutes the list and ends at the furthest section end, whatever the list. */
  lemma {:induction false} SweepEnds(items: seq<Section>, k: nat, rc: nat, base: nat)
    requires Reached(items, k, rc, base) && Sweep(items, k, rc).Some?
    ensures var (out, rc') := Sweep(items, k, rc).value;
            multiset(out) == multiset(items) && Furthest(rc', base, out)
    decreases |items| - k, OffsetAt(items, k)
  {
    if k == |items| {
      assert items[..k] == items;
    } else {
      StepDescends(items, k, rc);
      StepPermutes(items, k, rc);
      StepReaches(items, k, rc, base);
      var (items', rc') := SweepStep(items, k, rc).value;
      SweepEnds(items', NextPos(items, k, rc), rc', base);
    }
  }

  /** Where sections without file space carry no placement, the walk leaves the others ascending and
      pairwise disjoint, also those that lie before the end of the headers. */
  lemma {:induction false} SweepSorts(items: seq<Section>, k: nat, rc: nat, base: nat)
    requires Reached(items, k, rc, base) && Sweep(items, k, rc).Some?
    requires Bare(items) && Ascending(items[..k])
    ensures var (out, rc') := Sweep(items, k, rc).value;
            multiset(out) == multiset(items) && Furthest(rc', base, out) && Ascending(out)
    decreases |items| - k, OffsetAt(items, k)
  {
    if k == |items| {
      assert items[..k] == items;
    } else {
      StepDescends(items, k, rc);
      StepPermutes(items, k, rc);
      StepReaches(items, k, rc, base);
      StepAscends(items, k, rc, base);
      var (items', rc') := SweepStep(items, k, rc).value;
      BarePerm(items, items');
      SweepSorts(items', NextPos(items, k, rc), rc', base);
    }
  }

  /** Section s can join the sections walked before it: it starts no earlier than they all end,
      or it is strictly clear of every one of them. */
  ghost predicate Fits(before: seq<Section>, s: Section) {
    s.Occupies() ==>
      || (forall t :: t in before && t.Occupies() ==> t.End() <= s.offset)
      || (forall t :: t in before && t.Occupies() ==> t.End() < s.offset || s.End() < t.offset)
  }

  ghost predicate AllFit(items: seq<Section>, k: nat) {
    forall j :: k <= j < |items| ==> Fits(items[..j], items[j])
  }

  lemma FitsPerm(a: seq<Section>, b: seq<Section>, s: Section)
    requires multiset(a) == multiset(b) && Fits(a, s)
    ensures Fits(b, s)
  {
    forall t | t in b ensures t in a {
      assert t in multiset(b);
    }
  }

  lemma AllFitPerm(a: seq<Section>, b: seq<Section>, k: nat)
    requires |a| == |b| && k <= |a| && a[k..] == b[k..] && multiset(a[..k]) == multiset(b[..k])
    requires AllFit(a, k)
    ensures AllFit(b, k)
  {
    forall j | k <= j < |b| ensures Fits(b[..j], b[j]) {
      assert a[..j] == a[..k] + a[k..][..j - k] && b[..j] == b[..k] + b[k..][..j - k];
      assert a[j] == a[k..][j - k] && b[j] == b[k..][j - k];
      FitsPerm(a[..j], b[..j], b[j]);
    }
  }

  lemma AllFitStep(items: seq<Section>, k: nat)
    requires k < |items|
    ensures AllFit(items, k) <==> Fits(items[..k], items[k]) && AllFit(items, k + 1)
  {
  }

  /** In an ascending list whose furthest end rc lies beyond the start of s, s is clear of every
      section just when it ends before the section the scan stops at. */
  lemma ClearExact(pre: seq<Section>, j: nat, s: Section, rc: nat, l: Section)
    requires Ascending(pre) && j < |pre| && s.Occupies() && pre[j].Occupies()
    requires forall i :: 0 <= i < j ==> pre[i].End() < s.offset
    requires pre[j].End() >= s.offset && s.offset < rc
    requires l in pre && l.Occupies() && l.End() == rc && pre[j].End() <= rc
    ensures Fits(pre, s) <==> s.End() < rc && s.End() < pre[j].offset
  {
    if s.End() < pre[j].offset {
      forall t | t in pre && t.Occupies() ensures t.End() < s.offset || s.End() < t.offset {
        var i :| 0 <= i < |pre| && pre[i] == t;
      }
    }
    if Fits(pre, s) {
      assert pre[j] in pre;
    }
  }

  /** What the walk keeps on a list whose sections lie behind the headers, those without file space
      carrying no placement. */
  ghost predicate WalkInv(items: seq<Section>, k: nat, rc: nat, base: nat) {
    base > 0 && Reached(items, k, rc, base) && Behind(items, base) && Bare(items) && Ascending(items[..k])
  }

  lemma StepInv(items: seq<Section>, k: nat, rc: nat, base: nat)
    requires WalkInv(items, k, rc, base) && k < |items| && SweepStep(items, k, rc).Some?
    ensures var (items', rc') := SweepStep(items, k, rc).value;
            && WalkInv(items', k + 1, rc', base) && NextPos(items, k, rc) == k + 1
            && |items'| == |items| && items'[k + 1..] == items[k + 1..]
            && multiset(items'[..k + 1]) == multiset(items[..k + 1])
            && multiset(items') == multiset(items)
  {
    var items' := SweepStep(items, k, rc).value.0;
    StepPermutes(items, k, rc);
    StepReaches(items, k, rc, base);
    StepAscends(items, k, rc, base);
    StepOn(items, k, rc, base);
    BarePerm(items, items');
    BehindPerm(items, items', base);
  }

  /** The tests made before moving a section amount to Fits. */
  lemma MoveTestExact(items: seq<Section>, k: nat, rc: nat, base: nat)
    requires WalkInv(items, k, rc, base) && k < |items|
    requires items[k].Occupies() && items[k].offset < rc
    ensures var rest := Drop(items, k);
            var j := ScanStop(rest, items[k].offset);
            j < |rest| && (Fits(items[..k], items[k]) <==> items[k].End() < rc && items[k].End() < rest[j].offset)
  {
    ScanStopsEarly(items, k, rc, base);
    StopOccupies(items, k, base);
    var l :| l in items[..k] && l.Occupies() && l.End() == rc;
    ClearExact(items[..k], ScanStop(Drop(items, k), items[k].offset), items[k], rc, l);
  }

  /** Behind the headers the scan stops at a section with file space, among those walked. */
  lemma StopOccupies(items: seq<Section>, k: nat, base: nat)
    requires base > 0 && k < |items| && Behind(items, base) && Bare(items) && items[k].Occupies()
    requires ScanStop(Drop(items, k), items[k].offset) < k
    ensures var j := ScanStop(Drop(items, k), items[k].offset);
            && (forall i :: 0 <= i < j ==> items[..k][i].End() < items[k].offset)
            && items[..k][j] == Drop(items, k)[j] && items[..k][j].Occupies() && items[..k][j] in items[..k]
            && items[..k][j].End() >= items[k].offset && items[k] in items
  {
    BeforeDropped(items, k);
    var j := ScanStop(Drop(items, k), items[k].offset);
    assert items[k] in items && items[j] in items && items[j] in items[..k];
  }

  /** One step of the walk succeeds just when its section fits. */
  lemma StepExact(items: seq<Section>, k: nat, rc: nat, base: nat)
    requires WalkInv(items, k, rc, base) && k < |items|
    ensures SweepStep(items, k, rc).Some? <==> Fits(items[..k], items[k])
  {
    if items[k].Occupies() && items[k].offset < rc {
      MoveTestExact(items, k, rc, base);
    }
  }

  /** The walk succeeds exactly when every section fits among those listed before it. */
  lemma {:induction false} SweepExact(items: seq<Section>, k: nat, rc: nat, base: nat)
    requires WalkInv(items, k, rc, base)
    ensures Sweep(items, k, rc).Some? <==> AllFit(items, k)
    decreases |items| - k
  {
    if k < |items| {
      AllFitStep(items, k);
      StepExact(items, k, rc, base);
      if SweepStep(items, k, rc).Some? {
        StepInv(items, k, rc, base);
        var (items', rc') := SweepStep(items, k, rc).value;
        SweepExact(items', k + 1, rc', base);
        if AllFit(items, k + 1) {
          AllFitPerm(items, items', k + 1);
        }
        if AllFit(items', k + 1) {
          AllFitPerm(items', items, k + 1);
        }
      }
    }
  }

  // ---- what a failed walk leaves ----

  /** One section was lost, and what it was. */
  ghost predicate Lost(left: seq<Section>, items: seq<Section>, s: Section) {
    multiset(left) + multiset{s} == multiset(items)
  }

  /** The section at position j is the first from k on that does not fit. */
  ghost predicate FirstUnfit(items: seq<Section>, k: nat, j: nat) {
    k <= j < |items| && !Fits(items[..j], items[j]) && forall i :: k <= i < j ==> Fits(items[..i], items[i])
  }

  /** Section s reaches at least as far as all those before it. */
  ghost predicate ReachesAll(before: seq<Section>, s: Section) {
    forall t :: t in before && t.Occupies() ==> t.End() <= s.End()
  }

  lemma ReachesPerm(a: seq<Section>, b: seq<Section>, s: Section)
    requires multiset(a) == multiset(b)
    ensures ReachesAll(a, s) <==> ReachesAll(b, s)
    ensures Fits(a, s) <==> Fits(b, s)
  {
    SameMembers(a, b);
  }

  lemma PrefixPerm<T>(a: seq<T>, b: seq<T>, k: nat, j: nat)
    requires |a| == |b| && k <= j <= |a| && a[k..] == b[k..] && multiset(a[..k]) == multiset(b[..k])
    ensures multiset(a[..j]) == multiset(b[..j]) && (j < |a| ==> a[j] == b[j])
  {
    assert a[..j] == a[..k] + a[k..][..j - k] && b[..j] == b[..k] + b[k..][..j - k];
    assert j < |a| ==> a[j] == a[k..][j - k] && b[j] == b[k..][j - k];
  }

  lemma FirstUnfitStep(items: seq<Section>, items': seq<Section>, k: nat, j: nat)
    requires FirstUnfit(items, k, j) && k < j && |items'| == |items|
    requires items'[k + 1..] == items[k + 1..] && multiset(items'[..k + 1]) == multiset(items[..k + 1])
    ensures FirstUnfit(items', k + 1, j) && items'[j] == items[j]
    ensures ReachesAll(items'[..j], items[j]) <==> ReachesAll(items[..j], items[j])
  {
    forall i | k + 1 <= i <= j
      ensures items'[i] == items[i] && (Fits(items'[..i], items[i]) <==> Fits(items[..i], items[i]))
    {
      PrefixPerm(items', items, k + 1, i);
      ReachesPerm(items'[..i], items[..i], items[i]);
    }
    PrefixPerm(items', items, k + 1, j);
    ReachesPerm(items'[..j], items[..j], items[j]);
  }

  /** The step that fails: the guard at the current end decides whether the section was taken out. */
  lemma StepLoses(items: seq<Section>, k: nat, rc: nat, base: nat)
    requires WalkInv(items, k, rc, base) && k < |items| && SweepStep(items, k, rc).None?
    ensures ReachesAll(items[..k], items[k]) <==> items[k].End() >= rc
    ensures if items[k].End() >= rc then StepLeft(items, k, rc) == items
            else Lost(StepLeft(items, k, rc), items, items[k]) && multiset(StepLeft(items, k, rc)) != multiset(items)
  {
    assert items[k] in items;
    DropLoses(items, k);
    assert |Drop(items, k)| != |items|;
    if multiset(Drop(items, k)) == multiset(items) {
      SameMembers(Drop(items, k), items);
    }
  }

  /** The walk fails at the first section that does not fit.  Every section is still in the list exactly
      when that section reaches at least as far as all those before it; otherwise that section, and no
      other, is gone. */
  lemma {:induction false} FailureLosesOne(items: seq<Section>, k: nat, rc: nat, base: nat, j: nat)
    requires WalkInv(items, k, rc, base) && FirstUnfit(items, k, j)
    ensures Sweep(items, k, rc).None?
    ensures multiset(SweepLeft(items, k, rc)) == multiset(items) <==> ReachesAll(items[..j], items[j])
    ensures !ReachesAll(items[..j], items[j]) ==> Lost(SweepLeft(items, k, rc), items, items[j])
    decreases |items| - k
  {
    StepExact(items, k, rc, base);
    if j == k {
      StepLoses(items, k, rc, base);
    } else {
      StepInv(items, k, rc, base);
      var (items', rc') := SweepStep(items, k, rc).value;
      FirstUnfitStep(items, items', k, j);
      FailureLosesOne(items', k + 1, rc', base, j);
    }
  }

  // ---- the sizing pass ----

  /** Where a section's header puts its end: the sizing pass goes by it for a section that is not dirty. */
  function HeaderEnd(s: Section): nat {
    if s.dirty then s.End() else s.shOffset + s.shSize
  }

  /** m is the furthest end the sections claim, or base when there are none beyond it. */
  ghost predicate Claimed(m: nat, base: nat, items: seq<Section>) {
    && base <= m
    && (forall s :: s in items && s.Occupies() ==> HeaderEnd(s) <= m)
    && (m == base || exists s :: s in items && s.Occupies() && HeaderEnd(s) == m)
  }

  /** One section's share of the sizing pass. */
  lemma SizeOne(s: Section, cfg: Config, rc: nat)
    requires Extents.Extent(s, cfg, rc).Ok?
    ensures var (s', rc') := Extents.Extent(s, cfg, rc).value;
            && s'.Occupies() == s.Occupies() && s'.ndx == s.ndx && s'.dirty == s.dirty
            && (s.Occupies() && s.dirty && !cfg.layout ==> rc <= s'.offset)
            && (s.Occupies() && s.dirty && cfg.layout ==> s'.offset == s.shOffset)
            && (!s.Occupies() || !s.dirty ==> s' == s)
            && rc' == if s.Occupies() then Max(rc, HeaderEnd(s')) else rc
  {
    Extents.ExtentFrame(s, cfg, rc);
    if s.Occupies() && s.dirty && !cfg.layout {
      Extents.LibraryPlacement(s, cfg, rc);
    }
  }

  /** The sizing pass arrives at the furthest end the sections claim. */
  lemma {:induction false} SizeAllClaims(items: seq<Section>, cfg: Config, rc: nat)
    requires SizeAll(items, cfg, rc).Ok?
    ensures var (out, nrc) := SizeAll(items, cfg, rc).value;
            |out| == |items| && Claimed(nrc, rc, out)
  {
    if items != [] {
      var s := items[0];
      SizeOne(s, cfg, rc);
      var (s', rc') := Extents.Extent(s, cfg, rc).value;
      var (rest, nrc) := SizeAll(items[1..], cfg, rc').value;
      SizeAllClaims(items[1..], cfg, rc');
      assert forall t :: t in [s'] + rest <==> t == s' || t in rest;
      if nrc == rc' && s.Occupies() && rc' == HeaderEnd(s') {
        assert s' in [s'] + rest;
      }
    }
  }

  /** What the header of a section that is not dirty says is where the section is. */
  ghost predicate Current(s: Section) {
    s.Occupies() && !s.dirty ==> s.offset == s.shOffset && s.size == s.shSize
  }

  /** The library is about to place the section, or it already has a place behind the headers. */
  ghost predicate Placeable(s: Section, cfg: Config, base: nat) {
    s.Occupies() ==> if s.dirty then cfg.layout ==> base <= s.shOffset else base <= s.offset
  }

  /** What the sizing pass keeps of the sections. */
  ghost predicate SizedFrom(items: seq<Section>, out: seq<Section>, cfg: Config, base: nat) {
    && |out| == |items|
    && forall i :: 0 <= i < |items| ==>
         && out[i].Occupies() == items[i].Occupies()
         && (!items[i].Occupies() || !items[i].dirty ==> out[i] == items[i])
         && (Placeable(items[i], cfg, base) && out[i].Occupies() ==> base <= out[i].offset)
         && (Current(items[i]) ==> Current(out[i]))
  }

  lemma SizeOneKeeps(s: Section, cfg: Config, base: nat, rc: nat)
    requires Extents.Extent(s, cfg, rc).Ok? && base <= rc
    ensures SizedFrom([s], [Extents.Extent(s, cfg, rc).value.0], cfg, base)
  {
    SizeOne(s, cfg, rc);
  }

  lemma SizedJoin(s: Section, items: seq<Section>, s': Section, out: seq<Section>, cfg: Config, base: nat)
    requires SizedFrom([s], [s'], cfg, base) && SizedFrom(items, out, cfg, base)
    ensures SizedFrom([s] + items, [s'] + out, cfg, base)
  {
    assert [s][0] == s && [s'][0] == s';
  }

  lemma {:induction false} SizeAllFrom(items: seq<Section>, cfg: Config, base: nat, rc: nat)
    requires SizeAll(items, cfg, rc).Ok? && base <= rc
    ensures SizedFrom(items, SizeAll(items, cfg, rc).value.0, cfg, base)
  {
    if items != [] {
      var (s', rc') := Extents.Extent(items[0], cfg, rc).value;
      SizeOne(items[0], cfg, rc);
      SizeOneKeeps(items[0], cfg, base, rc);
      SizeAllFrom(items[1..], cfg, base, rc');
      SizedJoin(items[0], items[1..], s', SizeAll(items[1..], cfg, rc').value.0, cfg, base);
      assert items == [items[0]] + items[1..];
    }
  }

  lemma SizeAllKeeps(items: seq<Section>, cfg: Config, base: nat, rc: nat)
    requires SizeAll(items, cfg, rc).Ok? && base <= rc
    ensures var out := SizeAll(items, cfg, rc).value.0;
            && |out| == |items|
            && ((forall s :: s in items ==> Placeable(s, cfg, base)) ==> Behind(out, base))
            && ((forall s :: s in items ==> Current(s)) ==> forall s :: s in out ==> Current(s))
            && (Bare(items) ==> Bare(out))
            && (items != [] && !items[0].Occupies() ==> out[0] == items[0])
  {
    SizeAllFrom(items, cfg, base, rc);
    var out := SizeAll(items, cfg, rc).value.0;
    forall s | s in out ensures exists i :: 0 <= i < |items| && out[i] == s && items[i] in items {
      var i :| 0 <= i < |out| && out[i] == s;
    }
  }

  // ---- the code ----

  /** The scan of _libelf_insert_section: walk from the head past the sections that end before s;
      ok is false when the next one overlaps or touches s.  i is where the scan stopped and
      prev the node before it. */
  method FindPlace(q: Queue<Section>, s: Section, ghost items: seq<Section>)
    returns (ok: bool, prev: Node?<Section>, ghost i: nat)
    requires q.Valid() && Holds(q.nodes, items)
    ensures i == ScanStop(items, s.offset)
    ensures if i == 0 then prev == null else prev == q.nodes[i - 1]
    ensures ok == (i < |items| ==> s.End() < items[i].offset)
  {
    var smin := s.offset;
    var smax := smin + s.size;
    prev := null;
    var t := q.first;
    i := 0;
    while t != null
      invariant 0 <= i <= |q.nodes| && t == At(q.nodes, i)
      invariant if i == 0 then prev == null else prev == q.nodes[i - 1]
      invariant forall m :: 0 <= m < i ==> items[m].End() < smin
      decreases |q.nodes| - i
    {
      assert t.item == items[i];
      var tmin := t.item.offset;
      var tmax := tmin + t.item.size;
      if tmax < smin {
        prev := t;
        t := t.next;
        i := i + 1;
      } else if smax < tmin {
        break;
      } else {
        return false, prev, i;
      }
    }
    ok := true;
  }

  /** _libelf_insert_section. */
  method InsertSection(q: Queue<Section>, s: Node<Section>, ghost items: seq<Section>) returns (ok: bool, ghost i: nat)
    requires q.Valid() && Holds(q.nodes, items) && s !in q.nodes
    modifies q, q.nodes`next, s`next
    ensures q.Valid()
    ensures i == ScanStop(items, s.item.offset)
    ensures ok == (i < |items| ==> s.item.End() < items[i].offset)
    ensures q.nodes == if ok then Insert(old(q.nodes), i, s) else old(q.nodes)
  {
    var prev: Node?<Section>;
    ok, prev, i := FindPlace(q, s.item, items);
    if !ok {
      return;
    }
    if prev != null {
      ghost var k := i - 1;
      q.InsertAfter(prev, s, k);
      assert i == k + 1;
    } else {
      q.InsertHead(s);
    }
  }

  /** The whole result, once `done` is finished and `rest` is still to come. */
  ghost predicate Continues(whole: Result<(seq<Section>, nat), Error>, done: seq<Section>,
                            rest: Result<(seq<Section>, nat), Error>) {
    match rest
    case Err(e) => whole == Err(e)
    case Ok((out, m)) => whole.Ok? && whole.value.0 == done + out && whole.value.1 == m
  }

  /** With sections 0..i sized in place, the rest of the pass still computes the whole. */
  ghost predicate Pending(whole: Result<(seq<Section>, nat), Error>, cur: seq<Section>, i: nat, cfg: Config, rc: nat)
    requires i <= |cur|
  {
    Continues(whole, cur[..i], SizeAll(cur[i..], cfg, rc))
  }

  lemma PendingStep(whole: Result<(seq<Section>, nat), Error>, cur: seq<Section>, i: nat, cfg: Config, rc: nat)
    requires i < |cur| && Pending(whole, cur, i, cfg, rc)
    ensures match Extents.Extent(cur[i], cfg, rc)
            case Err(e) => whole == Err(e)
            case Ok((s, rc')) => Pending(whole, cur[i := s], i + 1, cfg, rc')
  {
    assert cur[i..][1..] == cur[i + 1..];
    match Extents.Extent(cur[i], cfg, rc) {
      case Err(_) =>
      case Ok((s, rc')) =>
        var rest := SizeAll(cur[i + 1..], cfg, rc');
        assert cur[i := s][i + 1..] == cur[i + 1..];
        assert cur[i := s][..i + 1] == cur[..i] + [s];
        if rest.Ok? {
          assert cur[..i] + ([s] + rest.value.0) == (cur[..i] + [s]) + rest.value.0;
        }
    }
  }

  /** With sections 0..i sized in place, the rest of the pass still leaves the list left. */
  ghost predicate Partly(left: seq<Section>, cur: seq<Section>, i: nat, cfg: Config, rc: nat)
    requires i <= |cur|
  {
    left == cur[..i] + SizedUntil(cur[i..], cfg, rc)
  }

  lemma PartlyStep(left: seq<Section>, cur: seq<Section>, i: nat, cfg: Config, rc: nat)
    requires i < |cur| && Partly(left, cur, i, cfg, rc)
    ensures match Extents.Extent(cur[i], cfg, rc)
            case Err(_) => left == cur
            case Ok((s, rc')) => Partly(left, cur[i := s], i + 1, cfg, rc')
  {
    assert cur[i..][1..] == cur[i + 1..];
    match Extents.Extent(cur[i], cfg, rc) {
      case Err(_) => assert cur[..i] + cur[i..] == cur;
      case Ok((s, rc')) =>
        assert cur[i := s][i + 1..] == cur[i + 1..];
        assert cur[i := s][..i + 1] == cur[..i] + [s];
    }
  }

  lemma PendingDone(whole: Result<(seq<Section>, nat), Error>, cur: seq<Section>, cfg: Config, rc: nat)
    requires Pending(whole, cur, |cur|, cfg, rc)
    ensures whole == Ok((cur, rc))
  {
    assert cur[..|cur|] + [] == cur;
  }

  /** Where the pass stands: sections 0..i are sized, and the rest of it still leads to whole and left. */
  ghost predicate Sizing(whole: Result<(seq<Section>, nat), Error>, left: seq<Section>, cur: seq<Section>, i: nat,
                         cfg: Config, rc: nat) {
    i <= |cur| && Pending(whole, cur, i, cfg, rc) && Partly(left, cur, i, cfg, rc)
  }

  lemma SizingStep(whole: Result<(seq<Section>, nat), Error>, left: seq<Section>, cur: seq<Section>, i: nat,
                   cfg: Config, rc: nat)
    requires Sizing(whole, left, cur, i, cfg, rc) && i < |cur|
    ensures match Extents.Extent(cur[i], cfg, rc)
            case Err(e) => whole == Err(e) && left == cur
            case Ok((s, rc')) => Sizing(whole, left, cur[i := s], i + 1, cfg, rc')
  {
    PendingStep(whole, cur, i, cfg, rc);
    PartlyStep(left, cur, i, cfg, rc);
  }

  /** One turn of the first loop. */
  method SizeTurn(q: Queue<Section>, s: Node<Section>, cfg: Config, rc: nat, ghost i: nat, ghost cur: seq<Section>,
                  ghost whole: Result<(seq<Section>, nat), Error>, ghost left: seq<Section>)
    returns (r: Result<nat, Error>, ghost now: seq<Section>)
    requires q.Valid() && Holds(q.nodes, cur) && i < |q.nodes| && q.nodes[i] == s
    requires Sizing(whole, left, cur, i, cfg, rc)
    modifies q.nodes`item
    ensures q.Valid() && Holds(q.nodes, now) && |now| == |cur|
    ensures match r
            case Err(e) => whole == Err(e) && now == left
            case Ok(rc') => Sizing(whole, left, now, i + 1, cfg, rc')
  {
    SizingStep(whole, left, cur, i, cfg, rc);
    assert s.item == cur[i];
    r := Extents.ComputeSectionExtents(s, cfg, rc);
    now := if r.Ok? then cur[i := s.item] else cur;
  }

  /** The first loop of _libelf_resync_sections. */
  method SizeSections(q: Queue<Section>, cfg: Config, rc: nat, ghost items: seq<Section>)
    returns (r: Result<nat, Error>)
    requires q.Valid() && Holds(q.nodes, items)
    modifies q.nodes`item
    ensures q.Valid()
    ensures match SizeAll(items, cfg, rc)
            case Ok((items', nrc)) => r == Ok(nrc) && Holds(q.nodes, items')
            case Err(e) => r == Err(e) && Holds(q.nodes, SizedUntil(items, cfg, rc))
  {
    r := Ok(rc);
    var s := q.first;
    ghost var i := 0;
    ghost var whole, left := SizeAll(items, cfg, rc), SizedUntil(items, cfg, rc);
    ghost var cur := items;
    assert Sizing(whole, left, cur, 0, cfg, rc) by {
      assert cur[0..] == cur && cur[..0] == [];
    }
    while s != null
      invariant q.Valid()
      invariant 0 <= i <= |q.nodes| && s == At(q.nodes, i)
      invariant r.Ok? && Holds(q.nodes, cur) && Sizing(whole, left, cur, i, cfg, r.value)
      decreases |q.nodes| - i
    {
      r, cur := SizeTurn(q, s, cfg, r.value, i, cur, whole, left);
      if r.Err? {
        return;
      }
      s := s.next;
      i := i + 1;
    }
    PendingDone(whole, cur, cfg, r.value);
  }

  /** Remove a section from the list and insert it where it belongs. */
  method MoveSection(q: Queue<Section>, s: Node<Section>, ghost k: nat, ghost items: seq<Section>)
    returns (ok: bool, ghost j: nat)
    requires q.Valid() && Holds(q.nodes, items) && k < |q.nodes| && q.nodes[k] == s
    modifies q, q.nodes`next
    ensures q.Valid()
    ensures j == ScanStop(Drop(items, k), items[k].offset)
    ensures ok == (j < |items| - 1 ==> items[k].End() < Drop(items, k)[j].offset)
    ensures ok ==> q.nodes == Insert(Drop(old(q.nodes), k), j, s) && Holds(q.nodes, Insert(Drop(items, k), j, items[k]))
    ensures !ok ==> q.nodes == Drop(old(q.nodes), k) && Holds(q.nodes, Drop(items, k))
  {
    DistinctDrop(q.nodes, k);
    q.Remove(s, k);
    ok, j := InsertSection(q, s, Drop(items, k));
  }

  lemma SameMembers<T>(a: seq<T>, b: seq<T>)
    requires multiset(a) == multiset(b)
    ensures |a| == |b| && forall x :: x in a <==> x in b
  {
    assert |multiset(a)| == |multiset(b)|;
    assert forall x :: x in a <==> x in multiset(a);
    assert forall x :: x in b <==> x in multiset(b);
  }

  lemma TakeSnoc<T>(s: seq<T>, k: nat)
    requires k < |s|
    ensures s[..k + 1] == s[..k] + [s[k]]
  {
  }

  /** The nodes after the step at position k, which moves them as it moves their sections. */
  ghost function StepNodes<T>(nodes: seq<T>, items: seq<Section>, k: nat, rc: nat): seq<T>
    requires k < |items| == |nodes|
  {
    if Moves(items, k, rc) then Insert(Drop(nodes, k), ScanStop(Drop(items, k), items[k].offset), nodes[k]) else nodes
  }

  /** The node after position k is the one the walk goes on with. */
  lemma StepNext(nodes: seq<Node<Section>>, items: seq<Section>, k: nat, rc: nat)
    requires k < |items| == |nodes|
    ensures |StepNodes(nodes, items, k, rc)| == |nodes|
    ensures multiset(StepNodes(nodes, items, k, rc)) == multiset(nodes)
    ensures At(StepNodes(nodes, items, k, rc), NextPos(items, k, rc)) == At(nodes, k + 1)
  {
    if Moves(items, k, rc) {
      MovedSame(nodes, k, ScanStop(Drop(items, k), items[k].offset));
    }
  }

  /** One turn of the second loop of _libelf_resync_sections. */
  method SortStep(q: Queue<Section>, s: Node<Section>, rc: nat, ghost k: nat, ghost items: seq<Section>)
    returns (r: Option<nat>)
    requires q.Valid() && Holds(q.nodes, items) && k < |q.nodes| && q.nodes[k] == s
    modifies q, q.nodes`next
    ensures q.Valid()
    ensures match SweepStep(items, k, rc)
            case None => r.None? && Holds(q.nodes, StepLeft(items, k, rc))
            case Some((items', rc')) =>
              r == Some(rc') && Holds(q.nodes, items') && q.nodes == StepNodes(old(q.nodes), items, k, rc)
  {
    assert s.item == items[k];
    if s.item.shType.ShtNull? || s.item.shType.ShtNoBits? {
      return Some(rc);
    }
    if s.item.offset >= rc {
      return Some(s.item.offset + s.item.size);
    }
    if s.item.offset + s.item.size >= rc {
      return None;
    }
    var moved, j := MoveSection(q, s, k, items);
    r := if moved then Some(rc) else None;
  }

  /** From position k on the nodes are still the ones the list began with, and those before were visited. */
  ghost predicate InStep<T>(nodes: seq<T>, first: seq<T>, visited: seq<T>, k: nat) {
    k <= |nodes| == |first| && nodes[k..] == first[k..] && visited == first[..k]
  }

  lemma InStepMove<T>(nodes: seq<T>, first: seq<T>, visited: seq<T>, k: nat, items: seq<Section>, rc: nat)
    requires InStep(nodes, first, visited, k) && k < |items| == |nodes| && NextPos(items, k, rc) == k + 1
    ensures InStep(StepNodes(nodes, items, k, rc), first, visited + [nodes[k]], k + 1)
  {
    assert nodes[k] == nodes[k..][0] == first[k];
    assert nodes[k + 1..] == nodes[k..][1..] == first[k + 1..];
    if Moves(items, k, rc) {
      MovedShape(nodes, k, ScanStop(Drop(items, k), items[k].offset));
    }
  }

  /** The walk over `items` has reached position k with the list now `now` and the end at cur. */
  ghost predicate Midway(items: seq<Section>, now: seq<Section>, k: nat, cur: nat, base: nat) {
    && Reached(now, k, cur, base) && multiset(now) == multiset(items)
    && Sweep(items, 0, base) == Sweep(now, k, cur) && SweepLeft(items, 0, base) == SweepLeft(now, k, cur)
  }

  lemma MidwayStep(items: seq<Section>, now: seq<Section>, k: nat, cur: nat, base: nat)
    requires Midway(items, now, k, cur, base) && k < |now|
    ensures match SweepStep(now, k, cur)
            case None => Sweep(items, 0, base).None? && SweepLeft(items, 0, base) == StepLeft(now, k, cur)
            case Some((now', cur')) => Midway(items, now', NextPos(now, k, cur), cur', base)
  {
    if SweepStep(now, k, cur).Some? {
      StepDescends(now, k, cur);
      StepPermutes(now, k, cur);
      StepReaches(now, k, cur, base);
    }
  }

  /** Behind the headers the walk stays in step with the order it began with. */
  lemma VisitsOn(items: seq<Section>, now: seq<Section>, k: nat, cur: nat, base: nat, nodes: seq<Node<Section>>,
                 nodes0: seq<Node<Section>>, visited: seq<Node<Section>>)
    requires Midway(items, now, k, cur, base) && k < |now| == |nodes| && SweepStep(now, k, cur).Some?
    requires Behind(items, base) && InStep(nodes, nodes0, visited, k)
    ensures InStep(StepNodes(nodes, now, k, cur), nodes0, visited + [nodes[k]], NextPos(now, k, cur))
  {
    BehindPerm(items, now, base);
    StepOn(now, k, cur, base);
    InStepMove(nodes, nodes0, visited, k, now, cur);
  }

  /** One turn, with what the loop keeps: the list, its nodes and, behind the headers, the order of the visits. */
  method SortTurn(q: Queue<Section>, s: Node<Section>, cur: nat, ghost k: nat, ghost now: seq<Section>,
                  ghost items: seq<Section>, ghost base: nat, ghost nodes0: seq<Node<Section>>,
                  ghost visited: seq<Node<Section>>)
    returns (r: Option<(nat, Node?<Section>)>)
    requires q.Valid() && Holds(q.nodes, now) && k < |q.nodes| && q.nodes[k] == s
    requires Midway(items, now, k, cur, base) && multiset(q.nodes) == multiset(nodes0)
    requires Behind(items, base) ==> InStep(q.nodes, nodes0, visited, k)
    modifies q, q.nodes`next
    ensures q.Valid()
    ensures match SweepStep(now, k, cur)
            case None => r.None? && Holds(q.nodes, StepLeft(now, k, cur))
            case Some((now', cur')) =>
              && r == Some((cur', At(q.nodes, NextPos(now, k, cur)))) && Holds(q.nodes, now')
              && multiset(q.nodes) == multiset(nodes0)
              && (Behind(items, base) ==> InStep(q.nodes, nodes0, visited + [s], NextPos(now, k, cur)))
  {
    var ts := s.next;
    StepNext(q.nodes, now, k, cur);
    if Behind(items, base) && SweepStep(now, k, cur).Some? {
      VisitsOn(items, now, k, cur, base, q.nodes, nodes0, visited);
    }
    var step := SortStep(q, s, cur, k, now);
    r := if step.None? then None else Some((step.value, ts));
  }

  /** The second loop of _libelf_resync_sections.  The walk follows the saved next pointer; when all
      sections lie behind the headers it meets each exactly once, in the original order, although
      sections are taken out and put back behind it. */
  method SortSections(q: Queue<Section>, rc: nat, ghost items: seq<Section>)
    returns (r: Option<nat>, ghost visited: seq<Node<Section>>)
    requires q.Valid() && Holds(q.nodes, items)
    modifies q, q.nodes`next
    ensures q.Valid()
    ensures match Sweep(items, 0, rc)
            case None => r.None? && Holds(q.nodes, SweepLeft(items, 0, rc))
            case Some((items', rc')) =>
              r == Some(rc') && Holds(q.nodes, items') && multiset(q.nodes) == multiset(old(q.nodes))
    ensures Behind(items, rc) ==> if r.Some? then visited == old(q.nodes) else visited < old(q.nodes)
  {
    var cur := rc;
    var s := q.first;
    visited := [];
    ghost var k := 0;
    ghost var now := items;
    ghost var nodes0 := q.nodes;
    while s != null
      invariant q.Valid() && Holds(q.nodes, now) && 0 <= k <= |q.nodes| && s == At(q.nodes, k)
      invariant multiset(q.nodes) == multiset(nodes0)
      invariant Midway(items, now, k, cur, rc)
      invariant Behind(items, rc) ==> InStep(q.nodes, nodes0, visited, k)
      decreases |now| - k, OffsetAt(now, k)
    {
      SameMembers(q.nodes, nodes0);
      assert forall i :: 0 <= i < |q.nodes| ==> q.nodes[i] in nodes0;
      MidwayStep(items, now, k, cur, rc);
      ghost var expected, at := SweepStep(now, k, cur), NextPos(now, k, cur);
      var turn := SortTurn(q, s, cur, k, now, items, rc, nodes0, visited);
      if turn.None? {
        return None, visited;
      }
      StepDescends(now, k, cur);
      visited := visited + [s];
      cur, s := turn.value.0, turn.value.1;
      now, k := expected.value.0, at;
    }
    r := Some(cur);
  }

  // ---- the whole of _libelf_resync_sections ----

  /** Sizing then sorting; at the end the two passes must have come to the same end of file. */
  function ResyncSpec(items: seq<Section>, cfg: Config, base: nat): Result<(seq<Section>, nat), Error> {
    match SizeAll(items, cfg, base)
    case Err(e) => Err(e)
    case Ok((sized, nrc)) =>
      match Sweep(sized, 0, base)
      case None => Err(LayoutError)
      case Some((out, rc)) => if nrc == rc then Ok((out, rc)) else Err(AssertionFailed)
  }

  /** The list a failed resync leaves behind. */
  function ResyncLeft(items: seq<Section>, cfg: Config, base: nat): seq<Section> {
    match SizeAll(items, cfg, base)
    case Err(_) => SizedUntil(items, cfg, base)
    case Ok((sized, _)) =>
      match Sweep(sized, 0, base)
      case None => SweepLeft(sized, 0, base)
      case Some((out, _)) => out
  }

  /** Such a loss: [100, 110) and [150, 160) are in place, [105, 108) is taken out and cannot go back. */
  lemma SectionLost(s: Section)
    requires s.shType == ShtProgBits
    ensures var a, b, c := s.(offset := 100, size := 10), s.(offset := 150, size := 10), s.(offset := 105, size := 3);
            var items := [a, b, c];
            && SweepStep(items, 0, 64) == Some((items, 110)) && SweepStep(items, 1, 110) == Some((items, 160))
            && SweepStep(items, 2, 160) == None && StepLeft(items, 2, 160) == [a, b]
  {
    var a, b, c := s.(offset := 100, size := 10), s.(offset := 150, size := 10), s.(offset := 105, size := 3);
    assert Drop([a, b, c], 2) == [a, b];
    assert ScanStop([a, b], 105) == 0;
  }

  /** An accepted list that is reordered: [200, 210) then [100, 110) behind the null section. */
  lemma AcceptedReordered(z: Section, s: Section)
    requires z.shType == ShtNull && z.offset == 0 && z.size == 0 && s.shType == ShtProgBits
    ensures var a, b := s.(offset := 200, size := 10), s.(offset := 100, size := 10);
            && SweepStep([z, a, b], 0, 64) == Some(([z, a, b], 64))
            && SweepStep([z, a, b], 1, 64) == Some(([z, a, b], 210))
            && SweepStep([z, a, b], 2, 210) == Some(([z, b, a], 210))
  {
    var a, b := s.(offset := 200, size := 10), s.(offset := 100, size := 10);
    assert Drop([z, a, b], 2) == [z, a];
    assert [z, a][1..] == [a];
    assert ScanStop([z, a], 100) == 1;
    assert Insert([z, a], 1, b) == [z, b, a];
  }

  /** No section claims more than some section reaches, and none reaches further than some section claims. */
  ghost predicate ClaimsMet(items: seq<Section>, base: nat) {
    && (forall s :: s in items && s.Occupies() ==>
          HeaderEnd(s) <= base || exists t :: t in items && t.Occupies() && HeaderEnd(s) <= t.End())
    && (forall s :: s in items && s.Occupies() ==>
          s.End() <= base || exists t :: t in items && t.Occupies() && s.End() <= HeaderEnd(t))
  }

  lemma ClaimsMetExactly(items: seq<Section>, base: nat, nrc: nat, rc: nat)
    requires Claimed(nrc, base, items) && Furthest(rc, base, items)
    ensures nrc == rc <==> ClaimsMet(items, base)
  {
    if nrc == rc {
      if nrc != base {
        var t :| t in items && t.Occupies() && t.End() == rc;
        var u :| u in items && u.Occupies() && HeaderEnd(u) == nrc;
      }
    }
  }

  /** The assertion that compares the ends of the two passes holds exactly when the headers of the
      sections that are not dirty neither claim more than is there nor fall short of it. */
  lemma EndsAgreeExactly(items: seq<Section>, cfg: Config, base: nat)
    requires SizeAll(items, cfg, base).Ok? && Sweep(SizeAll(items, cfg, base).value.0, 0, base).Some?
    ensures ResyncSpec(items, cfg, base).Ok? <==> ClaimsMet(SizeAll(items, cfg, base).value.0, base)
  {
    var (sized, nrc) := SizeAll(items, cfg, base).value;
    var (out, rc) := Sweep(sized, 0, base).value;
    SizeAllClaims(items, cfg, base);
    SweepEnds(sized, 0, base, base);
    FurthestPerm(rc, out, sized, base);
    ClaimsMetExactly(sized, base, nrc, rc);
  }

  /** In particular it cannot fail when every header is current. */
  lemma EndsAgree(items: seq<Section>, cfg: Config, base: nat)
    requires SizeAll(items, cfg, base).Ok? && Sweep(SizeAll(items, cfg, base).value.0, 0, base).Some?
    requires forall s :: s in items ==> Current(s)
    ensures ResyncSpec(items, cfg, base).Ok?
  {
    SizeAllKeeps(items, cfg, base, base);
    EndsAgreeExactly(items, cfg, base);
  }

  /** And it does fail when gelf_update_shdr has stored a larger size in the header of a section of a
      64-bit object, which does not mark the section dirty. */
  lemma StaleHeaderFails(s: Section, cfg: Config)
    requires s.shType == ShtProgBits && !s.dirty && s.offset == s.shOffset == 64 && s.size == 16 && s.shSize == 32
    ensures ResyncSpec([s], cfg, 64) == Err(AssertionFailed)
  {
    assert [s][1..] == [];
    assert Extents.Extent(s, cfg, 64) == Ok((s, 96));
    assert SizeAll([], cfg, 96) == Ok(([], 96));
    assert SizeAll([s], cfg, 64) == Ok(([s] + [], 96));
    assert [s] + [] == [s];
    assert SweepStep([s], 0, 64) == Some(([s], 80));
    assert Sweep([s], 1, 80) == Some(([s], 80)) && Sweep([s], 0, 64) == Some(([s], 80));
  }

  method ResyncSections(q: Queue<Section>, cfg: Config, rc: nat, ghost items: seq<Section>)
    returns (r: Result<nat, Error>, ghost visited: seq<Node<Section>>)
    requires q.Valid() && Holds(q.nodes, items)
    modifies q, q.nodes
    ensures q.Valid()
    ensures match ResyncSpec(items, cfg, rc)
            case Err(e) => r == Err(e) && Holds(q.nodes, ResyncLeft(items, cfg, rc))
            case Ok((out, rc')) =>
              r == Ok(rc') && Holds(q.nodes, out) && multiset(q.nodes) == multiset(old(q.nodes))
    ensures r.Ok? && Behind(SizeAll(items, cfg, rc).value.0, rc) ==> visited == old(q.nodes)
  {
    visited := [];
    var sized := SizeSections(q, cfg, rc, items);
    if sized.Err? {
      return Err(sized.error), visited;
    }
    var nrc := sized.value;
    ghost var mid := SizeAll(items, cfg, rc).value.0;
    var sorted: Option<nat>;
    sorted, visited := SortSections(q, rc, mid);
    if sorted.None? {
      return Err(LayoutError), visited;
    }
    r := if nrc == sorted.value then Ok(sorted.value) else Err(AssertionFailed);
  }

  /** A successful resync returns the end of the furthest section and keeps the sized sections; those
      that lay behind the headers still do.  The list is ascending and pairwise disjoint if no section
      without file space carries a placement, or if it was so before. */
  lemma ResyncSorted(items: seq<Section>, cfg: Config, base: nat)
    requires ResyncSpec(items, cfg, base).Ok?
    ensures var sized := SizeAll(items, cfg, base).value.0;
            var (out, rc) := ResyncSpec(items, cfg, base).value;
            && multiset(out) == multiset(sized) && Furthest(rc, base, out)
            && (Behind(out, base) <==> Behind(sized, base))
            && (Bare(sized) ==> Ascending(out))
            && (Ascending(sized) && Behind(sized, base) ==> out == sized)
  {
    var sized := SizeAll(items, cfg, base).value.0;
    var (out, rc) := ResyncSpec(items, cfg, base).value;
    SweepEnds(sized, 0, base, base);
    SameMembers(out, sized);
    if Bare(sized) {
      SweepSorts(sized, 0, base, base);
    }
    if Ascending(sized) && Behind(sized, base) {
      AscendingStays(sized, 0, base, base);
    }
  }

  /** Resync of sections with current headers, behind the headers of the file, succeeds exactly when
      sizing does and every section, as sized, starts no earlier than all sections listed before it
      end, or is strictly clear of each of them. */
  lemma ResyncExact(items: seq<Section>, cfg: Config, base: nat)
    requires base > 0 && Bare(items) && forall s :: s in items ==> Current(s) && Placeable(s, cfg, base)
    ensures ResyncSpec(items, cfg, base).Ok? <==>
            SizeAll(items, cfg, base).Ok? && AllFit(SizeAll(items, cfg, base).value.0, 0)
    ensures match SizeAll(items, cfg, base)
            case Err(e) => ResyncSpec(items, cfg, base) == Err(e)
            case Ok((sized, _)) => !AllFit(sized, 0) ==> ResyncSpec(items, cfg, base) == Err(LayoutError)
  {
    if SizeAll(items, cfg, base).Ok? {
      SizeAllKeeps(items, cfg, base, base);
      SweepExact(SizeAll(items, cfg, base).value.0, 0, base, base);
      if Sweep(SizeAll(items, cfg, base).value.0, 0, base).Some? {
        EndsAgree(items, cfg, base);
      }
    }
  }

  /** A section that begins where the ones before it have ended is not moved. */
  lemma AscendingStep(items: seq<Section>, k: nat, rc: nat, base: nat)
    requires Reached(items, k, rc, base) && k < |items| && Behind(items, base) && Ascending(items)
    ensures items[k].Occupies() ==> items[k].offset >= rc
  {
    var s := items[k];
    assert s in items;
    if s.Occupies() && rc != base {
      var t :| t in items[..k] && t.Occupies() && t.End() == rc;
      var i :| 0 <= i < k && items[i] == t;
    }
  }

  /** An ascending list behind the headers is left as it is. */
  lemma {:induction false} AscendingStays(items: seq<Section>, k: nat, rc: nat, base: nat)
    requires Reached(items, k, rc, base) && Behind(items, base) && Ascending(items)
    ensures Sweep(items, k, rc).Some? && Sweep(items, k, rc).value.0 == items
    decreases |items| - k
  {
    if k < |items| {
      AscendingStep(items, k, rc, base);
      var rc' := if items[k].Occupies() then items[k].End() else rc;
      assert SweepStep(items, k, rc) == Some((items, rc')) && NextPos(items, k, rc) == k + 1;
      StepReaches(items, k, rc, base);
      AscendingStays(items, k + 1, rc', base);
    }
  }

  /** The section header table is written in list order, so section i stays entry i of the table
      exactly when the sized list was ascending to begin with. */
  lemma OrderKeptExactly(items: seq<Section>, base: nat)
    requires Behind(items, base) && Bare(items) && Sweep(items, 0, base).Some?
    ensures Sweep(items, 0, base).value.0 == items <==> Ascending(items)
  {
    SweepSorts(items, 0, base, base);
    if Ascending(items) {
      AscendingStays(items, 0, base, base);
    }
  }

  /** Why sections without file space must carry no placement: with one placed at 200 the scan
      stops there, and a section at [130, 140) is put in although [120, 300) overlaps it. */
  lemma PlacedNoBitsHidesOverlap(s: Section)
    requires s.shType == ShtProgBits
    ensures var a, b := s.(offset := 100, size := 10), s.(offset := 120, size := 180);
            var gap := s.(shType := ShtNoBits, offset := 200, size := 0);
            var c := s.(offset := 130, size := 10);
            var items := [a, gap, b, c];
            && SweepStep(items, 0, 64) == Some((items, 110))
            && SweepStep(items, 1, 110) == Some((items, 110))
            && SweepStep(items, 2, 110) == Some((items, 300))
            && SweepStep(items, 3, 300) == Some(([a, c, gap, b], 300))
            && !Ascending([a, c, gap, b])
  {
    var a, b := s.(offset := 100, size := 10), s.(offset := 120, size := 180);
    var gap := s.(shType := ShtNoBits, offset := 200, size := 0);
    var c := s.(offset := 130, size := 10);
    var items := [a, gap, b, c];
    var rest := [a, gap, b];
    assert Drop(items, 3) == rest;
    assert ScanStop(rest, 130) == 1;
    assert Insert(rest, 1, c) == [a, c, gap, b];
    var out := [a, c, gap, b];
    assert out[1].End() > out[3].offset;
  }

  /** Why sections must lie behind the headers: with program headers up to 120, a section at [64, 74) is
      accepted where it is. */
  lemma HeaderOverlapMissed(z: Section, s: Section)
    requires z.shType == ShtNull && z.offset == 0 && z.size == 0
    requires s.shType == ShtProgBits && s.offset == 64 && s.size == 10
    ensures Sweep([z, s], 0, 120) == Some(([z, s], 120))
    ensures !Behind([z, s], 120)
  {
    var items := [z, s];
    assert SweepStep(items, 0, 120) == Some((items, 120)) && NextPos(items, 0, 120) == 1;
    assert Drop(items, 1) == [z];
    assert [z][1..] == [];
    assert ScanStop([z], 64) == 1;
    assert Insert([z], 1, s) == items;
    assert SweepStep(items, 1, 120) == Some((items, 120));
    assert NextPos(items, 1, 120) == 2;
    assert Sweep(items, 2, 120) == Some((items, 120)) && Sweep(items, 1, 120) == Some((items, 120));
    assert s in items;
  }

  /** Section zero keeps its place at the head of the list. */
  lemma FirstStep(items: seq<Section>, k: nat, rc: nat)
    requires k < |items| && !items[0].Occupies() && items[0].offset == 0 && SweepStep(items, k, rc).Some?
    ensures var items' := SweepStep(items, k, rc).value.0; |items'| == |items| && items'[0] == items[0]
  {
    if Moves(items, k, rc) {
      assert Drop(items, k)[0] == items[0];
      assert ScanStop(Drop(items, k), items[k].offset) > 0;
    }
  }

  lemma {:induction false} FirstStays(items: seq<Section>, k: nat, rc: nat)
    requires k <= |items| && items != [] && !items[0].Occupies() && items[0].offset == 0
    requires Sweep(items, k, rc).Some?
    ensures |Sweep(items, k, rc).value.0| == |items| && Sweep(items, k, rc).value.0[0] == items[0]
    decreases |items| - k, OffsetAt(items, k)
  {
    if k < |items| {
      FirstStep(items, k, rc);
      StepDescends(items, k, rc);
      var (items', rc') := SweepStep(items, k, rc).value;
      FirstStays(items', NextPos(items, k, rc), rc');
    }
  }

  // ---- an object built from scratch ----

  /** When the library places every section, the sized list is ascending, so the sorting pass moves
      nothing and cannot fail. */
  lemma {:induction false} FreshAscending(items: seq<Section>, cfg: Config, rc: nat)
    requires !cfg.layout && forall s :: s in items && s.Occupies() ==> s.dirty
    requires SizeAll(items, cfg, rc).Ok?
    ensures var (out, nrc) := SizeAll(items, cfg, rc).value;
            && Ascending(out) && rc <= nrc
            && forall s :: s in out && s.Occupies() ==> rc <= s.offset && s.End() <= nrc
  {
    if items != [] {
      var s := items[0];
      assert s in items;
      Extents.ExtentFrame(s, cfg, rc);
      if s.Occupies() {
        Extents.LibraryPlacement(s, cfg, rc);
      }
      var (s', rc') := Extents.Extent(s, cfg, rc).value;
      FreshAscending(items[1..], cfg, rc');
      var (rest, nrc) := SizeAll(items[1..], cfg, rc').value;
      AscendingCons(s', rest, rc, rc', nrc);
    }
  }

  lemma AscendingCons(s: Section, rest: seq<Section>, rc: nat, rc': nat, nrc: nat)
    requires Ascending(rest) && rc <= rc' <= nrc && (s.Occupies() ==> rc <= s.offset && s.End() <= rc')
    requires forall t :: t in rest && t.Occupies() ==> rc' <= t.offset && t.End() <= nrc
    ensures Ascending([s] + rest)
    ensures forall t :: t in [s] + rest && t.Occupies() ==> rc <= t.offset && t.End() <= nrc
  {
    var out := [s] + rest;
    forall i, j | 0 <= i < j < |out| && out[i].Occupies() && out[j].Occupies() ensures out[i].End() <= out[j].offset {
      assert out[j] == rest[j - 1] && rest[j - 1] in rest;
      if i > 0 {
        assert out[i] == rest[i - 1];
      }
    }
  }

  /** An object whose sections are all placed by the library: resync is the sizing pass. */
  lemma FreshResync(items: seq<Section>, cfg: Config, base: nat)
    requires !cfg.layout && forall s :: s in items && s.Occupies() ==> s.dirty
    ensures ResyncSpec(items, cfg, base) == SizeAll(items, cfg, base)
  {
    if SizeAll(items, cfg, base).Ok? {
      FreshAscending(items, cfg, base);
      AscendingStays(SizeAll(items, cfg, base).value.0, 0, base, base);
      EndsAgree(items, cfg, base);
    }
  }
}
