/** Exactly when the list that _libelf_resync_sections accepts is free of overlaps.  The insertion scan looks
    at all sections, also at those that take no file space, and can stop at one of them too early. */
module Overlaps {
  import opened Common
  import opened ElfTypes
  import opened Resync

  /** The section at position j starts where all those listed before it have ended: it is not moved. */
  ghost predicate InPlace(items: seq<Section>, j: nat) {
    && j < |items| && items[j].Occupies()
    && forall i :: 0 <= i < j && items[i].Occupies() ==> items[i].End() <= items[j].offset
  }

  /** Section i takes no space and is listed before section j, which is not moved; the scan for a place for
      section m, which is, stops at i and so does not see that m belongs behind j, or overlaps it. */
  ghost predicate Hides(items: seq<Section>, i: nat, j: nat, m: nat) {
    && i < j < m < |items| && !items[i].Occupies() && InPlace(items, j)
    && items[m].Occupies() && !InPlace(items, m)
    && items[j].offset < items[m].End() < items[i].offset
  }

  ghost predicate HidesSome(items: seq<Section>, m: nat) {
    exists i: nat, j: nat :: Hides(items, i, j, m)
  }

  /** x stands before y. */
  ghost predicate Precedes(p: seq<Section>, x: Section, y: Section) {
    exists a, b :: 0 <= a < b < |p| && p[a] == x && p[b] == y
  }

  /** So they do in the first k sections of the list as it began, and y is not moved. */
  ghost predicate Listed(items: seq<Section>, k: nat, x: Section, y: Section) {
    exists i, j :: 0 <= i < j < k <= |items| && items[i] == x && items[j] == y && InPlace(items, j)
  }

  /** The part already walked, p, keeps the order of sections without space before sections not moved, and
      such a section precedes another only if it ends before it. */
  ghost predicate Order(items: seq<Section>, k: nat, p: seq<Section>) {
    && k <= |items| && multiset(p) == multiset(items[..k])
    && (forall x, y :: Listed(items, k, x, y) ==> Precedes(p, x, y))
    && forall x, y :: Precedes(p, x, y) && !x.Occupies() && y.Occupies() ==>
                        x.End() < y.offset || Listed(items, k, x, y)
  }

  lemma PrecedesLater(p: seq<Section>, s: Section, x: Section, y: Section)
    ensures Precedes(p + [s], x, y) <==> Precedes(p, x, y) || (x in p && y == s)
  {
    var q := p + [s];
    if Precedes(p, x, y) {
      var a, b :| 0 <= a < b < |p| && p[a] == x && p[b] == y;
      assert q[a] == x && q[b] == y;
    }
    if x in p && y == s {
      var a :| 0 <= a < |p| && p[a] == x;
      assert q[a] == x && q[|p|] == y;
    }
  }

  lemma InsertedAt<T>(p: seq<T>, j: nat, s: T)
    requires j <= |p|
    ensures var q := p[..j] + [s] + p[j..];
            && |q| == |p| + 1 && q[j] == s
            && (forall i :: 0 <= i < j ==> q[i] == p[i])
            && forall i :: j < i < |q| ==> q[i] == p[i - 1]
  {
  }

  lemma PrecedesStill(p: seq<Section>, j: nat, s: Section, x: Section, y: Section)
    requires j <= |p| && Precedes(p, x, y)
    ensures Precedes(p[..j] + [s] + p[j..], x, y)
  {
    var q := p[..j] + [s] + p[j..];
    InsertedAt(p, j, s);
    var a, b :| 0 <= a < b < |p| && p[a] == x && p[b] == y;
    var a', b' := if a < j then a else a + 1, if b < j then b else b + 1;
    assert q[a'] == x && q[b'] == y;
  }

  lemma PrecedesFrom(p: seq<Section>, j: nat, s: Section, x: Section, y: Section)
    requires j <= |p| && Precedes(p[..j] + [s] + p[j..], x, y)
    ensures Precedes(p, x, y) || x == s || (x in p[..j] && y == s)
  {
    var q := p[..j] + [s] + p[j..];
    InsertedAt(p, j, s);
    var a, b :| 0 <= a < b < |q| && q[a] == x && q[b] == y;
    if b == j {
      assert p[..j][a] == x;
    } else if a != j {
      var a', b' := if a < j then a else a - 1, if b < j then b else b - 1;
      assert p[a'] == x && p[b'] == y;
    }
  }

  lemma ListedLater(items: seq<Section>, k: nat, x: Section, y: Section)
    requires k < |items|
    ensures Listed(items, k + 1, x, y) <==>
            Listed(items, k, x, y) || (x in items[..k] && y == items[k] && InPlace(items, k))
  {
    if x in items[..k] && y == items[k] && InPlace(items, k) {
      var i :| 0 <= i < k && items[i] == x;
      assert items[i] == x && items[k] == y;
    }
    if Listed(items, k + 1, x, y) && !Listed(items, k, x, y) {
      var i, j :| 0 <= i < j < k + 1 && items[i] == x && items[j] == y && InPlace(items, j);
      assert j == k;
    }
  }

  /** A section without space, or one that is not moved, comes last. */
  lemma OrderAppend(items: seq<Section>, k: nat, p: seq<Section>)
    requires Order(items, k, p) && k < |items| && (items[k].Occupies() ==> InPlace(items, k))
    ensures Order(items, k + 1, p + [items[k]])
  {
    TakeSnoc(items, k);
    SameMembers(p, items[..k]);
    forall x, y
      ensures Listed(items, k + 1, x, y) ==> Precedes(p + [items[k]], x, y)
      ensures Precedes(p + [items[k]], x, y) && !x.Occupies() && y.Occupies() ==>
                x.End() < y.offset || Listed(items, k + 1, x, y)
    {
      PrecedesLater(p, items[k], x, y);
      ListedLater(items, k, x, y);
    }
  }

  /** A section that is moved comes behind sections that end before it. */
  lemma OrderInsert(items: seq<Section>, k: nat, p: seq<Section>, j: nat)
    requires Order(items, k, p) && k < |items| && items[k].Occupies() && !InPlace(items, k) && j <= |p|
    requires forall i :: 0 <= i < j ==> p[i].End() < items[k].offset
    ensures Order(items, k + 1, p[..j] + [items[k]] + p[j..])
  {
    var s := items[k];
    TakeSnoc(items, k);
    assert p == p[..j] + p[j..];
    forall x, y
      ensures Listed(items, k + 1, x, y) ==> Precedes(p[..j] + [s] + p[j..], x, y)
      ensures Precedes(p[..j] + [s] + p[j..], x, y) && !x.Occupies() && y.Occupies() ==>
                x.End() < y.offset || Listed(items, k + 1, x, y)
    {
      if Precedes(p, x, y) {
        PrecedesStill(p, j, s, x, y);
      }
      if Precedes(p[..j] + [s] + p[j..], x, y) {
        PrecedesFrom(p, j, s, x, y);
      }
      ListedLater(items, k, x, y);
    }
  }

  /** Moving section k to position j of the part walked. */
  ghost predicate MovesTo(items: seq<Section>, k: nat, p: seq<Section>, j: nat) {
    && k < |items| && items[k].Occupies() && !InPlace(items, k) && j < |p|
    && (forall i :: 0 <= i < j ==> p[i].End() < items[k].offset)
    && items[k].offset <= p[j].End() && items[k].End() < p[j].offset
  }

  /** A hidden section is found behind the place of insertion. */
  lemma HiddenBehind(items: seq<Section>, k: nat, p: seq<Section>, j: nat)
    requires Order(items, k, p) && MovesTo(items, k, p, j) && HidesSome(items, k)
    ensures exists b :: j < b < |p| && p[b].Occupies() && p[b].offset < items[k].End()
  {
    var i: nat, m: nat :| Hides(items, i, m, k);
    var x, y := items[i], items[m];
    assert Listed(items, k, x, y);
    var a, b :| 0 <= a < b < |p| && p[a] == x && p[b] == y;
    assert j <= a;
  }

  /** And one found there was hidden. */
  lemma BehindHidden(items: seq<Section>, k: nat, p: seq<Section>, j: nat, b: nat)
    requires Order(items, k, p) && Ascending(p) && MovesTo(items, k, p, j)
    requires j < b < |p| && p[b].Occupies() && p[b].offset < items[k].End()
    ensures HidesSome(items, k)
  {
    var x, y := p[j], p[b];
    assert !x.Occupies();
    assert Precedes(p, x, y);
    assert Listed(items, k, x, y);
    var i, m :| 0 <= i < m < k && items[i] == x && items[m] == y && InPlace(items, m);
    assert Hides(items, i, m, k);
  }

  lemma HiddenDisorders(items: seq<Section>, k: nat, p: seq<Section>, j: nat)
    requires Order(items, k, p) && MovesTo(items, k, p, j) && HidesSome(items, k)
    ensures !Ascending(p[..j] + [items[k]] + p[j..])
  {
    HiddenBehind(items, k, p, j);
    var b :| j < b < |p| && p[b].Occupies() && p[b].offset < items[k].End();
    InsertedAt(p, j, items[k]);
    var q := p[..j] + [items[k]] + p[j..];
    assert q[j] == items[k] && q[b + 1] == p[b];
  }

  lemma UnhiddenAscends(items: seq<Section>, k: nat, p: seq<Section>, j: nat)
    requires Order(items, k, p) && Ascending(p) && MovesTo(items, k, p, j) && !HidesSome(items, k)
    ensures Ascending(p[..j] + [items[k]] + p[j..])
  {
    forall b | j <= b < |p| && p[b].Occupies() ensures items[k].End() <= p[b].offset {
      if j < b && p[b].offset < items[k].End() {
        BehindHidden(items, k, p, j, b);
      }
    }
    InsertAscends(p, j, items[k]);
  }

  /** The move keeps the part walked ascending exactly when nothing is hidden from it. */
  lemma MoveAscendsExactly(items: seq<Section>, k: nat, p: seq<Section>, j: nat)
    requires Order(items, k, p) && Ascending(p) && MovesTo(items, k, p, j)
    ensures Ascending(p[..j] + [items[k]] + p[j..]) <==> !HidesSome(items, k)
  {
    if HidesSome(items, k) {
      HiddenDisorders(items, k, p, j);
    } else {
      UnhiddenAscends(items, k, p, j);
    }
  }

  lemma InsertAscends(p: seq<Section>, j: nat, s: Section)
    requires Ascending(p) && j <= |p|
    requires forall i :: 0 <= i < j ==> p[i].End() < s.offset
    requires forall b :: j <= b < |p| && p[b].Occupies() ==> s.End() <= p[b].offset
    ensures Ascending(p[..j] + [s] + p[j..])
  {
    var q := p[..j] + [s] + p[j..];
    forall a, b | 0 <= a < b < |q| && q[a].Occupies() && q[b].Occupies() ensures q[a].End() <= q[b].offset {
      if a > j {
        assert q[a] == p[a - 1] && q[b] == p[b - 1];
      } else if b > j {
        assert q[b] == p[b - 1];
      }
    }
  }

  /** Sections once out of order stay so. */
  lemma StaysUnordered(p: seq<Section>, j: nat, s: Section)
    requires !Ascending(p) && j <= |p|
    ensures !Ascending(p[..j] + [s] + p[j..])
  {
    var q := p[..j] + [s] + p[j..];
    var a, b :| 0 <= a < b < |p| && p[a].Occupies() && p[b].Occupies() && p[a].End() > p[b].offset;
    assert q[if a < j then a else a + 1] == p[a] && q[if b < j then b else b + 1] == p[b];
  }

  // ---- along the walk ----

  /** Whether a section is moved shows in the list as it began. */
  lemma MovedExactly(items: seq<Section>, now: seq<Section>, k: nat, rc: nat, base: nat)
    requires Reached(now, k, rc, base) && k < |items| == |now| && multiset(now[..k]) == multiset(items[..k])
    requires Behind(items, base) && now[k] == items[k] && items[k].Occupies()
    ensures InPlace(items, k) <==> items[k].offset >= rc
  {
    SameMembers(now[..k], items[..k]);
    assert items[k] in items;
    assert forall i :: 0 <= i < k ==> items[i] in items[..k];
    if InPlace(items, k) && rc != base {
      var t :| t in now[..k] && t.Occupies() && t.End() == rc;
      var i :| 0 <= i < k && items[i] == t;
    }
  }

  /** The part walked after a step. */
  lemma StepShape(now: seq<Section>, k: nat, rc: nat, base: nat)
    requires Reached(now, k, rc, base) && Behind(now, base) && k < |now| && SweepStep(now, k, rc).Some?
    ensures var p, j := now[..k], ScanStop(Drop(now, k), now[k].offset);
            var p' := SweepStep(now, k, rc).value.0[..k + 1];
            if Moves(now, k, rc) then
              && j < k && p' == p[..j] + [now[k]] + p[j..]
              && (forall i :: 0 <= i < j ==> p[i].End() < now[k].offset)
              && now[k].offset <= p[j].End() && now[k].End() < p[j].offset
            else p' == p + [now[k]]
  {
    if Moves(now, k, rc) {
      ScanStopsEarly(now, k, rc, base);
      MovedShape(now, k, ScanStop(Drop(now, k), now[k].offset));
      BeforeDropped(now, k);
    } else {
      TakeSnoc(now, k);
    }
  }

  lemma AcceptAscends(now: seq<Section>, k: nat, rc: nat, base: nat)
    requires Reached(now, k, rc, base) && k < |now| && (now[k].Occupies() ==> now[k].offset >= rc)
    ensures Ascending(now[..k]) ==> Ascending(now[..k] + [now[k]])
  {
    assert forall i :: 0 <= i < k ==> now[..k][i] in now[..k];
  }


  lemma UnorderedStep(now: seq<Section>, k: nat, rc: nat, base: nat)
    requires Reached(now, k, rc, base) && Behind(now, base)
    requires k < |now| && SweepStep(now, k, rc).Some? && !Ascending(now[..k])
    ensures !Ascending(SweepStep(now, k, rc).value.0[..k + 1])
  {
    StepShape(now, k, rc, base);
    var p := now[..k];
    if Moves(now, k, rc) {
      StaysUnordered(p, ScanStop(Drop(now, k), now[k].offset), now[k]);
    } else {
      StaysUnordered(p, k, now[k]);
      assert p[..k] + [now[k]] + p[k..] == p + [now[k]];
    }
  }


  /** The list and the running end as the walk over items comes to position k. */
  datatype Stage = Stage(now: seq<Section>, rc: nat)

  ghost function StageAt(items: seq<Section>, base: nat, k: nat): Stage {
    if k == 0 then Stage(items, base)
    else
      var st := StageAt(items, base, k - 1);
      if k <= |st.now| && SweepStep(st.now, k - 1, st.rc).Some? then
        var (now, rc) := SweepStep(st.now, k - 1, st.rc).value;
        Stage(now, rc)
      else st
  }

  /** What the step from this stage is about: the section at position k, with those before it walked. */
  ghost predicate Stands(items: seq<Section>, st: Stage, base: nat, k: nat) {
    && k <= |items| == |st.now| && Reached(st.now, k, st.rc, base) && Behind(items, base) && Behind(st.now, base)
    && st.now[k..] == items[k..] && multiset(st.now[..k]) == multiset(items[..k])
  }

  lemma StandsNext(items: seq<Section>, st: Stage, base: nat, k: nat)
    requires Stands(items, st, base, k) && k < |items| && Sweep(st.now, k, st.rc).Some?
    ensures SweepStep(st.now, k, st.rc).Some?
    ensures var (now, rc) := SweepStep(st.now, k, st.rc).value;
            Stands(items, Stage(now, rc), base, k + 1) && Sweep(now, k + 1, rc) == Sweep(st.now, k, st.rc)
  {
    var now := SweepStep(st.now, k, st.rc).value.0;
    StepReaches(st.now, k, st.rc, base);
    StepPermutes(st.now, k, st.rc);
    StepOn(st.now, k, st.rc, base);
    BehindPerm(st.now, now, base);
    StandsRest(items, st.now, now, k);
  }

  lemma StandsRest(items: seq<Section>, was: seq<Section>, now: seq<Section>, k: nat)
    requires k < |items| == |was| == |now| && was[k..] == items[k..] && multiset(was[..k]) == multiset(items[..k])
    requires now[k + 1..] == was[k + 1..] && multiset(now[..k + 1]) == multiset(was[..k + 1])
    ensures now[k + 1..] == items[k + 1..] && multiset(now[..k + 1]) == multiset(items[..k + 1])
  {
    assert was[k + 1..] == was[k..][1..] && items[k + 1..] == items[k..][1..];
    assert was[k] == was[k..][0] && items[k] == items[k..][0];
    TakeSnoc(was, k);
    TakeSnoc(items, k);
  }

  /** The stage at position k is one of the walk over items. */
  ghost predicate StandsAt(items: seq<Section>, base: nat, k: nat) {
    && Stands(items, StageAt(items, base, k), base, k)
    && Sweep(StageAt(items, base, k).now, k, StageAt(items, base, k).rc) == Sweep(items, 0, base)
  }

  lemma StageNext(items: seq<Section>, base: nat, k: nat)
    requires k < |items| && StandsAt(items, base, k) && Sweep(items, 0, base).Some?
    ensures StandsAt(items, base, k + 1)
  {
    StandsNext(items, StageAt(items, base, k), base, k);
  }

  lemma StageFirst(items: seq<Section>, base: nat)
    requires Behind(items, base)
    ensures StandsAt(items, base, 0)
  {
    assert items[..0] == [] && items[0..] == items;
  }

  /** What holds at first and is kept by every step holds throughout. */
  lemma {:induction false} KeptThroughout(good: nat -> bool, n: nat)
    requires good(0) && forall k: nat :: k < n && good(k) ==> good(k + 1)
    ensures good(n)
  {
    if n > 0 {
      KeptThroughout(good, n - 1);
      assert good(n - 1 + 1);
    }
  }

  lemma StageStands(items: seq<Section>, base: nat, k: nat)
    requires Behind(items, base) && Sweep(items, 0, base).Some? && k <= |items|
    ensures var st := StageAt(items, base, k);
            Stands(items, st, base, k) && Sweep(st.now, k, st.rc) == Sweep(items, 0, base)
  {
    var good := (m: nat) => StandsAt(items, base, m);
    StageFirst(items, base);
    forall m: nat | m < k && good(m) ensures good(m + 1) {
      StageNext(items, base, m);
    }
    KeptThroughout(good, k);
    assert StandsAt(items, base, k);
  }

  lemma OrderStep(items: seq<Section>, st: Stage, base: nat, k: nat)
    requires Stands(items, st, base, k) && k < |items| && SweepStep(st.now, k, st.rc).Some?
    requires Order(items, k, st.now[..k])
    ensures Order(items, k + 1, SweepStep(st.now, k, st.rc).value.0[..k + 1])
  {
    var now := st.now;
    assert now[k] == now[k..][0] == items[k..][0];
    StepShape(now, k, st.rc, base);
    if items[k].Occupies() {
      MovedExactly(items, now, k, st.rc, base);
    }
    if Moves(now, k, st.rc) {
      OrderInsert(items, k, now[..k], ScanStop(Drop(now, k), now[k].offset));
    } else {
      OrderAppend(items, k, now[..k]);
    }
  }

  lemma OrderFirst(items: seq<Section>)
    ensures items[..0] == [] && Order(items, 0, [])
  {
  }

  lemma OrderNext(items: seq<Section>, base: nat, k: nat, next: nat)
    requires Behind(items, base) && Sweep(items, 0, base).Some? && k < |items| && next == k + 1
    requires k <= |StageAt(items, base, k).now| && Order(items, k, StageAt(items, base, k).now[..k])
    ensures next <= |StageAt(items, base, next).now| && Order(items, next, StageAt(items, base, next).now[..next])
  {
    var st := StageAt(items, base, k);
    StageStands(items, base, k);
    StandsNext(items, st, base, k);
    OrderStep(items, st, base, k);
  }

  lemma {:induction false} OrderAt(items: seq<Section>, base: nat, k: nat)
    requires Behind(items, base) && Sweep(items, 0, base).Some? && k <= |items|
    ensures k <= |StageAt(items, base, k).now| && Order(items, k, StageAt(items, base, k).now[..k])
  {
    if k == 0 {
      OrderFirst(items);
    } else {
      OrderAt(items, base, k - 1);
      OrderNext(items, base, k - 1, k);
    }
  }

  lemma AscendStep(items: seq<Section>, st: Stage, base: nat, k: nat)
    requires Stands(items, st, base, k) && k < |items| && SweepStep(st.now, k, st.rc).Some?
    requires Order(items, k, st.now[..k]) && Ascending(st.now[..k])
    ensures Ascending(SweepStep(st.now, k, st.rc).value.0[..k + 1]) <==> !HidesSome(items, k)
  {
    var now := st.now;
    assert now[k] == now[k..][0] == items[k..][0];
    StepShape(now, k, st.rc, base);
    if items[k].Occupies() {
      MovedExactly(items, now, k, st.rc, base);
    }
    if Moves(now, k, st.rc) {
      MoveAscendsExactly(items, k, now[..k], ScanStop(Drop(now, k), now[k].offset));
    } else {
      AcceptAscends(now, k, st.rc, base);
    }
  }

  /** The next section keeps the part walked ascending exactly when nothing is hidden from it. */
  lemma StageExactly(items: seq<Section>, base: nat, k: nat, next: nat)
    requires Behind(items, base) && Sweep(items, 0, base).Some? && k < |items| && next == k + 1
    ensures |StageAt(items, base, k).now| == |StageAt(items, base, next).now| == |items|
    ensures Ascending(StageAt(items, base, next).now[..next]) <==>
            Ascending(StageAt(items, base, k).now[..k]) && !HidesSome(items, k)
  {
    var st := StageAt(items, base, k);
    StageStands(items, base, k);
    StandsNext(items, st, base, k);
    if Ascending(st.now[..k]) {
      OrderAt(items, base, k);
      AscendStep(items, st, base, k);
    } else {
      UnorderedStep(st.now, k, st.rc, base);
    }
  }

  /** Nothing is hidden from the first k sections. */
  ghost predicate NoneHidden(items: seq<Section>, k: nat) {
    forall m: nat :: m < k ==> !HidesSome(items, m)
  }

  /** The part walked at position k is ascending. */
  ghost predicate AscendingAt(items: seq<Section>, base: nat, k: nat) {
    k <= |StageAt(items, base, k).now| && Ascending(StageAt(items, base, k).now[..k])
  }

  /** What holds at first and is kept exactly by the steps that are not bad holds exactly until one is. */
  lemma {:induction false} KeptUntil(good: nat -> bool, bad: nat -> bool, n: nat)
    requires good(0) && forall k: nat :: k < n ==> (good(k + 1) <==> good(k) && !bad(k))
    ensures good(n) <==> forall m: nat :: m < n ==> !bad(m)
  {
    if n > 0 {
      KeptUntil(good, bad, n - 1);
      assert good(n - 1 + 1) <==> good(n - 1) && !bad(n - 1);
    }
  }

  lemma StagesExactly(items: seq<Section>, base: nat, n: nat)
    requires Behind(items, base) && Sweep(items, 0, base).Some? && n <= |items|
    ensures AscendingAt(items, base, n) <==> NoneHidden(items, n)
  {
    var good, bad := (k: nat) => AscendingAt(items, base, k), (m: nat) => HidesSome(items, m);
    forall k: nat | k < n ensures good(k + 1) <==> good(k) && !bad(k) {
      StageExactly(items, base, k, k + 1);
    }
    KeptUntil(good, bad, n);
    assert forall m: nat :: bad(m) <==> HidesSome(items, m);
  }

  /** The list accepted from sections behind the headers is ascending and pairwise disjoint exactly when no
      section without file space hides one from the place of another. */
  lemma SweepAscendsExactly(items: seq<Section>, base: nat)
    requires Behind(items, base) && Sweep(items, 0, base).Some?
    ensures Ascending(Sweep(items, 0, base).value.0) <==> NoneHidden(items, |items|)
  {
    var st := StageAt(items, base, |items|);
    StageStands(items, base, |items|);
    assert st.now[..|items|] == st.now;
    StagesExactly(items, base, |items|);
  }

  /** Whether what resync accepts is free of overlaps, among the sections and with the headers, shows in the
      list as sized: every section lies behind the headers and none is hidden. */
  ghost predicate Clear(sized: seq<Section>, base: nat) {
    Behind(sized, base) && NoneHidden(sized, |sized|)
  }

  lemma AcceptedClearExactly(items: seq<Section>, cfg: Config, base: nat)
    requires ResyncSpec(items, cfg, base).Ok?
    ensures var out := ResyncSpec(items, cfg, base).value.0;
            Ascending(out) && Behind(out, base) <==> Clear(SizeAll(items, cfg, base).value.0, base)
  {
    ResyncSorted(items, cfg, base);
    var sized := SizeAll(items, cfg, base).value.0;
    if Behind(sized, base) {
      SweepAscendsExactly(sized, base);
    }
  }

  /** Nothing is hidden where sections without file space carry no placement, or where nothing is moved. */
  lemma NothingHidden(items: seq<Section>)
    requires Bare(items) || Ascending(items)
    ensures NoneHidden(items, |items|)
  {
    forall m: nat, i: nat, j: nat | m < |items| ensures !Hides(items, i, j, m) {
      if i < |items| {
        assert items[i] in items;
      }
    }
  }
}
