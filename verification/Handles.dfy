/** Handle lifetimes: elf_begin and elf_end count activations, and an archive whose own activations
    are gone is kept until the last of its open members is released. */
module Handles {
  import opened Common
  import Archive

  datatype Kind = KAr | KElf | KNone

  /** What a handle records about its lifetime: kind, activation count, number of open members and
      the archive it is a member of. */
  datatype Handle = Handle(kind: Kind, activations: nat, nchildren: int, parent: Option<nat>)

  /** The handles in memory, by address; `leaked` are those the caller was never given. */
  datatype State = State(live: map<nat, Handle>, next: nat, leaked: set<nat>)

  // ---- the shape of the heap ----

  ghost function Children(live: map<nat, Handle>, p: nat): set<nat> {
    set m | m in live && live[m].parent == Some(p)
  }

  ghost predicate ParentLive(live: map<nat, Handle>, m: nat)
    requires m in live
  {
    live[m].parent.Some? ==>
      live[m].parent.value < m && live[m].parent.value in live && live[live[m].parent.value].kind == KAr
  }

  ghost predicate Counted(live: map<nat, Handle>, p: nat)
    requires p in live
  {
    live[p].nchildren == |Children(live, p)|
  }

  /** Members belong to live, earlier opened archives, and every child count is right. */
  ghost predicate Tree(live: map<nat, Handle>) {
    && (forall m {:trigger ParentLive(live, m)} {:trigger live[m].parent} :: m in live ==> ParentLive(live, m))
    && forall p {:trigger Counted(live, p)} :: p in live ==> Counted(live, p)
  }

  /** Nothing refers to the handle any more. */
  predicate Idle(h: Handle) {
    h.activations == 0 && !(h.kind == KAr && h.nchildren > 0)
  }

  ghost predicate Inv(s: State) {
    && Tree(s.live)
    && (forall m :: m in s.live ==> m < s.next && !Idle(s.live[m]))
    && s.leaked <= s.live.Keys
    && forall m :: m in s.leaked ==> s.live[m].parent.None? && s.live[m].nchildren == 0
  }

  // ---- opening ----

  function WithActivations(live: map<nat, Handle>, e: nat, n: nat): map<nat, Handle>
    requires e in live
  {
    live[e := live[e].(activations := n)]
  }

  function WithMember(live: map<nat, Handle>, n: nat, k: Kind, a: nat): map<nat, Handle>
    requires a in live
  {
    live[a := live[a].(nchildren := live[a].nchildren + 1)][n := Handle(k, 1, 0, Some(a))]
  }

  /** How an attempt to open an object can end: with a handle, without one, or, when a file with the
      archive signature turns out to be malformed, without one but with the memory still allocated. */
  datatype Outcome = Opened(kind: Kind) | Refused | Malformed

  // Offsets in e_ident, and the values elf_memory accepts there.
  const EI_CLASS := 4
  const EI_DATA := 5
  const EI_VERSION := 6
  const EI_NIDENT := 16

  predicate HasElfMagic(bytes: string) {
    |bytes| > EI_NIDENT && bytes[0] == 0x7f as char && bytes[1..4] == "ELF"
  }

  predicate HasArMagic(bytes: string) {
    |bytes| >= Archive.SARMAG && bytes[..Archive.SARMAG] == Archive.ARMAG
  }

  /** What elf_memory makes of the bytes of an object. */
  function OutcomeOf(bytes: string): Outcome {
    if bytes == [] then Refused
    else if HasElfMagic(bytes) then
      if bytes[EI_VERSION] as nat > 1 || bytes[EI_DATA] as nat !in {1, 2} || bytes[EI_CLASS] as nat !in {1, 2} then
        Refused
      else Opened(KElf)
    else if HasArMagic(bytes) then
      if Archive.Scan(bytes, Archive.SARMAG, 2).Ok? then Opened(KAr) else Malformed
    else Opened(KNone)
  }

  /** The same where there may be nothing to open: no such file, or no member at the archive's cursor. */
  function OutcomeAt(bytes: Option<string>): Outcome {
    match bytes
    case None => Refused
    case Some(b) => OutcomeOf(b)
  }

  function OpenSpec(s: State, o: Outcome): (State, Option<nat>) {
    match o
    case Opened(k) => (s.(live := s.live[s.next := Handle(k, 1, 0, None)], next := s.next + 1), Some(s.next))
    case Refused => (s, None)
    case Malformed =>
      (s.(live := s.live[s.next := Handle(KAr, 1, 0, None)], next := s.next + 1, leaked := s.leaked + {s.next}), None)
  }

  function OpenMemberSpec(s: State, a: nat, o: Outcome): (State, Option<nat>)
    requires a in s.live
  {
    match o
    case Opened(k) =>
      (s.(live := WithMember(s.live, s.next, k, a), next := s.next + 1), Some(s.next))
    case _ => OpenSpec(s, o)
  }

  /** elf_begin: a is the handle passed in, o how opening the object or member ends. */
  function BeginSpec(s: State, a: Option<nat>, o: Outcome): (State, Option<nat>)
    requires a.Some? ==> a.value in s.live
  {
    match a
    case None => OpenSpec(s, o)
    case Some(h) =>
      if s.live[h].kind == KAr then OpenMemberSpec(s, h, o)
      else (s.(live := WithActivations(s.live, h, s.live[h].activations + 1)), Some(h))
  }

  // ---- closing ----

  /** Taking one unreferenced handle away: its parent, if any, has one member fewer. */
  function Without(live: map<nat, Handle>, e: nat): map<nat, Handle>
    requires e in live && (live[e].parent.Some? ==> live[e].parent.value in live && live[e].parent.value != e)
  {
    match live[e].parent
    case None => live - {e}
    case Some(p) => (live - {e})[p := live[p].(nchildren := live[p].nchildren - 1)]
  }

  lemma ChildrenWithout(live: map<nat, Handle>, e: nat, p: nat)
    requires Tree(live) && e in live && p != e
    ensures Children(Without(live, e), p) == Children(live, p) - {e}
    ensures |Children(Without(live, e), p)| == |Children(live, p)| - if live[e].parent == Some(p) then 1 else 0
  {
    SameParents(live, e);
    var r, before := Children(Without(live, e), p), Children(live, p);
    forall m ensures m in r <==> m in before - {e} {
    }
    if live[e].parent == Some(p) {
      assert e in before;
    }
  }

  lemma RemoveAfterUpdate(live: map<nat, Handle>, e: nat)
    requires e in live && (live[e].parent.Some? ==> live[e].parent.value in live && live[e].parent.value != e)
    ensures Without(live, e) ==
            match live[e].parent
            case None => live - {e}
            case Some(p) => live[p := live[p].(nchildren := live[p].nchildren - 1)] - {e}
  {
  }

  lemma SameParents(live: map<nat, Handle>, e: nat)
    requires e in live && (live[e].parent.Some? ==> live[e].parent.value in live && live[e].parent.value != e)
    ensures forall m :: m in Without(live, e) <==> m in live && m != e
    ensures forall m :: m in Without(live, e) ==> Without(live, e)[m].parent == live[m].parent
  {
  }

  /** A handle nothing refers to has no members, so the rest of the heap keeps its shape. */
  lemma WithoutTree(live: map<nat, Handle>, e: nat)
    requires Tree(live) && e in live && !(live[e].kind == KAr && live[e].nchildren > 0)
    ensures Children(live, e) == {}
    ensures Tree(Without(live, e))
  {
    assert forall m :: m in Children(live, e) ==> live[e].kind == KAr;
    assert Counted(live, e);
    assert live[e].kind == KAr ==> |Children(live, e)| == 0;
    var r := Without(live, e);
    forall m | m in r ensures ParentLive(r, m) {
      assert live[m].parent == r[m].parent && m !in Children(live, e);
    }
    forall p | p in r ensures Counted(r, p) {
      assert Counted(live, p);
      ChildrenWithout(live, e, p);
    }
  }

  /** The release loop of elf_end, from an unreferenced handle up the chain of parents: the handles
      that remain, and those released, in order. */
  ghost function Cascade(live: map<nat, Handle>, e: nat): (map<nat, Handle>, seq<nat>)
    requires Tree(live) && e in live && live[e].activations == 0
    decreases e
  {
    if live[e].kind == KAr && live[e].nchildren > 0 then (live, [])
    else
      var rest := Without(live, e);
      WithoutTree(live, e);
      if live[e].parent.Some? && rest[live[e].parent.value].activations == 0 then
        var (out, freed) := Cascade(rest, live[e].parent.value);
        (out, [e] + freed)
      else (rest, [e])
  }

  ghost function Deactivated(live: map<nat, Handle>, e: nat): (r: map<nat, Handle>)
    requires Tree(live) && e in live && live[e].activations > 0
    ensures Tree(r) && e in r && r[e].activations == live[e].activations - 1
  {
    ActivationsKeepTree(live, e, live[e].activations - 1);
    WithActivations(live, e, live[e].activations - 1)
  }

  ghost function EndSpec(s: State, e: nat): (State, seq<nat>)
    requires Tree(s.live) && e in s.live
  {
    var h := s.live[e];
    if h.activations == 0 then (s, [])
    else
      var live := Deactivated(s.live, e);
      if h.activations > 1 then (s.(live := live), [])
      else (s.(live := Cascade(live, e).0), Cascade(live, e).1)
  }

  lemma ActivationsKeepTree(live: map<nat, Handle>, e: nat, n: nat)
    requires Tree(live) && e in live
    ensures Tree(WithActivations(live, e, n))
    ensures e in WithActivations(live, e, n) && WithActivations(live, e, n)[e].activations == n
  {
    var r := WithActivations(live, e, n);
    forall p | p in r ensures Counted(r, p) {
      assert Counted(live, p);
      assert Children(r, p) == Children(live, p);
    }
  }

  // ---- the code ----

  class Library {
    var live: map<nat, Handle>
    var next: nat
    ghost var leaked: set<nat>

    ghost function St(): State
      reads this
    {
      State(live, next, leaked)
    }

    constructor ()
      ensures St() == State(map[], 0, {}) && Inv(St())
    {
      live, next, leaked := map[], 0, {};
    }

    /** _libelf_allocate_elf: a new handle with one activation. */
    method Allocate(kind: Kind) returns (e: nat)
      modifies this
      ensures e == old(next) && next == old(next) + 1 && leaked == old(leaked)
      ensures live == old(live)[e := Handle(kind, 1, 0, None)]
    {
      e := next;
      next := next + 1;
      live := live[e := Handle(kind, 1, 0, None)];
    }

    /** _libelf_release_elf of a handle just allocated: its address is free again. */
    method Undo(e: nat)
      requires next == e + 1 && e in live
      modifies this`live, this`next
      ensures live == old(live) - {e} && next == e
    {
      live := live - {e};
      next := e;
    }

    /** elf_memory: the handle is allocated before the bytes are looked at, and on a malformed archive nothing
        is returned and nothing released. */
    method Memory(bytes: string) returns (r: Option<nat>)
      requires next !in live
      modifies this
      ensures (St(), r) == OpenSpec(old(St()), OutcomeOf(bytes))
    {
      if bytes == [] {
        return None;
      }
      var e := Allocate(KNone);
      if HasElfMagic(bytes) {
        live := live[e := live[e].(kind := KElf)];
        if bytes[EI_VERSION] as nat > 1 || bytes[EI_DATA] as nat !in {1, 2} || bytes[EI_CLASS] as nat !in {1, 2} {
          Undo(e);
          assert live == old(live);
          return None;
        }
        assert live == old(live)[e := Handle(KElf, 1, 0, None)];
      } else if HasArMagic(bytes) {
        live := live[e := live[e].(kind := KAr)];
        assert live == old(live)[e := Handle(KAr, 1, 0, None)];
        var cursor, tables := Archive.ArOpen(bytes);
        if cursor.Err? {
          leaked := leaked + {e};
          return None;
        }
      }
      r := Some(e);
    }

    /** _libelf_ar_open_member; bytes are the member's at the archive's cursor. */
    method OpenMember(a: nat, bytes: Option<string>) returns (r: Option<nat>)
      requires a in live && a != next && next !in live
      modifies this
      ensures (St(), r) == OpenMemberSpec(old(St()), a, OutcomeAt(bytes))
    {
      if bytes.None? {
        return None;
      }
      r := Memory(bytes.value);
      if r.Some? {
        live := live[a := live[a].(nchildren := live[a].nchildren + 1)];
        live := live[r.value := live[r.value].(parent := Some(a))];
        assert live == OpenMemberSpec(old(St()), a, OutcomeAt(bytes)).0.live;
      }
    }

    /** elf_begin, once its arguments have been checked; bytes are the file's, or the member's. */
    method Begin(a: Option<nat>, bytes: Option<string>) returns (r: Option<nat>)
      requires (a.Some? ==> a.value in live) && Inv(St())
      modifies this
      ensures (St(), r) == BeginSpec(old(St()), a, OutcomeAt(bytes))
    {
      if a.None? {
        if bytes.None? {
          return None;
        }
        r := Memory(bytes.value);
      } else if live[a.value].kind == KAr {
        r := OpenMember(a.value, bytes);
      } else {
        live := WithActivations(live, a.value, live[a.value].activations + 1);
        r := a;
      }
    }

    /** Release one handle: its parent loses a member, its memory is freed. */
    method Release(e: nat) returns (parent: Option<nat>)
      requires Tree(live) && e in live && !(live[e].kind == KAr && live[e].nchildren > 0)
      modifies this`live
      ensures parent == old(live)[e].parent && live == Without(old(live), e) && Tree(live)
    {
      WithoutTree(live, e);
      RemoveAfterUpdate(live, e);
      parent := live[e].parent;
      if parent.Some? {
        live := live[parent.value := live[parent.value].(nchildren := live[parent.value].nchildren - 1)];
      }
      live := live - {e};
    }

    /** The loop of elf_end. */
    method ReleaseChain(e0: nat) returns (ghost freed: seq<nat>)
      requires Tree(live) && e0 in live && live[e0].activations == 0
      modifies this`live
      ensures live == Cascade(old(live), e0).0 && freed == Cascade(old(live), e0).1
    {
      freed := [];
      var cur := Some(e0);
      ghost var start := live;
      while cur.Some?
        invariant Tree(live)
        invariant cur.Some? ==> cur.value in live && live[cur.value].activations == 0
        invariant Remaining(start, e0, live, cur, freed)
        decreases if cur.Some? then cur.value + 1 else 0
      {
        var e := cur.value;
        if live[e].kind == KAr && live[e].nchildren > 0 {
          return;
        }
        RemainingStep(start, e0, live, e, freed);
        var parent := Release(e);
        freed := freed + [e];
        cur := if parent.Some? && live[parent.value].activations == 0 then parent else None;
      }
    }

    /** elf_end. */
    method End(e: nat) returns (n: nat, ghost freed: seq<nat>)
      requires e in live && Tree(live)
      modifies this`live
      ensures St() == EndSpec(old(St()), e).0 && freed == EndSpec(old(St()), e).1
      ensures n == if old(live)[e].activations == 0 then 0 else old(live)[e].activations - 1
    {
      freed := [];
      if live[e].activations == 0 {
        return 0, freed;
      }
      ActivationsKeepTree(live, e, live[e].activations - 1);
      live := WithActivations(live, e, live[e].activations - 1);
      if live[e].activations > 0 {
        return live[e].activations, freed;
      }
      freed := ReleaseChain(e);
      n := 0;
    }
  }

  /** The release loop stands at cur with `freed` released so far. */
  ghost predicate Remaining(start: map<nat, Handle>, e0: nat, live: map<nat, Handle>, cur: Option<nat>, freed: seq<nat>)
    requires Tree(start) && e0 in start && start[e0].activations == 0
    requires Tree(live) && (cur.Some? ==> cur.value in live && live[cur.value].activations == 0)
  {
    match cur
    case None => Cascade(start, e0) == (live, freed)
    case Some(e) =>
      Cascade(start, e0).0 == Cascade(live, e).0 && Cascade(start, e0).1 == freed + Cascade(live, e).1
  }

  lemma RemainingStep(start: map<nat, Handle>, e0: nat, live: map<nat, Handle>, e: nat, freed: seq<nat>)
    requires Tree(start) && e0 in start && start[e0].activations == 0
    requires Tree(live) && e in live && live[e].activations == 0
    requires Remaining(start, e0, live, Some(e), freed)
    requires !(live[e].kind == KAr && live[e].nchildren > 0)
    ensures var rest := Without(live, e);
            && Tree(rest)
            && var p := live[e].parent;
               Remaining(start, e0, rest, if p.Some? && rest[p.value].activations == 0 then p else None, freed + [e])
  {
    WithoutTree(live, e);
    var rest := Without(live, e);
    var p := live[e].parent;
    if p.Some? && rest[p.value].activations == 0 {
      Assoc(freed, [e], Cascade(rest, p.value).1);
    }
  }

  lemma Assoc(a: seq<nat>, b: seq<nat>, c: seq<nat>)
    ensures a + (b + c) == a + b + c
  {
  }

  // ---- what every step keeps ----

  ghost predicate NoIdle(live: map<nat, Handle>) {
    forall m :: m in live ==> !Idle(live[m])
  }

  /** Same handle, with no more members than before. */
  ghost predicate Kept(h: Handle, h': Handle) {
    h'.activations == h.activations && h'.parent == h.parent && h'.kind == h.kind && h'.nchildren <= h.nchildren
  }

  ghost predicate AllKept(live: map<nat, Handle>, out: map<nat, Handle>) {
    forall m :: m in out ==> m in live && Kept(live[m], out[m])
  }

  /** What a release removes: each handle once, and only handles without activations. */
  ghost predicate FreedFrom(live: map<nat, Handle>, out: map<nat, Handle>, freed: seq<nat>) {
    && Distinct(freed)
    && (forall m :: m in live <==> m in out || m in freed)
    && forall x :: x in freed ==> x !in out && live[x].activations == 0
  }

  lemma WithoutKeeps(live: map<nat, Handle>, e: nat)
    requires Tree(live) && e in live && live[e].activations == 0
    ensures AllKept(live, Without(live, e)) && FreedFrom(live, Without(live, e), [e])
    ensures forall m :: m in Without(live, e) && live[e].parent != Some(m) ==> Without(live, e)[m] == live[m]
  {
  }

  lemma FreedMore(live: map<nat, Handle>, mid: map<nat, Handle>, out: map<nat, Handle>, e: nat, freed: seq<nat>)
    requires AllKept(live, mid) && FreedFrom(live, mid, [e]) && AllKept(mid, out) && FreedFrom(mid, out, freed)
    ensures AllKept(live, out) && FreedFrom(live, out, [e] + freed)
  {
    assert forall x :: x in [e] + freed <==> x == e || x in freed;
    assert e in [e];
    DistinctConcat([e], freed);
  }

  /** The release loop leaves no unreferenced handle; what it releases had no activations left, each
      is released once, and the other handles keep their kind, parent and activations. */
  lemma {:induction false} CascadeProps(live: map<nat, Handle>, e: nat)
    requires Tree(live) && e in live && live[e].activations == 0
    requires forall m :: m in live && m != e ==> !Idle(live[m])
    ensures var (out, freed) := Cascade(live, e);
            Tree(out) && NoIdle(out) && AllKept(live, out) && FreedFrom(live, out, freed)
    decreases e
  {
    if !(live[e].kind == KAr && live[e].nchildren > 0) {
      WithoutTree(live, e);
      WithoutKeeps(live, e);
      var rest := Without(live, e);
      if live[e].parent.Some? && rest[live[e].parent.value].activations == 0 {
        var p := live[e].parent.value;
        CascadeProps(rest, p);
        FreedMore(live, rest, Cascade(rest, p).0, e, Cascade(rest, p).1);
      }
    }
  }

  /** Handles are released from the member up: first the one ended, then each time the archive it was a member
      of. */
  lemma {:induction false} CascadeOrder(live: map<nat, Handle>, e: nat)
    requires Tree(live) && e in live && live[e].activations == 0
    ensures var freed := Cascade(live, e).1;
            && (freed != [] ==> freed[0] == e)
            && forall i :: 0 <= i < |freed| - 1 ==> freed[i] in live && live[freed[i]].parent == Some(freed[i + 1])
    decreases e
  {
    if !(live[e].kind == KAr && live[e].nchildren > 0) {
      WithoutTree(live, e);
      SameParents(live, e);
      var rest := Without(live, e);
      if live[e].parent.Some? && rest[live[e].parent.value].activations == 0 {
        var p := live[e].parent.value;
        CascadeOrder(rest, p);
        var more := Cascade(rest, p).1;
        var freed := [e] + more;
        forall i | 0 <= i < |freed| - 1 ensures freed[i] in live && live[freed[i]].parent == Some(freed[i + 1]) {
          if i > 0 {
            assert freed[i] == more[i - 1] && freed[i + 1] == more[i];
          }
        }
      }
    }
  }

  lemma NewRoot(live: map<nat, Handle>, n: nat, k: Kind)
    requires Tree(live) && (forall m :: m in live ==> m < n)
    ensures Tree(live[n := Handle(k, 1, 0, None)])
  {
    var r := live[n := Handle(k, 1, 0, None)];
    forall p | p in r ensures Counted(r, p) {
      if p == n {
        assert Children(r, p) == {};
      } else {
        assert Counted(live, p);
        assert Children(r, p) == Children(live, p);
      }
    }
  }

  lemma NewMemberChildren(live: map<nat, Handle>, n: nat, k: Kind, a: nat, p: nat)
    requires Tree(live) && (forall m :: m in live ==> m < n) && a in live && (p in live || p == n)
    ensures var r := WithMember(live, n, k, a);
            Counted(r, p)
  {
    var r := WithMember(live, n, k, a);
    var now, before := Children(r, p), Children(live, p);
    forall m ensures m in now <==> m in before || (m == n && p == a) {
    }
    assert p in live ==> Counted(live, p);
    if p == n {
      assert now == {};
    } else if p == a {
      assert now == before + {n};
    } else {
      assert now == before;
    }
  }

  lemma NewMember(live: map<nat, Handle>, n: nat, k: Kind, a: nat)
    requires Tree(live) && (forall m :: m in live ==> m < n) && a in live && live[a].kind == KAr
    ensures Tree(WithMember(live, n, k, a))
  {
    var r := WithMember(live, n, k, a);
    forall m | m in r ensures ParentLive(r, m) {
      assert m == n || r[m].parent == live[m].parent;
    }
    forall p | p in r ensures Counted(r, p) {
      NewMemberChildren(live, n, k, a, p);
    }
  }

  lemma OpenInv(s: State, o: Outcome)
    requires Inv(s)
    ensures Inv(OpenSpec(s, o).0)
  {
    NewRoot(s.live, s.next, KAr);
    if o.Opened? {
      NewRoot(s.live, s.next, o.kind);
    }
  }

  lemma OpenMemberInv(s: State, a: nat, o: Outcome)
    requires Inv(s) && a in s.live && a !in s.leaked && s.live[a].kind == KAr
    ensures Inv(OpenMemberSpec(s, a, o).0)
  {
    if o.Opened? {
      NewMember(s.live, s.next, o.kind, a);
    } else {
      OpenInv(s, o);
    }
  }

  lemma ReopenInv(s: State, a: nat)
    requires Inv(s) && a in s.live && a !in s.leaked
    ensures Inv(s.(live := WithActivations(s.live, a, s.live[a].activations + 1)))
  {
    ActivationsKeepTree(s.live, a, s.live[a].activations + 1);
  }

  lemma SameState(s: State, s': State)
    requires Inv(s) && s == s'
    ensures Inv(s')
  {
  }

  lemma BeginInv(s: State, a: Option<nat>, o: Outcome)
    requires Inv(s) && (a.Some? ==> a.value in s.live && a.value !in s.leaked)
    ensures Inv(BeginSpec(s, a, o).0)
  {
    var s' := BeginSpec(s, a, o).0;
    match a
    case None =>
      OpenInv(s, o);
      SameState(OpenSpec(s, o).0, s');
    case Some(h) =>
      if s.live[h].kind == KAr {
        OpenMemberInv(s, h, o);
        SameState(OpenMemberSpec(s, h, o).0, s');
      } else {
        ReopenInv(s, h);
      }
  }

  lemma EndInv(s: State, e: nat)
    requires Inv(s) && e in s.live && e !in s.leaked
    ensures var (s', freed) := EndSpec(s, e);
            && Inv(s') && s'.leaked == s.leaked && s'.next == s.next
  {
    var h := s.live[e];
    if h.activations > 0 {
      ActivationsKeepTree(s.live, e, h.activations - 1);
      var live := WithActivations(s.live, e, h.activations - 1);
      if h.activations == 1 {
        CascadeProps(live, e);
        var (out, freed) := Cascade(live, e);
        forall m | m in s.leaked ensures m in out && out[m].parent.None? && out[m].nchildren == 0 {
          assert live[m] == s.live[m] && live[m].activations > 0;
          assert m in out && Counted(out, m);
        }
      }
    }
  }

  /** elf_end takes one activation from its handle and none from any other, and releases each handle
      at most once. */
  lemma EndEffect(s: State, e: nat, id: nat)
    requires Inv(s) && e in s.live && e !in s.leaked
    ensures var (s', freed) := EndSpec(s, e);
            && Distinct(freed)
            && (id in s.live <==> id in s'.live || id in freed)
            && (id in freed ==> id !in s'.live)
            && Activations(s', id) == Activations(s, id) - if id == e && s.live[e].activations > 0 then 1 else 0
  {
    var h := s.live[e];
    if h.activations > 0 {
      ActivationsKeepTree(s.live, e, h.activations - 1);
      var live := WithActivations(s.live, e, h.activations - 1);
      if h.activations == 1 {
        CascadeProps(live, e);
        var (out, freed) := Cascade(live, e);
        assert id in live <==> id in s.live;
        assert id in out ==> Kept(live[id], out[id]);
      }
    }
  }

  ghost function Activations(s: State, id: nat): nat {
    if id in s.live && id !in s.leaked then s.live[id].activations else 0
  }

  lemma BeginEffect(s: State, a: Option<nat>, o: Outcome, id: nat)
    requires Inv(s) && (a.Some? ==> a.value in s.live && a.value !in s.leaked)
    ensures var (s', r) := BeginSpec(s, a, o);
            && Activations(s', id) == Activations(s, id) + (if r == Some(id) then 1 else 0)
            && (id in s.live ==> id in s'.live)
            && s.next <= s'.next && (id in s'.live && id !in s.live ==> id >= s.next)
  {
  }

  // ---- runs ----

  /** bytes: what there is to open, the file's bytes or those of the member at the archive's cursor. */
  datatype Op = BeginOp(a: Option<nat>, bytes: Option<string>) | EndOp(e: nat)

  /** The caller passes handles it was given and that have not been released. */
  predicate Enabled(s: State, op: Op) {
    match op
    case BeginOp(a, _) => a.Some? ==> a.value in s.live && a.value !in s.leaked
    case EndOp(e) => e in s.live && e !in s.leaked
  }

  ghost function Step(s: State, op: Op): State
    requires Inv(s) && Enabled(s, op)
  {
    match op
    case BeginOp(a, b) => BeginSpec(s, a, OutcomeAt(b)).0
    case EndOp(e) => EndSpec(s, e).0
  }

  ghost predicate Legal(ops: seq<Op>)
    decreases |ops|, 1
  {
    ops == [] || (Legal(ops[..|ops| - 1]) && Enabled(After(ops[..|ops| - 1]), ops[|ops| - 1]))
  }

  /** The state after a run from the start; Inv holds throughout. */
  ghost function After(ops: seq<Op>): (s: State)
    requires Legal(ops)
    ensures Inv(s)
    decreases |ops|, 2
  {
    if ops == [] then State(map[], 0, {})
    else
      var s, op := After(ops[..|ops| - 1]), ops[|ops| - 1];
      StepKeepsInv(s, op);
      Step(s, op)
  }

  lemma StepKeepsInv(s: State, op: Op)
    requires Inv(s) && Enabled(s, op)
    ensures Inv(Step(s, op))
  {
    match op
    case BeginOp(a, b) => BeginInv(s, a, OutcomeAt(b));
    case EndOp(e) => EndInv(s, e);
  }

  /** Begins that returned the handle less ends that counted against it. */
  ghost function Balance(ops: seq<Op>, id: nat): int
    requires Legal(ops)
  {
    if ops == [] then 0
    else
      var s, op := After(ops[..|ops| - 1]), ops[|ops| - 1];
      Balance(ops[..|ops| - 1], id) +
      match op
      case BeginOp(a, b) => if BeginSpec(s, a, OutcomeAt(b)).1 == Some(id) then 1 else 0
      case EndOp(e) => if e == id && s.live[e].activations > 0 then -1 else 0
  }

  /** All handles released during a run, in order. */
  ghost function Released(ops: seq<Op>): seq<nat>
    requires Legal(ops)
  {
    if ops == [] then []
    else
      var s, op := After(ops[..|ops| - 1]), ops[|ops| - 1];
      Released(ops[..|ops| - 1]) + match op
                                   case BeginOp(_, _) => []
                                   case EndOp(e) => EndSpec(s, e).1
  }

  /** In every run each handle's activation count is the number of begins not yet ended, and a handle
      that is gone has none outstanding. */
  lemma {:induction false} Ledger(ops: seq<Op>, id: nat)
    requires Legal(ops)
    ensures Balance(ops, id) == Activations(After(ops), id)
  {
    if ops != [] {
      var s, op := After(ops[..|ops| - 1]), ops[|ops| - 1];
      Ledger(ops[..|ops| - 1], id);
      match op
      case BeginOp(a, b) => BeginEffect(s, a, OutcomeAt(b), id);
      case EndOp(e) => EndEffect(s, e, id);
    }
  }

  ghost predicate ReleasedWell(freed: seq<nat>, s: State) {
    Distinct(freed) && forall x :: x in freed ==> x !in s.live && x < s.next
  }

  lemma ReleaseStep(done: seq<nat>, s: State, op: Op)
    requires Inv(s) && Enabled(s, op) && ReleasedWell(done, s)
    ensures ReleasedWell(done + (match op case BeginOp(_, _) => [] case EndOp(e) => EndSpec(s, e).1), Step(s, op))
  {
    match op
    case BeginOp(a, b) =>
      assert done + [] == done;
      forall x | x in done ensures x !in Step(s, op).live && x < Step(s, op).next {
        BeginEffect(s, a, OutcomeAt(b), x);
      }
    case EndOp(e) =>
      EndInv(s, e);
      var (s', freed) := EndSpec(s, e);
      EndEffect(s, e, e);
      forall x | x in done + freed ensures x !in s'.live && x < s'.next {
        EndEffect(s, e, x);
      }
      forall x | x in freed ensures x in s.live {
        EndEffect(s, e, x);
      }
      DistinctConcat(done, freed);
  }

  /** In every run no handle is released twice, and none that was released is still in use. */
  lemma {:induction false} ReleasedOnce(ops: seq<Op>)
    requires Legal(ops)
    ensures ReleasedWell(Released(ops), After(ops))
  {
    if ops != [] {
      ReleasedOnce(ops[..|ops| - 1]);
      ReleaseStep(Released(ops[..|ops| - 1]), After(ops[..|ops| - 1]), ops[|ops| - 1]);
    }
  }

  /** Opening through an archive makes a member: a new handle of the kind opened, whose parent is the archive,
      which has one member more; the other handles are as they were. */
  lemma MemberOpened(s: State, h: nat, o: Outcome)
    requires Inv(s) && h in s.live && s.live[h].kind == KAr && o.Opened?
    ensures var (s', r) := BeginSpec(s, Some(h), o);
            && r.Some? && r.value !in s.live && s.next <= r.value < s'.next
            && s'.live.Keys == s.live.Keys + {r.value}
            && s'.live[r.value] == Handle(o.kind, 1, 0, Some(h))
            && s'.live[h] == s.live[h].(nchildren := s.live[h].nchildren + 1)
            && forall m :: m in s.live && m != h ==> s'.live[m] == s.live[m]
  {
  }

  /** Opening an object that is not a member makes a handle of the kind opened, without a parent. */
  lemma ObjectOpened(s: State, o: Outcome)
    requires Inv(s) && o.Opened?
    ensures var (s', r) := BeginSpec(s, None, o);
            && r.Some? && r.value !in s.live && s.next <= r.value < s'.next
            && s'.live == s.live[r.value := Handle(o.kind, 1, 0, None)]
  {
  }

  /** Nothing is reused, and while a handle lives its kind and parent stay. */
  lemma StepKeeps(s: State, op: Op, m: nat)
    requires Inv(s) && Enabled(s, op)
    ensures s.next <= Step(s, op).next
    ensures m < s.next && m in Step(s, op).live ==>
              && m in s.live && Step(s, op).live[m].kind == s.live[m].kind
              && Step(s, op).live[m].parent == s.live[m].parent
  {
    match op
    case BeginOp(a, b) =>
    case EndOp(e) =>
      if s.live[e].activations == 1 {
        CascadeProps(Deactivated(s.live, e), e);
      }
  }

  lemma {:induction false} LaterKeeps(ops: seq<Op>, more: seq<Op>, m: nat)
    requires Legal(ops + more)
    ensures Legal(ops)
    ensures m < After(ops).next && m in After(ops + more).live ==>
              && m in After(ops).live
              && After(ops + more).live[m].kind == After(ops).live[m].kind
              && After(ops + more).live[m].parent == After(ops).live[m].parent
    ensures After(ops).next <= After(ops + more).next
    decreases |more|
  {
    if more == [] {
      assert ops + more == ops;
    } else {
      var all := ops + more;
      assert all[..|all| - 1] == ops + more[..|more| - 1];
      LaterKeeps(ops, more[..|more| - 1], m);
      StepKeeps(After(all[..|all| - 1]), all[|all| - 1], m);
    }
  }

  /** In every run: a member opened through an archive keeps that archive from being released for as long as
      the member itself is not, whatever is begun and ended in between. */
  lemma MemberHoldsArchive(ops: seq<Op>, h: nat, bytes: string, more: seq<Op>)
    requires Legal(ops + [BeginOp(Some(h), Some(bytes))] + more)
    requires Legal(ops) && h in After(ops).live && After(ops).live[h].kind == KAr && OutcomeOf(bytes).Opened?
    ensures var r := BeginSpec(After(ops), Some(h), OutcomeOf(bytes)).1.value;
            var all := ops + [BeginOp(Some(h), Some(bytes))] + more;
            r in After(all).live ==>
              && After(all).live[r].parent == Some(h) && After(all).live[r].kind == OutcomeOf(bytes).kind
              && h in After(all).live && h !in Released(all) && After(all).live[h].nchildren > 0
  {
    var op := BeginOp(Some(h), Some(bytes));
    var s, first := After(ops), ops + [op];
    var all := first + more;
    MemberOpened(s, h, OutcomeOf(bytes));
    var r := BeginSpec(s, Some(h), OutcomeOf(bytes)).1.value;
    LaterKeeps(first, more, r);
    assert first[..|first| - 1] == ops;
    assert After(first) == Step(s, op);
    if r in After(all).live {
      ArchivesOutliveMembers(all, r);
      assert r in Children(After(all).live, h);
    }
  }

  // ---- which objects are opened as what ----

  /** A file with the ELF signature is an ELF object exactly when class, byte order and version are known. */
  lemma ElfOpens(bytes: string)
    requires HasElfMagic(bytes)
    ensures OutcomeOf(bytes) == Opened(KElf) <==>
            && (bytes[EI_CLASS] == 1 as char || bytes[EI_CLASS] == 2 as char)
            && (bytes[EI_DATA] == 1 as char || bytes[EI_DATA] == 2 as char)
            && (bytes[EI_VERSION] == 0 as char || bytes[EI_VERSION] == 1 as char)
    ensures OutcomeOf(bytes) != Opened(KElf) ==> OutcomeOf(bytes) == Refused
  {
  }

  /** A well-formed archive is opened as one, unless it runs out of members among its first two. */
  lemma ArchiveOpens(es: seq<Archive.Entry>)
    requires Archive.AllWellFormed(es) && Archive.ShortFrom(es, 0, 2)
    ensures OutcomeOf(Archive.File(es)) ==
            if Archive.Skipped(es) < 2 && Archive.Skipped(es) == |es| then Malformed else Opened(KAr)
  {
    Archive.FileLaid(es);
    Archive.OpenExact(Archive.File(es), es);
    StartsWithSignature(Archive.ARMAG, Archive.Body(es));
  }

  lemma StartsWithSignature(magic: string, rest: string)
    requires magic == Archive.ARMAG
    ensures HasArMagic(magic + rest) && !HasElfMagic(magic + rest)
  {
    assert (magic + rest)[..Archive.SARMAG] == magic;
    assert (magic + rest)[0] == '!';
  }

  /** Anything else that is not empty is opened without a kind. */
  lemma OtherOpens(bytes: string)
    requires bytes != [] && !HasElfMagic(bytes) && !HasArMagic(bytes)
    ensures OutcomeOf(bytes) == Opened(KNone)
  {
  }

  /** In every run the archive of an open member has not been released, and its child count is the
      number of its open members. */
  lemma ArchivesOutliveMembers(ops: seq<Op>, m: nat)
    requires Legal(ops) && m in After(ops).live && After(ops).live[m].parent.Some?
    ensures var s := After(ops);
            var p := s.live[m].parent.value;
            && p in s.live && p !in Released(ops) && s.live[p].kind == KAr
            && s.live[p].nchildren == |Children(s.live, p)| && m in Children(s.live, p)
  {
    ReleasedOnce(ops);
    assert ParentLive(After(ops).live, m) && Counted(After(ops).live, After(ops).live[m].parent.value);
  }

  lemma {:induction false} MaxExists(s: set<nat>) returns (m: nat)
    requires s != {}
    ensures m in s && forall x :: x in s ==> x <= m
  {
    m :| m in s;
    var rest := s - {m};
    if rest != {} {
      var k := MaxExists(rest);
      assert forall x :: x in s ==> x == m || x in rest;
      if m < k {
        m := k;
      }
    } else {
      assert s == {m};
    }
  }

  /** A handle without activations is kept only for a member opened after it. */
  lemma LaterMember(s: State, m: nat) returns (c: nat)
    requires Inv(s) && m in s.live && m !in s.leaked && s.live[m].activations == 0
    ensures c in s.live.Keys - s.leaked && m < c
  {
    assert Counted(s.live, m);
    c :| c in Children(s.live, m);
  }

  /** Once every begin has been matched by an end, nothing is left but the handles of archives that
      turned out to be malformed while being opened. */
  lemma NothingLeft(ops: seq<Op>)
    requires Legal(ops) && forall id: nat :: Balance(ops, id) == 0
    ensures After(ops).live.Keys == After(ops).leaked
  {
    var s := After(ops);
    forall m | m in s.live && m !in s.leaked ensures s.live[m].activations == 0 {
      Ledger(ops, m);
    }
    NoneHeld(s);
  }

  lemma NoneHeld(s: State)
    requires Inv(s) && forall m :: m in s.live && m !in s.leaked ==> s.live[m].activations == 0
    ensures s.live.Keys == s.leaked
  {
    var rest := s.live.Keys - s.leaked;
    assert forall m :: m in s.live.Keys && m !in s.leaked ==> m in rest;
    if rest != {} {
      var m := MaxExists(rest);
      var c := LaterMember(s, m);
    }
  }

  /** The bytes carry the archive signature, and going past the leading special members runs into something
      that is not a member header. */
  predicate MalformedArchive(bytes: string) {
    HasArMagic(bytes) && Archive.Scan(bytes, Archive.SARMAG, 2).Err?
  }

  /** A file that consists of the signature alone is one. */
  lemma SignatureAlone()
    ensures MalformedArchive(Archive.ARMAG)
  {
    assert Archive.ARMAG[..Archive.SARMAG] == Archive.ARMAG;
    assert Archive.LookAt(Archive.ARMAG, Archive.SARMAG).Bad?;
  }

  /** The operation opens bytes that are such an archive. */
  ghost predicate OpensMalformed(s: State, op: Op)
    requires Enabled(s, op)
  {
    op.BeginOp? && op.bytes.Some? && MalformedArchive(op.bytes.value) && (op.a.Some? ==> s.live[op.a.value].kind == KAr)
  }

  lemma MalformedExactly(bytes: string)
    ensures OutcomeOf(bytes) == Malformed <==> MalformedArchive(bytes)
  {
    if HasArMagic(bytes) {
      assert bytes[0] == bytes[..Archive.SARMAG][0] == '!';
    }
  }

  /** Some open met a malformed archive. */
  ghost predicate MetMalformed(ops: seq<Op>)
    requires Legal(ops)
  {
    ops != [] &&
    var s, op := After(ops[..|ops| - 1]), ops[|ops| - 1];
    || MetMalformed(ops[..|ops| - 1])
    || OpensMalformed(s, op)
  }

  lemma LeakStep(s: State, op: Op)
    requires Inv(s) && Enabled(s, op)
    ensures Step(s, op).leaked ==
            if OpensMalformed(s, op) then s.leaked + {s.next} else s.leaked
  {
    if op.BeginOp? && op.bytes.Some? {
      MalformedExactly(op.bytes.value);
    }
  }

  lemma {:induction false} LeakExact(ops: seq<Op>)
    requires Legal(ops)
    ensures After(ops).leaked != {} <==> MetMalformed(ops)
  {
    if ops != [] {
      var s, op := After(ops[..|ops| - 1]), ops[|ops| - 1];
      LeakExact(ops[..|ops| - 1]);
      LeakStep(s, op);
      assert s.next in s.leaked + {s.next};
    }
  }

  /** So a fully matched run frees everything exactly when no open met a malformed archive. */
  lemma MatchedRunFreesAll(ops: seq<Op>)
    requires Legal(ops) && forall id: nat :: Balance(ops, id) == 0
    ensures After(ops).live == map[] <==> !MetMalformed(ops)
  {
    NothingLeft(ops);
    LeakExact(ops);
    if After(ops).leaked == {} {
      assert After(ops).live.Keys == {};
    }
  }
}
