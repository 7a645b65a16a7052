/** elf_strptr: from an offset in a string section to a byte of one of its descriptors.  There are
    two walks: one trusts the recorded d_off, the other recomputes the layout as it goes. */
module StrPtr {
  import opened Common
  import opened Arith
  import opened ElfTypes
  import Extents

  /** Descriptor index and byte within it. */
  type Place = (nat, nat)

  predicate Live(d: Data) {
    d.buf.Some? && d.size != 0
  }

  /** A result for the rest of the list, as a result for the list. */
  function Shift(r: Result<Place, Error>): Result<Place, Error> {
    match r
    case Ok((i, k)) => Ok((i + 1, k))
    case Err(e) => Err(e)
  }

  function FindByOff(data: seq<Data>, offset: nat): Result<Place, Error> {
    if data == [] then Err(Argument)
    else if !Live(data[0]) then Shift(FindByOff(data[1..], offset))
    else if data[0].dtype != Byte then Err(DataError)
    else if data[0].off <= offset < data[0].off + data[0].size then Ok((0, offset - data[0].off))
    else Shift(FindByOff(data[1..], offset))
  }

  function FindByCount(data: seq<Data>, offset: nat, count: nat): Result<Place, Error> {
    if data == [] || count > offset then Err(Argument)
    else if !Live(data[0]) then Shift(FindByCount(data[1..], offset, count))
    else if data[0].dtype != Byte then Err(DataError)
    else if data[0].align > 1 && !PassesPow2Test(data[0].align) then Err(DataError)
    else
      var at := if data[0].align > 1 then RoundUp(count, data[0].align) else count;
      if offset < at then Err(Argument)
      else if offset < at + data[0].size then Ok((0, offset - at))
      else Shift(FindByCount(data[1..], offset, at + data[0].size))
  }

  /** What is left to find after i descriptors. */
  ghost function ShiftBy(i: nat, r: Result<Place, Error>): Result<Place, Error> {
    match r
    case Ok((j, k)) => Ok((i + j, k))
    case Err(e) => Err(e)
  }

  method WalkByOff(data: seq<Data>, offset: nat) returns (r: Result<Place, Error>)
    ensures r == FindByOff(data, offset)
  {
    var i := 0;
    assert data[0..] == data;
    while i < |data|
      invariant 0 <= i <= |data|
      invariant FindByOff(data, offset) == ShiftBy(i, FindByOff(data[i..], offset))
    {
      var d := data[i];
      assert data[i..][1..] == data[i + 1..];
      if d.buf.Some? && d.size != 0 {
        if d.dtype != Byte {
          return Err(DataError);
        }
        if offset >= d.off && offset < d.off + d.size {
          return Ok((i, offset - d.off));
        }
      }
      i := i + 1;
    }
    r := Err(Argument);
  }

  method WalkByCount(data: seq<Data>, offset: nat) returns (r: Result<Place, Error>)
    ensures r == FindByCount(data, offset, 0)
  {
    var i, count := 0, 0;
    assert data[0..] == data;
    while i < |data| && count <= offset
      invariant 0 <= i <= |data| && 0 <= count
      invariant FindByCount(data, offset, 0) == ShiftBy(i, FindByCount(data[i..], offset, count))
    {
      var d := data[i];
      assert data[i..][1..] == data[i + 1..];
      if d.buf.Some? && d.size != 0 {
        if d.dtype != Byte {
          return Err(DataError);
        }
        if d.align > 1 {
          if !PassesPow2Test(d.align) {
            return Err(DataError);
          }
          count := RoundUp(count, d.align);
        }
        if offset < count {
          return Err(Argument);
        }
        if offset < count + d.size {
          return Ok((i, offset - count));
        }
        count := count + d.size;
      }
      i := i + 1;
    }
    r := Err(Argument);
  }

  function Lookup(s: Section, layout: bool, offset: nat): Result<Place, Error> {
    if s.shType != ShtStrTab || offset >= s.shSize then Err(Argument)
    else if layout then FindByOff(s.data, offset)
    else FindByCount(s.data, offset, 0)
  }

  method ElfStrPtr(s: Section, layout: bool, offset: nat) returns (r: Result<Place, Error>)
    ensures r == Lookup(s, layout, offset)
  {
    if s.shType != ShtStrTab || offset >= s.shSize {
      return Err(Argument);
    }
    if layout {
      r := WalkByOff(s.data, offset);
    } else {
      r := WalkByCount(s.data, offset);
    }
  }

  /** A section that is no string table, or an offset at or beyond its size, is refused whatever the flag. */
  lemma LookupRefused(s: Section, layout: bool, offset: nat)
    requires s.shType != ShtStrTab || s.shSize <= offset
    ensures Lookup(s, layout, offset) == Err(Argument)
  {
  }

  // ---- the application's layout: the recorded offsets decide ----

  /** Descriptor d settles a search by recorded offsets: it is of another type, or holds the offset. */
  predicate Settles(d: Data, offset: nat) {
    Live(d) && (d.dtype != Byte || d.off <= offset < d.off + d.size)
  }

  lemma {:induction false} FindByOffFirst(data: seq<Data>, offset: nat, i: nat)
    requires i <= |data| && forall j :: 0 <= j < i ==> !Settles(data[j], offset)
    ensures i == |data| ==> FindByOff(data, offset) == Err(Argument)
    ensures i < |data| && Settles(data[i], offset) ==>
              FindByOff(data, offset) ==
              if data[i].dtype != Byte then Err(DataError) else Ok((i, offset - data[i].off))
  {
    if data != [] && i > 0 {
      FindByOffFirst(data[1..], offset, i - 1);
    }
  }

  /** With the layout under the application's control the answer for an offset inside a string table is byte k
      of descriptor i exactly when that byte is recorded at the offset and no descriptor before i settles the
      search. */
  lemma RecordedExactly(s: Section, offset: nat, i: nat, k: nat)
    requires s.shType == ShtStrTab && offset < s.shSize
    ensures Lookup(s, true, offset) == Ok((i, k)) <==>
            && i < |s.data| && Live(s.data[i]) && s.data[i].dtype == Byte
            && k < s.data[i].size && s.data[i].off + k == offset
            && forall j :: 0 <= j < i ==> !Settles(s.data[j], offset)
  {
    FirstSettling(s.data, offset, 0);
    var m := First(s.data, offset, 0);
    FindByOffFirst(s.data, offset, m);
    if i < |s.data| && Settles(s.data[i], offset) && forall j :: 0 <= j < i ==> !Settles(s.data[j], offset) {
      assert m == i;
    }
  }

  /** The first descriptor from i on that settles the search, or the end. */
  function First(data: seq<Data>, offset: nat, i: nat): nat
    requires i <= |data|
    decreases |data| - i
  {
    if i == |data| || Settles(data[i], offset) then i else First(data, offset, i + 1)
  }

  lemma {:induction false} FirstSettling(data: seq<Data>, offset: nat, i: nat)
    requires i <= |data|
    ensures i <= First(data, offset, i) <= |data|
    ensures forall j :: i <= j < First(data, offset, i) ==> !Settles(data[j], offset)
    ensures First(data, offset, i) < |data| ==> Settles(data[First(data, offset, i)], offset)
    decreases |data| - i
  {
    if i < |data| && !Settles(data[i], offset) {
      FirstSettling(data, offset, i + 1);
    }
  }

  // ---- the library's layout: sizes and alignments decide ----

  /** A live descriptor the recomputing walk can use. */
  predicate Usable(d: Data) {
    d.dtype == Byte && (d.align > 1 ==> PassesPow2Test(d.align))
  }

  function UpTo(count: nat, align: nat): nat {
    if align > 1 then RoundUp(count, align) else count
  }

  /** Where the live descriptors before i end when each follows the one before at its own alignment. */
  function EndBefore(data: seq<Data>, i: nat): nat
    requires i <= |data|
  {
    if i == 0 then 0
    else if !Live(data[i - 1]) then EndBefore(data, i - 1)
    else UpTo(EndBefore(data, i - 1), data[i - 1].align) + data[i - 1].size
  }

  /** Where descriptor i then starts. */
  function StartOf(data: seq<Data>, i: nat): nat
    requires i < |data|
  {
    UpTo(EndBefore(data, i), data[i].align)
  }

  lemma UpToGrows(count: nat, align: nat)
    ensures count <= UpTo(count, align)
  {
    if align > 1 {
      RoundUpProps(count, align);
    }
  }

  lemma {:induction false} EndsGrow(data: seq<Data>, i: nat, j: nat)
    requires i <= j <= |data|
    ensures EndBefore(data, i) <= EndBefore(data, j)
    ensures i < j && Live(data[i]) ==> StartOf(data, i) + data[i].size <= EndBefore(data, j)
    decreases j
  {
    if i < j {
      UpToGrows(EndBefore(data, j - 1), data[j - 1].align);
      EndsGrow(data, i, j - 1);
    }
  }

  /** The walk has passed the first n descriptors without an answer. */
  ghost predicate Passed(data: seq<Data>, offset: nat, n: nat) {
    n <= |data| && EndBefore(data, n) <= offset && forall j :: 0 <= j < n && Live(data[j]) ==> Usable(data[j])
  }

  /** One turn of the walk, at descriptor n. */
  lemma CountTurn(data: seq<Data>, offset: nat, n: nat)
    requires n < |data| && EndBefore(data, n) <= offset
    ensures var rest := FindByCount(data[n..], offset, EndBefore(data, n));
            && (!Live(data[n]) ==> EndBefore(data, n + 1) == EndBefore(data, n))
            && (Live(data[n]) && !Usable(data[n]) ==> rest == Err(DataError))
            && (Live(data[n]) && Usable(data[n]) && offset < StartOf(data, n) ==> rest == Err(Argument))
            && (Live(data[n]) && Usable(data[n]) && StartOf(data, n) <= offset < StartOf(data, n) + data[n].size ==>
                  rest == Ok((0, offset - StartOf(data, n))))
            && (!Live(data[n]) || (Usable(data[n]) && StartOf(data, n) + data[n].size <= offset) ==>
                  rest == Shift(FindByCount(data[n + 1..], offset, EndBefore(data, n + 1))))
  {
    assert data[n..][0] == data[n] && data[n..][1..] == data[n + 1..];
  }

  /** After n descriptors the walk goes on with the rest. */
  lemma {:induction false} CountPasses(data: seq<Data>, offset: nat, n: nat)
    requires Passed(data, offset, n)
    ensures FindByCount(data, offset, 0) == ShiftBy(n, FindByCount(data[n..], offset, EndBefore(data, n)))
  {
    if n == 0 {
      assert data[0..] == data;
    } else {
      EndsGrow(data, n - 1, n);
      CountPasses(data, offset, n - 1);
      CountTurn(data, offset, n - 1);
    }
  }

  /** The byte at the offset when each live descriptor follows the one before at its own alignment. */
  ghost predicate Recomputed(data: seq<Data>, offset: nat, i: nat, k: nat) {
    && i < |data| && Live(data[i]) && k < data[i].size && StartOf(data, i) + k == offset
    && forall j :: 0 <= j <= i && Live(data[j]) ==> Usable(data[j])
  }

  lemma RecomputedFound(data: seq<Data>, offset: nat, i: nat, k: nat)
    requires Recomputed(data, offset, i, k)
    ensures FindByCount(data, offset, 0) == Ok((i, k))
  {
    UpToGrows(EndBefore(data, i), data[i].align);
    CountPasses(data, offset, i);
    CountTurn(data, offset, i);
  }

  /** Whatever the walk finds from descriptor n on is recomputed. */
  lemma {:induction false} FoundRecomputed(data: seq<Data>, offset: nat, n: nat, i: nat, k: nat)
    requires Passed(data, offset, n) && FindByCount(data[n..], offset, EndBefore(data, n)) == Ok((i, k))
    ensures Recomputed(data, offset, n + i, k)
    decreases |data| - n
  {
    CountTurn(data, offset, n);
    if !Live(data[n]) || (Usable(data[n]) && StartOf(data, n) + data[n].size <= offset) {
      FoundRecomputed(data, offset, n + 1, i - 1, k);
    }
  }

  /** Otherwise the answer for an offset inside a string table is byte k of descriptor i exactly when that byte
      is at the offset by sizes and alignments; the recorded offsets do not matter. */
  lemma RecomputedExactly(s: Section, offset: nat, i: nat, k: nat)
    requires s.shType == ShtStrTab && offset < s.shSize
    ensures Lookup(s, false, offset) == Ok((i, k)) <==> Recomputed(s.data, offset, i, k)
  {
    assert s.data[0..] == s.data;
    if Lookup(s, false, offset) == Ok((i, k)) {
      FoundRecomputed(s.data, offset, 0, i, k);
    }
    if Recomputed(s.data, offset, i, k) {
      RecomputedFound(s.data, offset, i, k);
    }
  }

  /** The same descriptors wherever they are recorded. */
  ghost predicate SameButPlaces(a: seq<Data>, b: seq<Data>) {
    |a| == |b| && forall i :: 0 <= i < |a| ==> a[i] == b[i].(off := a[i].off)
  }

  lemma {:induction false} PlacesIgnored(a: seq<Data>, b: seq<Data>, offset: nat, count: nat)
    requires SameButPlaces(a, b)
    ensures FindByCount(a, offset, count) == FindByCount(b, offset, count)
  {
    if a != [] && count <= offset {
      var at := UpTo(count, a[0].align);
      PlacesIgnored(a[1..], b[1..], offset, count);
      PlacesIgnored(a[1..], b[1..], offset, at + a[0].size);
    }
  }

  lemma LookupIgnoresPlaces(s: Section, data: seq<Data>, offset: nat)
    requires SameButPlaces(s.data, data)
    ensures Lookup(s, false, offset) == Lookup(s.(data := data), false, offset)
  {
    PlacesIgnored(s.data, data, offset, 0);
  }

  // ---- what the walk by d_off finds ----

  ghost predicate TidyOne(d: Data, start: nat) {
    && d.dtype == Byte && (d.size != 0 ==> d.buf.Some?)
    && PassesPow2Test(d.align) && Divides(d.align, d.off) && start <= d.off
  }

  /** Byte descriptors with a buffer unless empty, in order from `start`, aligned. */
  ghost predicate Tidy(data: seq<Data>, start: nat) {
    && (forall d :: d in data ==> TidyOne(d, start))
    && forall i, j :: 0 <= i < j < |data| ==> data[i].off + data[i].size <= data[j].off
  }

  lemma TidyTail(data: seq<Data>, start: nat)
    requires Tidy(data, start) && data != []
    ensures Tidy(data[1..], data[0].off + data[0].size)
  {
    forall d | d in data[1..] ensures TidyOne(d, data[0].off + data[0].size) {
      var j :| 0 <= j < |data[1..]| && data[1..][j] == d;
      assert d == data[j + 1] && TidyOne(d, start);
    }
  }

  lemma {:induction false} TooSmall(data: seq<Data>, start: nat, offset: nat)
    requires Tidy(data, start) && offset < start
    ensures FindByOff(data, offset) == Err(Argument)
  {
    if data != [] {
      assert TidyOne(data[0], start);
      TidyTail(data, start);
      TooSmall(data[1..], data[0].off + data[0].size, offset);
    }
  }

  /** The walk finds descriptor i, byte k, exactly when that byte is at the offset. */
  lemma {:induction false} FindByOffExact(data: seq<Data>, start: nat, offset: nat, i: nat, k: nat)
    requires Tidy(data, start)
    ensures FindByOff(data, offset) == Ok((i, k)) <==> i < |data| && k < data[i].size && data[i].off + k == offset
  {
    if data != [] {
      var d, rest := data[0], data[1..];
      assert TidyOne(d, start);
      if i > 0 {
        TidyTail(data, start);
        FindByOffExact(rest, d.off + d.size, offset, i - 1, k);
        if i < |data| {
          assert data[i] == rest[i - 1] && d.off + d.size <= data[i].off;
        }
      }
    }
  }

  /** An offset in no descriptor, such as padding, is refused. */
  lemma {:induction false} PaddingRefused(data: seq<Data>, start: nat, offset: nat)
    requires Tidy(data, start)
    ensures FindByOff(data, offset).Err? <==> forall d :: d in data ==> !(d.off <= offset < d.off + d.size)
    ensures FindByOff(data, offset).Err? ==> FindByOff(data, offset).error == Argument
  {
    if data != [] {
      var d := data[0];
      assert TidyOne(d, start);
      TidyTail(data, start);
      PaddingRefused(data[1..], d.off + d.size, offset);
      assert forall x :: x in data <==> x == d || x in data[1..];
    }
  }

  // ---- when the two walks agree ----

  /** Recomputing, descriptor by descriptor, arrives at the recorded offsets: after `count` bytes the
      next multiple of the descriptor's own alignment is where it was put. */
  ghost predicate SamePlaces(data: seq<Data>, count: nat)
    requires forall d :: d in data ==> d.align > 0
  {
    data == [] ||
    if data[0].size == 0 then SamePlaces(data[1..], count)
    else RoundUp(count, data[0].align) == data[0].off && SamePlaces(data[1..], data[0].off + data[0].size)
  }

  lemma RoundUpOne(x: nat)
    ensures RoundUp(x, 1) == x
  {
  }

  lemma {:induction false} SamePlacesAgree(data: seq<Data>, start: nat, count: nat, offset: nat)
    requires Tidy(data, start) && SamePlaces(data, count) && count <= start && count <= offset
    ensures FindByOff(data, offset) == FindByCount(data, offset, count)
  {
    if data != [] {
      var d := data[0];
      assert TidyOne(d, start);
      TidyTail(data, start);
      RoundUpOne(count);
      if d.size == 0 {
        SamePlacesAgree(data[1..], d.off + d.size, count, offset);
      } else if offset < d.off {
        TooSmall(data[1..], d.off + d.size, offset);
      } else if offset >= d.off + d.size {
        SamePlacesAgree(data[1..], d.off + d.size, d.off + d.size, offset);
      }
    }
  }

  /** Otherwise the first descriptor recomputed too early gives an offset on which they differ. */
  lemma {:induction false} OtherPlacesDiffer(data: seq<Data>, start: nat, count: nat) returns (offset: nat, late: Data)
    requires Tidy(data, start) && !SamePlaces(data, count) && count <= start
    ensures count <= offset && FindByOff(data, offset) != FindByCount(data, offset, count)
    ensures late in data && offset < late.off
  {
    var d := data[0];
    assert TidyOne(d, start);
    TidyTail(data, start);
    RoundUpOne(count);
    if d.size == 0 {
      offset, late := OtherPlacesDiffer(data[1..], d.off + d.size, count);
    } else if RoundUp(count, d.align) == d.off {
      offset, late := OtherPlacesDiffer(data[1..], d.off + d.size, d.off + d.size);
    } else {
      RoundUpProps(count, d.align);
      RoundUpLeast(count, d.align, d.off);
      offset, late := RoundUp(count, d.align), d;
      TooSmall(data[1..], d.off + d.size, offset);
    }
  }

  /** The alignment layout checks a string table's descriptors against. */
  function StringAlign(s: Section): nat {
    if s.shAlign == 0 then 1 else s.shAlign
  }

  lemma StringsChecked(s: Section, cfg: Config, rc: nat)
    requires s.shType == ShtStrTab && s.dirty && !cfg.layout && Extents.Extent(s, cfg, rc).Ok?
    ensures forall i :: 0 <= i < |s.data| ==>
              Extents.DescriptorError(s.data[i], Byte, cfg.version, StringAlign(s)).None?
    ensures var s' := Extents.Extent(s, cfg, rc).value.0;
            s'.shSize == Narrow(cfg.ec, s'.size) && s'.shType == s.shType
  {
    assert Extents.FirstError(s.data, Byte, cfg.version, StringAlign(s)).None?;
    Extents.NoErrors(s.data, Byte, cfg.version, StringAlign(s));
  }

  /** A section laid out by the library whose descriptors all have buffers unless empty. */
  ghost predicate LaidOutStrings(s: Section) {
    s.shType == ShtStrTab && s.shSize == s.size && Tidy(s.data, 0) && Extents.InOrder(s.data, s.size)
  }

  lemma LayoutMakesTidy(s: Section, cfg: Config, rc: nat)
    requires s.shType == ShtStrTab && s.dirty && !cfg.layout && Extents.Extent(s, cfg, rc).Ok?
    requires forall d :: d in s.data ==> d.size != 0 ==> d.buf.Some?
    requires cfg.ec.Class32? ==> Extents.Extent(s, cfg, rc).value.0.size < 0x1_0000_0000
    ensures LaidOutStrings(Extents.Extent(s, cfg, rc).value.0)
  {
    var s' := Extents.Extent(s, cfg, rc).value.0;
    StringsChecked(s, cfg, rc);
    Extents.LibraryPlacement(s, cfg, rc);
    PlacedTidy(s.data, s'.data, cfg.version, StringAlign(s), s'.size, s'.offset);
  }

  lemma PlacedTidy(data: seq<Data>, placed: seq<Data>, version: nat, shAlign: nat, size: nat, offset: nat)
    requires Extents.SameBut(data, placed) && Extents.InOrder(placed, size) && Extents.Aligned(placed, offset)
    requires shAlign > 0 &&
            forall i :: 0 <= i < |data| ==> Extents.DescriptorError(data[i], Byte, version, shAlign).None?
    requires forall d :: d in data ==> d.size != 0 ==> d.buf.Some?
    ensures Tidy(placed, 0)
  {
    forall d | d in placed ensures TidyOne(d, 0) {
      var i :| 0 <= i < |placed| && placed[i] == d;
      assert Extents.DescriptorError(data[i], Byte, version, shAlign).None? && data[i] in data;
    }
  }

  /** After library layout the recorded places are those of the bytes, padding excepted: the search by them finds
      byte k of descriptor i exactly when it is recorded at the offset. */
  lemma LaidOutRecorded(s: Section, offset: nat, i: nat, k: nat)
    requires LaidOutStrings(s)
    ensures Lookup(s, true, offset) == Ok((i, k)) <==>
            i < |s.data| && k < s.data[i].size && s.data[i].off + k == offset
  {
    FindByOffExact(s.data, 0, offset, i, k);
  }

  /** On a laid out string section the two walks give the same answer for every offset if and only if
      recomputing arrives at the recorded offsets. */
  lemma WalksAgreeExactly(s: Section)
    requires LaidOutStrings(s)
    ensures (forall offset: nat :: Lookup(s, true, offset) == Lookup(s, false, offset)) <==> SamePlaces(s.data, 0)
  {
    if SamePlaces(s.data, 0) {
      forall offset: nat ensures Lookup(s, true, offset) == Lookup(s, false, offset) {
        SamePlacesAgree(s.data, 0, 0, offset);
      }
    } else {
      var offset, late := OtherPlacesDiffer(s.data, 0, 0);
      assert offset < s.shSize;
      assert Lookup(s, true, offset) != Lookup(s, false, offset);
    }
  }

  lemma {:induction false} UniformPlaces(data: seq<Data>, a: nat, start: nat, count: nat)
    requires a > 0 && (forall d :: d in data ==> d.align == a) && RoundUp(start, a) == RoundUp(count, a)
    ensures forall d :: d in Extents.Place(data, a, start).0 ==> d.align > 0
    ensures SamePlaces(Extents.Place(data, a, start).0, count)
  {
    if data != [] {
      var d, off := data[0], RoundUp(start, a);
      assert d in data;
      var rest := Extents.Place(data[1..], a, off + d.size).0;
      var placed := [d.(off := off)] + rest;
      assert placed[1..] == rest;
      if d.size == 0 {
        RoundUpProps(start, a);
        RoundUpProps(off, a);
        UniformPlaces(data[1..], a, off + d.size, count);
      } else {
        UniformPlaces(data[1..], a, off + d.size, off + d.size);
      }
    }
  }

  /** With one alignment throughout, layout and recomputation coincide. */
  lemma UniformAgrees(s: Section, cfg: Config, rc: nat, a: nat, offset: nat)
    requires s.shType == ShtStrTab && s.dirty && !cfg.layout && Extents.Extent(s, cfg, rc).Ok?
    requires forall d :: d in s.data ==> d.align == a && (d.size != 0 ==> d.buf.Some?)
    requires cfg.ec.Class32? ==> Extents.Extent(s, cfg, rc).value.0.size < 0x1_0000_0000
    ensures var s' := Extents.Extent(s, cfg, rc).value.0;
            Lookup(s', true, offset) == Lookup(s', false, offset)
  {
    var s' := Extents.Extent(s, cfg, rc).value.0;
    LayoutMakesTidy(s, cfg, rc);
    if s.data == [] {
      assert s'.data == [];
    } else {
      var shAlign := if s.shAlign == 0 then 1 else s.shAlign;
      Extents.MaxAlignPositive(s.data, Byte, cfg.version, shAlign, 0);
      Extents.MaxAlignGe(s.data, 0);
      assert Extents.MaxAlign(s.data, 0) == a;
      UniformPlaces(s.data, a, 0, 0);
    }
    WalksAgreeExactly(s');
  }

  lemma MixedPlaces(a: Data, b: Data)
    requires a.size == 1 && b.size == 4
    ensures Extents.Place([a, a, b], 4, 0).0 == [a.(off := 0), a.(off := 4), b.(off := 8)]
  {
    assert RoundUp(0, 4) == 0 && RoundUp(1, 4) == 4 && RoundUp(5, 4) == 8;
    PlaceOne(b, [], 4, 5);
    PlaceOne(a, [b], 4, 1);
    PlaceOne(a, [a, b], 4, 0);
    assert [b] + [] == [b] && [a] + [b] == [a, b] && [a] + [a, b] == [a, a, b];
  }

  /** With alignments 1, 1 and 4 the library puts the second string at offset 4, where the
      recomputing walk finds the third. */
  lemma MixedAlignmentsDiffer(a: Data, b: Data)
    requires a.dtype == Byte && a.align == 1 && a.size == 1 && a.buf.Some?
    requires b.dtype == Byte && b.align == 4 && b.size == 4 && b.buf.Some?
    ensures var data := Extents.Place([a, a, b], 4, 0).0;
            FindByOff(data, 4) == Ok((1, 0)) && FindByCount(data, 4, 0) == Ok((2, 0))
  {
    MixedPlaces(a, b);
    MixedFinds(a.(off := 0), a.(off := 4), b.(off := 8));
  }

  lemma MixedFinds(a0: Data, a1: Data, b2: Data)
    requires a0.dtype == a1.dtype == Byte && a0.align == a1.align == 1 && a0.size == a1.size == 1
    requires a0.buf.Some? && a1.buf.Some? && a0.off == 0 && a1.off == 4
    requires b2.dtype == Byte && b2.align == 4 && b2.size == 4 && b2.buf.Some?
    ensures FindByOff([a0, a1, b2], 4) == Ok((1, 0)) && FindByCount([a0, a1, b2], 4, 0) == Ok((2, 0))
  {
    assert [a0, a1, b2][1..] == [a1, b2] && [a1, b2][1..] == [b2];
    assert FindByOff([a1, b2], 4) == Ok((0, 0));
    assert RoundUp(2, 4) == 4;
    assert PassesPow2Test(4) by {
      assert And(2, 1) == 0;
    }
    assert FindByCount([b2], 4, 2) == Ok((0, 0));
    assert FindByCount([a1, b2], 4, 1) == Ok((1, 0));
  }

  lemma PlaceOne(d: Data, rest: seq<Data>, align: nat, start: nat)
    requires align > 0
    ensures Extents.Place([d] + rest, align, start).0 ==
            [d.(off := RoundUp(start, align))] + Extents.Place(rest, align, RoundUp(start, align) + d.size).0
  {
    assert ([d] + rest)[1..] == rest;
  }
}
