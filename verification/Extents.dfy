/** _libelf_compute_section_extents: places a section's data descriptors and the section itself. */
module Extents {
  import opened Common
  import opened Arith
  import opened ElfTypes
  import opened Stailq

  // ---- descriptor checks and placement, as functions of the descriptor list ----

  /** The first check a descriptor fails, in the order the checks are made. */
  function DescriptorError(d: Data, t: ElfType, version: nat, shAlign: nat): Option<Error>
    requires shAlign > 0
  {
    if d.dtype != t then Some(DataError)
    else if d.version != version then Some(Version)
    else if d.align % shAlign != 0 then Some(LayoutError)
    else if !PassesPow2Test(d.align) then Some(DataError)
    else None
  }

  function FirstError(data: seq<Data>, t: ElfType, version: nat, shAlign: nat): Option<Error>
    requires shAlign > 0
  {
    if data == [] then None
    else
      var e := DescriptorError(data[0], t, version, shAlign);
      if e.Some? then e else FirstError(data[1..], t, version, shAlign)
  }

  function MaxAlign(data: seq<Data>, sofar: nat): nat {
    if data == [] then sofar else MaxAlign(data[1..], Max(sofar, data[0].align))
  }

  /** Library placement: each descriptor starts at the next multiple of the section alignment. */
  function Place(data: seq<Data>, align: nat, start: nat): (r: (seq<Data>, nat))
    requires data != [] ==> align > 0
  {
    if data == [] then ([], start)
    else
      var off := RoundUp(start, align);
      var rest := Place(data[1..], align, off + data[0].size);
      ([data[0].(off := off)] + rest.0, rest.1)
  }

  /** Application placement: the section must reach the end of its furthest descriptor. */
  function Reach(data: seq<Data>, sofar: nat): nat {
    if data == [] then sofar else Reach(data[1..], Max(sofar, data[0].off + data[0].size))
  }

  function EntSize(shEntsize: nat, entry: nat): nat {
    if shEntsize != 0 then shEntsize else if entry == 1 then 0 else entry
  }

  /** The effect of the whole function on a section and on the running file size. */
  function Extent(s: Section, cfg: Config, rc: nat): Result<(Section, nat), Error> {
    if !s.Occupies() then Ok((s, rc))
    else if !s.dirty then Ok((s, Max(rc, s.shOffset + s.shSize)))
    else
      match XlateShType(s.shType)
      case None => Err(SectionError)
      case Some(t) =>
        var shAlign := if s.shAlign == 0 then FileAlign(t, cfg.ec) else s.shAlign;
        FileAlignPositive(s.shType, cfg.ec);
        match FirstError(s.data, t, cfg.version, shAlign)
        case Some(e) => Err(e)
        case None =>
          var scnAlign := MaxAlign(s.data, 0);
          if cfg.layout then
            if scnAlign > shAlign || s.shOffset % shAlign != 0 || s.shSize < Reach(s.data, 0) then
              Err(LayoutError)
            else
              Ok((s.(offset := s.shOffset, size := s.shSize), Max(rc, s.shOffset + s.shSize)))
          else
            MaxAlignPositive(s.data, t, cfg.version, shAlign, 0);
            var s' := LibraryExtent(s, cfg, shAlign, cfg.entry(t), rc);
            Ok((s', Max(rc, s'.End())))
  }

  /** The section as the library lays it out from file offset rc on. */
  function LibraryExtent(s: Section, cfg: Config, shAlign: nat, entry: nat, rc: nat): Section
    requires shAlign > 0
    requires s.data != [] ==> MaxAlign(s.data, 0) > 0
  {
    var (data, size) := Place(s.data, MaxAlign(s.data, 0), 0);
    var align := Max(shAlign, MaxAlign(s.data, 0));
    var offset := RoundUp(rc, align);
    s.(shAlign := Narrow(cfg.ec, align),
       shEntsize := Narrow(cfg.ec, EntSize(s.shEntsize, entry)),
       shOffset := Narrow(cfg.ec, offset),
       shSize := Narrow(cfg.ec, size),
       offset := offset, size := size, data := data)
  }

  /** The alignment the library gives a section's start: the larger of the header's alignment, left to the
      section's type when zero, and the largest descriptor alignment. */
  function StartAlign(s: Section, ec: Class): nat
    requires XlateShType(s.shType).Some?
  {
    Max(if s.shAlign == 0 then FileAlign(XlateShType(s.shType).value, ec) else s.shAlign, MaxAlign(s.data, 0))
  }

  lemma LibraryStart(s: Section, cfg: Config, rc: nat)
    requires s.Occupies() && s.dirty && !cfg.layout && Extent(s, cfg, rc).Ok?
    ensures StartAlign(s, cfg.ec) > 0 && Extent(s, cfg, rc).value.0.offset == RoundUp(rc, StartAlign(s, cfg.ec))
  {
    FileAlignPositive(s.shType, cfg.ec);
  }

  lemma FileAlignPositive(t: ShType, ec: Class)
    ensures XlateShType(t).Some? ==> FileAlign(XlateShType(t).value, ec) > 0
  {
  }

  lemma {:induction false} MaxAlignGe(data: seq<Data>, sofar: nat)
    ensures MaxAlign(data, sofar) >= sofar
    ensures forall i :: 0 <= i < |data| ==> data[i].align <= MaxAlign(data, sofar)
    ensures MaxAlign(data, sofar) == sofar || exists i :: 0 <= i < |data| && data[i].align == MaxAlign(data, sofar)
  {
    if data != [] {
      MaxAlignGe(data[1..], Max(sofar, data[0].align));
    }
  }

  lemma {:induction false} NoErrors(data: seq<Data>, t: ElfType, version: nat, shAlign: nat)
    requires shAlign > 0
    ensures FirstError(data, t, version, shAlign).None? <==>
            forall i :: 0 <= i < |data| ==> DescriptorError(data[i], t, version, shAlign).None?
  {
    if data != [] {
      NoErrors(data[1..], t, version, shAlign);
      assert data == [data[0]] + data[1..];
    }
  }

  lemma MaxAlignPositive(data: seq<Data>, t: ElfType, version: nat, shAlign: nat, sofar: nat)
    requires shAlign > 0 && FirstError(data, t, version, shAlign).None?
    ensures data != [] ==> MaxAlign(data, sofar) > 0
  {
    NoErrors(data, t, version, shAlign);
    MaxAlignGe(data, sofar);
    if data != [] {
      assert DescriptorError(data[0], t, version, shAlign).None?;
    }
  }

  // ---- the function itself ----

  /** The checking pass over the descriptors. */
  method CheckDescriptors(data: seq<Data>, t: ElfType, version: nat, shAlign: nat)
    returns (err: Option<Error>, scnAlign: nat)
    requires shAlign > 0
    ensures err == FirstError(data, t, version, shAlign)
    ensures err.None? ==> scnAlign == MaxAlign(data, 0)
  {
    scnAlign := 0;
    var i := 0;
    while i < |data|
      invariant 0 <= i <= |data|
      invariant FirstError(data, t, version, shAlign) == FirstError(data[i..], t, version, shAlign)
      invariant MaxAlign(data, 0) == MaxAlign(data[i..], scnAlign)
    {
      var d := data[i];
      assert data[i..][1..] == data[i + 1..];
      if d.dtype != t {
        return Some(DataError), scnAlign;
      }
      if d.version != version {
        return Some(Version), scnAlign;
      }
      if d.align % shAlign != 0 {
        return Some(LayoutError), scnAlign;
      }
      if !PassesPow2Test(d.align) {
        return Some(DataError), scnAlign;
      }
      if d.align > scnAlign {
        scnAlign := d.align;
      }
      i := i + 1;
    }
    err := None;
  }

  /** With descriptors 0..i placed, placing the rest completes the whole. */
  ghost predicate Placing(data: seq<Data>, placed: seq<Data>, i: nat, align: nat, size: nat) {
    && i <= |data| == |placed| && placed[i..] == data[i..] && (data != [] ==> align > 0)
    && var rest := Place(data[i..], align, size);
       Place(data, align, 0).0 == placed[..i] + rest.0 && Place(data, align, 0).1 == rest.1
  }

  lemma PlacingStep(data: seq<Data>, placed: seq<Data>, i: nat, align: nat, size: nat)
    requires Placing(data, placed, i, align, size) && i < |data|
    ensures placed[i] == data[i]
    ensures var off := RoundUp(size, align);
            Placing(data, placed[i := data[i].(off := off)], i + 1, align, off + data[i].size)
  {
    assert placed[i] == placed[i..][0] == data[i..][0];
    var off := RoundUp(size, align);
    var now := placed[i := data[i].(off := off)];
    assert data[i..][1..] == data[i + 1..];
    assert now[i + 1..] == placed[i..][1..];
    var rest := Place(data[i + 1..], align, off + data[i].size);
    assert placed[..i] + ([now[i]] + rest.0) == now[..i + 1] + rest.0;
  }

  /** The header values the library computes, and the section's new place. */
  method StoreHeader(s0: Section, cfg: Config, shAlign0: nat, scnAlign: nat, scnSize: nat, entry: nat, rc: nat)
    returns (s: Section, shOffset: nat, shSize: nat)
    requires shAlign0 > 0
    ensures var align := Max(shAlign0, scnAlign);
            && shOffset == RoundUp(rc, align) && shSize == scnSize
            && s == s0.(shAlign := Narrow(cfg.ec, align), shEntsize := Narrow(cfg.ec, EntSize(s0.shEntsize, entry)),
                        shOffset := Narrow(cfg.ec, shOffset), shSize := Narrow(cfg.ec, shSize))
  {
    var shAlign := shAlign0;
    if scnAlign > shAlign {
      shAlign := scnAlign;
    }
    var entsize := s0.shEntsize;
    if entsize == 0 {
      entsize := entry;
      if entsize == 1 {
        entsize := 0;
      }
    }
    shSize := scnSize;
    shOffset := RoundUp(rc, shAlign);
    s := s0.(shAlign := Narrow(cfg.ec, shAlign), shEntsize := Narrow(cfg.ec, entsize),
             shOffset := Narrow(cfg.ec, shOffset), shSize := Narrow(cfg.ec, shSize));
  }

  /** The placing pass: sets d_off when the library does the layout, and sizes the section. */
  method PlaceDescriptors(data: seq<Data>, scnAlign: nat, layout: bool) returns (placed: seq<Data>, scnSize: nat)
    requires !layout && data != [] ==> scnAlign > 0
    ensures layout ==> placed == data && scnSize == Reach(data, 0)
    ensures !layout ==> placed == Place(data, scnAlign, 0).0 && scnSize == Place(data, scnAlign, 0).1
  {
    placed, scnSize := data, 0;
    var i := 0;
    assert data[0..] == data;
    while i < |data|
      invariant 0 <= i <= |data| == |placed|
      invariant layout ==> placed == data && Reach(data, 0) == Reach(data[i..], scnSize)
      invariant !layout ==> Placing(data, placed, i, scnAlign, scnSize)
    {
      var d := placed[i];
      if layout {
        assert data[i..][1..] == data[i + 1..];
        if d.off + d.size > scnSize {
          scnSize := d.off + d.size;
        }
      } else {
        PlacingStep(data, placed, i, scnAlign, scnSize);
        scnSize := RoundUp(scnSize, scnAlign);
        placed := placed[i := d.(off := scnSize)];
        scnSize := scnSize + d.size;
      }
      i := i + 1;
    }
    assert placed[..i] + [] == placed;
  }

  method ComputeSectionExtents(n: Node<Section>, cfg: Config, rc: nat) returns (r: Result<nat, Error>)
    modifies n`item
    ensures match Extent(old(n.item), cfg, rc)
            case Ok((s, rc')) => r == Ok(rc') && n.item == s
            case Err(e) => r == Err(e) && n.item == old(n.item)
  {
    var s := n.item;
    if s.shType.ShtNull? || s.shType.ShtNoBits? {
      return Ok(rc);
    }
    if !s.dirty {
      return Ok(if rc < s.shOffset + s.shSize then s.shOffset + s.shSize else rc);
    }
    var t := XlateShType(s.shType);
    if t.None? {
      return Err(SectionError);
    }
    var shAlign, shOffset, shSize := s.shAlign, s.shOffset, s.shSize;
    FileAlignPositive(s.shType, cfg.ec);
    if shAlign == 0 {
      shAlign := FileAlign(t.value, cfg.ec);
    }
    var err, scnAlign := CheckDescriptors(s.data, t.value, cfg.version, shAlign);
    if err.Some? {
      return Err(err.value);
    }
    MaxAlignPositive(s.data, t.value, cfg.version, shAlign, 0);
    var data, scnSize := PlaceDescriptors(s.data, scnAlign, cfg.layout);
    if cfg.layout {
      if scnAlign > shAlign || shOffset % shAlign != 0 || shSize < scnSize {
        return Err(LayoutError);
      }
    } else {
      s, shOffset, shSize := StoreHeader(s, cfg, shAlign, scnAlign, scnSize, cfg.entry(t.value), rc);
    }
    var rc' := if rc < shOffset + shSize then shOffset + shSize else rc;
    n.item := s.(size := shSize, offset := shOffset, data := data);
    r := Ok(rc');
  }

  // ---- what the placement guarantees ----

  /** Descriptors lie in list order, do not overlap, and the last one ends at `size`. */
  ghost predicate InOrder(data: seq<Data>, size: nat) {
    && (forall i, j :: 0 <= i < j < |data| ==> data[i].off + data[i].size <= data[j].off)
    && (forall i :: 0 <= i < |data| ==> data[i].off + data[i].size <= size)
    && (data != [] ==> size == data[|data| - 1].off + data[|data| - 1].size)
  }

  /** Only `off` may differ. */
  ghost predicate SameBut(a: seq<Data>, b: seq<Data>) {
    |a| == |b| && forall i :: 0 <= i < |a| ==> b[i] == a[i].(off := b[i].off)
  }

  lemma {:induction false} PlaceProps(data: seq<Data>, align: nat, start: nat)
    requires align > 0
    ensures var (placed, end) := Place(data, align, start);
            && SameBut(data, placed)
            && InOrder(placed, end)
            && (data == [] ==> end == start)
            && start <= end
            && forall i :: 0 <= i < |placed| ==> Divides(align, placed[i].off) && start <= placed[i].off
  {
    if data != [] {
      var off := RoundUp(start, align);
      RoundUpProps(start, align);
      PlaceProps(data[1..], align, off + data[0].size);
    }
  }

  /** Every descriptor is aligned, in its section and in the file. */
  ghost predicate Aligned(data: seq<Data>, offset: nat) {
    forall i :: 0 <= i < |data| ==>
      && data[i].align > 0
      && Divides(data[i].align, data[i].off)
      && Divides(data[i].align, offset + data[i].off)
  }

  lemma PlacedAligned(data: seq<Data>, align: nat, offset: nat, start: nat)
    requires PassesPow2Test(align) && Divides(align, offset)
    requires forall i :: 0 <= i < |data| ==> PassesPow2Test(data[i].align) && data[i].align <= align
    ensures Aligned(Place(data, align, start).0, offset)
  {
    var placed := Place(data, align, start).0;
    PlaceProps(data, align, start);
    forall i | 0 <= i < |placed|
      ensures && placed[i].align > 0
              && Divides(placed[i].align, placed[i].off)
              && Divides(placed[i].align, offset + placed[i].off)
    {
      SmallerAlignDivides(data[i].align, align);
      DividesTrans(data[i].align, align, placed[i].off);
      DividesTrans(data[i].align, align, offset);
      DividesSum(data[i].align, offset, placed[i].off);
    }
  }

  /** A section the library has laid out: every descriptor sits inside the section, clear of the
      others, and both its offset in the section and its offset in the file are multiples of
      its own alignment; the section starts at or after the previous end of file. */
  ghost predicate LaidOut(s: Section, s': Section, rc: nat) {
    && SameBut(s.data, s'.data)
    && InOrder(s'.data, s'.size)
    && Aligned(s'.data, s'.offset)
    && rc <= s'.offset
  }

  lemma LibraryExtentProps(s: Section, cfg: Config, t: ElfType, shAlign: nat, entry: nat, rc: nat)
    requires shAlign > 0 && FirstError(s.data, t, cfg.version, shAlign).None?
    requires s.data != [] ==> MaxAlign(s.data, 0) > 0
    ensures LaidOut(s, LibraryExtent(s, cfg, shAlign, entry, rc), rc)
  {
    var scnAlign := MaxAlign(s.data, 0);
    var align := Max(shAlign, scnAlign);
    RoundUpProps(rc, align);
    if s.data != [] {
      NoErrors(s.data, t, cfg.version, shAlign);
      MaxAlignGe(s.data, 0);
      assert forall i :: 0 <= i < |s.data| ==> DescriptorError(s.data[i], t, cfg.version, shAlign).None?;
      var m :| 0 <= m < |s.data| && s.data[m].align == scnAlign;
      AlignmentsAgree(shAlign, scnAlign);
      PlaceProps(s.data, scnAlign, 0);
      PlacedAligned(s.data, scnAlign, RoundUp(rc, align), 0);
    }
  }

  lemma LibraryPlacement(s: Section, cfg: Config, rc: nat)
    requires s.Occupies() && s.dirty && !cfg.layout
    requires Extent(s, cfg, rc).Ok?
    ensures var (s', rc') := Extent(s, cfg, rc).value;
            LaidOut(s, s', rc) && rc' == s'.End()
  {
    var t := XlateShType(s.shType).value;
    var shAlign := if s.shAlign == 0 then FileAlign(t, cfg.ec) else s.shAlign;
    FileAlignPositive(s.shType, cfg.ec);
    MaxAlignPositive(s.data, t, cfg.version, shAlign, 0);
    LibraryExtentProps(s, cfg, t, shAlign, cfg.entry(t), rc);
  }

  /** The header of a section the library lays out says where the section lies, how large it is and how it is
      aligned, in fields of the class's width.  An entry size that is set is kept, one that is not is that of
      the type, or none for single bytes. */
  lemma HeaderAnnounces(s: Section, cfg: Config, rc: nat)
    requires s.Occupies() && s.dirty && !cfg.layout && Extent(s, cfg, rc).Ok?
    ensures XlateShType(s.shType).Some?
    ensures var s' := Extent(s, cfg, rc).value.0;
            var entry := cfg.entry(XlateShType(s.shType).value);
            && s'.shOffset == Narrow(cfg.ec, s'.offset) && s'.shSize == Narrow(cfg.ec, s'.size)
            && s'.shAlign == Narrow(cfg.ec, StartAlign(s, cfg.ec)) && s'.shLink == s.shLink && s'.shInfo == s.shInfo
            && (s.shEntsize != 0 ==> s'.shEntsize == Narrow(cfg.ec, s.shEntsize))
            && (s.shEntsize == 0 ==> s'.shEntsize == if entry == 1 then 0 else Narrow(cfg.ec, entry))
  {
    FileAlignPositive(s.shType, cfg.ec);
  }

  /** In every other case the header is as it was, and what the application placed lies where its header
      says. */
  lemma HeaderKept(s: Section, cfg: Config, rc: nat)
    requires Extent(s, cfg, rc).Ok? && (!s.Occupies() || !s.dirty || cfg.layout)
    ensures var s' := Extent(s, cfg, rc).value.0;
            && s' == s.(offset := s'.offset, size := s'.size)
            && (s.Occupies() && s.dirty ==> s'.offset == s.shOffset && s'.size == s.shSize)
            && (!s.Occupies() || !s.dirty ==> s' == s)
  {
  }

  // ---- what layout accepts ----

  /** A descriptor of the section's type and version, aligned to a power of two that suits the section. */
  ghost predicate Suits(d: Data, t: ElfType, version: nat, shAlign: nat) {
    d.dtype == t && d.version == version && shAlign > 0 && Divides(shAlign, d.align) && IsPow2(d.align)
  }

  lemma SuitsExactly(d: Data, t: ElfType, version: nat, shAlign: nat)
    requires shAlign > 0
    ensures DescriptorError(d, t, version, shAlign).None? <==> Suits(d, t, version, shAlign)
  {
    Pow2TestExact(d.align);
  }

  /** The application's section holds its descriptors: it reaches the furthest end of any. */
  lemma {:induction false} ReachExact(data: seq<Data>, sofar: nat, size: nat)
    ensures Reach(data, sofar) <= size <==> sofar <= size && forall d :: d in data ==> d.off + d.size <= size
  {
    if data != [] {
      ReachExact(data[1..], Max(sofar, data[0].off + data[0].size), size);
      assert forall d :: d in data <==> d == data[0] || d in data[1..];
    }
  }

  /** The largest descriptor alignment is within bound exactly when each is. */
  lemma MaxAlignBound(data: seq<Data>, bound: nat)
    ensures MaxAlign(data, 0) <= bound <==> forall d :: d in data ==> d.align <= bound
  {
    MaxAlignGe(data, 0);
    forall d | d in data ensures d.align <= MaxAlign(data, 0) {
      var i :| 0 <= i < |data| && data[i] == d;
    }
    assert forall i :: 0 <= i < |data| ==> data[i] in data;
  }

  /** What the application must have got right about a section it lays out itself. */
  ghost predicate SelfLaid(s: Section, shAlign: nat) {
    && shAlign > 0 && Divides(shAlign, s.shOffset)
    && forall d :: d in s.data ==> d.align <= shAlign && d.off + d.size <= s.shSize
  }

  /** Exactly which dirty sections layout accepts. */
  lemma AcceptsExactly(s: Section, cfg: Config, rc: nat)
    requires s.Occupies() && s.dirty
    ensures Extent(s, cfg, rc).Ok? <==>
            && XlateShType(s.shType).Some?
            && var t := XlateShType(s.shType).value;
               var shAlign := if s.shAlign == 0 then FileAlign(t, cfg.ec) else s.shAlign;
               && (forall d :: d in s.data ==> Suits(d, t, cfg.version, shAlign))
               && (cfg.layout ==> SelfLaid(s, shAlign))
  {
    FileAlignPositive(s.shType, cfg.ec);
    if XlateShType(s.shType).Some? {
      var t := XlateShType(s.shType).value;
      var shAlign := if s.shAlign == 0 then FileAlign(t, cfg.ec) else s.shAlign;
      AllSuit(s.data, t, cfg.version, shAlign);
      MaxAlignBound(s.data, shAlign);
      ReachExact(s.data, 0, s.shSize);
    }
  }

  lemma AllSuit(data: seq<Data>, t: ElfType, version: nat, shAlign: nat)
    requires shAlign > 0
    ensures FirstError(data, t, version, shAlign).None? <==> forall d :: d in data ==> Suits(d, t, version, shAlign)
  {
    NoErrors(data, t, version, shAlign);
    forall d ensures DescriptorError(d, t, version, shAlign).None? <==> Suits(d, t, version, shAlign) {
      SuitsExactly(d, t, version, shAlign);
    }
    assert forall i :: 0 <= i < |data| ==> data[i] in data;
  }

  /** The error reported is that of the first descriptor with one. */
  lemma {:induction false} FirstErrorExact(data: seq<Data>, t: ElfType, version: nat, shAlign: nat, i: nat)
    requires shAlign > 0 && i < |data| && !Suits(data[i], t, version, shAlign)
    requires forall j :: 0 <= j < i ==> Suits(data[j], t, version, shAlign)
    ensures FirstError(data, t, version, shAlign) ==
            Some(if data[i].dtype == t && data[i].version != version then Version
                 else if data[i].dtype == t && !Divides(shAlign, data[i].align) then LayoutError
                 else DataError)
  {
    SuitsExactly(data[0], t, version, shAlign);
    if i > 0 {
      FirstErrorExact(data[1..], t, version, shAlign, i - 1);
    }
  }

  /** A header alignment that divides the section's alignment cannot exceed it. */
  lemma AlignmentsAgree(shAlign: nat, scnAlign: nat)
    requires shAlign > 0 && scnAlign > 0 && scnAlign % shAlign == 0
    ensures Max(shAlign, scnAlign) == scnAlign
  {
    DivMod(scnAlign, shAlign);
    MulGap(scnAlign / shAlign, shAlign);
  }

  /** In every case a successful call leaves the section's type, index and raw position alone and
      never lowers the running size. */
  lemma ExtentFrame(s: Section, cfg: Config, rc: nat)
    requires Extent(s, cfg, rc).Ok?
    ensures var (s', rc') := Extent(s, cfg, rc).value;
            && s'.ndx == s.ndx && s'.shType == s.shType && s'.dirty == s.dirty && s'.rawOff == s.rawOff
            && rc <= rc'
            && (s.Occupies() && (s.dirty || (s.offset == s.shOffset && s.size == s.shSize)) ==>
                  rc' == Max(rc, s'.End()))
            && (!s.Occupies() ==> s' == s && rc' == rc)
  {
  }
}
