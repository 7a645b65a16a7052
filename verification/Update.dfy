/** elf_update: lay an object out (_libelf_resync_elf) and build its file image
    (_libelf_write_scn, _libelf_write_elf). */
module Update {
  import opened Common
  import opened Arith
  import opened ElfTypes
  import opened ElfObject
  import Resync
  import Extended

  // ---- layout ----

  /** The values layout starts from. */
  datatype View = View(ec: Class, version: nat, layout: bool, forWrite: bool, byteorder: nat, ehdr: Ehdr,
                       nphdr: nat, nscn: nat)

  ghost function ViewOf(e: Elf): View
    reads e
  {
    View(e.ec, e.version, e.layout, e.forWrite, e.byteorder, e.ehdr, e.nphdr, e.nscn)
  }

  function CheckHeader(v: View): Option<Error> {
    var ehVersion := if v.ehdr.version == EV_NONE then EV_CURRENT else v.ehdr.version;
    if ehVersion != v.version then Some(Version)
    else if v.ehdr.cls != v.ec then Some(ClassError)
    else if !v.forWrite && v.ehdr.encoding != v.byteorder then Some(Header)
    else None
  }

  /** Where a header table of `size` bytes goes: at the next aligned offset, or where the
      application says, if that is possible. */
  function PlaceTable(present: bool, rc: nat, asked: nat, align: nat, size: nat, layout: bool)
    : Result<(nat, nat), Error>
    requires align > 0
  {
    if !present then Ok((0, rc))
    else if !layout then Ok((RoundUp(rc, align), RoundUp(rc, align) + size))
    else if rc > asked then Err(Header)
    else if asked % align != 0 then Err(LayoutError)
    else Ok((asked, asked + size))
  }

  /** Offset of the program header table and the end of the headers. */
  function HeaderEnd(v: View): Result<(nat, nat), Error> {
    PlaceTable(v.nphdr != 0, EhdrSize(v.ec), v.ehdr.phoff, FileAlign(PhdrT, v.ec), PhdrSize(v.ec) * v.nphdr, v.layout)
  }

  function TableEnd(v: View, rc: nat): Result<(nat, nat), Error> {
    PlaceTable(v.nscn != 0, rc, v.ehdr.shoff, FileAlign(ShdrT, v.ec), ShdrSize(v.ec) * v.nscn, v.layout)
  }

  function ConfigOf(v: View, entry: ElfType -> nat): Config {
    Config(v.ec, v.version, v.layout, entry)
  }

  function InitHeader(v: View): Ehdr {
    v.ehdr.(cls := v.ec, ehsize := EhdrSize(v.ec), phentsize := PhdrSize(v.ec), shentsize := ShdrSize(v.ec))
  }

  function FinalHeader(v: View, h: Ehdr, phoff: nat, shoff: nat): Ehdr {
    if v.layout then h else h.(phoff := Narrow(v.ec, phoff), shoff := Narrow(v.ec, shoff))
  }

  /** Header checks and placement of the program header table. */
  function StartSpec(v: View): Result<(nat, nat), Error> {
    match CheckHeader(v)
    case Some(err) => Err(err)
    case None => HeaderEnd(v)
  }

  /** Placement of the section header table and the final header fields. */
  function FinishSpec(v: View, phoff: nat, out: seq<Section>, end: nat): Result<(Ehdr, seq<Section>, nat), Error> {
    match TableEnd(v, end)
    case Err(err) => Err(err)
    case Ok((shoff, size)) =>
      var st := Extended.SetShNum(Extended.SetPhNum((InitHeader(v), out), v.nphdr), v.ec, v.nscn);
      Ok((FinalHeader(v, st.0, phoff, shoff), st.1, size))
  }

  function ResyncElfSpec(v: View, items: seq<Section>, entry: ElfType -> nat)
    : Result<(Ehdr, seq<Section>, nat), Error>
  {
    match StartSpec(v)
    case Err(err) => Err(err)
    case Ok((phoff, base)) =>
      match Resync.ResyncSpec(items, ConfigOf(v, entry), base)
      case Err(err) => Err(err)
      case Ok((out, end)) => FinishSpec(v, phoff, out, end)
  }

  /** The common shape of the two table placements in _libelf_resync_elf. */
  method ChooseTableOffset(rc: nat, asked: nat, align: nat, size: nat, layout: bool)
    returns (r: Result<(nat, nat), Error>)
    requires align > 0
    ensures r == PlaceTable(true, rc, asked, align, size, layout)
  {
    var off := asked;
    if layout {
      if rc > off {
        return Err(Header);
      }
      if off % align != 0 {
        return Err(LayoutError);
      }
    } else {
      off := RoundUp(rc, align);
    }
    r := Ok((off, off + size));
  }

  /** The two calls that set the counts at the end of layout. */
  method StoreCounts(e: Elf, phnum: nat, shnum: nat, ghost items: seq<Section>)
    requires e.Lists(items)
    modifies e`ehdr, e.scns, e.scns.nodes
    ensures var st := Extended.SetShNum(Extended.SetPhNum((old(e.ehdr), items), phnum), e.ec, shnum);
            e.ehdr == st.0 && e.Lists(st.1)
  {
    Extended.StorePhNum(e, phnum, items);
    Extended.StoreShNum(e, shnum, Extended.SetPhNum((old(e.ehdr), items), phnum).1);
  }

  /** _libelf_resync_elf up to the sections. */
  method StartLayout(e: Elf) returns (r: Result<(nat, nat), Error>)
    modifies e`ehdr, e`byteorder
    ensures r == StartSpec(old(ViewOf(e)))
    ensures r.Ok? ==> e.ehdr == InitHeader(old(ViewOf(e))) && e.byteorder == e.ehdr.encoding
  {
    var ehVersion := e.ehdr.version;
    if ehVersion == EV_NONE {
      ehVersion := EV_CURRENT;
    }
    if ehVersion != e.version {
      return Err(Version);
    }
    if e.ehdr.cls != e.ec {
      return Err(ClassError);
    }
    if !e.forWrite && e.ehdr.encoding != e.byteorder {
      return Err(Header);
    }
    var phnum, phoff := e.nphdr, e.ehdr.phoff;
    e.byteorder := e.ehdr.encoding;
    e.ehdr := e.ehdr.(cls := e.ec, ehsize := EhdrSize(e.ec), phentsize := PhdrSize(e.ec), shentsize := ShdrSize(e.ec));
    var rc := EhdrSize(e.ec);
    if phnum != 0 {
      r := ChooseTableOffset(rc, phoff, FileAlign(PhdrT, e.ec), PhdrSize(e.ec) * phnum, e.layout);
    } else {
      r := Ok((0, rc));
    }
  }

  /** _libelf_resync_elf after the sections. */
  method FinishLayout(e: Elf, phoff: nat, end: nat, ghost v: View, ghost out: seq<Section>)
    returns (r: Result<nat, Error>)
    requires e.Lists(out) && e.ehdr == InitHeader(v)
    requires ViewOf(e) == v.(ehdr := e.ehdr, byteorder := e.byteorder)
    modifies e`ehdr, e.scns, e.scns.nodes
    ensures e.scns.Valid()
    ensures match FinishSpec(v, phoff, out, end)
            case Err(err) => r == Err(err)
            case Ok((h, items, size)) => r == Ok(size) && e.ehdr == h && e.Lists(items)
  {
    var rc, shoff := end, e.ehdr.shoff;
    if e.nscn != 0 {
      var place := ChooseTableOffset(rc, shoff, FileAlign(ShdrT, e.ec), ShdrSize(e.ec) * e.nscn, e.layout);
      if place.Err? {
        return Err(place.error);
      }
      shoff, rc := place.value.0, place.value.1;
    } else {
      shoff := 0;
    }
    StoreCounts(e, e.nphdr, e.nscn, out);
    if !e.layout {
      e.ehdr := e.ehdr.(phoff := Narrow(e.ec, phoff), shoff := Narrow(e.ec, shoff));
    }
    r := Ok(rc);
  }

  method ResyncElf(e: Elf, entry: ElfType -> nat, ghost items: seq<Section>) returns (r: Result<nat, Error>)
    requires e.Lists(items)
    modifies e`ehdr, e`byteorder, e.scns, e.scns.nodes
    ensures e.scns.Valid()
    ensures match ResyncElfSpec(old(ViewOf(e)), items, entry)
            case Err(err) => r == Err(err)
            case Ok((h, out, size)) => r == Ok(size) && e.ehdr == h && e.Lists(out)
  {
    ghost var v := ViewOf(e);
    var start := StartLayout(e);
    if start.Err? {
      return Err(start.error);
    }
    var cfg := Config(e.ec, e.version, e.layout, entry);
    var sorted, visited := Resync.ResyncSections(e.scns, cfg, start.value.1, items);
    if sorted.Err? {
      return Err(sorted.error);
    }
    Resync.SameMembers(e.scns.nodes, old(e.scns.nodes));
    assert forall i :: 0 <= i < |e.scns.nodes| ==> e.scns.nodes[i] in old(e.scns.nodes);
    ghost var out := Resync.ResyncSpec(items, ConfigOf(v, entry), start.value.1).value.0;
    r := FinishLayout(e, start.value.0, sorted.value, v, out);
  }

  // ---- what layout accepts, and what the application keeps control of ----

  /** Where a table goes: the library takes the least aligned offset that is free, the application is held to
      an aligned one. */
  lemma TablePlacedExactly(rc: nat, asked: nat, align: nat, size: nat, layout: bool)
    requires align > 0
    ensures PlaceTable(true, rc, asked, align, size, layout).Ok? <==> (layout ==> rc <= asked && Divides(align, asked))
    ensures PlaceTable(true, rc, asked, align, size, layout) == Err(Header) <==> layout && asked < rc
    ensures PlaceTable(true, rc, asked, align, size, layout).Ok? ==>
              var (at, end) := PlaceTable(true, rc, asked, align, size, layout).value;
              && rc <= at && Divides(align, at) && end == at + size && (layout ==> at == asked)
              && (!layout ==> forall x: nat :: rc <= x && Divides(align, x) ==> at <= x)
  {
    RoundUpProps(rc, align);
    forall x: nat | rc <= x && Divides(align, x) ensures RoundUp(rc, align) <= x {
      RoundUpLeast(rc, align, x);
    }
  }

  /** The object's header, as far as layout checks it. */
  ghost predicate HeaderFits(v: View) {
    && (v.ehdr.version == v.version != EV_NONE || (v.ehdr.version == EV_NONE && v.version == EV_CURRENT))
    && v.ehdr.cls == v.ec && (v.forWrite || v.ehdr.encoding == v.byteorder)
  }

  /** What is wrong with a header that does not fit. */
  lemma HeaderErrors(v: View)
    ensures CheckHeader(v).None? <==> HeaderFits(v)
    ensures CheckHeader(v) == Some(Version) <==>
            v.version != (if v.ehdr.version == EV_NONE then EV_CURRENT else v.ehdr.version)
    ensures CheckHeader(v).Some? && CheckHeader(v) != Some(Version) ==>
              CheckHeader(v) == Some(if v.ehdr.cls != v.ec then ClassError else Header)
  {
  }

  /** Exactly which headers layout goes on with. */
  lemma StartsExactly(v: View)
    requires v.layout
    ensures StartSpec(v).Ok? <==>
            && HeaderFits(v)
            && (v.nphdr != 0 ==> EhdrSize(v.ec) <= v.ehdr.phoff && Divides(FileAlign(PhdrT, v.ec), v.ehdr.phoff))
    ensures StartSpec(v).Ok? ==> StartSpec(v).value.1 == HeadersTo(v)
  {
    if v.nphdr != 0 {
      TablePlacedExactly(EhdrSize(v.ec), v.ehdr.phoff, FileAlign(PhdrT, v.ec), PhdrSize(v.ec) * v.nphdr, true);
    }
  }

  /** The end of the headers as the application placed them. */
  function HeadersTo(v: View): nat {
    if v.nphdr == 0 then EhdrSize(v.ec) else v.ehdr.phoff + PhdrSize(v.ec) * v.nphdr
  }

  /** With the layout under the application's control the tables stay where it put them, behind what comes
      before them, and layout succeeds exactly when that is possible and the sections are accepted. */
  lemma SelfLaidExactly(v: View, items: seq<Section>, entry: ElfType -> nat)
    requires v.layout
    ensures ResyncElfSpec(v, items, entry).Ok? <==>
            && HeaderFits(v)
            && (v.nphdr != 0 ==> EhdrSize(v.ec) <= v.ehdr.phoff && Divides(FileAlign(PhdrT, v.ec), v.ehdr.phoff))
            && var r := Resync.ResyncSpec(items, ConfigOf(v, entry), HeadersTo(v));
               && r.Ok?
               && (v.nscn != 0 ==> r.value.1 <= v.ehdr.shoff && Divides(FileAlign(ShdrT, v.ec), v.ehdr.shoff))
    ensures ResyncElfSpec(v, items, entry).Ok? ==>
              var (h, out, size) := ResyncElfSpec(v, items, entry).value;
              && h.phoff == v.ehdr.phoff && h.shoff == v.ehdr.shoff
              && (v.nscn != 0 ==> size == h.shoff + h.shentsize * v.nscn)
  {
    StartsExactly(v);
    var r := Resync.ResyncSpec(items, ConfigOf(v, entry), HeadersTo(v));
    if r.Ok? && v.nscn != 0 {
      TablePlacedExactly(r.value.1, v.ehdr.shoff, FileAlign(ShdrT, v.ec), ShdrSize(v.ec) * v.nscn, true);
    }
  }
}
