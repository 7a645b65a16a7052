/** The whole of an update in library layout: what is laid out is what is written. */
module ElfUpdate {
  import opened Common
  import opened Arith
  import opened ElfTypes
  import opened ElfObject
  import opened Pieces
  import opened Update
  import opened ImageWriter
  import Extents
  import Resync
  import Overlaps
  import Extended

  // ---- from sections ready to be laid out to sections ready to be written ----

  /** A section an application has prepared: descriptors with buffers of whole entries and, if the section
      is dirty, a start alignment that suits the section's type. */
  ghost predicate Ready(s: Section, ec: Class, c: Codec) {
    s.Occupies() ==>
      && XlateShType(s.shType).Some?
      && (forall d :: d in s.data ==> Writable(d, XlateShType(s.shType).value, c))
      && if s.dirty then
           var need := FileAlign(XlateShType(s.shType).value, ec);
           && need > 0 && Divides(need, Extents.StartAlign(s, ec))
           && (c.raw.Some? ==> s.rawOff <= |c.raw.value|)
         else Stored(s, ec, c)
  }

  lemma PlacedBuffers(a: seq<Data>, b: seq<Data>, t: ElfType, c: Codec)
    requires Extents.SameBut(a, b)
    ensures (forall d :: d in a ==> Writable(d, t, c)) ==> forall d :: d in b ==> Writable(d, t, c)
    ensures (forall d :: d in a ==> d.size > 0) <==> forall d :: d in b ==> d.size > 0
  {
    assert forall i :: 0 <= i < |a| ==> a[i] in a && b[i] in b && a[i].size == b[i].size;
  }

  /** Layout rounds the section's start to a multiple of its type's alignment. */
  lemma OffsetSuitsType(s: Section, cfg: Config, rc: nat, c: Codec)
    requires s.Occupies() && s.dirty && !cfg.layout && Ready(s, cfg.ec, c)
    requires Extents.Extent(s, cfg, rc).Ok?
    ensures Divides(FileAlign(XlateShType(s.shType).value, cfg.ec), Extents.Extent(s, cfg, rc).value.0.offset)
  {
    var need, align := FileAlign(XlateShType(s.shType).value, cfg.ec), Extents.StartAlign(s, cfg.ec);
    Extents.LibraryStart(s, cfg, rc);
    RoundUpProps(rc, align);
    DividesTrans(need, align, RoundUp(rc, align));
  }

  ghost predicate SuitsAt(s: Section, cfg: Config, rc: nat)
    requires XlateShType(s.shType).Some? && Extents.Extent(s, cfg, rc).Ok?
  {
    var need := FileAlign(XlateShType(s.shType).value, cfg.ec);
    need > 0 && Divides(need, Extents.Extent(s, cfg, rc).value.0.offset)
  }

  /** Wherever the section comes to stand the writer's check of its offset passes, if and only if its start
      alignment is a multiple of its type's. */
  lemma OffsetSuitsExactly(s: Section, cfg: Config)
    requires s.Occupies() && s.dirty && !cfg.layout && forall rc: nat :: Extents.Extent(s, cfg, rc).Ok?
    ensures XlateShType(s.shType).Some? && FileAlign(XlateShType(s.shType).value, cfg.ec) > 0
    ensures (forall rc: nat :: SuitsAt(s, cfg, rc)) <==>
            Divides(FileAlign(XlateShType(s.shType).value, cfg.ec), Extents.StartAlign(s, cfg.ec))
  {
    assert Extents.Extent(s, cfg, 0).Ok?;
    Extents.FileAlignPositive(s.shType, cfg.ec);
    var need, align := FileAlign(XlateShType(s.shType).value, cfg.ec), Extents.StartAlign(s, cfg.ec);
    if Divides(need, align) {
      forall rc: nat ensures SuitsAt(s, cfg, rc) {
        Extents.LibraryStart(s, cfg, rc);
        RoundUpProps(rc, align);
        DividesTrans(need, align, RoundUp(rc, align));
      }
    } else {
      Extents.LibraryStart(s, cfg, align);
      RoundUpProps(align, align);
      assert !SuitsAt(s, cfg, align);
    }
  }

  /** Layout accepts a 64-bit symbol table with alignments of 1 and, 65 bytes into the file, starts it there:
      the writer's check of the offset against 8 then fails. */
  lemma MisalignedSymbolTable(s: Section, d: Data, cfg: Config)
    requires s.shType == ShtSymTab && s.dirty && s.shAlign == 1 && s.data == [d]
    requires d.dtype == SymT && d.version == cfg.version && d.align == 1 && cfg.ec == Class64 && !cfg.layout
    ensures Extents.Extent(s, cfg, 65).Ok? && Extents.Extent(s, cfg, 65).value.0.offset == 65
    ensures !SuitsAt(s, cfg, 65)
  {
    assert PassesPow2Test(1) by {
      assert 1 == Pow2(0);
      Pow2TestExact(1);
    }
    assert s.data[1..] == [];
    assert Extents.DescriptorError(d, SymT, cfg.version, 1) == None;
    assert Extents.FirstError(s.data, SymT, cfg.version, 1) == None;
    Extents.LibraryStart(s, cfg, 65);
    assert Extents.MaxAlign(s.data, 0) == 1;
    RoundUpProps(65, 1);
    RoundUpLeast(65, 1, 65);
  }

  lemma ReadyBecomesStored(s: Section, cfg: Config, rc: nat, c: Codec)
    requires Ready(s, cfg.ec, c) && !cfg.layout && Extents.Extent(s, cfg, rc).Ok?
    ensures var s' := Extents.Extent(s, cfg, rc).value.0;
            Stored(s', cfg.ec, c) && (Emits(s', c) <==> Emits(s, c)) && s'.Occupies() == s.Occupies()
  {
    Extents.ExtentFrame(s, cfg, rc);
    if s.Occupies() && s.dirty {
      var s' := Extents.Extent(s, cfg, rc).value.0;
      Extents.LibraryPlacement(s, cfg, rc);
      OffsetSuitsType(s, cfg, rc, c);
      PlacedBuffers(s.data, s'.data, XlateShType(s.shType).value, c);
      if s.data == [] {
        assert s'.data == [] && s'.size == 0 && s'.shSize == 0;
      }
    }
  }

  lemma {:induction false} AllBecomeStored(items: seq<Section>, cfg: Config, rc: nat, c: Codec)
    requires !cfg.layout && forall s :: s in items ==> Ready(s, cfg.ec, c)
    requires Resync.SizeAll(items, cfg, rc).Ok?
    ensures var out := Resync.SizeAll(items, cfg, rc).value.0;
            && |out| == |items|
            && (forall s :: s in out ==> Stored(s, cfg.ec, c))
            && ((forall s :: s in items ==> Emits(s, c)) <==> forall s :: s in out ==> Emits(s, c))
            && (items != [] ==> out[0].Occupies() == items[0].Occupies())
  {
    if items != [] {
      assert items[0] in items;
      ReadyBecomesStored(items[0], cfg, rc, c);
      var (s', rc') := Extents.Extent(items[0], cfg, rc).value;
      AllBecomeStored(items[1..], cfg, rc', c);
      var rest := Resync.SizeAll(items[1..], cfg, rc').value.0;
      assert forall s :: s in [s'] + rest <==> s == s' || s in rest;
      assert forall s :: s in items <==> s == items[0] || s in items[1..];
    }
  }

  lemma PermKeeps(a: seq<Section>, b: seq<Section>, ec: Class, c: Codec)
    requires multiset(a) == multiset(b) && forall s :: s in a ==> Stored(s, ec, c)
    ensures |a| == |b| && forall s :: s in b ==> Stored(s, ec, c)
    ensures (forall s :: s in a ==> Emits(s, c)) <==> forall s :: s in b ==> Emits(s, c)
  {
    Resync.SameMembers(a, b);
  }

  /** Setting the counts may rewrite or allocate section zero, which writes nothing itself. */
  lemma CountsKeepPieces(h: Ehdr, items: seq<Section>, ec: Class, nphdr: nat, nscn: nat, c: Codec)
    requires items != [] ==> !items[0].Occupies()
    requires forall s :: s in items ==> Stored(s, ec, c)
    requires items == [] ==> nscn == 0
    ensures var (h', out) := Extended.SetShNum(Extended.SetPhNum((h, items), nphdr), ec, nscn);
            && AllScnPieces(out, c) == AllScnPieces(items, c)
            && (forall s :: s in out ==> Stored(s, ec, c))
            && ((forall s :: s in items ==> Emits(s, c)) <==> forall s :: s in out ==> Emits(s, c))
            && (items != [] ==> |out| == |items|)
            && h'.shnum == (if nscn < SHN_LORESERVE then nscn else 0)
  {
    var (h', out) := Extended.SetShNum(Extended.SetPhNum((h, items), nphdr), ec, nscn);
    if items == [] {
      assert out == [] || (|out| == 1 && !out[0].Occupies());
      if out != [] {
        assert out[1..] == [];
      }
    } else {
      assert |out| == |items| && out[1..] == items[1..] && !out[0].Occupies();
      assert forall s :: s in out <==> s == out[0] || s in out[1..];
      assert forall s :: s in items <==> s == items[0] || s in items[1..];
    }
  }

  /** Everything an update in library layout expects of the object: section zero is a null section,
      the list has e_nscn sections, and all of them are ready. */
  ghost predicate Prepared(v: View, items: seq<Section>, entry: ElfType -> nat, c: Codec) {
    && !v.layout && Sized(c, v.ec, v.nphdr)
    && |items| == v.nscn && (items != [] ==> !items[0].Occupies() && items[0].offset == 0)
    && (forall s :: s in items ==> Ready(s, v.ec, c))
    && SizedClear(v, items, entry)
  }

  /** No section, as sized, begins before the end of the headers or is hidden from the place of another.
      Exactly then what layout accepts is ascending, pairwise disjoint and behind the headers; otherwise
      sections are written over one another or over the headers (ImageWriter.OrderedExactly). */
  ghost predicate SizedClear(v: View, items: seq<Section>, entry: ElfType -> nat) {
    HeaderEnd(v).Ok? ==>
      var sized, base := Resync.SizeAll(items, ConfigOf(v, entry), HeaderEnd(v).value.1), HeaderEnd(v).value.1;
      sized.Ok? ==> Overlaps.Clear(sized.value.0, base)
  }

  /** That is so when each section is placed by the library or behind the headers already, and either
      sections without file space carry no placement or nothing has to be moved. */
  lemma PlacedIsClear(v: View, items: seq<Section>, entry: ElfType -> nat)
    requires HeaderEnd(v).Ok? ==>
               forall s :: s in items ==> Resync.Placeable(s, ConfigOf(v, entry), HeaderEnd(v).value.1)
    requires Resync.Bare(items) ||
             (HeaderEnd(v).Ok? && Resync.SizeAll(items, ConfigOf(v, entry), HeaderEnd(v).value.1).Ok? ==>
                Resync.Ascending(Resync.SizeAll(items, ConfigOf(v, entry), HeaderEnd(v).value.1).value.0))
    ensures SizedClear(v, items, entry)
  {
    if HeaderEnd(v).Ok? && Resync.SizeAll(items, ConfigOf(v, entry), HeaderEnd(v).value.1).Ok? {
      Resync.SizeAllKeeps(items, ConfigOf(v, entry), HeaderEnd(v).value.1, HeaderEnd(v).value.1);
      Overlaps.NothingHidden(Resync.SizeAll(items, ConfigOf(v, entry), HeaderEnd(v).value.1).value.0);
    }
  }

  /** An object whose sections the library all places, whatever its sections without file space say. */
  lemma FreshIsClear(v: View, items: seq<Section>, entry: ElfType -> nat)
    requires !v.layout && forall s :: s in items && s.Occupies() ==> s.dirty
    ensures SizedClear(v, items, entry)
  {
    if HeaderEnd(v).Ok? && Resync.SizeAll(items, ConfigOf(v, entry), HeaderEnd(v).value.1).Ok? {
      Resync.FreshAscending(items, ConfigOf(v, entry), HeaderEnd(v).value.1);
    }
    PlacedIsClear(v, items, entry);
  }

  /** The sections after resync, before the counts are set. */
  lemma SortedStored(v: View, items: seq<Section>, entry: ElfType -> nat, c: Codec, base: nat)
    requires Prepared(v, items, entry, c) && HeaderEnd(v).Ok? && base == HeaderEnd(v).value.1
    requires Resync.ResyncSpec(items, ConfigOf(v, entry), base).Ok?
    ensures var (out, end) := Resync.ResyncSpec(items, ConfigOf(v, entry), base).value;
            && |out| == |items| && (out != [] ==> !out[0].Occupies())
            && (forall s :: s in out ==> Stored(s, v.ec, c))
            && ((forall s :: s in items ==> Emits(s, c)) <==> forall s :: s in out ==> Emits(s, c))
            && Ordered(AllScnPieces(out, c), base)
            && base <= EndOf(AllScnPieces(out, c), base) <= end
            && (items == [] ==> end == base)
  {
    var cfg := ConfigOf(v, entry);
    var sized := Resync.SizeAll(items, cfg, base).value.0;
    var (out, end) := Resync.ResyncSpec(items, cfg, base).value;
    Resync.SizeAllKeeps(items, cfg, base, base);
    Resync.ResyncSorted(items, cfg, base);
    Overlaps.AcceptedClearExactly(items, cfg, base);
    AllBecomeStored(items, cfg, base, c);
    PermKeeps(sized, out, v.ec, c);
    if sized != [] {
      Resync.FirstStays(sized, 0, base);
    }
    SectionsOrdered(out, v.ec, c, base, end);
  }

  /** In library layout the program header table follows the ELF header directly. */
  lemma PhdrsFollowHeader(ec: Class)
    ensures RoundUp(EhdrSize(ec), FileAlign(PhdrT, ec)) == EhdrSize(ec)
  {
    RoundUpProps(EhdrSize(ec), FileAlign(PhdrT, ec));
    match ec
    case Class32 => assert 52 % 4 == 0;
    case Class64 => assert 64 % 8 == 0;
  }

  /** The headers end where the layout pass says. */
  lemma HeadersFit(v: View, h: Ehdr, c: Codec)
    requires !v.layout && Sized(c, v.ec, v.nphdr)
    requires h.phoff == HeaderEnd(v).value.0
    ensures var ps := [Piece(0, c.ehdr(h))] + PhdrPieces(h, v.nphdr, c);
            Ordered(ps, 0) && EndOf(ps, 0) == HeaderEnd(v).value.1
  {
    PhdrsFollowHeader(v.ec);
    var first := Piece(0, c.ehdr(h));
    var ps := [first] + PhdrPieces(h, v.nphdr, c);
    assert ps[1..] == PhdrPieces(h, v.nphdr, c);
    if v.nphdr != 0 {
      var p := Piece(h.phoff, c.phdrs);
      assert ps[1..] == [p] && [p][1..] == [];
      assert EndOf([p], first.End()) == EndOf([], p.End());
    }
  }

  /** The section header table goes after everything else and ends the file, unless the writer, seeing
      a zero count in the header, leaves it out. */
  lemma TableFits(v: View, h: Ehdr, out: seq<Section>, c: Codec, end: nat, start: nat)
    requires !v.layout && Sized(c, v.ec, v.nphdr) && end > 0 && start <= end
    requires h.shoff == TableEnd(v, end).value.0
    requires h.shnum == (if v.nscn < SHN_LORESERVE then v.nscn else 0)
    requires v.nscn != 0 ==> |out| == v.nscn
    ensures Ordered(TablePieces(h, out, v.ec, c), start)
    ensures EndOf(TablePieces(h, out, v.ec, c), start) ==
              if 0 < v.nscn < SHN_LORESERVE then TableEnd(v, end).value.1 else start
    ensures if v.nscn != 0 then end < TableEnd(v, end).value.1 else end == TableEnd(v, end).value.1
    ensures h.shoff <= TableEnd(v, end).value.1
  {
    RoundUpProps(end, FileAlign(ShdrT, v.ec));
    if v.nscn != 0 {
      assert ShdrSize(v.ec) * v.nscn >= ShdrSize(v.ec);
      if v.nscn < SHN_LORESERVE {
        TableOrdered(out, h.shoff, ShdrSize(v.ec), c, start);
      }
    }
  }

  lemma PlaceTableBounds(present: bool, rc: nat, asked: nat, align: nat, size: nat)
    requires align > 0
    ensures PlaceTable(present, rc, asked, align, size, false).Ok?
    ensures var (off, end) := PlaceTable(present, rc, asked, align, size, false).value;
            off <= end && rc <= end
  {
    RoundUpProps(rc, align);
  }

  /** The header fields layout leaves behind, when all offsets fit the class. */
  lemma FinishFields(v: View, phoff: nat, sorted: seq<Section>, end: nat)
    requires !v.layout && phoff <= end && FinishSpec(v, phoff, sorted, end).Ok?
    requires v.ec.Class32? ==> FinishSpec(v, phoff, sorted, end).value.2 < 0x1_0000_0000
    ensures var (shoff, size) := TableEnd(v, end).value;
            var (h, out, size') := FinishSpec(v, phoff, sorted, end).value;
            && size' == size && h.phoff == phoff && h.shoff == shoff
            && h.shnum == (if v.nscn < SHN_LORESERVE then v.nscn else 0)
  {
    PlaceTableBounds(v.nscn != 0, end, v.ehdr.shoff, FileAlign(ShdrT, v.ec), ShdrSize(v.ec) * v.nscn);
  }

  lemma HeaderEndBounds(v: View)
    requires !v.layout
    ensures HeaderEnd(v).Ok? && HeaderEnd(v).value.0 <= HeaderEnd(v).value.1 && 0 < HeaderEnd(v).value.1
  {
    PlaceTableBounds(v.nphdr != 0, EhdrSize(v.ec), v.ehdr.phoff, FileAlign(PhdrT, v.ec), PhdrSize(v.ec) * v.nphdr);
  }

  /** The pieces of the image follow one another, and they end at the size the layout pass returned
      exactly when the section count fits the header field the writer reads it from. */
  lemma LayoutIsWritten(v: View, items: seq<Section>, entry: ElfType -> nat, c: Codec)
    requires Prepared(v, items, entry, c) && ResyncElfSpec(v, items, entry).Ok?
    requires v.ec.Class32? ==> ResyncElfSpec(v, items, entry).value.2 < 0x1_0000_0000
    ensures var (h, out, size) := ResyncElfSpec(v, items, entry).value;
            var ps := AllPieces(h, v.nphdr, out, v.ec, c);
            && Ordered(ps, 0)
            && (EndOf(ps, 0) == size <==> v.nscn < SHN_LORESERVE)
            && (forall s :: s in out ==> Stored(s, v.ec, c))
            && ((forall s :: s in items ==> Emits(s, c)) <==> forall s :: s in out ==> Emits(s, c))
            && (v.nphdr != 0 && h.phoff != 0 ==> h.phoff == EhdrSize(v.ec))
            && (h.shnum != 0 && h.shoff != 0 ==> out != [])
  {
    var base := HeaderEnd(v).value.1;
    var (sorted, end) := Resync.ResyncSpec(items, ConfigOf(v, entry), base).value;
    var (h, out, size) := ResyncElfSpec(v, items, entry).value;
    HeaderEndBounds(v);
    PhdrsFollowHeader(v.ec);
    SortedStored(v, items, entry, c, base);
    FinishFields(v, HeaderEnd(v).value.0, sorted, end);
    CountsKeepPieces(InitHeader(v), sorted, v.ec, v.nphdr, v.nscn, c);
    HeadersFit(v, h, c);
    TableFits(v, h, out, c, end, EndOf(AllScnPieces(out, c), base));
    JoinPieces(h, v.nphdr, out, v.ec, c, base);
    if v.nscn == 0 {
      assert AllScnPieces(sorted, c) == [];
    }
  }

  lemma JoinThree(head: seq<Piece>, body: seq<Piece>, table: seq<Piece>, base: nat, fill: byte)
    requires Ordered(head, 0) && EndOf(head, 0) == base && Ordered(body, base) && Ordered(table, EndOf(body, base))
    ensures Ordered(head + (body + table), 0) && EndOf(head + (body + table), 0) == EndOf(table, EndOf(body, base))
  {
    AppendPieces(body, table, base, fill);
    AppendPieces(head, body + table, 0, fill);
  }

  lemma HeadFirst(first: seq<Piece>, second: seq<Piece>, rest: seq<Piece>)
    ensures first + (second + rest) == (first + second) + rest
  {
  }

  lemma JoinPieces(h: Ehdr, nphdr: nat, out: seq<Section>, ec: Class, c: Codec, base: nat)
    requires var head := [Piece(0, c.ehdr(h))] + PhdrPieces(h, nphdr, c);
             Ordered(head, 0) && EndOf(head, 0) == base
    requires Ordered(AllScnPieces(out, c), base)
    requires Ordered(TablePieces(h, out, ec, c), EndOf(AllScnPieces(out, c), base))
    ensures var ps := AllPieces(h, nphdr, out, ec, c);
            Ordered(ps, 0) && EndOf(ps, 0) == EndOf(TablePieces(h, out, ec, c), EndOf(AllScnPieces(out, c), base))
  {
    var first, second := [Piece(0, c.ehdr(h))], PhdrPieces(h, nphdr, c);
    JoinThree(first + second, AllScnPieces(out, c), TablePieces(h, out, ec, c), base, c.fill);
    HeadFirst(first, second, AllScnPieces(out, c) + TablePieces(h, out, ec, c));
  }

  /** Writing an object that was laid out: the pieces fall into place and nothing lies between the headers. */
  method WriteLaidOut(e: Elf, c: Codec, size: nat, ghost v: View, ghost items: seq<Section>, entry: ElfType -> nat)
    returns (ok: bool, im: Image)
    requires Prepared(v, items, entry, c) && v.nscn < SHN_LORESERVE && e.ec == v.ec && e.nphdr == v.nphdr
    requires ResyncElfSpec(v, items, entry).Ok?
    requires var (h, out, size') := ResyncElfSpec(v, items, entry).value; size' == size && e.ehdr == h && e.Lists(out)
    requires v.ec.Class32? ==> size < 0x1_0000_0000
    ensures fresh(im) && fresh(im.bytes) && im.bytes.Length == size
    ensures ok <==> forall s :: s in items ==> Emits(s, c)
    ensures var ps := AllPieces(e.ehdr, e.nphdr, ResyncElfSpec(v, items, entry).value.1, e.ec, c);
            Ordered(ps, 0) && (ok ==> im.counted == 0 && im.Progress(Render(ps, 0, c.fill), size))
  {
    LayoutIsWritten(v, items, entry, c);
    ok, im := WriteElf(e, c, size, ResyncElfSpec(v, items, entry).value.1);
  }

  /** elf_update(e, ELF_C_WRITE) in library layout, up to handing the image to the file system.  An
      image is produced exactly when layout succeeds and every section has something to write; then
      it has the size layout announced, every byte of it was written once, and it consists of the
      headers, the section data and the section header table at the offsets recorded for them, with
      the fill character everywhere else (see the lemmas about Render). */
  method UpdateAndWrite(e: Elf, entry: ElfType -> nat, c: Codec, ghost items: seq<Section>)
    returns (r: Result<nat, Error>, ok: bool, im: Image)
    requires e.Lists(items) && Prepared(ViewOf(e), items, entry, c) && e.nscn < SHN_LORESERVE
    requires var spec := ResyncElfSpec(ViewOf(e), items, entry);
             e.ec.Class32? && spec.Ok? ==> spec.value.2 < 0x1_0000_0000
    modifies e`ehdr, e`byteorder, e.scns, e.scns.nodes
    ensures match ResyncElfSpec(old(ViewOf(e)), items, entry)
            case Err(err) => r == Err(err)
            case Ok((h, out, size)) =>
              && r == Ok(size) && e.ehdr == h && e.Lists(out)
              && im.bytes.Length == size
              && (ok <==> forall s :: s in items ==> Emits(s, c))
              && Ordered(AllPieces(h, e.nphdr, out, e.ec, c), 0)
              && (ok ==> im.counted == 0 && im.Progress(Render(AllPieces(h, e.nphdr, out, e.ec, c), 0, c.fill), size))
  {
    ghost var v := ViewOf(e);
    r := ResyncElf(e, entry, items);
    if r.Err? {
      ok := false;
      im := new Image(0, 0);
      return;
    }
    ok, im := WriteLaidOut(e, c, r.value, v, items, entry);
  }

  // ---- what the image holds ----

  ghost predicate Lands(img: seq<byte>, at: nat, bytes: seq<byte>) {
    at + |bytes| <= |img| && img[at..at + |bytes|] == bytes
  }

  lemma PieceInImage(ps: seq<Piece>, fill: byte, p: Piece)
    requires Ordered(ps, 0) && p in ps
    ensures Lands(Render(ps, 0, fill), p.at, p.bytes)
  {
    var i :| 0 <= i < |ps| && ps[i] == p;
    PieceLands(ps, 0, fill, i);
  }

  lemma {:induction false} DataPieceAt(base: nat, t: ElfType, data: seq<Data>, c: Codec, i: nat)
    requires i < |data| && data[i].buf.Some?
    ensures DataPieces(base, t, data, c)[i] == Piece(base + data[i].off, c.data(t, data[i].buf.value))
  {
    if i > 0 {
      DataPieceAt(base, t, data[1..], c, i - 1);
    }
  }

  lemma {:induction false} ScnPieceIn(items: seq<Section>, c: Codec, k: nat, p: Piece)
    requires k < |items| && p in ScnPieces(items[k], c)
    ensures p in AllScnPieces(items, c)
  {
    if k > 0 {
      assert items[1..][k - 1] == items[k];
      ScnPieceIn(items[1..], c, k - 1, p);
    }
  }

  lemma {:induction false} ShdrPieceIn(items: seq<Section>, at: nat, size: nat, c: Codec, k: nat)
    requires k < |items|
    ensures Piece(at + size * k, c.shdr(items[k])) in ShdrPieces(items, at, size, c)
  {
    if k > 0 {
      ShdrPieceIn(items[1..], at + size, size, c, k - 1);
      assert size * k == size + size * (k - 1);
    } else {
      assert size * k == 0;
    }
  }

  // Every part of the object is found in the image at the offset recorded for it.

  /** The ELF header at 0 and the program headers at e_phoff. */
  lemma HeadersLand(h: Ehdr, nphdr: nat, out: seq<Section>, ec: Class, c: Codec)
    requires Ordered(AllPieces(h, nphdr, out, ec, c), 0)
    ensures var img := Render(AllPieces(h, nphdr, out, ec, c), 0, c.fill);
            && Lands(img, 0, c.ehdr(h))
            && (nphdr != 0 && h.phoff != 0 ==> Lands(img, h.phoff, c.phdrs))
  {
    var ps := AllPieces(h, nphdr, out, ec, c);
    PieceInImage(ps, c.fill, Piece(0, c.ehdr(h)));
    if nphdr != 0 && h.phoff != 0 {
      PieceInImage(ps, c.fill, Piece(h.phoff, c.phdrs));
    }
  }

  /** Descriptor i of section k at s_offset + d_off. */
  lemma DataLands(h: Ehdr, nphdr: nat, out: seq<Section>, ec: Class, c: Codec, k: nat, i: nat)
    requires Ordered(AllPieces(h, nphdr, out, ec, c), 0)
    requires k < |out| && Stored(out[k], ec, c) && out[k].Occupies() && i < |out[k].data|
    ensures var d := out[k].data[i];
            d in out[k].data &&
            Lands(Render(AllPieces(h, nphdr, out, ec, c), 0, c.fill), out[k].offset + d.off,
                  c.data(XlateShType(out[k].shType).value, d.buf.value))
  {
    var d, t := out[k].data[i], XlateShType(out[k].shType).value;
    assert d in out[k].data;
    DataPieceAt(out[k].offset, t, out[k].data, c, i);
    var p := DataPieces(out[k].offset, t, out[k].data, c)[i];
    ScnPieceIn(out, c, k, p);
    PieceInImage(AllPieces(h, nphdr, out, ec, c), c.fill, p);
  }

  /** The header of section k as entry k of the table at e_shoff. */
  lemma TableLands(h: Ehdr, nphdr: nat, out: seq<Section>, ec: Class, c: Codec, k: nat)
    requires Ordered(AllPieces(h, nphdr, out, ec, c), 0)
    requires h.shnum != 0 && h.shoff != 0 && k < |out|
    ensures Lands(Render(AllPieces(h, nphdr, out, ec, c), 0, c.fill), h.shoff + ShdrSize(ec) * k, c.shdr(out[k]))
  {
    ShdrPieceIn(out, h.shoff, ShdrSize(ec), c, k);
    var p := Piece(h.shoff + ShdrSize(ec) * k, c.shdr(out[k]));
    InLastPart([Piece(0, c.ehdr(h))], PhdrPieces(h, nphdr, c), AllScnPieces(out, c), TablePieces(h, out, ec, c), p);
    PieceInImage(AllPieces(h, nphdr, out, ec, c), c.fill, p);
  }

  lemma InLastPart(a: seq<Piece>, b: seq<Piece>, d: seq<Piece>, table: seq<Piece>, p: Piece)
    requires p in table
    ensures p in a + (b + (d + table))
  {
  }

  /** A section without descriptors at s_offset, with its bytes of the original file. */
  lemma RawLands(h: Ehdr, nphdr: nat, out: seq<Section>, ec: Class, c: Codec, k: nat)
    requires Ordered(AllPieces(h, nphdr, out, ec, c), 0)
    requires k < |out| && Stored(out[k], ec, c) && out[k].Occupies() && out[k].data == [] && c.raw.Some?
    ensures out[k].rawOff + out[k].shSize <= |c.raw.value|
    ensures Lands(Render(AllPieces(h, nphdr, out, ec, c), 0, c.fill), out[k].offset,
                  c.raw.value[out[k].rawOff..out[k].rawOff + out[k].shSize])
  {
    var p := Piece(out[k].offset, c.raw.value[out[k].rawOff..out[k].rawOff + out[k].shSize]);
    ScnPieceIn(out, c, k, p);
    PieceInImage(AllPieces(h, nphdr, out, ec, c), c.fill, p);
  }

  /** A section whose data was never fetched keeps its bytes exactly when it is not marked dirty, or had
      none: layout sizes a dirty section by its descriptors alone, and stores that size in its header. */
  lemma UnfetchedKeptExactly(s: Section, cfg: Config, rc: nat, c: Codec)
    requires s.Occupies() && XlateShType(s.shType).Some? && s.data == [] && !cfg.layout
    requires c.raw.Some? && s.rawOff + s.shSize <= |c.raw.value| && Extents.Extent(s, cfg, rc).Ok?
    ensures var s' := Extents.Extent(s, cfg, rc).value.0;
            ScnPieces(s', c) == [Piece(s'.offset, c.raw.value[s.rawOff..s.rawOff + s.shSize])] <==>
            !s.dirty || s.shSize == 0
  {
    var s' := Extents.Extent(s, cfg, rc).value.0;
    if s.dirty {
      assert s'.shSize == 0 && s'.rawOff == s.rawOff && s'.data == [];
      assert ScnPieces(s', c) == [Piece(s'.offset, c.raw.value[s.rawOff..s.rawOff])];
      assert |c.raw.value[s.rawOff..s.rawOff]| == 0;
      assert |c.raw.value[s.rawOff..s.rawOff + s.shSize]| == s.shSize;
    }
  }

  // ---- what a reader of the image is told ----

  /** Section headers written by layout, in fields of the class's width. */
  ghost predicate Recorded(s: Section, ec: Class) {
    s.Occupies() && s.dirty ==> s.shOffset == Narrow(ec, s.offset) && s.shSize == Narrow(ec, s.size)
  }

  lemma {:induction false} AllRecorded(items: seq<Section>, cfg: Config, rc: nat)
    requires !cfg.layout && Resync.SizeAll(items, cfg, rc).Ok?
    ensures forall s :: s in Resync.SizeAll(items, cfg, rc).value.0 ==> Recorded(s, cfg.ec)
  {
    if items != [] {
      var (s', rc') := Extents.Extent(items[0], cfg, rc).value;
      Extents.ExtentFrame(items[0], cfg, rc);
      if items[0].Occupies() && items[0].dirty {
        Extents.HeaderAnnounces(items[0], cfg, rc);
      }
      AllRecorded(items[1..], cfg, rc');
      var rest := Resync.SizeAll(items[1..], cfg, rc').value.0;
      assert forall s :: s in [s'] + rest <==> s == s' || s in rest;
    }
  }

  /** The counts change section zero alone, which takes no space. */
  lemma CountsKeepSections(h: Ehdr, items: seq<Section>, ec: Class, nphdr: nat, nscn: nat)
    requires items != [] ==> !items[0].Occupies()
    ensures var out := Extended.SetShNum(Extended.SetPhNum((h, items), nphdr), ec, nscn).1;
            forall s :: s in out && s.Occupies() ==> s in items
  {
    var out := Extended.SetShNum(Extended.SetPhNum((h, items), nphdr), ec, nscn).1;
    if items != [] {
      assert |out| == |items| && out[1..] == items[1..] && !out[0].Occupies();
      forall s | s in out && s.Occupies() ensures s in items {
        var i :| 0 <= i < |out| && out[i] == s;
        assert out[i] == out[1..][i - 1] == items[1..][i - 1];
      }
    }
  }

  lemma SortedRecorded(items: seq<Section>, cfg: Config, base: nat)
    requires !cfg.layout && Resync.ResyncSpec(items, cfg, base).Ok?
    ensures var (out, end) := Resync.ResyncSpec(items, cfg, base).value;
            forall s :: s in out && s.Occupies() ==> Recorded(s, cfg.ec) && s.End() <= end
  {
    AllRecorded(items, cfg, base);
    Resync.ResyncSorted(items, cfg, base);
    Resync.SameMembers(Resync.ResyncSpec(items, cfg, base).value.0, Resync.SizeAll(items, cfg, base).value.0);
  }

  /** The parts a successful layout pass is made of. */
  lemma SpecParts(v: View, items: seq<Section>, entry: ElfType -> nat)
    requires !v.layout && ResyncElfSpec(v, items, entry).Ok?
    ensures HeaderEnd(v).Ok? && Resync.ResyncSpec(items, ConfigOf(v, entry), HeaderEnd(v).value.1).Ok?
    ensures var (sorted, end) := Resync.ResyncSpec(items, ConfigOf(v, entry), HeaderEnd(v).value.1).value;
            var (h, out, size) := ResyncElfSpec(v, items, entry).value;
            && FinishSpec(v, HeaderEnd(v).value.0, sorted, end) == Ok((h, out, size))
            && out == Extended.SetShNum(Extended.SetPhNum((InitHeader(v), sorted), v.nphdr), v.ec, v.nscn).1
            && TableEnd(v, end).Ok? && size == TableEnd(v, end).value.1
  {
  }

  /** Sections of the result are sections of the sorted list, which ends within the size returned. */
  lemma OutSections(v: View, items: seq<Section>, entry: ElfType -> nat, c: Codec)
    requires Prepared(v, items, entry, c) && ResyncElfSpec(v, items, entry).Ok?
    requires HeaderEnd(v).Ok? && Resync.ResyncSpec(items, ConfigOf(v, entry), HeaderEnd(v).value.1).Ok?
    ensures var sorted := Resync.ResyncSpec(items, ConfigOf(v, entry), HeaderEnd(v).value.1).value.0;
            forall s :: s in ResyncElfSpec(v, items, entry).value.1 && s.Occupies() ==> s in sorted
  {
    SpecParts(v, items, entry);
    SortedStored(v, items, entry, c, HeaderEnd(v).value.1);
    CountsKeepSections(InitHeader(v), Resync.ResyncSpec(items, ConfigOf(v, entry), HeaderEnd(v).value.1).value.0, v.ec,
                       v.nphdr, v.nscn);
  }

  lemma OutEnd(v: View, items: seq<Section>, entry: ElfType -> nat)
    requires !v.layout && ResyncElfSpec(v, items, entry).Ok?
    requires HeaderEnd(v).Ok? && Resync.ResyncSpec(items, ConfigOf(v, entry), HeaderEnd(v).value.1).Ok?
    ensures Resync.ResyncSpec(items, ConfigOf(v, entry), HeaderEnd(v).value.1).value.1 <=
            ResyncElfSpec(v, items, entry).value.2
  {
    SpecParts(v, items, entry);
    PlaceTableBounds(v.nscn != 0, Resync.ResyncSpec(items, ConfigOf(v, entry), HeaderEnd(v).value.1).value.1,
                     v.ehdr.shoff, FileAlign(ShdrT, v.ec), ShdrSize(v.ec) * v.nscn);
  }

  /** The header of every section that was laid out, or was current before, says where the section is. */
  lemma SectionsAnnounced(v: View, items: seq<Section>, entry: ElfType -> nat, c: Codec)
    requires Prepared(v, items, entry, c) && ResyncElfSpec(v, items, entry).Ok?
    requires v.ec.Class32? ==> ResyncElfSpec(v, items, entry).value.2 < 0x1_0000_0000
    ensures forall s :: s in ResyncElfSpec(v, items, entry).value.1 && s.Occupies() &&
                        (s.dirty || Resync.Current(s)) ==>
              s.shOffset == s.offset && s.shSize == s.size
  {
    SpecParts(v, items, entry);
    OutSections(v, items, entry, c);
    OutEnd(v, items, entry);
    SortedRecorded(items, ConfigOf(v, entry), HeaderEnd(v).value.1);
  }

  /** The sizes the ELF header announces are those of the records. */
  lemma SizesAnnounced(v: View, items: seq<Section>, entry: ElfType -> nat)
    requires ResyncElfSpec(v, items, entry).Ok?
    ensures var h := ResyncElfSpec(v, items, entry).value.0;
            && h.cls == v.ec && h.ehsize == EhdrSize(v.ec) && h.phentsize == PhdrSize(v.ec)
            && h.shentsize == ShdrSize(v.ec) && h.shstrndx == v.ehdr.shstrndx
            && h.encoding == v.ehdr.encoding && h.version == v.ehdr.version
            && h.phnum == (if v.nphdr < PN_XNUM then v.nphdr else PN_XNUM)
            && h.shnum == (if v.nscn < SHN_LORESERVE then v.nscn else 0)
  {
  }

  ghost function ImageOf(v: View, items: seq<Section>, entry: ElfType -> nat, c: Codec): seq<byte>
    requires Prepared(v, items, entry, c) && ResyncElfSpec(v, items, entry).Ok?
    requires v.ec.Class32? ==> ResyncElfSpec(v, items, entry).value.2 < 0x1_0000_0000
  {
    LayoutIsWritten(v, items, entry, c);
    var (h, out, _) := ResyncElfSpec(v, items, entry).value;
    Render(AllPieces(h, v.nphdr, out, v.ec, c), 0, c.fill)
  }

  /** A reader finds the ELF header, as long as it says, and the program header table where the header says,
      with as many entries of the announced size. */
  lemma HeaderReadable(v: View, items: seq<Section>, entry: ElfType -> nat, c: Codec)
    requires Prepared(v, items, entry, c) && ResyncElfSpec(v, items, entry).Ok?
    requires v.ec.Class32? ==> ResyncElfSpec(v, items, entry).value.2 < 0x1_0000_0000
    ensures var h, img := ResyncElfSpec(v, items, entry).value.0, ImageOf(v, items, entry, c);
            && Lands(img, 0, c.ehdr(h)) && |c.ehdr(h)| == h.ehsize
            && (v.nphdr != 0 ==> Lands(img, h.phoff, c.phdrs) && |c.phdrs| == h.phentsize * v.nphdr)
  {
    var (h, out, _) := ResyncElfSpec(v, items, entry).value;
    LayoutIsWritten(v, items, entry, c);
    SizesAnnounced(v, items, entry);
    HeadersLand(h, v.nphdr, out, v.ec, c);
    TablePlaces(v, items, entry);
  }

  /** Neither table is at offset zero, which would mean that there is none. */
  lemma TablePlaces(v: View, items: seq<Section>, entry: ElfType -> nat)
    requires !v.layout && ResyncElfSpec(v, items, entry).Ok?
    requires v.ec.Class32? ==> ResyncElfSpec(v, items, entry).value.2 < 0x1_0000_0000
    ensures var h := ResyncElfSpec(v, items, entry).value.0;
            (v.nphdr != 0 ==> h.phoff != 0) && (v.nscn != 0 ==> h.shoff != 0)
  {
    SpecParts(v, items, entry);
    var base := HeaderEnd(v).value.1;
    var (sorted, end) := Resync.ResyncSpec(items, ConfigOf(v, entry), base).value;
    HeaderEndBounds(v);
    PhdrsFollowHeader(v.ec);
    Resync.ResyncSorted(items, ConfigOf(v, entry), base);
    FinishFields(v, HeaderEnd(v).value.0, sorted, end);
    TableBehind(end, FileAlign(ShdrT, v.ec));
  }

  lemma TableBehind(end: nat, align: nat)
    requires end > 0 && align > 0
    ensures RoundUp(end, align) > 0
  {
    RoundUpProps(end, align);
  }

  /** A reader finds the header of section k by stepping through the section header table, which has as many
      entries as there are sections. */
  lemma EntryReadable(v: View, items: seq<Section>, entry: ElfType -> nat, c: Codec, k: nat)
    requires Prepared(v, items, entry, c) && ResyncElfSpec(v, items, entry).Ok? && v.nscn < SHN_LORESERVE
    requires v.ec.Class32? ==> ResyncElfSpec(v, items, entry).value.2 < 0x1_0000_0000
    requires k < v.nscn
    ensures var (h, out, _) := ResyncElfSpec(v, items, entry).value;
            && h.shnum == |out| == v.nscn && |c.shdr(out[k])| == h.shentsize
            && Lands(ImageOf(v, items, entry, c), h.shoff + h.shentsize * k, c.shdr(out[k]))
  {
    var (h, out, _) := ResyncElfSpec(v, items, entry).value;
    LayoutIsWritten(v, items, entry, c);
    SizesAnnounced(v, items, entry);
    TablePlaces(v, items, entry);
    ListKept(v, items, entry, c);
    TableLands(h, v.nphdr, out, v.ec, c, k);
  }

  lemma ListKept(v: View, items: seq<Section>, entry: ElfType -> nat, c: Codec)
    requires Prepared(v, items, entry, c) && ResyncElfSpec(v, items, entry).Ok? && v.nscn != 0
    ensures |ResyncElfSpec(v, items, entry).value.1| == v.nscn
  {
    var base := HeaderEnd(v).value.1;
    HeaderEndBounds(v);
    SortedStored(v, items, entry, c, base);
  }

  /** A reader finds descriptor i of section k at the offset the section's header announces, inside the size
      it announces. */
  lemma DataReadable(v: View, items: seq<Section>, entry: ElfType -> nat, c: Codec, k: nat, i: nat)
    requires Prepared(v, items, entry, c) && ResyncElfSpec(v, items, entry).Ok?
    requires v.ec.Class32? ==> ResyncElfSpec(v, items, entry).value.2 < 0x1_0000_0000
    requires var out := ResyncElfSpec(v, items, entry).value.1;
             k < |out| && out[k].Occupies() && (out[k].dirty || Resync.Current(out[k])) && i < |out[k].data|
    ensures var s := ResyncElfSpec(v, items, entry).value.1[k];
            var d := s.data[i];
            && XlateShType(s.shType).Some? && d.buf.Some? && d.off + d.size <= s.shSize
            && Lands(ImageOf(v, items, entry, c), s.shOffset + d.off, c.data(XlateShType(s.shType).value, d.buf.value))
  {
    var (h, out, _) := ResyncElfSpec(v, items, entry).value;
    LayoutIsWritten(v, items, entry, c);
    SectionsAnnounced(v, items, entry, c);
    assert out[k] in out && Stored(out[k], v.ec, c) && out[k].data[i] in out[k].data;
    DataLands(h, v.nphdr, out, v.ec, c, k, i);
  }

  /** And the bytes of a section without descriptors likewise. */
  lemma RawReadable(v: View, items: seq<Section>, entry: ElfType -> nat, c: Codec, k: nat)
    requires Prepared(v, items, entry, c) && ResyncElfSpec(v, items, entry).Ok?
    requires v.ec.Class32? ==> ResyncElfSpec(v, items, entry).value.2 < 0x1_0000_0000
    requires var out := ResyncElfSpec(v, items, entry).value.1;
             k < |out| && out[k].Occupies() && (out[k].dirty || Resync.Current(out[k])) && out[k].data == []
    requires c.raw.Some?
    ensures var s := ResyncElfSpec(v, items, entry).value.1[k];
            && s.rawOff + s.shSize <= |c.raw.value|
            && Lands(ImageOf(v, items, entry, c), s.shOffset, c.raw.value[s.rawOff..s.rawOff + s.shSize])
  {
    var (h, out, _) := ResyncElfSpec(v, items, entry).value;
    LayoutIsWritten(v, items, entry, c);
    SectionsAnnounced(v, items, entry, c);
    assert out[k] in out && Stored(out[k], v.ec, c);
    RawLands(h, v.nphdr, out, v.ec, c, k);
  }
}
