/** _libelf_write_scn and the image-building part of _libelf_write_elf. */
module ImageWriter {
  import opened Common
  import opened Arith
  import opened ElfTypes
  import opened Stailq
  import opened ElfObject
  import opened Pieces
  import Extents
  import Resync

  /** The translated forms of the headers and of section data, the size of a data entry in memory, the
      original file if there is one, and the fill character. */
  datatype Codec = Codec(
    ehdr: Ehdr -> seq<byte>,
    phdrs: seq<byte>,
    shdr: Section -> seq<byte>,
    data: (ElfType, seq<byte>) -> seq<byte>,
    msize: ElfType -> nat,
    raw: Option<seq<byte>>,
    fill: byte)

  /** Header records have their file sizes, and data entries are as large in the file as in memory. */
  ghost predicate Sized(c: Codec, ec: Class, nphdr: nat) {
    && (forall h :: |c.ehdr(h)| == EhdrSize(ec))
    && |c.phdrs| == PhdrSize(ec) * nphdr
    && (forall s :: |c.shdr(s)| == ShdrSize(ec))
    && (forall t, b :: |c.data(t, b)| == |b|)
  }

  // ---- what is written where ----

  function DataPieces(base: nat, t: ElfType, data: seq<Data>, c: Codec): (r: seq<Piece>)
    ensures |r| == |data|
  {
    if data == [] then []
    else
      var b := if data[0].buf.Some? then data[0].buf.value else [];
      [Piece(base + data[0].off, c.data(t, b))] + DataPieces(base, t, data[1..], c)
  }

  /** A section with descriptors is written from them, one without is copied from the original file. */
  function ScnPieces(s: Section, c: Codec): seq<Piece> {
    if !s.Occupies() || XlateShType(s.shType).None? then []
    else if s.data != [] then DataPieces(s.offset, XlateShType(s.shType).value, s.data, c)
    else if c.raw.Some? && s.rawOff + s.shSize <= |c.raw.value| then
      [Piece(s.offset, c.raw.value[s.rawOff..s.rawOff + s.shSize])]
    else []
  }

  function AllScnPieces(items: seq<Section>, c: Codec): seq<Piece> {
    if items == [] then [] else ScnPieces(items[0], c) + AllScnPieces(items[1..], c)
  }

  function ShdrPieces(items: seq<Section>, at: nat, size: nat, c: Codec): seq<Piece> {
    if items == [] then [] else [Piece(at, c.shdr(items[0]))] + ShdrPieces(items[1..], at + size, size, c)
  }

  function PhdrPieces(h: Ehdr, nphdr: nat, c: Codec): seq<Piece> {
    if nphdr != 0 && h.phoff != 0 then [Piece(h.phoff, c.phdrs)] else []
  }

  function TablePieces(h: Ehdr, items: seq<Section>, ec: Class, c: Codec): seq<Piece> {
    if h.shnum != 0 && h.shoff != 0 then ShdrPieces(items, h.shoff, ShdrSize(ec), c) else []
  }

  function AllPieces(h: Ehdr, nphdr: nat, items: seq<Section>, ec: Class, c: Codec): seq<Piece> {
    [Piece(0, c.ehdr(h))] + (PhdrPieces(h, nphdr, c) + (AllScnPieces(items, c) + TablePieces(h, items, ec, c)))
  }

  /** A descriptor the writer accepts: it has its buffer and holds whole entries of its type. */
  ghost predicate Writable(d: Data, t: ElfType, c: Codec) {
    d.Valid() && d.buf.Some? && c.msize(t) > 0 && d.size % c.msize(t) == 0
  }

  /** A section that _libelf_write_scn can write: known type, offset aligned for the type, and
      either descriptors with buffers lying in order, or raw bytes within the original file. */
  ghost predicate Stored(s: Section, ec: Class, c: Codec) {
    s.Occupies() ==>
      && XlateShType(s.shType).Some?
      && FileAlign(XlateShType(s.shType).value, ec) > 0
      && Divides(FileAlign(XlateShType(s.shType).value, ec), s.offset)
      && (s.data == [] ==> s.shSize == s.size && (c.raw.Some? ==> s.rawOff + s.shSize <= |c.raw.value|))
      && Extents.InOrder(s.data, s.size)
      && (forall d :: d in s.data ==> Writable(d, XlateShType(s.shType).value, c))
  }

  /** Translation refuses empty buffers, and raw bytes need an original file. */
  ghost predicate Emits(s: Section, c: Codec) {
    s.Occupies() ==> if s.data == [] then c.raw.Some? else forall d :: d in s.data ==> d.size > 0
  }

  // ---- the writer ----

  /** The descriptor loop of _libelf_write_scn. */
  method WriteData(im: Image, t: ElfType, base: nat, data: seq<Data>, c: Codec, rc0: nat,
                   ghost done0: seq<byte>, ghost tail: seq<Piece>, ghost whole: seq<byte>)
    returns (ok: bool, rc: nat, ghost done: seq<byte>)
    requires forall d :: d in data ==> Writable(d, t, c)
    requires im.Progress(done0, rc0) && |whole| <= im.bytes.Length
    requires OnTrack(done0, DataPieces(base, t, data, c) + tail, c.fill, whole)
    modifies im, im.bytes
    ensures ok <==> forall d :: d in data ==> d.size > 0
    ensures ok ==> im.Progress(done, rc) && OnTrack(done, tail, c.fill, whole)
  {
    rc, done := rc0, done0;
    var i := 0;
    assert data[0..] == data;
    while i < |data|
      invariant 0 <= i <= |data|
      invariant im.Progress(done, rc) && OnTrack(done, DataPieces(base, t, data[i..], c) + tail, c.fill, whole)
      invariant forall d :: d in data[..i] ==> d.size > 0
    {
      var d := data[i];
      assert d in data && data[i..][1..] == data[i + 1..] && data[..i + 1] == data[..i] + [d];
      assert d.size % c.msize(t) == 0;
      if d.size == 0 {
        return false, rc, done;
      }
      var p := Piece(base + d.off, c.data(t, d.buf.value));
      ghost var rest := DataPieces(base, t, data[i + 1..], c);
      assert DataPieces(base, t, data[i..], c) + tail == [p] + (rest + tail);
      rc, done := im.Put(p, rc, c.fill, done, rest + tail, whole);
      i := i + 1;
    }
    assert data[..i] == data;
    assert DataPieces(base, t, data[i..], c) + tail == tail;
    ok := true;
  }

  /** _libelf_write_scn; ok is false where it returns -1. */
  method WriteScn(im: Image, s: Section, ec: Class, c: Codec, rc0: nat,
                  ghost done0: seq<byte>, ghost tail: seq<Piece>, ghost whole: seq<byte>)
    returns (ok: bool, rc: nat, ghost done: seq<byte>)
    requires Stored(s, ec, c)
    requires im.Progress(done0, rc0) && |whole| <= im.bytes.Length
    requires OnTrack(done0, ScnPieces(s, c) + tail, c.fill, whole)
    modifies im, im.bytes
    ensures ok <==> Emits(s, c)
    ensures ok ==> im.Progress(done, rc) && OnTrack(done, tail, c.fill, whole)
  {
    if s.shType.ShtNull? || s.shType.ShtNoBits? {
      assert ScnPieces(s, c) + tail == tail;
      return true, rc0, done0;
    }
    var t := XlateShType(s.shType).value;
    assert s.offset % FileAlign(t, ec) == 0;
    if s.data == [] {
      if c.raw.None? {
        return false, rc0, done0;
      }
      var p := Piece(s.offset, c.raw.value[s.rawOff..s.rawOff + s.shSize]);
      assert ScnPieces(s, c) + tail == [p] + tail;
      rc, done := im.Put(p, rc0, c.fill, done0, tail, whole);
      return true, rc, done;
    }
    ok, rc, done := WriteData(im, t, s.offset, s.data, c, rc0, done0, tail, whole);
  }

  lemma NextScn(items: seq<Section>, i: nat, c: Codec, tail: seq<Piece>)
    requires i < |items|
    ensures AllScnPieces(items[i..], c) + tail == ScnPieces(items[i], c) + (AllScnPieces(items[i + 1..], c) + tail)
  {
    assert items[i..][1..] == items[i + 1..];
  }

  /** The loop over the section list. */
  method WriteSections(im: Image, q: Queue<Section>, ec: Class, c: Codec, rc0: nat, ghost items: seq<Section>,
                       ghost done0: seq<byte>, ghost tail: seq<Piece>, ghost whole: seq<byte>)
    returns (ok: bool, rc: nat, ghost done: seq<byte>)
    requires q.Valid() && Holds(q.nodes, items) && forall s :: s in items ==> Stored(s, ec, c)
    requires im.Progress(done0, rc0) && |whole| <= im.bytes.Length
    requires OnTrack(done0, AllScnPieces(items, c) + tail, c.fill, whole)
    modifies im, im.bytes
    ensures ok <==> forall s :: s in items ==> Emits(s, c)
    ensures ok ==> im.Progress(done, rc) && OnTrack(done, tail, c.fill, whole)
  {
    rc, done := rc0, done0;
    var n := q.first;
    ghost var i := 0;
    assert items[0..] == items;
    while n != null
      invariant 0 <= i <= |q.nodes| && n == At(q.nodes, i)
      invariant im.Progress(done, rc) && OnTrack(done, AllScnPieces(items[i..], c) + tail, c.fill, whole)
      invariant forall m :: 0 <= m < i ==> Emits(items[m], c)
      decreases |q.nodes| - i
    {
      ghost var rest := AllScnPieces(items[i + 1..], c) + tail;
      assert n.item == items[i] && items[i] in items;
      NextScn(items, i, c, tail);
      ok, rc, done := WriteScn(im, n.item, ec, c, rc, done, rest, whole);
      if !ok {
        return;
      }
      n := n.next;
      i := i + 1;
    }
    assert AllScnPieces(items[i..], c) + tail == tail;
    ok := true;
  }

  /** The loop that writes the section header table, in list order. */
  method WriteTable(im: Image, q: Queue<Section>, shoff: nat, ec: Class, c: Codec, rc0: nat, ghost items: seq<Section>,
                    ghost done0: seq<byte>, ghost whole: seq<byte>)
    returns (rc: nat)
    requires q.Valid() && Holds(q.nodes, items) && forall s :: |c.shdr(s)| == ShdrSize(ec)
    requires im.Progress(done0, rc0) && |whole| <= im.bytes.Length && rc0 <= shoff
    requires items != [] && OnTrack(done0, ShdrPieces(items, shoff, ShdrSize(ec), c), c.fill, whole)
    modifies im, im.bytes
    ensures im.Progress(whole, rc)
  {
    rc := rc0;
    ghost var done := done0;
    var at: nat := shoff;
    var n := q.first;
    ghost var i := 0;
    assert items[0..] == items;
    while n != null
      invariant 0 <= i <= |q.nodes| && n == At(q.nodes, i)
      invariant im.Progress(done, rc)
      invariant OnTrack(done, ShdrPieces(items[i..], at, ShdrSize(ec), c), c.fill, whole)
      decreases |q.nodes| - i
    {
      assert n.item == items[i] && items[i..][1..] == items[i + 1..];
      ghost var rest := ShdrPieces(items[i + 1..], at + ShdrSize(ec), ShdrSize(ec), c);
      rc, done := im.Put(Piece(at, c.shdr(n.item)), rc, c.fill, done, rest, whole);
      at := rc;
      n := n.next;
      i := i + 1;
    }
    assert done + [] == whole;
  }

  /** The program header table.  The gap before it is filled, but the table is copied to the running
      position and not to phoff. */
  method WritePhdrs(im: Image, rc0: nat, phoff: nat, table: seq<byte>, fill: byte) returns (rc: nat)
    requires im.Valid() && rc0 <= phoff && phoff + |table| <= im.bytes.Length && table != []
    modifies im, im.bytes
    ensures im.Valid() && rc == phoff + |table|
    ensures im.bytes[rc0..rc0 + |table|] == table
    ensures im.bytes[..rc0] == old(im.bytes[..rc0])
    ensures forall i :: 0 <= i < |im.writes| ==>
              im.writes[i] == old(im.writes)[i] + PhdrWrites(rc0, phoff, |table|, i)
  {
    rc := rc0;
    if rc < phoff {
      im.Memset(rc, fill, phoff - rc);
    }
    im.Memcpy(rc, table);
    rc := phoff + |table|;
  }

  /** How often WritePhdrs writes byte i. */
  function PhdrWrites(rc: nat, phoff: nat, size: nat, i: nat): nat {
    (if rc <= i < phoff then 1 else 0) + if rc <= i < rc + size then 1 else 0
  }

  /** Every byte up to the end of the table is written exactly once if and only if the table directly
      follows what was written before it, as it does whenever the library places it.  With any gap
      some byte is written twice. */
  lemma PhdrTableExact(rc: nat, phoff: nat, size: nat)
    requires rc <= phoff && size > 0
    ensures (forall i :: rc <= i < phoff + size ==> PhdrWrites(rc, phoff, size, i) == 1) <==> phoff == rc
  {
    if rc < phoff {
      assert PhdrWrites(rc, phoff, size, rc) == 2;
    }
  }

  /** WritePhdrs when nothing lies between the written bytes and phoff. */
  method WritePhdrsNext(im: Image, phoff: nat, table: seq<byte>, fill: byte,
                        ghost done0: seq<byte>, ghost tail: seq<Piece>, ghost whole: seq<byte>)
    returns (rc: nat, ghost done: seq<byte>)
    requires im.Progress(done0, phoff) && |whole| <= im.bytes.Length && table != []
    requires OnTrack(done0, [Piece(phoff, table)] + tail, fill, whole)
    modifies im, im.bytes
    ensures rc == phoff + |table|
    ensures im.Progress(done, rc) && OnTrack(done, tail, fill, whole)
  {
    OnTrackStep(done0, Piece(phoff, table), tail, fill, whole);
    rc := WritePhdrs(im, phoff, phoff, table, fill);
    done := done0 + Repeat(fill, 0) + table;
    assert im.bytes[..rc] == im.bytes[..phoff] + im.bytes[phoff..rc];
  }

  /** The application has placed the program header table behind a gap. */
  predicate Gap(h: Ehdr, nphdr: nat, ec: Class) {
    nphdr != 0 && h.phoff != 0 && h.phoff != EhdrSize(ec)
  }

  /** Where the sections may begin. */
  function HeadersEnd(h: Ehdr, nphdr: nat, ec: Class): nat {
    if nphdr != 0 && h.phoff != 0 then h.phoff + PhdrSize(ec) * nphdr else EhdrSize(ec)
  }

  /** The header area behind a gap: the table stands directly behind the ELF header. */
  ghost predicate Misplaced(img: seq<byte>, h: Ehdr, ec: Class, c: Codec) {
    && EhdrSize(ec) + |c.phdrs| <= |img|
    && img[..EhdrSize(ec)] == c.ehdr(h) && img[EhdrSize(ec)..EhdrSize(ec) + |c.phdrs|] == c.phdrs
  }

  /** WritePhdrs behind a gap. */
  method WritePhdrsApart(im: Image, h: Ehdr, ec: Class, c: Codec) returns (rc: nat)
    requires im.Progress(c.ehdr(h), EhdrSize(ec)) && EhdrSize(ec) < h.phoff && c.phdrs != []
    requires h.phoff + |c.phdrs| <= im.bytes.Length && im.counted == h.phoff + |c.phdrs|
    modifies im, im.bytes
    ensures rc == h.phoff + |c.phdrs| && im.Progress(im.bytes[..rc], rc)
    ensures Misplaced(im.bytes[..rc], h, ec, c)
  {
    rc := WritePhdrs(im, EhdrSize(ec), h.phoff, c.phdrs, c.fill);
    assert im.bytes[..rc][..EhdrSize(ec)] == im.bytes[..EhdrSize(ec)];
    assert im.bytes[..rc][EhdrSize(ec)..EhdrSize(ec) + |c.phdrs|] == im.bytes[EhdrSize(ec)..EhdrSize(ec) + |c.phdrs|];
  }

  /** The ELF header and the program header table. */
  method WriteHeaders(im: Image, h: Ehdr, nphdr: nat, ec: Class, c: Codec, ghost body: seq<Piece>,
                      ghost whole: seq<byte>)
    returns (rc: nat, ghost done: seq<byte>)
    requires Sized(c, ec, nphdr) && im.Progress([], 0) && |whole| <= im.bytes.Length
    requires OnTrack([], [Piece(0, c.ehdr(h))] + (PhdrPieces(h, nphdr, c) + body), c.fill, whole)
    requires Gap(h, nphdr, ec) ==> im.counted == HeadersEnd(h, nphdr, ec)
    modifies im, im.bytes
    ensures rc == HeadersEnd(h, nphdr, ec) <= |whole| && im.Progress(done, rc)
    ensures OnTrack(whole[..rc], body, c.fill, whole)
    ensures if Gap(h, nphdr, ec) then Misplaced(done, h, ec, c) else done == whole[..rc]
  {
    ghost var tail := PhdrPieces(h, nphdr, c) + body;
    rc, done := im.Put(Piece(0, c.ehdr(h)), 0, c.fill, [], tail, whole);
    DoneIsPrefix(done, tail, c.fill, whole);
    if nphdr != 0 && h.phoff != 0 {
      assert PhdrSize(ec) * nphdr >= PhdrSize(ec);
      assert done == c.ehdr(h) by {
        assert im.bytes[..rc] == done;
        HeaderDone(c.ehdr(h), tail, c.fill, whole);
      }
      rc, done := WritePhdrTable(im, h, ec, c, body, whole);
    } else {
      assert tail == body;
    }
  }

  lemma HeaderDone(first: seq<byte>, tail: seq<Piece>, fill: byte, whole: seq<byte>)
    requires OnTrack([], [Piece(0, first)] + tail, fill, whole)
    ensures |first| <= |whole| && whole[..|first|] == first
  {
    OnTrackStep([], Piece(0, first), tail, fill, whole);
    var done := [] + Repeat(fill, 0) + first;
    assert done == first;
    DoneIsPrefix(done, tail, fill, whole);
  }

  lemma AfterPhdrs(done: seq<byte>, p: Piece, body: seq<Piece>, fill: byte, whole: seq<byte>)
    requires OnTrack(done, [p] + body, fill, whole)
    ensures |done| <= p.at && p.End() <= |whole| && OnTrack(whole[..p.End()], body, fill, whole)
  {
    OnTrackStep(done, p, body, fill, whole);
    DoneIsPrefix(done + Repeat(fill, p.at - |done|) + p.bytes, body, fill, whole);
  }

  /** The program header table behind the ELF header, directly or with a gap. */
  method WritePhdrTable(im: Image, h: Ehdr, ec: Class, c: Codec, ghost body: seq<Piece>, ghost whole: seq<byte>)
    returns (rc: nat, ghost done: seq<byte>)
    requires |c.ehdr(h)| == EhdrSize(ec) && im.Progress(c.ehdr(h), EhdrSize(ec)) && |whole| <= im.bytes.Length
    requires c.phdrs != [] && OnTrack(c.ehdr(h), [Piece(h.phoff, c.phdrs)] + body, c.fill, whole)
    requires h.phoff != EhdrSize(ec) ==> im.counted == h.phoff + |c.phdrs|
    modifies im, im.bytes
    ensures rc == h.phoff + |c.phdrs| <= |whole| && im.Progress(done, rc)
    ensures OnTrack(whole[..rc], body, c.fill, whole)
    ensures if h.phoff != EhdrSize(ec) then Misplaced(done, h, ec, c) else done == whole[..rc]
  {
    AfterPhdrs(c.ehdr(h), Piece(h.phoff, c.phdrs), body, c.fill, whole);
    if h.phoff == EhdrSize(ec) {
      rc, done := WritePhdrsNext(im, h.phoff, c.phdrs, c.fill, c.ehdr(h), body, whole);
      DoneIsPrefix(done, body, c.fill, whole);
    } else {
      rc := WritePhdrsApart(im, h, ec, c);
      done := im.bytes[..rc];
    }
  }

  lemma DoneIsPrefix(done: seq<byte>, rest: seq<Piece>, fill: byte, whole: seq<byte>)
    requires OnTrack(done, rest, fill, whole)
    ensures |done| <= |whole| && done == whole[..|done|]
  {
  }

  /** The sections and the section header table. */
  method WriteBody(im: Image, q: Queue<Section>, h: Ehdr, ec: Class, c: Codec, rc0: nat, ghost items: seq<Section>,
                   ghost done0: seq<byte>, ghost whole: seq<byte>)
    returns (ok: bool, rc: nat)
    requires q.Valid() && Holds(q.nodes, items) && forall s :: s in items ==> Stored(s, ec, c)
    requires forall s :: |c.shdr(s)| == ShdrSize(ec)
    requires im.Progress(done0, rc0) && |whole| <= im.bytes.Length
    requires OnTrack(done0, AllScnPieces(items, c) + TablePieces(h, items, ec, c), c.fill, whole)
    requires h.shnum != 0 && h.shoff != 0 ==> items != []
    modifies im, im.bytes
    ensures ok <==> forall s :: s in items ==> Emits(s, c)
    ensures ok ==> im.Progress(whole, rc)
  {
    ghost var table := TablePieces(h, items, ec, c);
    ghost var done: seq<byte>;
    ok, rc, done := WriteSections(im, q, ec, c, rc0, items, done0, table, whole);
    if !ok {
      return;
    }
    if h.shnum != 0 && h.shoff != 0 {
      TableAfter(items, h.shoff, ec, c, done, whole);
      rc := WriteTable(im, q, h.shoff, ec, c, rc, items, done, whole);
    } else {
      assert done + [] == whole;
    }
  }

  /** The finished image.  Behind the headers it is what the pieces say, every byte written once, and so are
      the headers unless there is a gap between them: then the program header table is not where the header
      says. */
  ghost predicate Built(im: Image, h: Ehdr, nphdr: nat, items: seq<Section>, ec: Class, c: Codec)
    requires Ordered(AllPieces(h, nphdr, items, ec, c), 0)
    reads im, im.bytes
  {
    var whole, start := Render(AllPieces(h, nphdr, items, ec, c), 0, c.fill), HeadersEnd(h, nphdr, ec);
    if !Gap(h, nphdr, ec) then im.counted == 0 && im.Progress(whole, im.bytes.Length)
    else
      && im.Valid() && start <= |whole| == im.bytes.Length && im.bytes[start..] == whole[start..]
      && (forall i :: start <= i < |im.writes| ==> im.writes[i] == 1)
      && Misplaced(im.bytes[..], h, ec, c)
  }

  /** The image-building part of _libelf_write_elf. */
  method WriteElf(e: Elf, c: Codec, newsize: nat, ghost items: seq<Section>) returns (ok: bool, im: Image)
    requires e.Lists(items) && Sized(c, e.ec, e.nphdr) && forall s :: s in items ==> Stored(s, e.ec, c)
    requires var ps := AllPieces(e.ehdr, e.nphdr, items, e.ec, c);
             Ordered(ps, 0) && EndOf(ps, 0) == newsize
    requires e.ehdr.shnum != 0 && e.ehdr.shoff != 0 ==> items != []
    ensures fresh(im) && fresh(im.bytes) && im.bytes.Length == newsize
    ensures ok <==> forall s :: s in items ==> Emits(s, c)
    ensures ok ==> Built(im, e.ehdr, e.nphdr, items, e.ec, c)
  {
    im := new Image(newsize, if Gap(e.ehdr, e.nphdr, e.ec) then HeadersEnd(e.ehdr, e.nphdr, e.ec) else 0);
    ghost var whole := Render(AllPieces(e.ehdr, e.nphdr, items, e.ec, c), 0, c.fill);
    StartOnTrack(e.ehdr, e.nphdr, items, e.ec, c);
    var rc: nat;
    ok, rc := WriteParts(im, e, c, items, whole);
    if ok {
      assert rc == newsize && im.bytes[..rc] == im.bytes[..];
    }
  }

  /** Headers, sections and table in turn. */
  method WriteParts(im: Image, e: Elf, c: Codec, ghost items: seq<Section>, ghost whole: seq<byte>)
    returns (ok: bool, rc: nat)
    requires e.Lists(items) && Sized(c, e.ec, e.nphdr) && forall s :: s in items ==> Stored(s, e.ec, c)
    requires im.Progress([], 0) && |whole| <= im.bytes.Length
    requires OnTrack([], AllPieces(e.ehdr, e.nphdr, items, e.ec, c), c.fill, whole)
    requires Gap(e.ehdr, e.nphdr, e.ec) ==> im.counted == HeadersEnd(e.ehdr, e.nphdr, e.ec)
    requires e.ehdr.shnum != 0 && e.ehdr.shoff != 0 ==> items != []
    modifies im, im.bytes
    ensures ok <==> forall s :: s in items ==> Emits(s, c)
    ensures ok ==> rc == |whole| && HeadersEnd(e.ehdr, e.nphdr, e.ec) <= rc && im.Progress(im.bytes[..rc], rc)
    ensures ok && !Gap(e.ehdr, e.nphdr, e.ec) ==> im.bytes[..rc] == whole
    ensures var start := HeadersEnd(e.ehdr, e.nphdr, e.ec);
            ok && Gap(e.ehdr, e.nphdr, e.ec) ==>
              im.bytes[start..rc] == whole[start..] && Misplaced(im.bytes[..rc], e.ehdr, e.ec, c)
  {
    ghost var body := AllScnPieces(items, c) + TablePieces(e.ehdr, items, e.ec, c);
    ghost var done: seq<byte>;
    rc, done := WriteHeaders(im, e.ehdr, e.nphdr, e.ec, c, body, whole);
    ghost var start, full := rc, done + whole[rc..];
    OtherHeaders(whole, rc, done, body, c.fill);
    ok, rc := WriteBody(im, e.scns, e.ehdr, e.ec, c, rc, items, done, full);
    if ok {
      assert im.bytes[..rc] == full;
      assert full[start..] == whole[start..];
      if Gap(e.ehdr, e.nphdr, e.ec) {
        assert full[..EhdrSize(e.ec)] == done[..EhdrSize(e.ec)];
      } else {
        assert full == whole;
      }
    }
  }

  /** Whatever stands in the header area, the rest of the image is the same. */
  lemma OtherHeaders(whole: seq<byte>, rc: nat, done: seq<byte>, body: seq<Piece>, fill: byte)
    requires rc <= |whole| && |done| == rc && OnTrack(whole[..rc], body, fill, whole)
    ensures OnTrack(done, body, fill, done + whole[rc..])
  {
    assert whole == whole[..rc] + whole[rc..];
  }

  lemma StartOnTrack(h: Ehdr, nphdr: nat, items: seq<Section>, ec: Class, c: Codec)
    requires Ordered(AllPieces(h, nphdr, items, ec, c), 0)
    ensures var ps := AllPieces(h, nphdr, items, ec, c);
            var body := AllScnPieces(items, c) + TablePieces(h, items, ec, c);
            && |Render(ps, 0, c.fill)| == EndOf(ps, 0)
            && OnTrack([], [Piece(0, c.ehdr(h))] + (PhdrPieces(h, nphdr, c) + body), c.fill, Render(ps, 0, c.fill))
  {
    var ps := AllPieces(h, nphdr, items, ec, c);
    RenderLength(ps, 0, c.fill);
    assert [] + Render(ps, 0, c.fill) == Render(ps, 0, c.fill);
  }

  lemma TableAfter(items: seq<Section>, shoff: nat, ec: Class, c: Codec, done: seq<byte>, whole: seq<byte>)
    requires items != [] && OnTrack(done, ShdrPieces(items, shoff, ShdrSize(ec), c), c.fill, whole)
    ensures |done| <= shoff
  {
  }

  // ---- laying out makes the pieces fall into place ----

  lemma {:induction false} DataPiecesOrdered(base: nat, t: ElfType, data: seq<Data>, size: nat, c: Codec, start: nat)
    requires forall t, b :: |c.data(t, b)| == |b|
    requires Extents.InOrder(data, size) && forall d :: d in data ==> d.Valid() && d.buf.Some?
    requires data != [] ==> start <= base + data[0].off
    ensures Ordered(DataPieces(base, t, data, c), start)
    ensures EndOf(DataPieces(base, t, data, c), start) == if data == [] then start else base + size
  {
    if data != [] {
      assert data[0] in data;
      var rest := data[1..];
      assert rest != [] ==> rest[|rest| - 1] == data[|data| - 1] && data[0].off + data[0].size <= data[1].off;
      DataPiecesOrdered(base, t, rest, size, c, base + data[0].off + data[0].size);
    }
  }

  lemma ScnPiecesOrdered(s: Section, ec: Class, c: Codec, start: nat)
    requires forall t, b :: |c.data(t, b)| == |b|
    requires Stored(s, ec, c) && (s.Occupies() ==> start <= s.offset)
    ensures Ordered(ScnPieces(s, c), start)
    ensures start <= EndOf(ScnPieces(s, c), start)
    ensures EndOf(ScnPieces(s, c), start) <= if s.Occupies() then s.End() else start
  {
    if s.Occupies() && s.data != [] {
      DataPiecesOrdered(s.offset, XlateShType(s.shType).value, s.data, s.size, c, start);
    }
  }

  /** Sections in ascending order are written one after the other. */
  lemma {:induction false} SectionsOrdered(items: seq<Section>, ec: Class, c: Codec, start: nat, end: nat)
    requires forall t, b :: |c.data(t, b)| == |b|
    requires Resync.Ascending(items) && forall s :: s in items ==> Stored(s, ec, c)
    requires start <= end && forall s :: s in items && s.Occupies() ==> start <= s.offset && s.End() <= end
    ensures Ordered(AllScnPieces(items, c), start) && start <= EndOf(AllScnPieces(items, c), start) <= end
  {
    if items != [] {
      var s, rest := items[0], items[1..];
      assert s in items;
      ScnPiecesOrdered(s, ec, c, start);
      var mid := EndOf(ScnPieces(s, c), start);
      forall u | u in rest && u.Occupies() ensures mid <= u.offset {
        var i :| 0 <= i < |rest| && rest[i] == u;
        assert u == items[i + 1] && u in items;
      }
      assert Resync.Ascending(rest) by {
        assert forall i :: 0 <= i < |rest| ==> rest[i] == items[i + 1];
      }
      SectionsOrdered(rest, ec, c, mid, end);
      AppendPieces(ScnPieces(s, c), AllScnPieces(rest, c), start, c.fill);
    }
  }

  /** The pieces of one section that writes something. */
  lemma ScnPiecesExact(s: Section, ec: Class, c: Codec, start: nat)
    requires forall t, b :: |c.data(t, b)| == |b|
    requires Stored(s, ec, c) && Emits(s, c) && s.Occupies() && (s.data != [] ==> s.data[0].off == 0)
    ensures Ordered(ScnPieces(s, c), start) <==> start <= s.offset
    ensures start <= s.offset ==> EndOf(ScnPieces(s, c), start) == s.End()
  {
    if start <= s.offset {
      ScnPiecesOrdered(s, ec, c, start);
      if s.data != [] {
        DataPiecesOrdered(s.offset, XlateShType(s.shType).value, s.data, s.size, c, start);
      }
    } else if s.data != [] {
      assert ScnPieces(s, c)[0].at == s.offset;
    }
  }

  lemma AscendingSplit(s: Section, rest: seq<Section>)
    ensures Resync.Ascending([s] + rest) <==> Resync.Ascending(rest) && (s.Occupies() ==> Resync.Behind(rest, s.End()))
  {
    var items := [s] + rest;
    assert forall i :: 0 <= i < |rest| ==> rest[i] == items[i + 1];
    if Resync.Ascending(items) && s.Occupies() {
      forall u | u in rest && u.Occupies() ensures s.End() <= u.offset {
        var i :| 0 <= i < |rest| && rest[i] == u;
        assert items[0] == s && items[i + 1] == u;
      }
    }
    if Resync.Ascending(rest) && (s.Occupies() ==> Resync.Behind(rest, s.End())) {
      forall i, j | 0 <= i < j < |items| && items[i].Occupies() && items[j].Occupies()
        ensures items[i].End() <= items[j].offset
      {
        assert items[j] == rest[j - 1] && rest[j - 1] in rest;
        if i > 0 {
          assert items[i] == rest[i - 1];
        }
      }
    }
  }

  /** The sections that are written lie one after the other from start on, exactly when the list is
      ascending and none begins before start. */
  lemma {:induction false} OrderedExactly(items: seq<Section>, ec: Class, c: Codec, start: nat)
    requires forall t, b :: |c.data(t, b)| == |b|
    requires forall s :: s in items ==>
               Stored(s, ec, c) && Emits(s, c) && (s.Occupies() && s.data != [] ==> s.data[0].off == 0)
    ensures Ordered(AllScnPieces(items, c), start) <==> Resync.Ascending(items) && Resync.Behind(items, start)
  {
    if items != [] {
      var s, rest := items[0], items[1..];
      assert s in items && items == [s] + rest;
      AppendPieces(ScnPieces(s, c), AllScnPieces(rest, c), start, c.fill);
      AscendingSplit(s, rest);
      if s.Occupies() {
        ScnPiecesExact(s, ec, c, start);
        OrderedExactly(rest, ec, c, s.End());
        BehindSplit(s, rest, start);
      } else {
        OrderedExactly(rest, ec, c, start);
        assert Resync.Behind(items, start) <==> Resync.Behind(rest, start);
      }
    }
  }

  lemma BehindSplit(s: Section, rest: seq<Section>, start: nat)
    requires s.Occupies()
    ensures Resync.Behind([s] + rest, start) && Resync.Behind(rest, s.End()) <==>
            start <= s.offset && Resync.Behind(rest, s.End())
  {
    assert forall u :: u in [s] + rest <==> u == s || u in rest;
  }

  lemma {:induction false} TableOrdered(items: seq<Section>, at: nat, size: nat, c: Codec, start: nat)
    requires (forall s :: |c.shdr(s)| == size) && start <= at && items != []
    ensures Ordered(ShdrPieces(items, at, size, c), start)
    ensures EndOf(ShdrPieces(items, at, size, c), start) == at + size * |items|
  {
    var rest := items[1..];
    if rest != [] {
      TableOrdered(rest, at + size, size, c, at + size);
      assert size * |items| == size + size * |rest|;
    } else {
      assert size * |items| == size;
    }
  }
}
