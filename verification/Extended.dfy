/** Extended numbering: counts that do not fit the header's 16-bit fields are kept in section
    header zero (libelf_extended.c), and read back from there (libelf_ehdr.c). */
module Extended {
  import opened Common
  import opened ElfTypes
  import opened Stailq
  import opened ElfObject

  type State = (Ehdr, seq<Section>)

  // ---- the setters as functions of the header and the section list ----

  /** The list with section zero allocated if there is none. */
  function WithScn0(items: seq<Section>): (r: seq<Section>)
    ensures r != []
  {
    if items == [] then [ZeroSection(0)] else items
  }

  function SetShNum(st: State, ec: Class, n: nat): State {
    if n < SHN_LORESERVE then (st.0.(shnum := n), st.1)
    else
      var items := WithScn0(st.1);
      (st.0.(shnum := 0), items[0 := items[0].(shSize := Narrow(ec, n), dirty := true)])
  }

  function SetPhNum(st: State, n: nat): State {
    if n < PN_XNUM then (st.0.(phnum := n), st.1)
    else
      var items := WithScn0(st.1);
      (st.0.(phnum := PN_XNUM), items[0 := items[0].(shInfo := n % 0x1_0000_0000, dirty := true)])
  }

  function SetShStrNdx(st: State, n: nat): State {
    if n < SHN_LORESERVE then (st.0.(shstrndx := n), st.1)
    else
      var items := WithScn0(st.1);
      (st.0.(shstrndx := SHN_XINDEX), items[0 := items[0].(shLink := n % 0x1_0000_0000, dirty := true)])
  }

  // ---- the setters ----

  /** _libelf_getscn0. */
  method GetScn0(e: Elf, ghost items: seq<Section>) returns (n: Node<Section>)
    requires e.Lists(items)
    modifies e.scns, e.scns.nodes`next
    ensures e.Lists(WithScn0(items)) && n == e.scns.nodes[0]
    ensures if items == [] then fresh(n) && e.scns.nodes == [n] else e.scns.nodes == old(e.scns.nodes)
  {
    if e.scns.first != null {
      return e.scns.first;
    }
    n := new Node(ZeroSection(0));
    e.scns.InsertTail(n);
  }

  method StoreShNum(e: Elf, n: nat, ghost items: seq<Section>)
    requires e.Lists(items)
    modifies e`ehdr, e.scns, e.scns.nodes
    ensures e.ehdr == SetShNum((old(e.ehdr), items), e.ec, n).0
    ensures e.Lists(SetShNum((old(e.ehdr), items), e.ec, n).1)
    ensures items != [] ==> e.scns.nodes == old(e.scns.nodes)
    ensures items == [] ==> fresh(set x | x in e.scns.nodes)
  {
    var shnum := n;
    if shnum >= SHN_LORESERVE {
      var scn := GetScn0(e, items);
      scn.item := scn.item.(shSize := Narrow(e.ec, shnum), dirty := true);
      shnum := 0;
    }
    e.ehdr := e.ehdr.(shnum := shnum);
  }

  method StorePhNum(e: Elf, n: nat, ghost items: seq<Section>)
    requires e.Lists(items)
    modifies e`ehdr, e.scns, e.scns.nodes
    ensures e.ehdr == SetPhNum((old(e.ehdr), items), n).0
    ensures e.Lists(SetPhNum((old(e.ehdr), items), n).1)
    ensures items != [] ==> e.scns.nodes == old(e.scns.nodes)
    ensures items == [] ==> fresh(set x | x in e.scns.nodes)
  {
    var phnum := n;
    if phnum >= PN_XNUM {
      var scn := GetScn0(e, items);
      scn.item := scn.item.(shInfo := phnum % 0x1_0000_0000, dirty := true);
      phnum := PN_XNUM;
    }
    e.ehdr := e.ehdr.(phnum := phnum);
  }

  method StoreShStrNdx(e: Elf, n: nat, ghost items: seq<Section>)
    requires e.Lists(items)
    modifies e`ehdr, e.scns, e.scns.nodes
    ensures e.ehdr == SetShStrNdx((old(e.ehdr), items), n).0
    ensures e.Lists(SetShStrNdx((old(e.ehdr), items), n).1)
    ensures items != [] ==> e.scns.nodes == old(e.scns.nodes)
    ensures items == [] ==> fresh(set x | x in e.scns.nodes)
  {
    var ndx := n;
    if ndx >= SHN_LORESERVE {
      var scn := GetScn0(e, items);
      scn.item := scn.item.(shLink := ndx % 0x1_0000_0000, dirty := true);
      ndx := SHN_XINDEX;
    }
    e.ehdr := e.ehdr.(shstrndx := ndx);
  }

  // ---- reading the counts back ----

  /** e_nscn, e_nphdr and e_strndx. */
  datatype Counts = Counts(nscn: nat, nphdr: nat, strndx: nat)

  /** _libelf_load_extended: scn0 is the section header found at e_shoff, None when the file is too
      short to hold one. */
  method LoadExtended(h: Ehdr, scn0: Option<Section>) returns (r: Result<Counts, Error>)
    ensures r == Decode(InScn0(h), scn0)
  {
    if scn0.None? {
      return Err(Header);
    }
    var scn := scn0.value;
    if scn.shType != ShtNull {
      return Err(SectionError);
    }
    var nphdr, strndx := h.phnum, h.shstrndx;
    if nphdr == PN_XNUM {
      nphdr := scn.shInfo;
    }
    if strndx == SHN_XINDEX {
      strndx := scn.shLink;
    }
    r := Ok(Counts(scn.shSize, nphdr, strndx));
  }

  /** The counting part of _libelf_ehdr. */
  method LoadCounts(h: Ehdr, scn0: Option<Section>) returns (r: Result<Counts, Error>)
    ensures r == Decode(h, scn0)
  {
    if h.shnum >= SHN_LORESERVE || (h.shoff == 0 && (h.shnum != 0 || h.phnum == PN_XNUM || h.shstrndx == SHN_XINDEX)) {
      return Err(Header);
    }
    if h.shnum != 0 || h.shoff == 0 {
      return Ok(Counts(h.shnum, h.phnum, h.shstrndx));
    }
    r := LoadExtended(h, scn0);
  }

  /** The header with the mark that its counts are in section zero. */
  function InScn0(h: Ehdr): Ehdr {
    h.(shnum := 0, shoff := Max(1, h.shoff))
  }

  function Decode(h: Ehdr, scn0: Option<Section>): Result<Counts, Error> {
    if h.shnum >= SHN_LORESERVE ||
       (h.shoff == 0 && (h.shnum != 0 || h.phnum == PN_XNUM || h.shstrndx == SHN_XINDEX)) then
      Err(Header)
    else if h.shnum != 0 || h.shoff == 0 then
      Ok(Counts(h.shnum, h.phnum, h.shstrndx))
    else
      match scn0
      case None => Err(Header)
      case Some(z) =>
        if z.shType != ShtNull then Err(SectionError)
        else Ok(Counts(z.shSize, if h.phnum != PN_XNUM then h.phnum else z.shInfo,
                       if h.shstrndx != SHN_XINDEX then h.shstrndx else z.shLink))
  }

  /** When counts cannot be read: a header that contradicts itself, a file too short for section zero, or a
      section zero that is no null section. */
  lemma DecodeErrors(h: Ehdr, scn0: Option<Section>)
    ensures Decode(h, scn0) == Err(SectionError) <==>
            h.shnum == 0 && h.shoff != 0 && scn0.Some? && scn0.value.shType != ShtNull
    ensures Decode(h, scn0) == Err(Header) <==>
            || h.shnum >= SHN_LORESERVE
            || (h.shoff == 0 && (h.shnum != 0 || h.phnum == PN_XNUM || h.shstrndx == SHN_XINDEX))
            || (h.shoff != 0 && h.shnum == 0 && scn0.None?)
    ensures Decode(h, scn0).Err? ==> Decode(h, scn0) in {Err(SectionError), Err(Header)}
  {
  }

  // ---- the round trip ----

  /** The three setters in the order an update makes them: the string index is the application's,
      the two counts follow at the end of layout. */
  function Encode(st: State, ec: Class, c: Counts): State {
    SetShNum(SetPhNum(SetShStrNdx(st, c.strndx), c.nphdr), ec, c.nscn)
  }

  function First(items: seq<Section>): Option<Section> {
    if items == [] then None else Some(items[0])
  }

  /** Section zero, present or about to be allocated, is a null section. */
  ghost predicate NullScn0(items: seq<Section>) {
    WithScn0(items)[0].shType == ShtNull
  }

  ghost predicate Words(c: Counts) {
    c.nscn < 0x1_0000_0000 && c.nphdr < 0x1_0000_0000 && c.strndx < 0x1_0000_0000
  }

  /** When the counts can be read back.  With a section header table, the extended form takes over
      once the section count itself needs it; below that the other two must fit their fields.
      The value 0xffff is its own escape code and survives by accident. */
  ghost predicate Representable(st: State, c: Counts) {
    if st.0.shoff == 0 then
      c.nscn == 0 && c.nphdr < PN_XNUM && c.strndx < SHN_LORESERVE
    else if c.nscn >= SHN_LORESERVE then
      NullScn0(st.1)
    else if c.nscn != 0 then
      c.nphdr <= PN_XNUM && (c.strndx < SHN_LORESERVE || c.strndx == SHN_XINDEX)
    else
      && NullScn0(st.1) && WithScn0(st.1)[0].shSize == 0
      && (st.1 != [] || c.nphdr >= PN_XNUM || c.strndx >= SHN_LORESERVE)
  }

  /** The effect of the three setters together on section zero. */
  lemma EncodedScn0(st: State, ec: Class, c: Counts)
    requires Words(c)
    ensures var (h, items) := Encode(st, ec, c);
            && h.shoff == st.0.shoff
            && h.shnum == (if c.nscn < SHN_LORESERVE then c.nscn else 0)
            && h.phnum == (if c.nphdr < PN_XNUM then c.nphdr else PN_XNUM)
            && h.shstrndx == (if c.strndx < SHN_LORESERVE then c.strndx else SHN_XINDEX)
            && (items == [] <==> st.1 == [] && c.nscn < SHN_LORESERVE && c.nphdr < PN_XNUM && c.strndx < SHN_LORESERVE)
            && (items != [] ==>
                  && items[0].shType == WithScn0(st.1)[0].shType
                  && items[0].shSize == (if c.nscn < SHN_LORESERVE then WithScn0(st.1)[0].shSize else c.nscn)
                  && (c.nphdr >= PN_XNUM ==> items[0].shInfo == c.nphdr)
                  && (c.strndx >= SHN_LORESERVE ==> items[0].shLink == c.strndx))
  {
    var st1 := SetShStrNdx(st, c.strndx);
    var st2 := SetPhNum(st1, c.nphdr);
    assert st1.1 != [] ==> st1.1[0].shType == WithScn0(st.1)[0].shType && st1.1[0].shSize == WithScn0(st.1)[0].shSize;
    assert c.strndx >= SHN_LORESERVE ==> st1.1[0].shLink == c.strndx;
    assert st2.1 != [] ==> st2.1[0].shType == WithScn0(st.1)[0].shType && st2.1[0].shSize == WithScn0(st.1)[0].shSize;
  }

  /** Decoding the encoded counts gives them back exactly when they are representable. */
  lemma RoundTripExact(st: State, ec: Class, c: Counts)
    requires Words(c)
    ensures var (h, items) := Encode(st, ec, c);
            Decode(h, First(items)) == Ok(c) <==> Representable(st, c)
  {
    EncodedScn0(st, ec, c);
  }

  /** The setters touch nothing but their field and section zero, allocating it if there is none. */
  lemma EncodeFrame(st: State, ec: Class, c: Counts)
    ensures var (h, items) := Encode(st, ec, c);
            && h == st.0.(shnum := h.shnum, phnum := h.phnum, shstrndx := h.shstrndx)
            && (items == [] ==> st.1 == [])
            && (items != [] ==>
                  && |items| == |WithScn0(st.1)| && items[1..] == WithScn0(st.1)[1..]
                  && items[0] == WithScn0(st.1)[0].(shSize := items[0].shSize, shInfo := items[0].shInfo,
                                                    shLink := items[0].shLink, dirty := items[0].dirty))
  {
  }
}
