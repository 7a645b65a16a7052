/** An open ELF object: its executable header, its section list and the true counts behind the
    header's 16-bit fields. */
module ElfObject {
  import opened ElfTypes
  import opened Stailq

  const SHN_LORESERVE := 0xff00
  const SHN_XINDEX := 0xffff
  const PN_XNUM := 0xffff
  const EV_NONE := 0
  const EV_CURRENT := 1

  datatype Ehdr = Ehdr(
    cls: Class,
    encoding: nat,
    version: nat,
    phoff: nat,
    shoff: nat,
    ehsize: nat,
    phentsize: nat,
    shentsize: nat,
    phnum: nat,
    shnum: nat,
    shstrndx: nat)

  /** What calloc leaves in a new section descriptor. */
  function ZeroSection(ndx: nat): Section {
    Section(ndx, ShtNull, false, 0, 0, 0, 0, 0, 0, 0, 0, 0, [])
  }

  class Elf {
    const ec: Class
    const version: nat
    const layout: bool
    const forWrite: bool
    var byteorder: nat
    var ehdr: Ehdr
    const scns: Queue<Section>
    var nphdr: nat
    var nscn: nat

    constructor (ec: Class, version: nat, layout: bool, forWrite: bool, byteorder: nat, ehdr: Ehdr, nphdr: nat)
      ensures scns.Valid() && scns.nodes == [] && fresh(scns) && nscn == 0
      ensures this.ec == ec && this.version == version && this.layout == layout && this.forWrite == forWrite
      ensures this.byteorder == byteorder && this.ehdr == ehdr && this.nphdr == nphdr
    {
      this.ec, this.version, this.layout, this.forWrite := ec, version, layout, forWrite;
      this.byteorder, this.ehdr, this.nphdr, nscn := byteorder, ehdr, nphdr, 0;
      scns := new Queue<Section>();
    }

    /** The section list holds these sections. */
    ghost predicate Lists(items: seq<Section>)
      reads this, scns, scns.nodes
    {
      scns.Valid() && Holds(scns.nodes, items)
    }
  }
}
