/** The library's descriptors: object files, sections and data buffers. */
module ElfTypes {
  import opened Common

  datatype Class = Class32 | Class64

  /** The library's errors; AssertionFailed stands for a failed assertion, which ends the program. */
  datatype Error = Argument | ClassError | DataError | Header | Io | LayoutError | Mode | SectionError |
    Sequence | Version | AssertionFailed

  /** Elf_Type: the in-file data types. */
  datatype ElfType = Addr | Byte | Cap | Dyn | EhdrT | Half | Lword | MoveT | Movep | NoteT | Off | PhdrT |
    RelT | RelaT | ShdrT | Sword | Sxword | SyminfoT | SymT | Vdef | Vneed | Word | Xword

  /** The section types _libelf_xlate_shtype tells apart. */
  datatype ShType = ShtNull | ShtNoBits | ShtDynamic | ShtDynSym | ShtFiniArray | ShtGroup | ShtHash |
    ShtInitArray | ShtNote | ShtPreinitArray | ShtProgBits | ShtRel | ShtRela | ShtStrTab | ShtSymTab |
    ShtSymTabShndx | ShtGnuVerdef | ShtGnuVerneed | ShtGnuVersym | ShtSunwMove | ShtSunwSyminfo |
    ShtOther(code: nat)

  /** _libelf_xlate_shtype; None stands for its -1. */
  function XlateShType(t: ShType): Option<ElfType> {
    match t
    case ShtDynamic => Some(Dyn)
    case ShtDynSym => Some(SymT)
    case ShtFiniArray => Some(Addr)
    case ShtGroup => Some(Word)
    case ShtHash => Some(Word)
    case ShtInitArray => Some(Addr)
    case ShtNoBits => Some(Byte)
    case ShtNote => Some(NoteT)
    case ShtPreinitArray => Some(Addr)
    case ShtProgBits => Some(Byte)
    case ShtRel => Some(RelT)
    case ShtRela => Some(RelaT)
    case ShtStrTab => Some(Byte)
    case ShtSymTab => Some(SymT)
    case ShtSymTabShndx => Some(Word)
    case ShtGnuVerdef => Some(Vdef)
    case ShtGnuVerneed => Some(Vneed)
    case ShtSunwMove => Some(MoveT)
    case ShtSunwSyminfo => Some(SyminfoT)
    case _ => None
  }

  /** _libelf_falign: alignment in the file, 0 for unsupported types. */
  function FileAlign(t: ElfType, ec: Class): nat {
    match t
    case Addr => if ec.Class32? then 4 else 8
    case Byte => 1
    case Cap => if ec.Class32? then 4 else 8
    case Dyn => if ec.Class32? then 4 else 8
    case EhdrT => if ec.Class32? then 4 else 8
    case Half => 2
    case Lword => 8
    case MoveT => 8
    case Movep => 0
    case NoteT => 4
    case Off => if ec.Class32? then 4 else 8
    case PhdrT => if ec.Class32? then 4 else 8
    case RelT => if ec.Class32? then 4 else 8
    case RelaT => if ec.Class32? then 4 else 8
    case ShdrT => if ec.Class32? then 4 else 8
    case Sword => 4
    case Sxword => if ec.Class32? then 0 else 8
    case SyminfoT => 2
    case SymT => if ec.Class32? then 4 else 8
    case Vdef => 4
    case Vneed => 4
    case Word => 4
    case Xword => if ec.Class32? then 0 else 8
  }

  // Sizes of the three header records (chapter 4 of the System V gABI).
  function EhdrSize(ec: Class): nat { if ec.Class32? then 52 else 64 }
  function PhdrSize(ec: Class): nat { if ec.Class32? then 32 else 56 }
  function ShdrSize(ec: Class): nat { if ec.Class32? then 40 else 64 }

  /** A store into a header field of the class's width. */
  function Narrow(ec: Class, x: nat): nat {
    if ec.Class32? then x % 0x1_0000_0000 else x
  }

  /** Elf_Data.  A buffer, when present, holds `size` bytes. */
  datatype Data = Data(dtype: ElfType, version: nat, align: nat, size: nat, buf: Option<seq<byte>>, off: nat)
  {
    ghost predicate Valid() {
      buf.Some? ==> |buf.value| == size
    }
  }

  /** Elf_Scn: header fields (sh...), the library's own placement (offset, size), the position
      in the original file (rawOff) and the list of data descriptors. */
  datatype Section = Section(
    ndx: nat,
    shType: ShType,
    dirty: bool,
    shAlign: nat,
    shEntsize: nat,
    shOffset: nat,
    shSize: nat,
    shLink: nat,
    shInfo: nat,
    offset: nat,
    size: nat,
    rawOff: nat,
    data: seq<Data>)
  {
    /** False of the two section types that take no space in the file. */
    predicate Occupies() {
      !shType.ShtNull? && !shType.ShtNoBits?
    }

    function End(): nat {
      offset + size
    }
  }

  /** The parts of an object's state that layout consults: class, version, whether the
      application controls the layout (ELF_F_LAYOUT), and the entry size of each data type. */
  datatype Config = Config(ec: Class, version: nat, layout: bool, entry: ElfType -> nat)
}
