/** ar(1) archives: finding the first member (_libelf_ar_open), opening a member
    (_libelf_ar_open_member) and moving on to the next (elf_next). */
module Archive {
  import opened Common
  import opened Decimal

  // struct ar_hdr: name[16] date[12] uid[6] gid[6] mode[8] size[10] fmag[2]
  const SARMAG := 8
  const HDR := 60
  const ARMAG := "!<arch>\n"
  const FMAG := "`\n"

  // ---- numbers in headers ----

  function SkipBlanks(s: string): string {
    if s != [] && s[0] == ' ' then SkipBlanks(s[1..]) else s
  }

  /** The digit loop: None where a character is neither blank nor a digit; a digit too large for the
      base ends the number. */
  function Digits(s: string, base: nat, acc: nat): Option<nat> {
    if s == [] || s[0] == ' ' then Some(acc)
    else if !IsDigit(s[0]) then None
    else if Value(s[0]) >= base then Some(acc)
    else Digits(s[1..], base, AppendDigit(acc, base, Value(s[0])))
  }

  function AppendDigit(acc: nat, base: nat, v: nat): nat {
    acc * base + v
  }

  /** _libelf_ar_get_number. */
  method GetNumber(s: string, base: nat) returns (r: Option<nat>)
    requires base <= 10
    ensures r == Digits(SkipBlanks(s), base, 0)
  {
    var i := 0;
    while i < |s| && s[i] == ' '
      invariant 0 <= i <= |s|
      invariant SkipBlanks(s) == SkipBlanks(s[i..])
    {
      assert s[i..][1..] == s[i + 1..];
      i := i + 1;
    }
    assert SkipBlanks(s) == s[i..];
    var n: nat := 0;
    while i < |s|
      invariant 0 <= i <= |s|
      invariant Digits(SkipBlanks(s), base, 0) == Digits(s[i..], base, n)
    {
      var c := s[i];
      assert s[i..][1..] == s[i + 1..];
      if c == ' ' {
        break;
      }
      if c < '0' || c > '9' {
        return None;
      }
      var v := Value(c);
      if v >= base {
        break;
      }
      n := AppendDigit(n, base, v);
      i := i + 1;
    }
    r := Some(n);
  }

  lemma {:induction false} DigitsOfNumeral(s: string, blanks: nat, acc: nat)
    requires AllDigits(s)
    ensures Digits(s + Repeat(' ', blanks), 10, acc) == Some(Read(s, acc))
  {
    var t := s + Repeat(' ', blanks);
    if s != [] {
      assert t[1..] == s[1..] + Repeat(' ', blanks);
      DigitsOfNumeral(s[1..], blanks, 10 * acc + Value(s[0]));
    }
  }

  lemma {:induction false} SkipsBlanks(blanks: nat, s: string)
    ensures SkipBlanks(Repeat(' ', blanks) + s) == SkipBlanks(s)
  {
    if blanks > 0 {
      assert (Repeat(' ', blanks) + s)[1..] == Repeat(' ', blanks - 1) + s;
      SkipsBlanks(blanks - 1, s);
    } else {
      assert Repeat(' ', blanks) + s == s;
    }
  }

  /** A decimal number is read back whatever blanks surround it. */
  lemma NumberRoundTrip(n: nat, before: nat, after: nat)
    ensures Digits(SkipBlanks(Repeat(' ', before) + (Print(n) + Repeat(' ', after))), 10, 0) == Some(n)
  {
    ReadPrint(n);
    SkipsBlanks(before, Print(n) + Repeat(' ', after));
    assert IsDigit(Print(n)[0]);
    DigitsOfNumeral(Print(n), after, 0);
  }

  /** The number at the start of s is cut short by a character that is neither a digit nor a blank. */
  ghost predicate Spoilt(s: string) {
    exists i :: 0 <= i < |s| && !IsDigit(s[i]) && s[i] != ' ' && AllDigits(s[..i])
  }

  /** Exactly then it is not read. */
  lemma {:induction false} DigitsExact(s: string, acc: nat)
    ensures Digits(s, 10, acc).None? <==> Spoilt(s)
  {
    if s != [] && IsDigit(s[0]) {
      DigitsExact(s[1..], AppendDigit(acc, 10, Value(s[0])));
      SpoiltTail(s);
    } else if s != [] && s[0] != ' ' {
      assert s[..0] == [];
      assert !IsDigit(s[0]) && s[0] != ' ' && AllDigits(s[..0]);
    } else if s != [] {
      assert forall i :: 0 < i < |s| ==> s[..i][0] == s[0];
    }
  }

  lemma SpoiltTail(s: string)
    requires s != [] && IsDigit(s[0])
    ensures Spoilt(s) <==> Spoilt(s[1..])
  {
    if Spoilt(s) {
      var i :| 0 <= i < |s| && !IsDigit(s[i]) && s[i] != ' ' && AllDigits(s[..i]);
      assert s[1..][i - 1] == s[i] && s[1..][..i - 1] == s[..i][1..];
      assert AllDigits(s[1..][..i - 1]);
    }
    if Spoilt(s[1..]) {
      var i :| 0 <= i < |s[1..]| && !IsDigit(s[1..][i]) && s[1..][i] != ' ' && AllDigits(s[1..][..i]);
      assert s[i + 1] == s[1..][i] && s[..i + 1] == [s[0]] + s[1..][..i];
      assert AllDigits(s[..i + 1]);
    }
  }

  // ---- well-formed archives ----

  /** A member: its 16-byte name field, the 32 bytes of date, owner and mode, and its contents. */
  datatype Entry = Entry(name: string, meta: string, data: string)

  ghost predicate WellFormed(e: Entry) {
    |e.name| == 16 && |e.meta| == 32 && |e.data| < Pow10(10)
  }

  function SizeField(n: nat): (s: string)
    requires n < Pow10(10)
    ensures |s| == 10
  {
    PrintLength(n, 10);
    Print(n) + Repeat(' ', 10 - |Print(n)|)
  }

  ghost function Header(e: Entry): string
    requires WellFormed(e)
  {
    e.name + e.meta + SizeField(|e.data|) + FMAG
  }

  ghost function Pad(n: nat): string {
    if n % 2 == 1 then "\n" else ""
  }

  ghost function Bytes(e: Entry): string
    requires WellFormed(e)
  {
    Header(e) + e.data + Pad(|e.data|)
  }

  ghost predicate AllWellFormed(es: seq<Entry>) {
    forall e :: e in es ==> WellFormed(e)
  }

  ghost function Body(es: seq<Entry>): string
    requires AllWellFormed(es)
  {
    if es == [] then "" else Bytes(es[0]) + Body(es[1..])
  }

  ghost function File(es: seq<Entry>): string
    requires AllWellFormed(es)
  {
    ARMAG + Body(es)
  }

  /** Length of the first i entries. */
  ghost function Len(es: seq<Entry>, i: nat): nat
    requires i <= |es|
  {
    if i == 0 then 0 else HDR + |es[0].data| + |es[0].data| % 2 + Len(es[1..], i - 1)
  }

  /** File offset of entry i's header. */
  ghost function Off(es: seq<Entry>, i: nat): nat
    requires i <= |es|
  {
    SARMAG + Len(es, i)
  }

  lemma HeaderFields(e: Entry)
    requires WellFormed(e)
    ensures |Header(e)| == HDR && Header(e)[0..16] == e.name && Header(e)[48..58] == SizeField(|e.data|)
    ensures Header(e)[58] == '`' && Header(e)[59] == '\n'
  {
  }

  lemma {:induction false} BodyLength(es: seq<Entry>)
    requires AllWellFormed(es)
    ensures |Body(es)| == Len(es, |es|)
  {
    if es != [] {
      assert es[0] in es;
      HeaderFields(es[0]);
      BodyLength(es[1..]);
    }
  }

  lemma {:induction false} LenStep(es: seq<Entry>, i: nat)
    requires i < |es|
    ensures Len(es, i + 1) == Len(es, i) + HDR + |es[i].data| + |es[i].data| % 2
  {
    if i > 0 {
      LenStep(es[1..], i - 1);
    }
  }

  lemma {:induction false} LenMono(es: seq<Entry>, i: nat, j: nat)
    requires i <= j <= |es|
    ensures Len(es, i) <= Len(es, j)
    decreases j - i
  {
    if i < j {
      LenStep(es, i);
      LenMono(es, i + 1, j);
    }
  }

  lemma BytesParts(e: Entry)
    requires WellFormed(e)
    ensures |Bytes(e)| == HDR + |e.data| + |e.data| % 2
    ensures Bytes(e)[0..HDR] == Header(e) && Bytes(e)[HDR..HDR + |e.data|] == e.data
  {
    HeaderFields(e);
  }

  ghost predicate HoldsAt(s: string, o: nat, b: string) {
    o + |b| <= |s| && s[o..o + |b|] == b
  }

  lemma FirstSlice(first: string, rest: string)
    ensures HoldsAt(first + rest, 0, first)
  {
  }

  lemma LaterSlice(first: string, rest: string, o: nat, b: string)
    requires HoldsAt(rest, o, b)
    ensures HoldsAt(first + rest, |first| + o, b)
  {
    SliceOfRest(first, rest, |first| + o, |first| + o + |b|);
  }

  lemma EntryLater(es: seq<Entry>, i: nat)
    requires AllWellFormed(es) && 0 < i < |es| && WellFormed(es[i])
    requires HoldsAt(Body(es[1..]), Len(es[1..], i - 1), Bytes(es[i]))
    ensures HoldsAt(Body(es), Len(es, i), Bytes(es[i]))
  {
    assert es[0] in es;
    BytesParts(es[0]);
    LaterSlice(Bytes(es[0]), Body(es[1..]), Len(es[1..], i - 1), Bytes(es[i]));
  }

  lemma {:induction false} EntryInBody(es: seq<Entry>, i: nat)
    requires AllWellFormed(es) && i < |es|
    ensures HoldsAt(Body(es), Len(es, i), Bytes(es[i]))
  {
    assert es[0] in es;
    if i == 0 {
      FirstSlice(Bytes(es[0]), Body(es[1..]));
    } else {
      assert es[1..][i - 1] == es[i];
      EntryInBody(es[1..], i - 1);
      EntryLater(es, i);
    }
  }

  lemma SubSlice(s: string, a: nat, b: nat, i: nat, j: nat)
    requires a <= b <= |s| && i <= j <= b - a
    ensures s[a..b][i..j] == s[a + i..a + j]
  {
    var x, y := s[a..b][i..j], s[a + i..a + j];
    forall k | 0 <= k < |x| ensures x[k] == y[k] {
      assert x[k] == s[a..b][i + k];
    }
  }

  lemma EntryInFile(es: seq<Entry>, i: nat)
    requires AllWellFormed(es) && i < |es|
    ensures HoldsAt(File(es), Off(es, i), Bytes(es[i]))
  {
    EntryInBody(es, i);
    LaterSlice(ARMAG, Body(es), Len(es, i), Bytes(es[i]));
  }

  /** Entry i's header is found at its offset, and its contents after the header. */
  lemma HeaderInFile(es: seq<Entry>, i: nat)
    requires AllWellFormed(es) && i < |es|
    ensures Off(es, i) + HDR + |es[i].data| <= |File(es)|
    ensures File(es)[Off(es, i)..Off(es, i) + HDR] == Header(es[i])
    ensures File(es)[Off(es, i) + HDR..Off(es, i) + HDR + |es[i].data|] == es[i].data
  {
    assert es[i] in es;
    BytesParts(es[i]);
    EntryInFile(es, i);
    HeaderOfSlice(File(es), Off(es, i), es[i], Bytes(es[i]));
  }

  lemma HeaderOfSlice(f: string, o: nat, e: Entry, b: string)
    requires WellFormed(e) && HoldsAt(f, o, b) && |b| >= HDR + |e.data|
    requires b[0..HDR] == Header(e) && b[HDR..HDR + |e.data|] == e.data
    ensures f[o..o + HDR] == Header(e) && f[o + HDR..o + HDR + |e.data|] == e.data
  {
    SubSlice(f, o, o + |b|, 0, HDR);
    SubSlice(f, o, o + |b|, HDR, HDR + |e.data|);
  }

  lemma FileLength(es: seq<Entry>)
    requires AllWellFormed(es)
    ensures |File(es)| == Off(es, |es|)
  {
    BodyLength(es);
  }

  // ---- the code ----

  function Field(file: string, at: nat, from: nat, to: nat): string
    requires from <= to <= HDR && at + HDR <= |file|
  {
    file[at + from..at + to]
  }

  lemma SizeFieldRead(n: nat)
    requires n < Pow10(10)
    ensures Digits(SkipBlanks(SizeField(n)), 10, 0) == Some(n)
  {
    PrintLength(n, 10);
    NumberRoundTrip(n, 0, 10 - |Print(n)|);
    assert Repeat(' ', 0) + SizeField(n) == SizeField(n);
  }

  lemma FieldOfHeader(es: seq<Entry>, i: nat, from: nat, to: nat)
    requires AllWellFormed(es) && i < |es| && from <= to <= HDR
    ensures Off(es, i) + HDR <= |File(es)| && WellFormed(es[i]) && |Header(es[i])| == HDR
    ensures Field(File(es), Off(es, i), from, to) == Header(es[i])[from..to]
  {
    assert es[i] in es;
    HeaderInFile(es, i);
    HeaderFields(es[i]);
    SubSlice(File(es), Off(es, i), Off(es, i) + HDR, from, to);
  }

  /** A readable header for e stands at o, with e's contents after it. */
  ghost predicate HeaderAt(file: string, o: nat, e: Entry) {
    && o + HDR + |e.data| <= |file| && file[o + HDR..o + HDR + |e.data|] == e.data
    && Field(file, o, 0, 16) == e.name && |e.name| == 16
    && Digits(SkipBlanks(Field(file, o, 48, 58)), 10, 0) == Some(|e.data|)
    && file[o + 58] == '`' && file[o + 59] == '\n'
  }

  /** The entries follow one another through the whole file. */
  ghost predicate Laid(file: string, es: seq<Entry>) {
    && |file| == Off(es, |es|)
    && forall i {:trigger HeaderAt(file, Off(es, i), es[i])} :: 0 <= i < |es| ==> HeaderAt(file, Off(es, i), es[i])
  }

  /** Every well-formed archive file is laid out that way. */
  lemma FileLaid(es: seq<Entry>)
    requires AllWellFormed(es)
    ensures Laid(File(es), es)
  {
    FileLength(es);
    forall i | 0 <= i < |es| ensures HeaderAt(File(es), Off(es, i), es[i]) {
      FieldsInFile(es, i);
    }
  }

  lemma FieldsInFile(es: seq<Entry>, i: nat)
    requires AllWellFormed(es) && i < |es|
    ensures HeaderAt(File(es), Off(es, i), es[i])
  {
    HeaderInFile(es, i);
    FieldOfHeader(es, i, 0, 16);
    FieldOfHeader(es, i, 48, 58);
    FieldOfHeader(es, i, 58, 60);
    HeaderFields(es[i]);
    SizeFieldRead(|es[i].data|);
    var fmag := Field(File(es), Off(es, i), 58, 60);
    assert fmag[0] == Header(es[i])[58] && fmag[1] == Header(es[i])[59];
  }

  /** LIBELF_ADJUST_AR_SIZE: the mask is a 32-bit constant, so the upper half of a size is lost. */
  function AdjustSize(sz: nat): nat {
    (sz + 1) % 0x1_0000_0000 - (sz + 1) % 2
  }

  lemma AdjustExact(sz: nat)
    ensures AdjustSize(sz) == sz + sz % 2 <==> sz + 1 < 0x1_0000_0000
  {
  }

  datatype OpenError = Malformed

  /** The tables found while opening: where symbol and string tables start, and their sizes. */
  datatype Tables = Tables(symtab: Option<(nat, nat)>, strtab: Option<(nat, nat)>)

  /** The effect on the tables of passing a special member. */
  function Note(t: Tables, name: string, at: nat, sz: nat): Tables
    requires |name| == 16
  {
    if name[1] == ' ' then t.(symtab := Some((at, sz)))
    else if name[1] == '/' && name[2] == ' ' then t.(strtab := Some((at, sz)))
    else t
  }

  /** What _libelf_ar_open makes of the entry at s: no valid header, an ordinary member, or a member
      with a name starting with '/' and a size. */
  datatype Look = Bad | Ordinary | Special(size: nat)

  function LookAt(file: string, s: nat): Look {
    if s + HDR > |file| || file[s + 58] != '`' || file[s + 59] != '\n' then Bad
    else if file[s] != '/' then Ordinary
    else
      match Digits(SkipBlanks(Field(file, s, 48, 58)), 10, 0)
      case None => Bad
      case Some(sz) => Special(sz)
  }

  /** At most n leading entries with a name starting with '/' are passed over. */
  function Scan(file: string, s: nat, n: nat): Result<nat, OpenError>
    decreases n
  {
    if n == 0 then Ok(s)
    else
      match LookAt(file, s)
      case Bad => Err(Malformed)
      case Ordinary => Ok(s)
      case Special(sz) => Scan(file, s + HDR + AdjustSize(sz), n - 1)
  }

  /** The tables noted on the way. */
  function TablesFound(file: string, s: nat, n: nat, t: Tables): Tables
    decreases n
  {
    if n == 0 || !LookAt(file, s).Special? then t
    else
      var sz := LookAt(file, s).size;
      TablesFound(file, s + HDR + AdjustSize(sz), n - 1, Note(t, Field(file, s, 0, 16), s + HDR, sz))
  }

  method Examine(file: string, s: nat) returns (l: Look)
    ensures l == LookAt(file, s)
  {
    if s + HDR > |file| {
      return Bad;
    }
    if file[s + 58] != '`' || file[s + 59] != '\n' {
      return Bad;
    }
    if file[s] != '/' {
      return Ordinary;
    }
    var sz := GetNumber(Field(file, s, 48, 58), 10);
    if sz.None? {
      return Bad;
    }
    l := Special(sz.value);
  }

  /** _libelf_ar_open: the value left in e_next, and the tables. */
  method ArOpen(file: string) returns (r: Result<nat, OpenError>, tables: Tables)
    requires |file| >= SARMAG
    ensures r == Scan(file, SARMAG, 2)
    ensures r.Ok? ==> tables == TablesFound(file, SARMAG, 2, Tables(None, None))
  {
    tables := Tables(None, None);
    var s := SARMAG;
    var i := 0;
    while i < 2
      invariant 0 <= i <= 2 && SARMAG <= s
      invariant Scan(file, SARMAG, 2) == Scan(file, s, 2 - i)
      invariant TablesFound(file, SARMAG, 2, Tables(None, None)) == TablesFound(file, s, 2 - i, tables)
    {
      var l := Examine(file, s);
      if l.Bad? {
        return Err(Malformed), tables;
      }
      if l.Ordinary? {
        break;
      }
      var name := Field(file, s, 0, 16);
      s := s + HDR;
      tables := Note(tables, name, s, l.size);
      s := s + AdjustSize(l.size);
      i := i + 1;
    }
    r := Ok(s);
  }

  /** A member handle: where its contents start in the archive, and their size. */
  datatype Member = Member(at: nat, size: nat)

  /** What opening the member at the cursor comes to: no member is left, the header is read past the end of
      the file, the size is not a number, an assertion fails, or the member is opened. */
  datatype MemberOpen = NoneLeft | Overread | BadSize | AssertFails | Opened(member: Member)

  function OpenAt(file: string, next: nat): MemberOpen {
    if next == 0 then NoneLeft
    else if next % 2 != 0 then AssertFails
    else if next + HDR > |file| then Overread
    else
      match Digits(SkipBlanks(Field(file, next, 48, 58)), 10, 0)
      case None => BadSize
      case Some(sz) => if sz == 0 then AssertFails else Opened(Member(next + HDR, sz))
  }

  /** _libelf_ar_open_member; next is the archive's e_next. */
  method OpenMember(file: string, next: nat) returns (r: MemberOpen)
    ensures r == OpenAt(file, next)
  {
    if next == 0 {
      return NoneLeft;
    }
    if next % 2 != 0 {
      return AssertFails;
    }
    if next + HDR > |file| {
      return Overread;
    }
    var sz := GetNumber(Field(file, next, 48, 58), 10);
    if sz.None? {
      return BadSize;
    }
    if sz.value == 0 {
      return AssertFails;
    }
    r := Opened(Member(next + HDR, sz.value));
  }

  /** A header is refused exactly for a size that is not a number. */
  lemma BadSizeExactly(file: string, next: nat)
    requires next != 0 && next % 2 == 0 && next + HDR <= |file|
    ensures OpenAt(file, next) == BadSize <==> Spoilt(SkipBlanks(Field(file, next, 48, 58)))
  {
    DigitsExact(SkipBlanks(Field(file, next, 48, 58)), 0);
  }

  /** elf_next: the archive's new e_next, 0 after the last member. */
  method ElfNext(file: string, m: Member) returns (next: nat)
    ensures next == NextAfter(|file|, m)
  {
    next := m.at + m.size;
    next := next + next % 2;
    if next >= |file| {
      next := 0;
    }
  }

  function NextAfter(filesize: nat, m: Member): nat {
    var next := (m.at + m.size + 1) / 2 * 2;
    if next >= filesize then 0 else next
  }

  ghost function MemberOf(es: seq<Entry>, i: nat): Member
    requires i < |es|
  {
    Member(Off(es, i) + HDR, |es[i].data|)
  }

  lemma {:induction false} OffsetsEven(es: seq<Entry>, i: nat)
    requires i <= |es|
    ensures Off(es, i) % 2 == 0
  {
    if i > 0 {
      LenStep(es, i - 1);
      OffsetsEven(es, i - 1);
    }
  }

  /** Member headers stand at even, strictly increasing offsets. */
  lemma OffsetsIncrease(es: seq<Entry>, i: nat, j: nat)
    requires i < j <= |es|
    ensures Off(es, i) < Off(es, j) && Off(es, i) % 2 == 0 && Off(es, j) % 2 == 0
  {
    OffsetsEven(es, i);
    OffsetsEven(es, j);
    LenStep(es, i);
    LenMono(es, i + 1, j);
  }

  /** elf_next goes from each member to the one after it, and from the last to the end mark. */
  lemma NextMember(file: string, es: seq<Entry>, i: nat)
    requires Laid(file, es) && i < |es|
    ensures NextAfter(|file|, MemberOf(es, i)) == if i + 1 < |es| then Off(es, i + 1) else 0
  {
    OffsetsEven(es, i);
    LenStep(es, i);
    if i + 1 < |es| {
      OffsetsIncrease(es, i + 1, |es|);
    }
  }

  /** m stands where entry i does, has its size, and its bytes in the file are the entry's contents. */
  ghost predicate IsEntry(file: string, m: Member, es: seq<Entry>, i: nat) {
    i < |es| && m == MemberOf(es, i) && m.at + m.size <= |file| && file[m.at..m.at + m.size] == es[i].data
  }

  /** The first entry from k on that has no contents, or the end. */
  ghost function FirstEmpty(es: seq<Entry>, k: nat): (j: nat)
    requires k <= |es|
    ensures k <= j <= |es| && (j < |es| ==> es[j].data == []) && forall i :: k <= i < j ==> es[i].data != []
    decreases |es| - k
  {
    if k == |es| || es[k].data == [] then k else FirstEmpty(es, k + 1)
  }

  /** What was seen is each entry from k up to j, once and in order. */
  ghost predicate Sees(file: string, seen: seq<Member>, es: seq<Entry>, k: nat, j: nat) {
    |seen| + k == j && forall i :: 0 <= i < |seen| ==> IsEntry(file, seen[i], es, k + i)
  }

  lemma OpensEntry(file: string, es: seq<Entry>, i: nat)
    requires Laid(file, es) && i <= |es|
    ensures OpenAt(file, Off(es, i)) ==
            if i == |es| then Overread else if es[i].data == [] then AssertFails else Opened(MemberOf(es, i))
  {
    OffsetsEven(es, i);
    if i < |es| {
      assert HeaderAt(file, Off(es, i), es[i]);
    }
  }

  /** What the loop finds when it comes to entry i, or past the last: there the end mark has been set if the
      loop has gone on from a member. */
  ghost function Standing(es: seq<Entry>, i: nat, moved: bool): MemberOpen
    requires i <= |es|
  {
    if i == |es| then if moved then NoneLeft else Overread
    else if es[i].data == [] then AssertFails
    else Opened(MemberOf(es, i))
  }

  /** One turn: go on from entry i and open what is there. */
  method OpenNext(file: string, m: Member, ghost es: seq<Entry>, ghost i: nat) returns (last: MemberOpen)
    requires Laid(file, es) && i < |es| && m == MemberOf(es, i)
    ensures last == Standing(es, i + 1, true)
  {
    NextMember(file, es, i);
    OpensEntry(file, es, i + 1);
    var next := ElfNext(file, m);
    last := OpenMember(file, next);
  }

  lemma SeesOne(file: string, seen: seq<Member>, es: seq<Entry>, k: nat, i: nat)
    requires Laid(file, es) && Sees(file, seen, es, k, i) && k <= i < |es|
    ensures Sees(file, seen + [MemberOf(es, i)], es, k, i + 1)
  {
    assert HeaderAt(file, Off(es, i), es[i]);
  }

  /** The loop every user of the library writes: open a member, use it, go to the next.  Started at
      entry k it sees every entry from k on exactly once, in order, and stops; but an entry without
      contents fails an assertion, and with no entry at k a header is read past the end of the file. */
  method VisitMembers(file: string, start: nat, ghost es: seq<Entry>, ghost k: nat)
    returns (seen: seq<Member>, last: MemberOpen)
    requires Laid(file, es) && k <= |es| && start == Off(es, k)
    ensures Sees(file, seen, es, k, FirstEmpty(es, k))
    ensures last == if k == |es| then Overread else if FirstEmpty(es, k) < |es| then AssertFails else NoneLeft
  {
    seen := [];
    ghost var i := k;
    OpensEntry(file, es, k);
    last := OpenMember(file, start);
    while last.Opened?
      invariant k <= i <= |es| && FirstEmpty(es, k) == FirstEmpty(es, i) && Sees(file, seen, es, k, i)
      invariant last == Standing(es, i, i > k)
      decreases |es| - i
    {
      SeesOne(file, seen, es, k, i);
      seen := seen + [last.member];
      last := OpenNext(file, last.member, es, i);
      i := i + 1;
    }
  }

  // ---- where opening leaves the cursor ----

  predicate Slash(e: Entry) {
    |e.name| > 0 && e.name[0] == '/'
  }

  /** How many entries opening passes over. */
  ghost function Skipped(es: seq<Entry>): nat {
    if es == [] || !Slash(es[0]) then 0 else if |es| == 1 || !Slash(es[1]) then 1 else 2
  }

  lemma LookAtHeader(f: string, o: nat, e: Entry)
    requires HeaderAt(f, o, e)
    ensures LookAt(f, o) == if Slash(e) then Special(|e.data|) else Ordinary
  {
    assert f[o] == Field(f, o, 0, 16)[0];
  }

  lemma LookAtEntry(file: string, es: seq<Entry>, i: nat)
    requires Laid(file, es) && i <= |es|
    ensures LookAt(file, Off(es, i)) ==
            if i == |es| then Bad else if Slash(es[i]) then Special(|es[i].data|) else Ordinary
  {
    if i < |es| {
      LookAtHeader(file, Off(es, i), es[i]);
    }
  }

  /** The size adjustment does not lose the upper half of the entry's size. */
  predicate Short(e: Entry) {
    |e.data| + 1 < 0x1_0000_0000
  }

  lemma ScanEntry(file: string, es: seq<Entry>, i: nat, n: nat)
    requires Laid(file, es) && i <= |es| && n > 0
    requires i < |es| && Slash(es[i]) ==> Short(es[i])
    ensures Scan(file, Off(es, i), n) ==
            if i == |es| then Err(Malformed)
            else if !Slash(es[i]) then Ok(Off(es, i))
            else Scan(file, Off(es, i + 1), n - 1)
  {
    LookAtEntry(file, es, i);
    if i < |es| && Slash(es[i]) {
      NextOffset(es, i);
    }
  }

  lemma NextOffset(es: seq<Entry>, i: nat)
    requires i < |es| && Short(es[i])
    ensures Off(es, i + 1) == Off(es, i) + HDR + AdjustSize(|es[i].data|)
  {
    LenStep(es, i);
    AdjustExact(|es[i].data|);
  }

  /** The entries passed over, at most n from i on, are short. */
  ghost predicate ShortFrom(es: seq<Entry>, i: nat, n: nat)
    decreases n
  {
    n > 0 && i < |es| && Slash(es[i]) ==> Short(es[i]) && ShortFrom(es, i + 1, n - 1)
  }

  /** The scan, told in terms of entries. */
  ghost function ScanEntries(es: seq<Entry>, i: nat, n: nat): Result<nat, OpenError>
    requires i <= |es|
    decreases n
  {
    if n == 0 then Ok(Off(es, i))
    else if i == |es| then Err(Malformed)
    else if !Slash(es[i]) then Ok(Off(es, i))
    else ScanEntries(es, i + 1, n - 1)
  }

  lemma {:induction false} ScanMatches(file: string, es: seq<Entry>, i: nat, n: nat)
    requires Laid(file, es) && i <= |es| && ShortFrom(es, i, n)
    ensures Scan(file, Off(es, i), n) == ScanEntries(es, i, n)
    decreases n
  {
    if n > 0 {
      ScanEntry(file, es, i, n);
      if i < |es| && Slash(es[i]) {
        ScanMatches(file, es, i + 1, n - 1);
      }
    }
  }

  /** Opening passes over the leading entries with names starting with '/', at most two; it fails when
      it runs out of entries before that. */
  lemma OpenExact(file: string, es: seq<Entry>)
    requires Laid(file, es) && ShortFrom(es, 0, 2)
    ensures Scan(file, SARMAG, 2) ==
            if Skipped(es) < 2 && Skipped(es) == |es| then Err(Malformed) else Ok(Off(es, Skipped(es)))
  {
    ScanMatches(file, es, 0, 2);
    TwoEntries(es);
  }

  /** The cursor an archive is opened with has a whole header before the end of the file exactly when a
      member follows those passed over: two special members and nothing else leave it at the end. */
  lemma CursorInsideExactly(file: string, es: seq<Entry>)
    requires Laid(file, es) && ShortFrom(es, 0, 2) && Scan(file, SARMAG, 2).Ok?
    ensures Scan(file, SARMAG, 2).value + HDR <= |file| <==> Skipped(es) < |es|
    ensures OpenAt(file, Scan(file, SARMAG, 2).value) == Overread <==> Skipped(es) == |es|
  {
    OpenExact(file, es);
    OpensEntry(file, es, Skipped(es));
    if Skipped(es) < |es| {
      assert HeaderAt(file, Off(es, Skipped(es)), es[Skipped(es)]);
    }
  }

  lemma TwoEntries(es: seq<Entry>)
    ensures Off(es, 0) == SARMAG
    ensures ScanEntries(es, 0, 2) ==
            if Skipped(es) < 2 && Skipped(es) == |es| then Err(Malformed) else Ok(Off(es, Skipped(es)))
  {
    if es != [] && Slash(es[0]) {
      assert ScanEntries(es, 0, 2) == ScanEntries(es, 1, 1);
      if |es| > 1 && Slash(es[1]) {
        assert ScanEntries(es, 1, 1) == ScanEntries(es, 2, 0);
      }
    }
  }

  /** Passing over entry i, long or short, and looking on from there. */
  lemma ScanPasses(file: string, es: seq<Entry>, i: nat, n: nat)
    requires Laid(file, es) && i < |es| && n > 0 && Slash(es[i])
    ensures Scan(file, Off(es, i), n) == Scan(file, Landing(es, i), n - 1)
  {
    LookAtEntry(file, es, i);
  }

  /** Where passing over entry i leads: the next entry, or a place inside entry i if it is not short. */
  ghost function Landing(es: seq<Entry>, i: nat): nat
    requires i < |es|
  {
    Off(es, i) + HDR + AdjustSize(|es[i].data|)
  }

  lemma LandingExact(es: seq<Entry>, i: nat)
    requires i < |es|
    ensures Off(es, i) < Landing(es, i) <= Off(es, i + 1)
    ensures Landing(es, i) == Off(es, i + 1) <==> Short(es[i])
  {
    LenStep(es, i);
    AdjustExact(|es[i].data|);
  }

  /** The bytes at p read as a special member whose size leads to target. */
  ghost predicate Leads(file: string, p: nat, target: nat) {
    LookAt(file, p).Special? && p + HDR + AdjustSize(LookAt(file, p).size) == target
  }

  lemma ScanOnce(file: string, p: nat, target: nat)
    requires p != target
    ensures Scan(file, p, 1) == Ok(target) <==> Leads(file, p, target)
  {
    if LookAt(file, p).Special? {
      assert Scan(file, p, 1) == Scan(file, p + HDR + AdjustSize(LookAt(file, p).size), 0);
    }
  }

  lemma ScanForward(file: string, p: nat, n: nat, target: nat)
    requires target < p
    ensures Scan(file, p, n) != Ok(target)
    decreases n
  {
    if n > 0 && LookAt(file, p).Special? {
      ScanForward(file, p + HDR + AdjustSize(LookAt(file, p).size), n - 1, target);
    }
  }

  /** Whether opening an archive of these special and real members finds the first real one.  With no special
      member, or one that is short, the first real name must not start with '/'; the second of two must be
      short.  A first special member that is not short is left in its middle, and the cursor comes out right
      only if the bytes there happen to read as a member that leads to it. */
  ghost predicate FindsFirst(file: string, special: seq<Entry>, members: seq<Entry>)
    requires members != [] && |special| <= 2
  {
    var es := special + members;
    if special == [] then !Slash(members[0])
    else if !Short(special[0]) then Leads(file, Landing(es, 0), Off(es, |special|))
    else if |special| == 1 then !Slash(members[0])
    else Short(special[1])
  }

  /** With the special members first, opening leaves the cursor at the first real member exactly then. */
  lemma FirstMemberExact(file: string, special: seq<Entry>, members: seq<Entry>)
    requires Laid(file, special + members)
    requires |special| <= 2 && members != [] && forall e :: e in special ==> Slash(e)
    ensures Scan(file, SARMAG, 2) == Ok(Off(special + members, |special|)) <==> FindsFirst(file, special, members)
  {
    var es := special + members;
    assert es[|special|] == members[0];
    if special == [] {
      NoSpecial(file, es);
    } else {
      assert es[0] == special[0] && special[0] in special;
      ScanPasses(file, es, 0, 2);
      if |special| == 1 {
        OneSpecial(file, es);
      } else {
        assert es[1] == special[1] && special[1] in special;
        TwoSpecials(file, es);
      }
    }
  }

  lemma NoSpecial(file: string, es: seq<Entry>)
    requires Laid(file, es) && es != []
    ensures Scan(file, SARMAG, 2) == Ok(Off(es, 0)) <==> !Slash(es[0])
  {
    LookAtEntry(file, es, 0);
    if Slash(es[0]) {
      ScanPasses(file, es, 0, 2);
      LandingExact(es, 0);
      ScanForward(file, Landing(es, 0), 1, Off(es, 0));
    }
  }

  lemma OneSpecial(file: string, es: seq<Entry>)
    requires Laid(file, es) && |es| >= 2 && Slash(es[0])
    ensures Scan(file, Landing(es, 0), 1) == Ok(Off(es, 1)) <==>
            if Short(es[0]) then !Slash(es[1]) else Leads(file, Landing(es, 0), Off(es, 1))
  {
    LandingExact(es, 0);
    if !Short(es[0]) {
      ScanOnce(file, Landing(es, 0), Off(es, 1));
    } else {
      LookAtEntry(file, es, 1);
      if Slash(es[1]) {
        ScanPasses(file, es, 1, 1);
        LandingExact(es, 1);
      }
    }
  }

  lemma TwoSpecials(file: string, es: seq<Entry>)
    requires Laid(file, es) && |es| >= 3 && Slash(es[0]) && Slash(es[1])
    ensures Scan(file, Landing(es, 0), 1) == Ok(Off(es, 2)) <==>
            if Short(es[0]) then Short(es[1]) else Leads(file, Landing(es, 0), Off(es, 2))
  {
    LandingExact(es, 0);
    OffsetsIncrease(es, 1, 2);
    if !Short(es[0]) {
      ScanOnce(file, Landing(es, 0), Off(es, 2));
    } else {
      ScanPasses(file, es, 1, 1);
      LandingExact(es, 1);
    }
  }

  /** Opening an archive and going through it: when opening finds the first real member, exactly the real
      members are seen, each once, in order, with their contents, up to the first that has none. */
  method OpenAndVisit(file: string, ghost special: seq<Entry>, ghost members: seq<Entry>)
    returns (r: Result<seq<Member>, OpenError>, last: MemberOpen)
    requires AllWellFormed(special + members) && file == File(special + members)
    requires |special| <= 2 && members != [] && (forall e :: e in special ==> Slash(e))
    requires FindsFirst(file, special, members)
    ensures var es := special + members;
            && r.Ok? && Sees(file, r.value, es, |special|, FirstEmpty(es, |special|))
            && (last.NoneLeft? <==> forall e :: e in members ==> e.data != [])
  {
    ghost var es := special + members;
    FileLaid(es);
    FirstMemberExact(file, special, members);
    assert Off(es, 0) == SARMAG;
    FileLength(es);
    var start, tables := ArOpen(file);
    var seen: seq<Member>;
    seen, last := VisitMembers(file, start.value, es, |special|);
    NoneEmpty(special, members);
    r := Ok(seen);
  }

  lemma NoneEmpty(special: seq<Entry>, members: seq<Entry>)
    ensures FirstEmpty(special + members, |special|) == |special + members| <==>
            forall e :: e in members ==> e.data != []
  {
    var es := special + members;
    assert forall i :: 0 <= i < |members| ==> members[i] == es[|special| + i] && members[i] in members;
  }

  /** Passing one special member on the way. */
  lemma TablesPass(file: string, s: nat, n: nat, t: Tables, sz: nat, next: nat)
    requires n > 0 && LookAt(file, s) == Special(sz) && next == s + HDR + AdjustSize(sz)
    ensures s + HDR <= |file|
    ensures TablesFound(file, s, n, t) == TablesFound(file, next, n - 1, Note(t, Field(file, s, 0, 16), s + HDR, sz))
  {
  }

  lemma TablesStep(file: string, es: seq<Entry>, i: nat, n: nat, t: Tables)
    requires Laid(file, es) && i < |es| && n > 0 && Slash(es[i]) && Short(es[i])
    ensures |es[i].name| == 16
    ensures TablesFound(file, Off(es, i), n, t) ==
            TablesFound(file, Off(es, i + 1), n - 1, Note(t, es[i].name, Off(es, i) + HDR, |es[i].data|))
  {
    LookAtEntry(file, es, i);
    NextOffset(es, i);
    assert HeaderAt(file, Off(es, i), es[i]);
    TablesPass(file, Off(es, i), n, t, |es[i].data|, Off(es, i + 1));
  }

  predicate SymbolTable(e: Entry) {
    |e.name| > 1 && e.name[0] == '/' && e.name[1] == ' '
  }

  predicate StringTable(e: Entry) {
    |e.name| > 2 && e.name[0] == '/' && e.name[1] == '/' && e.name[2] == ' '
  }

  lemma OneNoted(file: string, es: seq<Entry>, t: Tables)
    requires Laid(file, es) && |es| >= 2 && Slash(es[1])
    ensures |es[1].name| == 16
    ensures TablesFound(file, Off(es, 1), 1, t) == Note(t, es[1].name, Off(es, 1) + HDR, |es[1].data|)
  {
    LookAtEntry(file, es, 1);
    assert HeaderAt(file, Off(es, 1), es[1]);
    TablesPass(file, Off(es, 1), 1, t, |es[1].data|, Landing(es, 1));
  }

  /** Two special members in front are both noted. */
  lemma BothNoted(file: string, es: seq<Entry>)
    requires Laid(file, es) && |es| >= 2 && Short(es[0])
    requires Slash(es[0]) && Slash(es[1])
    ensures |es[0].name| == |es[1].name| == 16
    ensures TablesFound(file, Off(es, 0), 2, Tables(None, None)) ==
            Note(Note(Tables(None, None), es[0].name, Off(es, 0) + HDR, |es[0].data|),
                 es[1].name, Off(es, 1) + HDR, |es[1].data|)
  {
    var none := Tables(None, None);
    TablesStep(file, es, 0, 2, none);
    OneNoted(file, es, Note(none, es[0].name, Off(es, 0) + HDR, |es[0].data|));
  }

  /** With a symbol table and a string table in front, both are found, in whichever order they come. */
  lemma BothTablesFound(file: string, es: seq<Entry>)
    requires Laid(file, es) && |es| >= 2 && Short(es[0])
    ensures var m0, m1 := MemberOf(es, 0), MemberOf(es, 1);
            var t := TablesFound(file, Off(es, 0), 2, Tables(None, None));
            && (SymbolTable(es[0]) && StringTable(es[1]) ==>
                  t == Tables(Some((m0.at, m0.size)), Some((m1.at, m1.size))))
            && (StringTable(es[0]) && SymbolTable(es[1]) ==>
                  t == Tables(Some((m1.at, m1.size)), Some((m0.at, m0.size))))
  {
    if Slash(es[0]) && Slash(es[1]) {
      BothNoted(file, es);
    }
  }
}
