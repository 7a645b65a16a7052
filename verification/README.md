# A verified model of SynchroTrace's ELF library, ISA compiler and support code

This project models, in Dafny, the parts of the SynchroTrace simulator whose behaviour is hardest to see
from the code, and proves what they are for.

- **ELF layout and image writing** (`Arith`, `ElfTypes`, `Stailq`, `ElfObject`, `Extents`, `Resync`, `Overlaps`,
  `Extended`, `Pieces`, `Update`, `ImageWriter`, `ElfUpdate`, `StrPtr`).  libelf's tail queue is modelled as
  linked nodes with a tail pointer-to-pointer; the two passes over the section list update it in place.  The image writer
  fills a byte array and counts the writes to each byte.
- **Handles and archives** (`Handles`, `Archive`, `Decimal`).  Activation counts, deferred release up the chain
  of parents, and the cursor over an archive's bytes.
- **The decode compiler** (`DecodeTree`, `DecodeCompiler`, `DecodeRules`), **bit selectors** (`BitOps`,
  `BitOpsTree`, `Text`) and **operands** (`Operands`, `OperandList`) of the ISA description language.
- **The micro-assembler's LALR tables** (`LrGrammar`, `LrTables`, `LrDriver`, `LrComplete`, `MicroAsmActions`,
  `MicroAsmText`): the tables accept exactly the grammar's strings, the grammar is unambiguous, and the statement
  lists are what the tokens say.
- **The Internet checksum** (`InetChecksum`), **the gzip stream buffer** (`GzStream`), **bit ranges**
  (`Bitfield`) and **copyright years** (`Years`).

Objects the source updates in place are classes with `modifies` clauses; each method is proved against a
specification function, and the lemmas are about those functions.  Integers are unbounded; where a width
matters it is written out (32-bit counts, the 16-bit header fields, the 32-bit checksum sum, 64-bit words).

## Where the code does not do what it seems to

Each of these is stated with the exact condition under which the expected property holds.

- The section header table is written in list order, so sorting the list by offset renumbers the sections
  unless the list was already ascending (`Resync.OrderKeptExactly`).
- The program header table is copied to the running position, not to `phoff`; bytes are written once only
  when there is no gap (`ImageWriter.PhdrTableExact`).
- The writer takes the section count from the 16-bit header field, so the image falls short of the announced
  size from 0xff00 sections on (`ElfUpdate.LayoutIsWritten`).
- The two string walks give different answers for mixed alignments (`StrPtr.WalksAgreeExactly`).
- Layout accepts alignments too small for a section's type; the writer then stops at its check of the offset
  (`ElfUpdate.OffsetSuitsExactly`, `ElfUpdate.MisalignedSymbolTable`).
- A section marked dirty whose data was never fetched is laid out empty and loses its contents
  (`ElfUpdate.UnfetchedKeptExactly`); in a 32-bit object `gelf_update_shdr` alone marks it dirty
  (ext/libelf/gelf_shdr.c:125).
- In a 64-bit object `gelf_update_shdr` does not mark the section dirty (ext/libelf/gelf_shdr.c:107-110).  Layout
  then takes the section's end from the header in its first pass and from the old placement in its second, and
  the assertion that compares the two can fail (`Resync.EndsAgreeExactly`, `Resync.StaleHeaderFails`).
- When a section cannot be put back into the list it has already been taken out, and is lost unless it reaches as
  far as all sections before it (`Resync.FailureLosesOne`, `Resync.SectionLost`).
- Overlaps with the headers are missed, and overlaps that a placed `SHT_NOBITS` section hides from the insertion
  scan (`Overlaps.AcceptedClearExactly`, `Resync.PlacedNoBitsHidesOverlap`, `Resync.HeaderOverlapMissed`).
- The handle of a malformed archive is never released (`Handles.MatchedRunFreesAll`).
- Opening an archive with fewer than two special members skips a first member whose name starts with `/`,
  and a special member of 4 GiB or more is left in its middle (`Archive.FirstMemberExact`).
- An archive of two special members and nothing else leaves the cursor at the end of the file, where the first
  header is read (`Archive.CursorInsideExactly`); a member without contents fails an assertion
  (`Archive.OpenAndVisit`).
- Counts that are not representable do not survive the extended numbering (`Extended.RoundTripExact`).
- A checksum over a buffer without a whole word adds sixteen words of memory beyond it (`InetChecksum.ReadsInsideExactly`).
- The comment on `substBitOps` says `<n>` is the one-bound form; the expression requires `<n:>`.  The code is
  followed.  A selected group at the very first character makes the rewriting exit (`BitOpsTree.SubstituteExact`).
  A selector on a call, `f(x)<a:b>`, is rewritten to `fbits((x), a, b)` (`BitOpsTree.SubstituteMeans`,
  `BitOpsTree.SelectedCallRewritten`).
- A default's definitions are emitted once for every block that takes it (`DecodeCompiler.DefinitionsEmitted`).
- `sext` leaves bits above a clear sign bit as they are (`Bitfield.SextExact`).
- At the end of the file `underflow` has moved the putback bytes but not the pointers
  (`GzStream.GzStreamBuf.EndThenUnget`, `GzStream.ShortLastChunk`);
  its `memcpy` can overlap itself (`GzStream.CopyOverlaps`); after a failed flush of a full buffer the next put
  is past the end (`GzStream.GzStreamBuf.Overflow`), and what a failed write took is written again
  (`GzStream.GzStreamBuf.SyncAgain`).
- Ranges of years with an end not of four digits do not survive printing and reading (`Years.PrintAndRead`).

## Model

| member | source | states |
|---|---|---|
| Stailq.Queue.Init | ext/libelf/elf_queue.h:249-252 | the queue is empty and the tail pointer designates the head field |
| Stailq.Queue.Last | ext/libelf/elf_queue.h:272-276 | the last element of the sequence, null for the empty queue |
| Stailq.Queue.StoreLast | ext/libelf/elf_queue.h:266-270 | a store through the tail pointer writes the head field or the `next` field it designates, and nothing else |
| Stailq.Queue.InsertHead | ext/libelf/elf_queue.h:260-264 | the sequence with the element put in front, tail pointer still at the last `next` field (also when the queue was empty) |
| Stailq.Queue.InsertTail | ext/libelf/elf_queue.h:266-270 | the sequence with the element appended |
| Stailq.Queue.InsertAfter | ext/libelf/elf_queue.h:254-258 | the sequence with the element inserted behind the given one, tail pointer moved if that was the last |
| Stailq.Queue.RemoveHead | ext/libelf/elf_queue.h:295-299 | the sequence without its first element, tail pointer back at the head when it becomes empty |
| Stailq.Queue.FindBefore | ext/libelf/elf_queue.h:285-288 | the search loop ends at the predecessor of the element |
| Stailq.Queue.Remove | ext/libelf/elf_queue.h:280-293 | the sequence without the element at that position; the removed node keeps its stale link |
| Stailq.Queue.Concat | ext/libelf/elf_queue.h:226-232 | the sequence followed by the other queue's, the other queue left empty and valid |
| Arith.RoundUpProps | ext/libelf/elf_update.c:164-173 | rounding up gives a multiple of the alignment less than one alignment above its argument |
| Arith.RoundUpLeast | ext/libelf/elf_update.c:164-173 | no smaller multiple is at or above the argument |
| Arith.Pow2TestExact | ext/libelf/elf_update.c:154-157 | the `a & (a - 1)` test accepts exactly the powers of two |
| Extents.CheckDescriptors | ext/libelf/elf_update.c:136-160 | the first error over the descriptors in order, else the largest descriptor alignment |
| Extents.PlaceDescriptors | ext/libelf/elf_update.c:162-173 | in library layout every descriptor is placed at the next multiple of the section alignment and the size is the last end; in application layout nothing moves and the size is the furthest end |
| Extents.ComputeSectionExtents | ext/libelf/elf_update.c:74-226 | the section's new header and the running size, or the error, with an untouched section on error |
| Extents.PlaceProps | ext/libelf/elf_update.c:162-173 | placed descriptors are in order and disjoint inside the size, at multiples of the alignment, and differ from the originals only in `d_off` |
| Extents.PlacedAligned | ext/libelf/elf_update.c:162-173 | both `d_off` and section offset plus `d_off` are multiples of each descriptor's own power-of-two alignment |
| Extents.LibraryExtentProps | ext/libelf/elf_update.c:185-225 | a section laid out by the library is aligned, starts at or after the running size, and holds its descriptors disjointly |
| Extents.LibraryPlacement | ext/libelf/elf_update.c:74-226 | the same for the whole computation on a dirty section, whose end becomes the running size |
| Extents.AlignmentsAgree | ext/libelf/elf_update.c:190-191 | a header alignment that divides the section alignment cannot exceed it |
| Extents.ExtentFrame | ext/libelf/elf_update.c:74-226 | type, index and raw position are kept, the running size never drops, and becomes the larger of itself and the section end |
| Extents.HeaderAnnounces | ext/libelf/elf_update.c:185-224 | the header of a section the library lays out says where it lies, how large it is and how it is aligned, in fields of the class's width; link and info are kept, an entry size that is not set is the type's |
| Extents.HeaderKept | ext/libelf/elf_update.c:117-184 | in every other case the header is as it was, and what the application placed lies where its header says |
| Extents.AcceptsExactly | ext/libelf/elf_update.c:126-184 | exactly which dirty sections are accepted: known type, descriptors of its type and version aligned to powers of two that suit, and in application layout a section that is aligned and holds its descriptors |
| Extents.FirstErrorExact | ext/libelf/elf_update.c:141-157 | which error is reported for which descriptor |
| Resync.ScanStop | ext/libelf/elf_update.c:243-257 | the scan stops at the first section that does not end before the one to insert |
| Resync.FindPlace | ext/libelf/elf_update.c:233-257 | finds that place, with its predecessor, and refuses a section that touches or overlaps what follows |
| Resync.InsertSection | ext/libelf/elf_update.c:233-264 | on success the node is inserted at the scanned place, else the list is unchanged |
| Resync.SizeSections | ext/libelf/elf_update.c:281-284 | the first loop sizes every section in list order; on an error the sections before the failing one stay sized |
| Resync.SizedUntilExact | ext/libelf/elf_update.c:281-284 | where sizing fails, what stands before the failing section is sized and the rest is as it was |
| Resync.MoveSection | ext/libelf/elf_update.c:303-306 | removal followed by reinsertion is the corresponding move of the sequence; when reinsertion fails the section is gone |
| Resync.SortStep | ext/libelf/elf_update.c:286-313 | one turn of the sorting loop on any list: which list and end it leaves and how the nodes move, or what it leaves on failure |
| Resync.SortSections | ext/libelf/elf_update.c:286-313 | the walk over any list is `Sweep`, keeps the nodes, and leaves `SweepLeft` on failure; behind the headers it meets every node exactly once in original order although it removes and reinserts behind itself |
| Resync.ResyncSections | ext/libelf/elf_update.c:266-318 | both loops and the comparison of their ends, for any list: the sorted list and its end, or the error and the list left |
| Resync.StepDescends | ext/libelf/elf_update.c:286-306 | a section put in further down makes room for one that starts earlier, so the walk ends |
| Resync.SweepEnds | ext/libelf/elf_update.c:286-313 | whatever the list, a successful walk permutes it and returns the furthest section end |
| Resync.SweepSorts | ext/libelf/elf_update.c:286-313 | where sections without file space carry no placement, it leaves the others ascending and pairwise disjoint, also those before the end of the headers |
| Resync.SweepExact | ext/libelf/elf_update.c:286-313 | the walk succeeds if and only if every section starts after all earlier ones end or lies strictly clear of each |
| Resync.FailureLosesOne | ext/libelf/elf_update.c:296-311 | the walk fails at the first section that does not fit; every section is kept if and only if that one reaches as far as all before it, else that one and no other is lost |
| Resync.SectionLost | ext/libelf/elf_update.c:303-306 | a list from which a section is lost |
| Resync.SizeAllClaims | ext/libelf/elf_update.c:281-284 | sizing returns the furthest end the sections claim, those not dirty by their headers |
| Resync.SizeAllKeeps | ext/libelf/elf_update.c:281-284 | sizing keeps sections behind the headers, headers current and sections without file space as they are |
| Resync.EndsAgreeExactly | ext/libelf/elf_update.c:315-315 | the assertion that compares the ends of the two passes holds if and only if no header of a clean section claims more than is reached, nor the other way round |
| Resync.EndsAgree | ext/libelf/elf_update.c:315-315 | in particular it holds when every header is current |
| Resync.StaleHeaderFails | ext/libelf/elf_update.c:315-315 | a section whose header was enlarged without marking it dirty fails the assertion |
| Resync.ResyncSorted | ext/libelf/elf_update.c:266-318 | a successful resync permutes the sized sections and returns their furthest end; they are behind the headers if they were, and ascending if sections without file space carry no placement or nothing had to move |
| Resync.ResyncExact | ext/libelf/elf_update.c:266-318 | exactly which lists resync accepts, and with which error it refuses the others |
| Resync.AscendingStays | ext/libelf/elf_update.c:286-313 | an ascending list behind the headers is left as it is, whatever its sections without file space say |
| Resync.OrderKeptExactly | ext/libelf/elf_update.c:752-766 | since headers are written in list order, section i stays table entry i if and only if the sized list was already ascending |
| Resync.AcceptedReordered | ext/libelf/elf_update.c:286-313 | an accepted list that is reordered |
| Resync.PlacedNoBitsHidesOverlap | ext/libelf/elf_update.c:243-257 | a list with a placed `SHT_NOBITS` section on which an overlap goes unnoticed |
| Resync.HeaderOverlapMissed | ext/libelf/elf_update.c:296-306 | a section lying on the program header table is accepted where it is |
| Resync.FreshAscending | ext/libelf/elf_update.c:281-284 | when the library places every section the sized list is ascending |
| Resync.FreshResync | ext/libelf/elf_update.c:266-318 | for such objects resync succeeds exactly when sizing does and changes no order |
| Overlaps.SweepAscendsExactly | ext/libelf/elf_update.c:233-313 | behind the headers the accepted list is ascending and pairwise disjoint if and only if no section without file space, listed before one that stays, lies beyond one that has to be moved in front of it |
| Overlaps.AcceptedClearExactly | ext/libelf/elf_update.c:233-318 | what resync accepts is free of overlaps among the sections and with the headers if and only if, as sized, all lie behind the headers and none is hidden in that way |
| Overlaps.NothingHidden | ext/libelf/elf_update.c:233-313 | nothing is hidden where sections without file space carry no placement or nothing has to move |
| Extended.GetScn0 | ext/libelf/libelf_extended.c:35-44 | section zero is the first node, allocated just when the list is empty |
| Extended.StoreShNum | ext/libelf/libelf_extended.c:46-73 | the section count goes to the header below 0xff00, else 0 there and the count to section zero's size |
| Extended.StorePhNum | ext/libelf/libelf_extended.c:105-132 | the program header count goes to the header below 0xffff, else the escape there and the count to section zero's info field |
| Extended.StoreShStrNdx | ext/libelf/libelf_extended.c:76-102 | the string table index goes to the header below 0xff00, else the escape there and the index to section zero's link field |
| Extended.LoadCounts | ext/libelf/libelf_ehdr.c:170-198 | the counts a header and section zero stand for, going to section zero only for a zero section count with a non-zero offset |
| Extended.DecodeErrors | ext/libelf/libelf_ehdr.c:170-198 | exactly when the counts cannot be read, and with which error |
| Extended.EncodedScn0 | ext/libelf/libelf_extended.c:46-132 | the combined effect of the three setters on header and section zero |
| Extended.RoundTripExact | ext/libelf/libelf_extended.c:46-132 | encoding then decoding gives all three 32-bit counts back if and only if they are representable, decided from the counts, the section table offset and section zero as it was before |
| Extended.EncodeFrame | ext/libelf/libelf_extended.c:46-132 | the setters touch only their fields and section zero, which they allocate if there is none |
| Pieces.RenderLength | ext/libelf/elf_update.c:663-772 | an image of ordered pieces is as long as its last piece's end |
| Pieces.PieceLands | ext/libelf/elf_update.c:663-772 | every piece of an image stands at its own offset |
| Pieces.GapsFilled | ext/libelf/elf_update.c:663-772 | every byte outside the pieces is the fill character |
| Pieces.Image.Memcpy | ext/libelf/elf_update.c:555-556 | the bytes are stored there and only there, and each write is counted |
| Pieces.Image.Memset | ext/libelf/elf_update.c:574-576 | the fill character is stored there and only there, and each write is counted |
| Pieces.Image.Put | ext/libelf/elf_update.c:574-596 | filling up to a piece and copying it keeps the image equal to the intended one so far, each byte written once |
| Update.ChooseTableOffset | ext/libelf/elf_update.c:415-438 | where a header table goes and where it ends, with the layout errors of application-chosen offsets |
| Update.TablePlacedExactly | ext/libelf/elf_update.c:415-438 | the library takes the least aligned offset that is free; the application's is accepted if and only if it is free and aligned |
| Update.StoreCounts | ext/libelf/elf_update.c:477-478 | program header count and section count, in this order |
| Update.StartLayout | ext/libelf/elf_update.c:320-438 | the header checks and defaults and the place of the program header table |
| Update.HeaderErrors | ext/libelf/elf_update.c:363-379 | exactly which headers layout goes on with, and the error for the others |
| Update.FinishLayout | ext/libelf/elf_update.c:448-495 | the place of the section header table, the recorded offsets and counts and the total size |
| Update.ResyncElf | ext/libelf/elf_update.c:320-495 | the whole layout pass for any object: header, sorted sections and size, or the first error |
| Update.SelfLaidExactly | ext/libelf/elf_update.c:320-495 | with the layout under the application's control: exactly which objects are accepted, and the tables stay where it put them |
| ImageWriter.WriteData | ext/libelf/elf_update.c:570-599 | descriptors of whole entries are written at section offset plus `d_off` with fill between; an empty descriptor fails the write |
| ImageWriter.WriteScn | ext/libelf/elf_update.c:501-600 | a section is written from its descriptors or raw bytes, and fails exactly for an empty descriptor or where there is no original file |
| ImageWriter.WriteSections | ext/libelf/elf_update.c:727-729 | the sections in list order |
| ImageWriter.WriteTable | ext/libelf/elf_update.c:735-767 | the section headers in list order at `e_shoff` |
| ImageWriter.WritePhdrs | ext/libelf/elf_update.c:689-721 | the gap is filled but the table is copied to the running position |
| ImageWriter.PhdrTableExact | ext/libelf/elf_update.c:689-721 | every byte up to the table's end is written once if and only if the table directly follows the bytes before it |
| ImageWriter.WritePhdrsNext | ext/libelf/elf_update.c:689-721 | in that case the table is written where the header says |
| ImageWriter.WritePhdrsApart | ext/libelf/elf_update.c:689-721 | behind a gap the table stands directly behind the ELF header and not where the header says |
| ImageWriter.WriteHeaders | ext/libelf/elf_update.c:663-721 | ELF header and program header table: as the pieces say, or, behind a gap, the table directly behind the ELF header |
| ImageWriter.WriteBody | ext/libelf/elf_update.c:727-767 | sections and section header table |
| ImageWriter.WriteElf | ext/libelf/elf_update.c:619-772 | when every section has something to write, the image behind the headers holds exactly the intended pieces, every byte written once, and so do the headers unless there is a gap between them |
| ImageWriter.SectionsOrdered | ext/libelf/elf_update.c:727-729 | ascending sections are written one after the other within the bounds layout gave them |
| ImageWriter.OrderedExactly | ext/libelf/elf_update.c:727-729 | sections that write something lie one after the other from the end of the headers on if and only if the list is ascending and behind them |
| ImageWriter.TableOrdered | ext/libelf/elf_update.c:735-767 | the table's entries follow one another and end after its last entry |
| ElfUpdate.OffsetSuitsType | ext/libelf/elf_update.c:190-205 | layout gives every section an offset its type can be written at |
| ElfUpdate.OffsetSuitsExactly | ext/libelf/elf_update.c:190-205 | the writer's check of a section's offset passes wherever the section comes to stand if and only if its start alignment is a multiple of its type's |
| ElfUpdate.MisalignedSymbolTable | ext/libelf/elf_update.c:529-529 | a symbol table layout accepts and the writer's check refuses |
| ElfUpdate.ReadyBecomesStored | ext/libelf/elf_update.c:74-226 | a section ready for layout comes out ready for writing |
| ElfUpdate.PlacedIsClear | ext/libelf/elf_update.c:320-495 | that condition holds when every section is placed by the library or behind the headers already, and sections without file space carry no placement or nothing has to move |
| ElfUpdate.FreshIsClear | ext/libelf/elf_update.c:320-495 | and for every object the library places as a whole |
| ElfUpdate.LayoutIsWritten | ext/libelf/elf_update.c:320-495 | in library layout the pieces of the image follow one another and end at the size layout returned if and only if there are fewer than 0xff00 sections |
| ElfUpdate.UpdateAndWrite | ext/libelf/elf_update.c:835-885 | layout then image: size, headers, data and table as announced, every byte written exactly once |
| ElfUpdate.HeadersLand | ext/libelf/elf_update.c:663-721 | ELF header at 0 and program headers at `e_phoff` |
| ElfUpdate.DataLands | ext/libelf/elf_update.c:572-597 | descriptor i of section k at section offset plus `d_off` |
| ElfUpdate.TableLands | ext/libelf/elf_update.c:735-767 | section header k as entry k of the table at `e_shoff` |
| ElfUpdate.RawLands | ext/libelf/elf_update.c:539-562 | a section without descriptors at its offset, with its bytes of the original file |
| ElfUpdate.UnfetchedKeptExactly | ext/libelf/elf_update.c:162-205 | a section whose data was never fetched keeps its bytes if and only if it is not dirty or had none |
| ElfUpdate.SectionsAnnounced | ext/libelf/elf_update.c:205-224 | after layout the header of every section that was laid out, or was current before, says where the section is |
| ElfUpdate.SizesAnnounced | ext/libelf/elf_update.c:386-404 | class, record sizes, entry sizes and counts in the ELF header after layout |
| ElfUpdate.HeaderReadable | ext/libelf/elf_update.c:663-721 | a reader finds the ELF header as long as it says and the program header table where it says, with that many entries of the announced size |
| ElfUpdate.EntryReadable | ext/libelf/elf_update.c:735-767 | a reader finds the header of section k by stepping through the table by the announced entry size |
| ElfUpdate.DataReadable | ext/libelf/elf_update.c:572-597 | a reader finds descriptor i of section k at the offset the section's header announces, inside the size it announces |
| ElfUpdate.RawReadable | ext/libelf/elf_update.c:539-562 | and the bytes of a section without descriptors likewise |
| StrPtr.WalkByOff | ext/libelf/elf_strptr.c:66-87 | the walk over recorded offsets |
| StrPtr.WalkByCount | ext/libelf/elf_strptr.c:88-130 | the walk that recomputes offsets |
| StrPtr.ElfStrPtr | ext/libelf/elf_strptr.c:44-133 | the argument checks and the walk the layout flag selects |
| StrPtr.LookupRefused | ext/libelf/elf_strptr.c:58-62 | a section that is no string table, or an offset at or beyond its size, is refused whatever the flag |
| StrPtr.RecordedExactly | ext/libelf/elf_strptr.c:65-87 | with the layout flag the answer is byte k of descriptor i if and only if that byte is recorded at the offset and no descriptor before settles the search |
| StrPtr.RecomputedExactly | ext/libelf/elf_strptr.c:88-130 | without it, if and only if that byte is at the offset when each descriptor follows the one before at its own alignment |
| StrPtr.LookupIgnoresPlaces | ext/libelf/elf_strptr.c:88-130 | without it the recorded offsets do not matter |
| StrPtr.FindByOffExact | ext/libelf/elf_strptr.c:66-87 | descriptor i, byte k is found exactly when that byte stands at the offset |
| StrPtr.PaddingRefused | ext/libelf/elf_strptr.c:66-87 | exactly the offsets in no descriptor are refused |
| StrPtr.SamePlacesAgree | ext/libelf/elf_strptr.c:65-133 | where recomputation arrives at the recorded offsets the two walks agree |
| StrPtr.OtherPlacesDiffer | ext/libelf/elf_strptr.c:65-133 | elsewhere some offset gets two answers |
| StrPtr.LayoutMakesTidy | ext/libelf/elf_update.c:136-225 | library layout of a string section meets what the walks rely on |
| StrPtr.LaidOutRecorded | ext/libelf/elf_strptr.c:65-87 | after library layout the search by recorded offsets finds byte k of descriptor i if and only if it is recorded at the offset |
| StrPtr.WalksAgreeExactly | ext/libelf/elf_strptr.c:65-133 | both walks agree on every offset if and only if recomputation arrives at the recorded offsets |
| StrPtr.UniformAgrees | ext/libelf/elf_strptr.c:65-133 | with one alignment throughout they agree after library layout |
| StrPtr.MixedAlignmentsDiffer | ext/libelf/elf_strptr.c:65-133 | with alignments 1, 1, 4 they do not |
| Handles.Library.Allocate | ext/libelf/elf_memory.c:49-54 | a new handle with one activation |
| Handles.Library.Memory | ext/libelf/elf_memory.c:34-89 | opening in memory, decided from the bytes; a malformed archive's handle is neither returned nor released |
| Handles.Library.OpenMember | ext/libelf/libelf_ar.c:279-321 | a member handle with its parent, whose child count grows by one |
| Handles.Library.Begin | ext/libelf/elf_begin.c:146-153 | a new handle, a new member, or one more activation |
| Handles.Library.Release | ext/libelf/elf_end.c:75-81 | one handle is freed and its parent has one member fewer |
| Handles.Library.ReleaseChain | ext/libelf/elf_end.c:50-82 | the loop frees the handle and every ancestor nothing refers to any more |
| Handles.Library.End | ext/libelf/elf_end.c:36-85 | the remaining activations and the handles freed |
| Handles.CascadeProps | ext/libelf/elf_end.c:50-82 | the loop leaves no unreferenced handle and changes nothing about the others but child counts |
| Handles.CascadeOrder | ext/libelf/elf_end.c:50-82 | handles are released from the member up, each archive after the member it was released for |
| Handles.BeginInv | ext/libelf/elf_begin.c:146-153 | beginning keeps: members belong to live archives, child counts are right, nothing unreferenced is live |
| Handles.EndInv | ext/libelf/elf_end.c:36-85 | ending keeps the same invariant |
| Handles.BeginEffect | ext/libelf/elf_begin.c:146-153 | one activation more for the returned handle and none for any other |
| Handles.MemberOpened | ext/libelf/libelf_ar.c:279-321 | beginning on an archive gives a new handle of the kind opened whose parent is the archive, which has one member more; nothing else changes |
| Handles.ObjectOpened | ext/libelf/elf_memory.c:34-89 | beginning on nothing gives a new handle of the kind opened without a parent |
| Handles.EndEffect | ext/libelf/elf_end.c:36-85 | one activation less for the handle, none for any other, and no handle freed twice |
| Handles.Ledger | ext/libelf/elf_end.c:36-85 | in every run a handle's activations are its begins less its ends |
| Handles.ReleasedOnce | ext/libelf/elf_end.c:36-85 | in every run no handle is released twice and none released is in use |
| Handles.ArchivesOutliveMembers | ext/libelf/elf_end.c:50-82 | in every run an open member's archive is live with the right child count, nested archives included |
| Handles.MemberHoldsArchive | ext/libelf/libelf_ar.c:317-318 | in every run a member opened through an archive keeps the archive from being released as long as it is not released itself |
| Handles.NothingLeft | ext/libelf/elf_end.c:36-85 | once begins and ends are matched only handles of malformed archives are left |
| Handles.LeakExact | ext/libelf/elf_memory.c:81-84 | such handles exist exactly when some operation opened bytes that are a malformed archive |
| Handles.MatchedRunFreesAll | ext/libelf/elf_end.c:36-85 | a matched run frees everything if and only if none of the bytes it opened is a malformed archive |
| Handles.SignatureAlone | ext/libelf/libelf_ar.c:348-352 | a file of the signature alone is such an archive |
| Handles.ElfOpens | ext/libelf/elf_memory.c:61-79 | bytes with the ELF signature are opened as an ELF object if and only if class, byte order and version are known, else refused |
| Handles.ArchiveOpens | ext/libelf/elf_memory.c:81-84 | a well-formed archive file is opened as an archive, unless it runs out of members among its first two |
| Handles.OtherOpens | ext/libelf/elf_memory.c:85-86 | anything else that is not empty is opened without a kind |
| Archive.GetNumber | ext/libelf/libelf_ar.c:76-107 | the number after leading blanks up to the first blank, 0 when there are only blanks, none for another character |
| Archive.NumberRoundTrip | ext/libelf/libelf_ar.c:76-107 | a printed number is read back whatever blanks surround it |
| Archive.DigitsExact | ext/libelf/libelf_ar.c:76-107 | a number is refused if and only if a character that is neither digit nor blank follows its digits |
| Archive.FileLaid | ext/libelf/libelf_ar.c:323-394 | every well-formed archive file has its headers and contents where the format says |
| Archive.AdjustExact | ext/libelf/_libelf.h:67-67 | the size adjustment rounds up to even if and only if the size plus one fits 32 bits |
| Archive.Examine | ext/libelf/libelf_ar.c:350-368 | whether a header is malformed, special or ordinary |
| Archive.ArOpen | ext/libelf/libelf_ar.c:323-394 | where the cursor is left and which tables were noted, or malformed |
| Archive.OpenMember | ext/libelf/libelf_ar.c:279-321 | for any cursor: no member left, a read past the end of the file, a size that is no number, a failed assertion, or the member |
| Archive.OpensEntry | ext/libelf/libelf_ar.c:279-321 | at an entry of the archive the member is opened if and only if it has contents; at the end of the file a header is read beyond it |
| Archive.BadSizeExactly | ext/libelf/libelf_ar.c:302-305 | a member is refused for its size if and only if that is not a number |
| Archive.ElfNext | ext/libelf/elf_next.c:34-59 | the next cursor, zero after the last member |
| Archive.OffsetsIncrease | ext/libelf/elf_next.c:34-59 | headers stand at even, strictly increasing offsets |
| Archive.NextMember | ext/libelf/elf_next.c:34-59 | from each member to the one after it, from the last to the end mark |
| Archive.VisitMembers | ext/libelf/elf_next.c:34-59 | open and next see every member from the cursor on exactly once, in order, with its contents, up to the first without contents, where an assertion fails |
| Archive.OpenAndVisit | ext/libelf/libelf_ar.c:279-394 | opening an archive and going through it sees exactly the real members, each once, in order, with their contents, to the end if and only if none is empty |
| Archive.OpenExact | ext/libelf/libelf_ar.c:323-394 | opening passes over the leading special entries, at most two, and fails exactly when it runs out of entries, as long as the entries passed over are short of 4 GiB |
| Archive.CursorInsideExactly | ext/libelf/libelf_ar.c:323-394 | the cursor has a whole header before the end of the file if and only if a member follows those passed over |
| Archive.FirstMemberExact | ext/libelf/libelf_ar.c:323-394 | exactly when the cursor is left at the first real member, for special members of any size and any names |
| Archive.BothTablesFound | ext/libelf/libelf_ar.c:348-391 | both tables are found in whichever order they come |
| Decimal.ReadPrint | ext/libelf/libelf_ar.c:76-107 | reading a printed number gives it back |
| InetChecksum.SumIsWords | ext/dnet/ip.h:427-475 | the plain sum is the sum of the whole words and the zero-padded odd byte |
| InetChecksum.SumBound | ext/dnet/ip.h:427-475 | how large the sum of a buffer can be |
| InetChecksum.NoOverflowExactly | ext/dnet/ip.h:427-475 | no buffer of a length overflows a 32-bit int if and only if the length is at most 65536, or 65537 on a little-endian machine |
| InetChecksum.Pass | ext/dnet/ip.h:437-470 | a pass entered at a label adds that many words |
| InetChecksum.CksumAdd | ext/dnet/ip.h:427-475 | for any length, what the unrolled loop adds up and how many bytes of memory it reads |
| InetChecksum.TotalIsSum | ext/dnet/ip.h:427-475 | for a buffer of at least one word that is the plain sum, whatever lies behind the buffer |
| InetChecksum.ReadsInsideExactly | ext/dnet/ip.h:433-470 | the loop reads only the buffer, and so computes its sum whatever lies behind it, if and only if the buffer holds at least one word |
| InetChecksum.FoldMod | ext/dnet/ip.h:477-482 | folding keeps the value modulo 65535 and is zero only for zero |
| InetChecksum.FoldUnique | ext/dnet/ip.h:477-482 | it is the only 16-bit value that does |
| InetChecksum.RfcExample | ext/dnet/ip.h:477-482 | the numerical example of section 3 of RFC 1071, in normal and in swapped order |
| InetChecksum.StoredChecksumVerifies | ext/dnet/ip.h:427-482 | storing the checksum in its zeroed field makes the recomputed checksum zero (RFC 1071, section 1) |
| InetChecksum.SwapAllMod | ext/dnet/ip.h:427-475 | swapping the bytes of every word multiplies the sum by 256 modulo 65535 |
| InetChecksum.SwappedChecksum | ext/dnet/ip.h:427-482 | the checksum of the byte-swapped buffer is the byte-swapped checksum (RFC 1071, section 2(B)) |
| LrTables.Invert | parsetab.py:12-16 | the filling loops build a dictionary that answers exactly the stored pairs, in whatever order the symbols come |
| LrTables.FillRow | parsetab.py:13-16 | the inner loop adds one symbol's pairs and leaves the others |
| LrTables.ActionFound | parsetab.py:10-10 | the stored action row of a symbol answers as the decision form of the table does |
| LrTables.GotoFound | parsetab.py:19-19 | the same for the goto rows |
| LrTables.BuildTables | parsetab.py:10-26 | the module's initialisation builds dictionaries equal to the action and goto functions |
| LrDriver.ReductionFits | parsetab.py:10-58 | on every reachable stack a reduction finds its right-hand side on top and a defined goto beneath it |
| LrDriver.StepKeeps | parsetab.py:10-58 | every step keeps the stack a path of the automaton over valid derivations, and the tokens read so far |
| LrDriver.StepDescends | parsetab.py:10-58 | every step lowers a measure linear in the remaining input |
| LrDriver.RunIsLinear | parsetab.py:10-58 | a run takes at most ten steps per token and four more, so finitely many reductions separate shifts |
| LrDriver.Run | parsetab.py:10-58 | every run ends in acceptance or rejection |
| LrDriver.Sound | parsetab.py:10-58 | an accepted string is derivable from `file`, with the returned tree as its derivation |
| LrDriver.Advance | parsetab.py:10-58 | one turn of the loop over the dictionaries is one step |
| LrDriver.Parse | parsetab.py:10-58 | the loop over the dictionaries computes the run |
| LrComplete.Complete | parsetab.py:10-58 | every file of the grammar is accepted with its own derivation as parse tree |
| LrComplete.AcceptsExactly | parsetab.py:10-58 | the tables accept exactly the strings derivable from `file` |
| LrComplete.Unambiguous | src/arch/micro_asm.py:310-472 | no token string has two derivations |
| MicroAsmActions.StatementListExact | src/arch/micro_asm.py:368-395 | a block's list holds exactly its non-empty statements, in order |
| MicroAsmActions.LabelListExact | src/arch/micro_asm.py:432-445 | a label list holds exactly the labels written, in order, blank lines leaving no trace |
| MicroAsmText.StatementsWritten | src/arch/micro_asm.py:368-472 | the tokens of a block's statements, terminators and blank lines aside, are those its list is written with |
| MicroAsmText.ReadListBack | src/arch/micro_asm.py:368-472 | a written list is read back from its tokens alone, so no two lists are written alike |
| MicroAsmText.StatementListRead | src/arch/micro_asm.py:368-472 | the list the actions build is the one read from the tokens: labels with their extern marks, mnemonics, directive names and parameters, each where it is written |
| DecodeCompiler.SwitchRight | src/arch/isa_parser.py:1479-1519 | for every accepted tree and field assignment the emitted switch, run with C fall-through, returns the instruction the tree selects, with the innermost inherited default |
| DecodeCompiler.CompileRight | src/arch/isa_parser.py:1479-1519 | the same for a block under any inherited default and format |
| DecodeCompiler.CloseRight | src/arch/isa_parser.py:1479-1488 | a switch closed with a default always returns |
| DecodeCompiler.LeftExactly | src/arch/isa_parser.py:1479-1488 | without the added default a switch is left exactly for the values no arm selects |
| DecodeCompiler.NextCaseRuns | src/arch/isa_parser.py:1569-1577 | there being no break after a nested switch, a block closed without a default would return the next case's instruction for a value it does not list |
| DecodeCompiler.OpenInnerSwitchDiffers | src/arch/isa_parser.py:1569-1577 | a tree and field setting where that differs from what the tree means |
| DecodeCompiler.AcceptsExactly | src/arch/isa_parser.py:1479-1519 | a tree is accepted if and only if its formats are defined, no block has two default cases, and every block has a default case or a default in scope |
| DecodeCompiler.DefineExactly | src/arch/isa_parser.py:1619-1640 | an instruction is defined by the format it resolves to; the error names the unknown format or says that there is none |
| DecodeCompiler.DefinitionsEmitted | src/arch/isa_parser.py:1479-1519 | each instruction's definitions are emitted once per statement that writes it and once per block that takes it as its default |
| DecodeCompiler.DefinitionsInOrder | src/arch/isa_parser.py:1479-1519 | in the order the tree is written, a default taken at the end of the block that takes it |
| DecodeRules.GenCode.Add | src/arch/isa_parser.py:315-327 | concatenation in a new object, both operands unchanged |
| DecodeRules.GenCode.Wrap | src/arch/isa_parser.py:337-340 | the decode code wrapped in place, nothing else changed |
| DecodeRules.GenCode.WrapSwitch | src/arch/isa_parser.py:1487-1487 | the decode code becomes the body of a switch |
| DecodeRules.Parser.constructor | src/arch/isa_parser.py:1028-1032 | one no-format marker and no default on the stacks |
| DecodeRules.Parser.InstRule | src/arch/isa_parser.py:1619-1640 | the explicit format, else the innermost one, else the error |
| DecodeRules.Parser.OptDefaultRule | src/arch/isa_parser.py:1494-1509 | the block's own default, or the current one again, is pushed |
| DecodeRules.Parser.BlockRule | src/arch/isa_parser.py:1479-1488 | a block yields the specified code in a new object with both stacks as before, or the specified error |
| DecodeRules.Parser.StmtsRule | src/arch/isa_parser.py:1511-1519 | a statement list, with the error for two default cases |
| DecodeRules.Parser.StmtRule | src/arch/isa_parser.py:1538-1587 | each kind of statement, format blocks pushing and popping the format |
| BitOps.FindOpen | src/arch/isa_parser.py:364-374 | the backward search finds the matching parenthesis, and gives up on reaching the first character |
| BitOps.SubstBitOps | src/arch/isa_parser.py:353-380 | the loop computes the rewriting |
| BitOps.PassRemovesOne | src/arch/isa_parser.py:363-379 | on any text each turn of the loop removes exactly one `<`, so it ends |
| BitOpsTree.OneOnTree | src/arch/isa_parser.py:354-356 | the first substitution writes every selector with two bounds and changes nothing else |
| BitOpsTree.WordOnTree | src/arch/isa_parser.py:357-359 | the second makes every selected name a call and changes nothing else |
| BitOpsTree.LoopTree | src/arch/isa_parser.py:360-379 | the loop rewrites selected groups from the inside out and left to right |
| BitOpsTree.SubstituteExact | src/arch/isa_parser.py:353-380 | what the text of an expression is rewritten to, every selected name and group becoming a call of `bits`; it gives up exactly when a selected group opens at the first character |
| BitOpsTree.SubstituteMeans | src/arch/isa_parser.py:353-380 | the result is the expression meant if and only if no selected group opens the text and no selector stands behind a call |
| BitOpsTree.SelectedCallRewritten | src/arch/isa_parser.py:360-378 | the bits of `f(x)` become a call of `fbits`, for all names |
| Operands.ScanExact | src/arch/isa_parser.py:694-721 | scanning succeeds if and only if no name has two extensions, and leaves one descriptor per name with flags the union over its occurrences |
| Operands.ScanFirstError | src/arch/isa_parser.py:694-721 | the error names the first operand used with another extension than before |
| Operands.SortStable | src/arch/isa_parser.py:802-803 | sorting orders by priority and keeps each priority's descriptors in order |
| Operands.SortFaithful | src/arch/isa_parser.py:802-803 | sorting keeps one faithful descriptor per name |
| Operands.NumbersAscend | src/arch/isa_parser.py:731-744 | register numbers follow the sorted order and stay below the total |
| Operands.NumbersReach | src/arch/isa_parser.py:731-744 | every number below the total is given out |
| Operands.KindsAddUp | src/arch/isa_parser.py:736-744 | floating-point, integer and control destinations add up to all destinations |
| Operands.NumberedMeans | src/arch/isa_parser.py:731-744 | an operand takes a source number if and only if it is a register the code reads, a destination number if and only if it is one the code writes |
| Operands.TotalsMean | src/arch/isa_parser.py:723-744 | the totals are the numbers of different registers read and written, and written of each kind |
| OperandList.List.Append | src/arch/isa_parser.py:766-768 | list and dictionary stay in step |
| OperandList.List.NoteOcc | src/arch/isa_parser.py:700-719 | one occurrence: a new descriptor, updated flags, or the error |
| OperandList.List.ScanAll | src/arch/isa_parser.py:694-721 | the scanning loop computes the specified descriptors or the first error |
| OperandList.List.SortItems | src/arch/isa_parser.py:802-803 | the same operands, sorted |
| OperandList.List.NumberOne | src/arch/isa_parser.py:732-744 | an operand keeps the counters' values and each counter moves on just when it should |
| OperandList.List.NoteMem | src/arch/isa_parser.py:745-748 | a second memory operand is an error |
| OperandList.List.Enumerate | src/arch/isa_parser.py:723-748 | every register operand carries the number its place calls for, the totals are right, and a second memory operand is the only error; the memory operand kept is the one there is |
| OperandList.Build | src/arch/isa_parser.py:687-748 | scanned, sorted and numbered, or the error, decided exactly |
| OperandList.Parser.Record | src/arch/isa_parser.py:749-754 | the maxima bound every instruction so far and are no larger than needed |
| OperandList.Parser.Analyse | src/arch/isa_parser.py:687-754 | a code block's list, with the maxima updated just when it succeeds |
| GzStream.RefillWindow | ext/gzstream/gzstream.cc:85-97 | the bytes moved and the bytes read are again one stretch of the file |
| GzStream.CopyOverlaps | ext/gzstream/gzstream.cc:85-88 | the putback copy overlaps itself exactly when the chunk before was shorter than what is kept |
| GzStream.PutbackAtEnd | ext/gzstream/gzstream.cc:85-92 | after the end of the file the part of the putback area from a given byte on is still right if and only if the bytes it has before the last chunk repeat at its length |
| GzStream.GzStreamBuf.constructor | ext/gzstream/gzstream.hh:57-63 | empty get area behind four putback slots, empty put area |
| GzStream.GzStreamBuf.Refill | ext/gzstream/gzstream.cc:85-97 | a chunk of any size leaves a window on the file with up to four consumed bytes in front; at the end of the file the bytes are moved and the pointers not |
| GzStream.GzStreamBuf.Underflow | ext/gzstream/gzstream.cc:78-101 | the next byte of the file, or the end, and what changes in each case, before and after an end of file |
| GzStream.GzStreamBuf.Bump | ext/gzstream/gzstream.cc:78-101 | consuming delivers the file's next byte; after an end of file that is sure behind the putback area |
| GzStream.GzStreamBuf.Unget | ext/gzstream/gzstream.cc:95-97 | putting back delivers the byte consumed last, as long as the area holds one; after an end of file that is sure of the last chunk only |
| GzStream.GzStreamBuf.EndThenUnget | ext/gzstream/gzstream.cc:78-97 | running into the end of the file and putting back k bytes gives the last k bytes of the file if and only if those in front of the last chunk repeat at its length |
| GzStream.ShortLastChunk | ext/gzstream/gzstream.cc:78-97 | any five-byte file that arrives in chunks of four and one: its last byte is put back twice |
| GzStream.GzStreamBuf.ReadAll | ext/gzstream/gzstream.cc:78-101 | for any chunk sizes the bytes delivered are the file's, in order, to its end |
| GzStream.GzStreamBuf.FlushBuffer | ext/gzstream/gzstream.cc:103-111 | a successful flush hands over everything pending; a failed one what it took, and keeps everything pending |
| GzStream.GzStreamBuf.Overflow | ext/gzstream/gzstream.cc:113-123 | the byte goes to the reserved slot and everything is flushed; a store past the buffer happens exactly when the buffer was already over-full |
| GzStream.GzStreamBuf.PutByte | ext/gzstream/gzstream.cc:113-123 | sink plus pending grow by the byte when it is stored; only a failed flush of a full buffer leaves it over-full |
| GzStream.GzStreamBuf.Sync | ext/gzstream/gzstream.cc:125-134 | everything pending handed over, or what the failed write took, with everything still pending |
| GzStream.GzStreamBuf.SyncAgain | ext/gzstream/gzstream.cc:103-134 | synchronising again after a failed write hands over exactly the bytes put if and only if that write took nothing |
| GzStream.GzStreamBuf.WriteAll | ext/gzstream/gzstream.cc:103-134 | with successful writes the sink receives exactly the bytes put and the last slot is never overrun |
| Bitfield.MaskBits | src/base/bitfield.hh:40-44 | a mask of n bits has exactly the bits below n |
| Bitfield.DecNumber | src/base/bitfield.hh:40-44 | the word a mask is computed with is the number less one |
| Bitfield.MaskNumber | src/base/bitfield.hh:40-44 | as a number it is one less than 2 to the n |
| Bitfield.BitsBit | src/base/bitfield.hh:52-59 | which bits an extracted range has |
| Bitfield.MbitsBit | src/base/bitfield.hh:76-82 | which bits a masked range has |
| Bitfield.InsertBit | src/base/bitfield.hh:105-113 | which bits an insertion changes |
| Bitfield.ReadInserted | src/base/bitfield.hh:105-113 | reading a range just inserted gives the low bits inserted |
| Bitfield.OthersUnchanged | src/base/bitfield.hh:105-113 | disjoint ranges are unchanged |
| Bitfield.MbitsShifted | src/base/bitfield.hh:76-82 | masking in place is extracting and shifting back |
| Bitfield.SextExact | src/base/bitfield.hh:93-100 | the result is the sign extension if and only if the sign bit is set or nothing is set above it |
| Bitfield.FindMsbSet | src/base/bitfield.hh:149-162 | the highest set bit, 0 for zero |
| Bitfield.FindLsbSet | src/base/bitfield.hh:167-179 | the lowest set bit, 64 for zero |
| Years.ProcessDates | util/find_copyrights.py:99-116 | exactly the years some item of the list stands for |
| Years.SortYears | util/find_copyrights.py:176-177 | the same years, ascending |
| Years.DateRuns | util/find_copyrights.py:185-196 | ascending runs with gaps between them that cover exactly the set; the empty set is an error |
| Years.DateStr | util/find_copyrights.py:175-199 | the printed runs joined by commas |
| Years.RunsMaximal | util/find_copyrights.py:185-196 | each run lies in the set and neither neighbour does |
| Years.SplitJoin | util/find_copyrights.py:100-100 | splitting what was joined gives the parts back |
| Years.RunStands | util/find_copyrights.py:98-114 | what a printed run is read as, and that it loses its last year when it is a range with an end not of four digits |
| Years.RoundTripExact | util/find_copyrights.py:99-199 | printing and reading back gives the same set if and only if all neighbouring years in it have four digits |
| Years.PrintAndRead | util/find_copyrights.py:99-199 | printing the years of a set and reading the text gives the same set if and only if all neighbouring years in it have four digits |

## Left out

- `_libelf_fsize`, `_libelf_msize` and the translators are not part of this model: entry sizes are a parameter with equal file and memory sizes, translation is a length-preserving parameter, header sizes are those of chapter 4 of the System V gABI.
- mmap, munmap, write, lseek and ftruncate, and the inside of gzopen, gzread and gzwrite: the file is a byte sequence and each call is given by what it returns.
- ElfUpdate.LayoutIsWritten: library layout only, and only for lists free of the overlaps layout misses (Overlaps.AcceptedClearExactly), because otherwise pieces are written over one another (ImageWriter.OrderedExactly).
- ElfUpdate.UpdateAndWrite: the same, and for fewer than 0xff00 sections, because from there on the image falls short (ElfUpdate.LayoutIsWritten).
- Resync.SweepExact: for sections behind the headers with no placed `SHT_NOBITS` section among them, because elsewhere overlaps are missed (Resync.HeaderOverlapMissed, Resync.PlacedNoBitsHidesOverlap).
- Resync.ResyncExact: the same.
- Resync.FailureLosesOne: the same.
- Archive.OpenExact: for special members short of 4 GiB, because the size of a longer one is not adjusted right; Archive.FirstMemberExact covers any size.
- The position of an archive's cursor in handle runs: the bytes of the member to open come with the operation.
- Allocation failure, argument checks of elf_begin that involve file descriptors, and version checks.
- The archive symbol table decoder, member names and elf_hash: they depend on the platform's character signedness and word width.
- Case folding, locale and Unicode digits in the regular expressions: words are ASCII letters, digits and underscore.
- Regular expression search over instruction code for operands, and the strings and comments deleted before it: the operand matches are given in order.
- C preprocessor directives inside decode blocks are passed through and taken to have no effect on the switch.
- The decode code of an instruction is taken to return, as the formats' decode templates do; template expansion, `exec` and `eval` of format and let blocks are not modelled.
- Text with `<` that is not part of a selector, and selectors written directly behind another selector, in the printed-expression theorem; termination is proved for all text.
- PLY's own parsing driver and lexer: the textbook shift-reduce driver is used over the generated tables, without error recovery.
- What the micro-assembler does with statements after they are listed (`handle_statement`, macroop and ROM containers).
- Years.DateStr: takes the set's years as a list in any order without repetition.
- configs/ and the simulator proper are about how components are wired together at run time, and the remaining utilities about formatting output and starting processes; neither is part of this model.
