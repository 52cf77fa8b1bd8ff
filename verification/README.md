# Dafny model of the BFD library's archives, linker passes and I/O

This project models the parts of `binutils/bfd` whose correctness spans several
passes or whole runs, and proves what they promise. `dafny verify dfyconfig.toml`
checks all of it; every file is one module.

| file | component |
|---|---|
| `Octets.dfy` | bytes, fixed-width integers, decimal numerals as `printf` and `strtol` see them |
| `ArHeader.dfy` | the 60-byte `ar_hdr`: padding of fields, `_bfd_generic_read_ar_hdr_mag` |
| `NameTable.dfy` | the extended name table: both construction passes, the reader's in-place rewrite |
| `Armap.dfy`, `ArmapWriter.dfy` | BSD, COFF and 64-bit symbol maps: readers, writers, predicted positions |
| `ArchiveFile.dfy` | writing a whole archive for any target; opening one and iterating over it |
| `MemberRoundTrip.dfy`, `ArchiveRoundTrip.dfy` | what is written is what is read: headers, then whole archives |
| `ElementCache.dfy` | the cache of opened archive elements |
| `IoProtocol.dfy`, `BfdIo.dfy` | the last-operation protocol; in-memory BFDs; windows of nested elements |
| `SectionList.dfy` | the doubly linked list of sections |
| `GotAllocator.dfy` | slots, values and relocations of the ARC GOT |
| `DoPrnt.dfy` | the two passes of the message formatter |
| `AoutReloc.dfy`, `AoutOctets.dfy` | relocations of the a.out final link, on numbers and on octets |
| `AoutSymbols.dfy`, `AoutStabs.dfy`, `AoutCursors.dfy` | its symbol table, header stabs and file cursors |

Code that updates objects and buffers step by step is a class or a method over
arrays, proved against a specification function or a predicate; the theorems are
lemmas about those. The main results are `ArchiveRoundTrip.ArchiveComesBack`,
`SymbolFindsMember` and `ExportFindsMember`, `ArmapWriter.OffsetsExactIff`, `NameTable.IndexSelectsName`,
`Armap.WideChecksExact`, `ElementCache.CachedUntilClosed` and `ProbesNeverDisturb`,
`BfdIo.Replay`, `AoutReloc.ExactIff`, `LinkInputSectionStd` and
`LinkInputSectionExt`, `AoutOctets.StdOctetsAgree` and
`ExtOctetsAgree`, `AoutSymbols.FinalLink.WriteSymbols`, `LocalCopiedIff`,
`EntryMarkedIff` and `HeadersAsStabs`, `AoutStabs.LinkIsDedup`, `FullCopiesPerLink`
and `BlindToFileNumbers`, `AoutCursors.Link`, `GotAllocator.Got.EmittedWithinReserved`,
`SettledComesRight` and `RelocateLocal`, `DoPrnt.AcceptedIsPermutation` and
`IoProtocol.EveryRunIsOrderly`.

## Where the code does less than it seems to promise

Each of these is kept as the code has it, with the exact condition proved.

- A header that came with a member from a 4.4BSD archive keeps a size that counts the
  name behind it; written without that name, or marked and written by a target that
  is not 4.4BSD, it makes the new archive unreadable from the next header on. An
  archive comes back exactly when no header is like that
  (`ArchiveRoundTrip.ArchiveComesBack`, `MemberRoundTrip.SizeTrue`, with an instance
  in `ArchiveRoundTrip.FromBsd44Misread`).
- The BSD map writer counts contents that a thin archive does not hold, and the
  64-bit writer it diverts to leaves out the names 4.4BSD headers carry; positions
  are right exactly under `ArmapWriter.Accounted`, and those of a diverted map
  exactly before the first such name (`ArmapWriter.DivertedEntryExactIff`).
- A name read through the table is the name stored exactly when it has no
  backslash and no newline, and no final slash where none is added
  (`NameTable.Survives`).
- A short name that fills all its room is cut at its first space, and a member
  called `#1` is misread when a digit from an earlier use of the header follows
  (`ArHeader.ShortRead`, `ArHeader.Bsd44LookalikeIff`). The comment that names may
  not begin with a space is stricter than the code: they may, when shorter than
  the room.
- `_bfd_doprnt_scan` leaves its array of nine arguments when a format has more
  than nine uses that name all nine (`DoPrnt.VerdictIff`,
  `DoPrnt.TenUsesLeaveTheArray`). A format cut off inside a directive makes it
  abort, or, when cut off among the flags, read on (`DoPrnt.CutOff`).
- Two a.out links in a row miss the direct link for some pc-relative relocations, by
  the amounts `AoutReloc.TwoSteps` gives: against a symbol the first link defines,
  unless the section they are in was at address zero (with `pcrel_offset`: is put at
  zero); against any other symbol without `pcrel_offset`, and against a section with
  it, unless their section keeps its address (`AoutReloc.ExactIff`).
- A header file right behind an `N_MAIN` stab is copied without being looked at,
  because the type bits of `N_MAIN` are those of `N_INDR`, so another full copy of it
  may follow (`AoutStabs.FullCopiesPerLink`, `AoutStabs.MainHidesHeader`).
- `symbol_map` may hold -2, which is neither -1 nor an index: exactly when a symbol
  is looked up whose hash entry came in marked -2, as a relocation against an
  indirect entry leaves it, and was done with or stripped when first looked up
  (`AoutSymbols.FinalLink.EntryMarkedIff`, with a run in
  `AoutSymbols.MarkReached`).
- The ARC GOT slot of a local symbol's address gets no relocation, so in a module that
  is moved when loaded it is wrong; and a thread offset stored for a symbol that is
  settled here but also in the dynamic symbol table is added twice. Slots come out
  right exactly under `GotAllocator.Got.ComesRight` (`SettledComesRight`, with
  instances in `WrongSlots`).
- Outside relocatable links no space is counted for relocations the linker makes
  up, so writing one would run into the symbols (`AoutCursors.Link`). `ld` makes
  such link orders in relocatable links only (`binutils/ld/ldctor.c:368`).

## Model

| member | source | states |
|---|---|---|
| `ArchiveRoundTrip.ArchiveComesBack` | binutils/bfd/archive.c:2142-2305 | for every target (names ended by slash or space, name table "//" or "ARFILENAMES/", thin or not, 4.4BSD names behind headers, any of the three maps), for fresh members and members of other archives, all with names that come back: what the writer wrote opens as an archive of that kind with exactly the map written (or none), and iterating yields the same members in the same order, with the same names, sizes, nested origins and, unless thin, contents, then ends with "no more archived files", if and only if every header holds the true size: it is fresh, or was read with extra_size 0, or bears the 4.4BSD mark and the member's own target writes such headers |
| `ArchiveRoundTrip.FromBsd44Misread` | binutils/bfd/archive.c:1802-1810 | a member of a 4.4BSD archive added to an SVR4 one: the size field that is written counts the name that is gone, and the archive does not read back |
| `ArchiveRoundTrip.SymbolFindsMember` | binutils/bfd/archive.c:808-815 | entry i of the map read back has the i-th collected name and an even offset, and reading the header there gives the member the symbol was collected from if and only if that header holds the true size; provided the map writer counted the members before it rightly: always for COFF and 64-bit maps without 4.4BSD long names, and for a BSD map that is not thin and not diverted when extra_size is the name behind the header |
| `ArchiveRoundTrip.ExportFindsMember` | binutils/bfd/archive.c:2391-2432 | for every symbol of a member written that is exported or common and not undefined, the map has an entry of its name, and that entry leads to this member under the same condition |
| `ArchiveRoundTrip.StoredOffsetStands` | binutils/bfd/archive.c:2473-2630 | in any archive written, of any scheme, thin or not: if the members before it are accounted for, the offset stored for a symbol is where the octets of its member's header stand in the file |
| `ArchiveRoundTrip.PlanSymbolLeads` | binutils/bfd/archive.c:2710-2846 | and reading there gives that member if and only if its header holds the true size |
| `ArchiveRoundTrip.CountedAccounted` | binutils/bfd/archive.c:1756-1800 | a condition on member and target under which each map writer accounts for a member, exact for the COFF and 64-bit writers: 4.4BSD long names are accounted for by the BSD writer and by no other |
| `ArchiveRoundTrip.HeaderStands` | binutils/bfd/archive.c:2243-2276 | in any archive written, thin or not, with or without names behind headers, header and name of member k stand where the layout says, and its contents behind them unless thin |
| `ArchiveRoundTrip.PlanOpens` | binutils/bfd/archive.c:895-966 | opening such a file finds the map, the name table and the first member exactly where they are |
| `ArchiveRoundTrip.PlanLists` | binutils/bfd/archive.c:857-885 | iterating from there meets every member and nothing else when all headers hold true sizes |
| `ArchiveRoundTrip.AllListedTrue` | binutils/bfd/archive.c:857-885 | an iteration that meets every member rightly has met only headers with true sizes |
| `ArchiveRoundTrip.OffsetsAreStarts` | binutils/bfd/archive.c:2797-2827 | in all three schemes the offset stored for a symbol is the even position the layout gives to its member's header, if the members before are accounted for |
| `MemberRoundTrip.MemberReads` | binutils/bfd/archive.c:504-643 | the header of any member whose name comes back, short-named, in the table or 4.4BSD, is read back with its own name, size, length of the name behind the header, nested origin and data position when it holds the true size |
| `MemberRoundTrip.MemberMisread` | binutils/bfd/archive.c:1802-1853 | and otherwise with a wrong size or a wrong name length |
| `MemberRoundTrip.InlineHeaderReads` | binutils/bfd/archive.c:558-585 | a 4.4BSD long name written behind a header is read back from there, whatever characters it holds, and not counted as contents |
| `MemberRoundTrip.SpaceHeaderReads` | binutils/bfd/archive.c:588-612 | a short name ended by a space is read back when it holds no space, slash or NUL and nothing stale follows |
| `ArchiveRoundTrip.FieldOrdinary` | binutils/bfd/archive.c:1199-1253 | the name field of a storable short-named member that is not called __.SYMDEF or ARFILENAMES is never taken for a map or a name table |
| `ArchiveRoundTrip.MarkOrdinary` | binutils/bfd/archive.c:1217-1250 | the mark of a 4.4BSD name is taken for one only where it equals the Mach-O map's, that is for names padded to 20 octets |
| `ArchiveRoundTrip.PlanNames` | binutils/bfd/archive.c:1265-1352 | the name table, under either of its names, is found behind the map, with its padding, or seen to be absent; the next position is the first member |
| `ArchiveRoundTrip.MapMemberSlurped` | binutils/bfd/archive.c:1199-1253 | a map member of each kind is recognised, read through its parser, and leaves first_file_filepos at the next header |
| `ArchiveRoundTrip.PeMapSlurped` | binutils/bfd/archive.c:1175-1184 | behind the map of a PE archive a second member named "/" is passed over, to the next even position, and the symbols are those of the first |
| `ArchiveRoundTrip.MapParses` | binutils/bfd/archive.c:1079-1170 | each reader takes a map written in its scheme for exactly the entries it was written for |
| `ArchiveFile.WriteArchive` | binutils/bfd/archive.c:2142-2305 | for every target: fails with "file too big" exactly when the size of some member that needs a header, or of a member and the name behind its header, does not fit the size field; otherwise writes magic, map, name table and members at the places the plan gives, and nothing else |
| `ArchiveFile.ConstructBsd44` | binutils/bfd/archive.c:1756-1800 | exactly the names that are too long or hold a space get "#1/" and their length rounded up to four |
| `ArchiveFile.WriteHead` | binutils/bfd/archive.c:1802-1853 | without the 4.4BSD mark, or for a member whose own target is not 4.4BSD, the header as it stands, its old size field included; else header, new size and padded name, failing exactly when size and name together need more than ten digits |
| `ArchiveFile.WriteArmap` | binutils/bfd/archive.c:2310-2435 | the map, of the target's scheme, is written for exactly the exported or common symbols of the member objects that are not undefined, each once and in order, with elength rounded as the name table will be |
| `ArchiveFile.CheckMembers` | binutils/bfd/archive.c:2159-2192 | headers can be made for all members that have none iff each of their sizes has at most ten digits; reports whether any member is an object |
| `ArchiveFile.CopyContents` | binutils/bfd/archive.c:2247-2269 | copying through the 8 MB buffer reproduces the contents |
| `ArchiveFile.WriteMember` | binutils/bfd/archive.c:2243-2276 | header, contents, and one newline exactly for odd sizes; the header only in a thin archive |
| `ArchiveFile.WriteTable` | binutils/bfd/archive.c:2213-2233 | the name table member with its size rounded to even and a newline when odd; nothing for an empty table |
| `ArchiveFile.MarksSpelled` | binutils/include/aout/ar.h:30-33 | the magic strings and the names of the name table, as text |
| `ArchiveFile.DropStale` | binutils/bfd/archive.c:2341-2344 | the leading members called __.SYMDEF, and only those, fall away with their headers |
| `ArchiveFile.ListMembers` | binutils/bfd/archive.c:857-885 | the iteration visits header after header and ends with the error of the first one that cannot be read; it always ends |
| `ArchiveFile.NextPos` | binutils/bfd/archive.c:865-881 | the next position is never before the current contents, also when the 64-bit sum wraps |
| `ArchiveFile.TableMember` | binutils/bfd/archive.c:2213-2233 | the length of the name table member |
| `ArchiveFile.BlocksLength` | binutils/bfd/archive.c:2243-2276 | the members take exactly the space the layout accounts for |
| `ArchiveFile.JoinComposes` | binutils/bfd/archive.c:2197-2276 | the parts written one after the other stand at their planned places |
| `ArHeader.SizePadReads` | binutils/bfd/archive.c:220-241 | _bfd_ar_sizepad succeeds iff the size is below ten to the field width, and what it writes scans back to the size |
| `ArHeader.SpacePadReads` | binutils/bfd/archive.c:203-218 | a padded number scans back to itself and the scan stops at the padding |
| `ArHeader.ReadHeader` | binutils/bfd/archive.c:504-643 | a header that is read leaves the position behind header and inline name, inside the file, and a size below 2^64 |
| `ArHeader.SizeAsRead` | binutils/bfd/archive.c:504-643 | the size field of a header that was read holds parsed_size and extra_size together |
| `ArHeader.ShortHeaderReads` | binutils/bfd/archive.c:588-612 | a short-named header gives back the name, or, when it fills all the room and holds a space, the part before the space |
| `ArHeader.ShortLengthOfField` | binutils/bfd/archive.c:588-612 | where the search for NUL, then slash, then space ends in a field written by the writer |
| `ArHeader.Bsd44LookalikeIff` | binutils/bfd/archive.c:200-201 | a short name looks like a 4.4BSD length exactly when it is "#1" and a stale digit follows in the field |
| `ArHeader.FreshFieldClean` | binutils/bfd/archive.c:2036-2070 | a header made for a file holds nothing that could make its short name misread, and the name table pass leaves it as it is |
| `NameTable.ConstructNameTable` | binutils/bfd/archive.c:1574-1754 | the table is the concatenation of the stored names, and every header gets its final name field: short form, index, or index and origin; for traditional, normal and thin archives |
| `NameTable.SizeTable` | binutils/bfd/archive.c:1589-1668 | pass one computes exactly the length of the table pass two will fill, and puts short names in order |
| `NameTable.FillTable` | binutils/bfd/archive.c:1670-1754 | pass two fills the buffer pass one sized, to the last byte and never past it |
| `NameTable.FillOne` | binutils/bfd/archive.c:1683-1752 | one member: a repeated path of a thin archive reuses the previous index, any other name is appended |
| `NameTable.FixShort` | binutils/bfd/archive.c:1653-1667 | rewriting the short form only where it differs gives the same field as always rewriting it |
| `NameTable.MarkHeader` | binutils/bfd/archive.c:1739-1750 | the index, and for a nested member of a thin archive the origin, as written into the name field |
| `NameTable.Append` | binutils/bfd/archive.c:1733-1737 | name, optional slash and newline appended in place |
| `NameTable.TraditionalStoresNone` | binutils/bfd/archive.c:1637-1641 | traditional archives store no name in the table |
| `NameTable.RewriteNames` | binutils/bfd/archive.c:1329-1341 | the in-place rewrite, left to right, equals a pointwise description of every byte |
| `NameTable.IndexSelectsName` | binutils/bfd/archive.c:452-484 | the index stored for a member selects exactly its name out of the rewritten table if and only if the name has no backslash and no newline and, where no trailing slash is stored, does not end in a slash |
| `NameTable.TableHeaderReads` | binutils/bfd/archive.c:452-484 | the header written for a member that uses the table is read back with the member's name and nested origin |
| `NameTable.HeldAtOffset` | binutils/bfd/archive.c:1726-1738 | the index of a member, also of one that reuses a path, leads to a copy of its name at the start of an entry |
| `Armap.WideChecksExact` | binutils/bfd/archive64.c:94-112 | the wraparound checks pass if and only if, over the integers, 8n+8 <= parsed_size and the allocation size fits 64 bits |
| `Armap.WalkPos` | binutils/bfd/archive64.c:127-138 | for any string bytes the name pointer stays inside the string area or at its end |
| `Armap.BuildSymbols` | binutils/bfd/archive.c:1151-1163 | the loop yields for each symbol the C string at the walk's position and its offset |
| `Armap.WalkFindsNames` | binutils/bfd/archive.c:1151-1163 | over strings a writer produced the walk stands at each name in turn, empty names included |
| `Armap.CoffRoundTrip` | binutils/bfd/archive.c:1079-1170 | slurping a COFF map gives back exactly the (name, offset) pairs |
| `Armap.WideRoundTrip` | binutils/bfd/archive64.c:74-148 | slurping a 64-bit map gives back exactly the pairs, the checks passing |
| `Armap.BsdRoundTrip` | binutils/bfd/archive.c:993-1073 | slurping a BSD map gives back exactly the pairs, in either byte order |
| `Armap.BuildBsdSymbols` | binutils/bfd/archive.c:1045-1057 | all symdefs, or failure iff some name index is outside the strings |
| `Armap.Body` | binutils/bfd/archive.c:2710-2846 | the size of a COFF or 64-bit map, padding included |
| `Armap.BsdBody` | binutils/bfd/archive.c:2473-2630 | the size of a BSD map, padding included |
| `ArmapWriter.OffsetsExactIff` | binutils/bfd/archive.c:2494-2525 | every position a map writer predicts is where the header is put if and only if each member before is accounted for: no inline name for COFF and 64-bit maps; for BSD, not thin (up to empty members) and extra_size equal to the inline name up to padding |
| `ArmapWriter.PositionExactIff` | binutils/bfd/archive64.c:215-242 | a COFF or 64-bit writer never predicts a position past the real one, and predicts that of member k rightly if and only if no member before k has a name behind its header |
| `ArmapWriter.DivertedEntryExactIff` | binutils/bfd/archive64.c:215-242 | entry i of a map that was diverted to 64 bits names the place of its member's header if and only if no member before it has a name behind its header |
| `ArmapWriter.DivertedLongNameMisplaced` | binutils/bfd/archive64.c:237-242 | a 4 GB member with a 4.4BSD long name makes the BSD writer divert, and the symbol of the member behind it is misplaced |
| `ArmapWriter.ThinBsdMisplaced` | binutils/bfd/archive.c:2570-2590 | the BSD writer misplaces members of a thin archive |
| `ArmapWriter.LaidEven` | binutils/bfd/archive.c:2243-2276 | every header starts at an even position |
| `ArmapWriter.CollectMap` | binutils/bfd/archive.c:2341-2432 | entry n of the map has the name and the member of the symbol at the n-th place: the places, in member and symbol order and each once, are exactly those of the symbols of objects with symbols that are exported or common and not undefined, and their number is the number of entries; name indices run, and a name is listed for a member iff the member defines it |
| `ArmapWriter.MapIsExact` | binutils/bfd/archive.c:2391-2432 | the same of the map as a function of the members, by the fields of the symbols |
| `ArmapWriter.ScanCoff` | binutils/bfd/archive.c:2737-2767 | the first pass of the COFF writer says whether all offsets fit 32 bits |
| `ArmapWriter.EmitOffsets` | binutils/bfd/archive.c:2793-2827 | the second pass writes the offset of every symbol, failing iff one does not fit; the 64-bit writer never fails |
| `ArmapWriter.ScanBsd` | binutils/bfd/archive.c:2494-2525 | the first pass of the BSD writer says whether all offsets fit 32 bits |
| `ArmapWriter.EmitPairs` | binutils/bfd/archive.c:2570-2607 | the second pass of the BSD writer writes name index and offset of every symbol |
| `ArmapWriter.EmitStrings` | binutils/bfd/archive.c:2829-2846 | the names, each with its NUL, then the padding |
| `ArmapWriter.WriteCoff` | binutils/bfd/archive.c:2710-2848 | a COFF map when every offset fits 32 bits, else a 64-bit map; the second pass's "file truncated" failure cannot happen |
| `ArmapWriter.WriteBsd` | binutils/bfd/archive.c:2473-2630 | a BSD map when every offset fits 32 bits, else a 64-bit map; never the second pass's failure |
| `ArmapWriter.WriteWide` | binutils/bfd/archive64.c:160-263 | the 64-bit map for the predicted offsets |
| `ElementCache.CachedUntilClosed` | binutils/bfd/archive.c:674-685 | a position opened returns the same element, whatever else is opened, probed or closed, until that element is closed |
| `ElementCache.ProbesNeverDisturb` | binutils/bfd/archive.c:895-970 | in every run, on a file whose format is known or not yet, attempts at recognition and the probes inside them leave the table exactly as the run without them does, and the first one that succeeds leaves it empty |
| `ElementCache.RecognisedEmpty` | binutils/bfd/format.c:336-337 | however often recognition failed before, an archive starts with an empty table |
| `ElementCache.StaysCached` | binutils/bfd/archive.c:322-343 | an entry no operation closes is there at the end of the run |
| `ElementCache.FlagAloneUndisturbedIffMiss` | binutils/bfd/archive.c:674-685 | a remark on no_element_cache alone, which suppresses only the insertion: opening with it and closing again would leave a table alone iff the position was not in it |
| `ElementCache.Archive.LookFor` | binutils/bfd/archive.c:322-343 | a cached position gives its element, any other none |
| `ElementCache.Archive.AddToCache` | binutils/bfd/archive.c:373-398 | the element is filed under its key in this table and remembers both |
| `ElementCache.Archive.GetEltAtFilepos` | binutils/bfd/archive.c:674-804 | a hit returns the cached element; a miss makes one and files it unless no_element_cache is set |
| `ElementCache.Archive.CloseElement` | binutils/bfd/archive.c:2870-2891 | closing removes exactly the element's own entry |
| `ElementCache.Archive.ArchiveP` | binutils/bfd/archive.c:895-970 | recognition installs a fresh artdata, or puts the old one back; its probe misses, files nothing, and leaves every table and the open elements as they were |
| `ElementCache.Archive.Recognise` | binutils/bfd/format.c:336-337 | a format once known is not tried again, and the state becomes the one the map operations say |
| `ElementCache.Archive.Probe` | binutils/bfd/archive.c:955-967 | the probe on an artdata without a cache leaves the tables and the open elements as they were |
| `ElementCache.Archive.CloseArchive` | binutils/bfd/archive.c:2894-2928 | closing the archive closes every cached element |
| `IoProtocol.EveryRunIsOrderly` | binutils/bfd/bfd-in2.h:2093-2104 | in every run on one stream no read call directly follows a write call and no write call a read call |
| `IoProtocol.RunKeepsInv` | binutils/bfd/bfdio.c:450-504 | last_io tells the direction of the last call through every run, although seeks to the current position are skipped |
| `IoProtocol.TurnInsertedExactlyOnReversal` | binutils/bfd/bfdio.c:283-291 | a repositioning call is inserted exactly when the direction changes |
| `BfdIo.Stream.MemoryRead` | binutils/bfd/bfdio.c:679-696 | the bytes from where on, cut at the size |
| `BfdIo.Stream.MemoryWrite` | binutils/bfd/bfdio.c:699-725 | overwrites and extends the contents; capacity stays the size rounded up to 128 with zeros behind |
| `BfdIo.Stream.MemorySeek` | binutils/bfd/bfdio.c:734-785 | extends a writable bfd with zeros, refuses on others, and keeps where within the size |
| `BfdIo.BfdSeek` | binutils/bfd/bfdio.c:450-504 | the new position, the refusal condition and the zero extension, through any nesting |
| `BfdIo.BfdTell` | binutils/bfd/bfdio.c:359-378 | the position less the sum of the origins |
| `BfdIo.BfdRead` | binutils/bfd/bfdio.c:246-296 | the bytes of the window, cut at the element's size; refuses exactly when the element has a size and the position is before its first or not before its last octet |
| `BfdIo.BfdWrite` | binutils/bfd/bfdio.c:312-345 | overwrites at the position and advances by the length |
| `BfdIo.Replay` | binutils/bfd/bfdio.c:246-345 | in every run of seeks, reads and writes the in-memory bfd answers as a plain byte sequence with zero-filled gaps does |
| `BfdIo.Serve` | binutils/bfd/bfdio.c:246-345 | the same for one request |
| `BfdIo.AnswerStaysInside` | binutils/bfd/bfdio.c:734-785 | the plain sequence never has its position past its end |
| `BfdIo.ViewIsSlice` | binutils/bfd/archive.c:772-783 | for elements nested to any depth the element's bytes are the outermost file's bytes at the sum of the origins |
| `BfdIo.ReadElementAt` | binutils/bfd/bfdio.c:246-296 | after a seek to p inside the element tell gives p and a read gives exactly min(n, size - p) bytes of it |
| `SectionList.Bfd.Remove` | binutils/bfd/bfd-in2.h:2440-2453 | the list loses exactly this section |
| `SectionList.Bfd.Append` | binutils/bfd/bfd-in2.h:2455-2470 | the list gains it at the end |
| `SectionList.Bfd.Prepend` | binutils/bfd/bfd-in2.h:2472-2487 | the list gains it in front |
| `SectionList.Bfd.InsertAfter` | binutils/bfd/bfd-in2.h:2489-2500 | the list gains it behind a given section |
| `SectionList.Bfd.InsertBefore` | binutils/bfd/bfd-in2.h:2502-2513 | the list gains it before a given section |
| `SectionList.Bfd.Removed` | binutils/bfd/bfd-in2.h:2515-2518 | for a section that was ever inserted, true exactly when it is not in the list |
| `GotAllocator.Got.Fill` | binutils/bfd/arc-got.h:218-263 | a type already present changes nothing; a new one gets exactly its slots, its reservation and one entry at the old end; a failure leaves the GOT unchanged |
| `GotAllocator.Got.SlotRangesDisjoint` | binutils/bfd/arc-got.h:218-263 | no byte of the GOT belongs to two entries |
| `GotAllocator.Got.EveryByteOwned` | binutils/bfd/arc-got.h:199-216 | every byte the GOT grew by belongs to an entry |
| `GotAllocator.Got.OneEntryPerType` | binutils/bfd/arc-got.h:80-93 | a symbol has at most one entry of each type |
| `GotAllocator.Got.EmittedWithinReserved` | binutils/bfd/arc-got.h:456-541 | relocations emitted are, owner by owner, within those reserved, and fit .rela.got |
| `GotAllocator.Got.FixValue` | binutils/bfd/arc-got.h:309-452 | the first visit stores once, into the entry's own slots and nowhere else: without dynamic sections the symbol's address, its offset from the thread pointer (the thread-local block starts at the control block's size, aligned up) or its module offset; with them, and the symbol settled here, the address or the offset in the thread-local section, left out where the dynamic linker will add it; nothing for symbols not settled here and weak undefined ones |
| `GotAllocator.Got.CreateForEntry` | binutils/bfd/arc-got.h:456-541 | the dynamic relocations the entry calls for, once, inside the space reserved; applied to the words in the slots they give the program, for a symbol settled here, its address, its module and offset or its offset from the thread pointer, if and only if an address is covered by a relocation or the module is not moved, and an offset is added exactly once; for a symbol left to the dynamic linker, what that bound it to |
| `GotAllocator.Got.CreateForSymbol` | binutils/bfd/arc-got.h:543-558 | appends, in order, exactly the relocations the entries not yet handled call for, with the same outcome for each of them; running it again adds nothing |
| `GotAllocator.Got.RelocateLocal` | binutils/bfd/elf32-arc.c:1758-1784 | the GOT entry of a local symbol, value and relocations together: in every program its thread-local slots come out right, and its address does if and only if the module is not moved; without dynamic sections no relocation and the final word |
| `GotAllocator.Got.SettledComesRight` | binutils/bfd/arc-got.h:336-452 | words stored and relocations emitted for a symbol settled here are right in the running program if and only if a condition on the symbol, the link and the load address holds |
| `GotAllocator.Got.BoundComesRight` | binutils/bfd/arc-got.h:456-541 | a symbol left to the dynamic linker is found where that bound it, by address, module and offset, or thread offset, except where a symbolic link made its relocation relative |
| `GotAllocator.Got.FinalIsRight` | binutils/bfd/arc-got.h:366-393 | in a program without dynamic sections, not moved and with its thread-local block behind the aligned control block, the words alone are right |
| `GotAllocator.Got.WrongSlots` | binutils/bfd/arc-got.h:468-486 | two entries that come out wrong: a local address in a moved module, and the thread offset of a symbol settled here that is in the dynamic symbol table |
| `GotAllocator.AlignPower` | binutils/bfd/bfd-in2.h:149-150 | the first multiple of the power of two from the value on |
| `GotAllocator.Got.AllocateContents` | binutils/bfd/elf32-arc.c:2795-2803 | the section gets zeroed contents of its final size |
| `GotAllocator.EntryForType` | binutils/bfd/arc-got.h:80-93 | the first entry of the type, or none |
| `GotAllocator.NewEntryToList` | binutils/bfd/arc-got.h:95-127 | the entry appended, not processed and without relocations |
| `GotAllocator.Got.AddRela` | binutils/bfd/elf32-arc.c:52-72 | one more record, for which the reserved space has room |
| `GotAllocator.Got.RecordDynamic` | binutils/bfd/elflink.c:501-583 | the symbol afterwards, plugin, hidden, exported and string failure included, and when the call fails |
| `DoPrnt.Scan` | binutils/bfd/bfd.c:1250-1447 | the scanner's verdict is the one the walk of the format determines: accepted types, abort, overrun of the format, or an index outside the nine arguments |
| `DoPrnt.CutOffInstances` | binutils/bfd/bfd.c:1304-1350 | "%5" and "%l" abort, "%-" is overrun |
| `DoPrnt.DirectiveAsInC` | binutils/bfd/bfd.c:1268-1416 | a directive of flags, width, length modifier and conversion uses the next argument as the type C gives it, and ends behind the conversion |
| `DoPrnt.TenUsesLeaveTheArray` | binutils/bfd/bfd.c:1412-1446 | the format that names arguments 1 to 9 and then 1 again takes the scanner out of its array |
| `DoPrnt.VerdictIff` | binutils/bfd/bfd.c:1412-1446 | a walked format is accepted iff it has at most nine uses and they name every argument below their number; the array is left iff there are more than nine uses naming all nine arguments |
| `DoPrnt.AcceptedIsPermutation` | binutils/bfd/bfd.c:1250-1447 | whenever the scanner accepts, the argument indices are a permutation of 0..n-1 and each use has the recorded type |
| `DoPrnt.Pigeonhole` | binutils/bfd/bfd.c:1419-1446 | n numbers that take every value below n take each exactly once |
| `DoPrnt.RepeatedArgumentRefused` | binutils/bfd/bfd.c:1412-1446 | a format that uses an argument twice is not accepted |
| `DoPrnt.Print` | binutils/bfd/bfd.c:1006-1245 | on an accepted format the printer reads every argument at the scanner's index, as the type it was fetched with, in the order of the uses |
| `DoPrnt.ScanDirective` | binutils/bfd/bfd.c:1268-1416 | one directive of the scanner records exactly the uses of the walk |
| `DoPrnt.PrintDirective` | binutils/bfd/bfd.c:1014-1240 | one directive of the printer reads exactly the uses of the walk |
| `DoPrnt.CheckTypes` | binutils/bfd/bfd.c:1419-1446 | the loop that fetches the arguments |
| `AoutReloc.TwoSteps` | binutils/bfd/aoutx.h:4180-4255 | relocatable link then final link gives the direct value plus an explicit discrepancy, for every target and kind |
| `AoutReloc.ExactIff` | binutils/bfd/aoutx.h:4086-4255 | for every target and kind, the exact condition under which two links give the direct value |
| `AoutReloc.PcRelativeSymbolExactIff` | binutils/bfd/aoutx.h:4090-4126 | a pc-relative relocation against a symbol the first link defines is right iff the section it is in started at address zero |
| `AoutReloc.StdTwoStepsAgree` | binutils/bfd/aoutx.h:3980-4320 | whole section, standard relocations: linked relocatably, laid among neighbours with their own relocations, and linked again, its contents are those of one direct link |
| `AoutReloc.ExtTwoStepsAgree` | binutils/bfd/aoutx.h:4328-4736 | the same for extended relocations, stored or added in place |
| `AoutReloc.ExtValuesAgree` | binutils/bfd/aoutx.h:4521-4555 | an extended relocation stores the same value after two steps as after one |
| `AoutReloc.StdCellsAgree` | binutils/bfd/aoutx.h:4245-4255 | two rounds of in-place additions come to one round of the direct amounts |
| `AoutReloc.CuttingCommutes` | binutils/bfd/reloc.c:1151-1193 | from any start, cutting every intermediate field to its width gives the same as cutting the last one only |
| `AoutReloc.CutMiddle` | binutils/bfd/reloc.c:1151-1193 | agreement of two links and one on exact numbers carries over to fields of fixed width, the second link starting from the fields the first one cut |
| `AoutReloc.StdFieldsAgree` | binutils/bfd/aoutx.h:3980-4320 | the two-step theorem for standard relocations on fixed-width fields, the second link starting from the fields the first one left |
| `AoutReloc.ExtFieldsAgree` | binutils/bfd/aoutx.h:4328-4736 | the same for extended relocations |
| `AoutReloc.StdSectionsAgree` | binutils/bfd/aoutx.h:3980-4320 | whole section of fixed-width fields, standard section-relative relocations without pcrel_offset: two links and one leave the same contents |
| `AoutOctets.StdOctetsAgree` | binutils/bfd/aoutx.h:3980-4320 | the two-step theorem for standard relocations on the octets of the sections, either byte order, fields of one, two or four octets that do not overlap |
| `AoutOctets.ExtOctetsAgree` | binutils/bfd/aoutx.h:4328-4736 | the same for extended relocations |
| `AoutOctets.ViewFollows` | binutils/bfd/reloc.c:1197-1315 | changing fields in octets does to the numbers they hold what cut addition and storing do |
| `AoutOctets.Determined` | binutils/bfd/reloc.c:1197-1315 | the numbers in the fields and the octets outside them determine a section |
| `AoutOctets.RelocateContents` | binutils/bfd/reloc.c:1197-1315 | one field read, changed, cut to its width and put back, all other octets as they were |
| `AoutReloc.ExtSectionsAgree` | binutils/bfd/aoutx.h:4328-4736 | the same for extended relocations |
| `AoutReloc.LinkInputSectionStd` | binutils/bfd/aoutx.h:3980-4320 | the loop changes relocation records and fixed-width fields exactly as specified, in order, up to the first relocation with no howto, where it fails; and every field that one relocation alone changes and that has a howto keeps what it refers to, against a section, a symbol defined here, one defined elsewhere and an undefined one: after a final link it holds where the linker puts that, plus the offset into it, less where the field itself went if pc-relative; after a relocatable link field and new record together still stand for that place, under the condition PartialKeepsIff proves exact |
| `AoutReloc.LinkInputSectionExt` | binutils/bfd/aoutx.h:4328-4736 | the same for extended relocations, the addend being in the record |
| `AoutReloc.RelocatableAmount` | binutils/bfd/aoutx.h:4086-4215 | what the relocatable branch adds, and the new target |
| `AoutReloc.FinalAmount` | binutils/bfd/aoutx.h:4216-4255 | the value of the final branch; FinalKeeps says what it means |
| `AoutReloc.FinalKeeps` | binutils/bfd/aoutx.h:4216-4255 | what a final link makes of a field: against a symbol its output address plus the addend, for the three states of a symbol, and against a section the output place of the same offset into it, less where the field goes when pc-relative |
| `AoutReloc.PartialKeepsIff` | binutils/bfd/aoutx.h:4086-4215 | a relocatable link leaves field and record standing for the place the original ones stood for if and only if the exactness condition holds |
| `AoutSymbols.FinalLink.EmittedOnce` | binutils/bfd/aoutx.h:3624-3741 | no hash entry is emitted twice over a whole link |
| `AoutSymbols.FinalLink.IndexedIffEmitted` | binutils/bfd/aoutx.h:3624-3741 | indx is non-negative exactly when the entry was emitted, and names its slot in the file |
| `AoutSymbols.FinalLink.SlotPosition` | binutils/bfd/aoutx.h:3730-3738 | slot k is at the initial symoff plus k entries, and the file holds nothing else |
| `AoutSymbols.FinalLink.WriteOtherSymbol` | binutils/bfd/aoutx.h:3624-3741 | writes the entry at the end of the table unless it is written, stripped or of a kind never written |
| `AoutSymbols.FinalLink.Force` | binutils/bfd/aoutx.h:3771-3802 | a stripped symbol a relocation needs gets the next slot and never the mark -2; one that cannot be written is marked |
| `AoutSymbols.FinalLink.WritableNeverMarked` | binutils/bfd/aoutx.h:3624-3741 | in every state of a link an entry that can be written is not marked -2 |
| `AoutSymbols.FinalLink.WriteSymbols` | binutils/bfd/aoutx.h:4823-5303 | the slots appended, every symbol_map entry, the hashes, marks, written set and table of headers are exactly those the strip, discard, skip, pass, hash and duplicate-header rules determine symbol by symbol; with everything stripped the table does not change, and otherwise the symbol for the file comes first unless discarded or not kept |
| `AoutSymbols.FinalLink.LocalCopiedIff` | binutils/bfd/aoutx.h:4964-5149 | over a whole input: a symbol without a hash entry that is looked up has a slot holding its own copy if and only if it is no stab under strip-debugger, kept under strip-some, strip is not all, it is a stab or no local label under discard-l, and a set element under discard-all |
| `AoutSymbols.FinalLink.HashedCopiedIff` | binutils/bfd/aoutx.h:4954-5126 | over a whole input: a looked-up symbol whose hash entry is not done with has a slot of its own if and only if the strip option spares it, by the same fields |
| `AoutSymbols.FinalLink.TurnCopies` | binutils/bfd/aoutx.h:4964-5149 | what one turn of the loop appends, by the fields of the symbol |
| `AoutSymbols.FinalLink.StripAllCopiesNothing` | binutils/bfd/aoutx.h:4980-4989 | with everything stripped no turn of the loop adds to the table |
| `AoutSymbols.FinalLink.IndirectTarget` | binutils/bfd/aoutx.h:5004-5036 | an indirect symbol that is copied brings the symbol behind it with it, unless its chain ends in a definition: then that symbol has no slot |
| `AoutSymbols.FinalLink.HeadersAsStabs` | binutils/bfd/aoutx.h:5153-5257 | among all symbols of an input, with and without hash entries, the loop treats headers, marks and the pass flag as the duplicate-header search on its own does |
| `AoutSymbols.FinalLink.DroppedIff` | binutils/bfd/aoutx.h:5229-5255 | a symbol without a hash entry is not copied exactly when a duplicate header drops it |
| `AoutSymbols.FinalLink.HeadersDeduped` | binutils/bfd/aoutx.h:5153-5257 | the table of headers after an input is that of its deduplication |
| `AoutSymbols.FinalLink.TurnsGrow` | binutils/bfd/aoutx.h:4823-5303 | by those rules each symbol makes at most one slot and the table only grows |
| `AoutSymbols.FinalLink.EntryMarkedIff` | binutils/bfd/aoutx.h:4953-4963 | symbol_map ends up with -2 for a symbol iff it is looked up, its hash entry came in marked -2, and the entry was done with already or stripped at its first look-up |
| `AoutSymbols.FinalLink.NoMarkNoMinusTwo` | binutils/bfd/aoutx.h:4953-4963 | with no marked entry among those the input names, no symbol_map entry is -2 |
| `AoutSymbols.MarkReached` | binutils/bfd/aoutx.h:4953-4963 | a run that leaves -2 in symbol_map |
| `AoutSymbols.FinalLink.RelocIndex` | binutils/bfd/aoutx.h:4127-4164 | the index a relocation gets is the slot of its own symbol, copied or forced out; without a hash entry it is the symbol_map entry, or 0 exactly when that is -1 |
| `AoutSymbols.FinalLink.WriteRemaining` | binutils/bfd/aoutx.h:5595-5598 | after the traversal every entry that can be written is done with |
| `AoutSymbols.FinalLink.Flush` | binutils/bfd/aoutx.h:5287-5300 | buffered symbols go to the file at consecutive slots |
| `AoutStabs.FullCopiesPerLink` | binutils/bfd/aoutx.h:5001-5257 | over all inputs each (name, checksum) keeps exactly one full region besides the copies passed through behind an N_MAIN, and every other copy is one N_EXCL |
| `AoutStabs.OneFullCopyPerLink` | binutils/bfd/aoutx.h:5153-5257 | if no header comes right behind an N_MAIN, each (name, checksum) keeps exactly one full region over all inputs and every other copy is one N_EXCL |
| `AoutStabs.OnceIff` | binutils/bfd/aoutx.h:5001-5257 | a header survives in full exactly once iff none of its copies is passed through or it has no other |
| `AoutStabs.MainHidesHeader` | binutils/bfd/aoutx.h:5001-5019 | two inputs that leave two full copies of one header, the first behind an N_MAIN |
| `AoutStabs.FullCopies` | binutils/bfd/aoutx.h:5001-5257 | the same count for one input and any table of headers seen before |
| `AoutStabs.OneFullCopy` | binutils/bfd/aoutx.h:5153-5257 | and without a header right behind an N_MAIN |
| `AoutStabs.LinkIsDedup` | binutils/bfd/aoutx.h:5001-5257 | what a whole link writes is the recursive deduplication of its inputs: direct contents of a repeated header dropped, nested regions kept or deduplicated on their own, a header right behind a kept N_MAIN copied and not remembered |
| `AoutStabs.OutputIsDedup` | binutils/bfd/aoutx.h:5153-5257 | the same for one input |
| `AoutStabs.OutputWellBracketed` | binutils/bfd/aoutx.h:5153-5257 | the output is again well bracketed |
| `AoutStabs.Checksum` | binutils/bfd/aoutx.h:5185-5197 | the checksum loop adds every character of the name once, of a file number behind an open parenthesis none |
| `AoutStabs.AnyNumberWillDo` | binutils/bfd/aoutx.h:5185-5197 | for all digit runs d and e, and b that does not begin with a digit, the checksums of a "(" d b and a "(" e b are equal |
| `AoutStabs.BlindToFileNumbers` | binutils/bfd/aoutx.h:5185-5197 | two names that differ in any number of file numbers, and in nothing else, have the same checksum |
| `AoutStabs.CheckWeighs` | binutils/bfd/aoutx.h:5185-5197 | the checksum of a name made of characters and file numbers is the sum of the characters and of the parentheses before the file numbers |
| `AoutStabs.CheckIsWeight` | binutils/bfd/aoutx.h:5185-5197 | and every name is made so |
| `AoutStabs.RenumberedKeptOnce` | binutils/bfd/aoutx.h:5153-5257 | two headers of one name whose contents differ only in file numbers leave one full region and one N_EXCL |
| `AoutStabs.HeaderSum` | binutils/bfd/aoutx.h:5166-5199 | the scan ahead adds up the direct contents of the header |
| `AoutStabs.MarkHeader` | binutils/bfd/aoutx.h:5229-5255 | exactly the direct contents and the end of a repeated header are marked |
| `AoutStabs.WriteSymbols` | binutils/bfd/aoutx.h:5153-5257 | the loop writes what the one-pass description writes, and symbol_map holds for each symbol the slot of its copy, or -1 exactly when it is dropped |
| `AoutStabs.PlaceHolds` | binutils/bfd/aoutx.h:5153-5257 | the slot named holds a copy of the symbol |
| `AoutCursors.Link` | binutils/bfd/aoutx.h:5408-5620 | in a relocatable link neither "relocs have not run into" assertion can fail, each cursor ends within its space, and exactly at its end iff no input's relocations were left out; in any other link an assertion fails iff the linker makes up a relocation; refusal and abort are exact |
| `AoutCursors.UsedBelowCounted` | binutils/bfd/aoutx.h:3943-3955 | whatever inputs and orders were written so far, no more space is used than was counted |
| `AoutCursors.AllUsedIff` | binutils/bfd/aoutx.h:5408-5490 | nothing counted is left over iff every input with relocations was written and every link order was made |
| `AoutCursors.PickedBelow` | binutils/bfd/aoutx.h:5408-5440 | the sizes of some inputs are at most those of all, with equality iff the rest are empty |
| `AoutCursors.CountSpace` | binutils/bfd/aoutx.h:5408-5478 | the space counted up front; a relocatable link refuses other flavours |
| `AoutCursors.CountRelocs` | binutils/bfd/linker.c:2695-2709 | the number of relocation link orders |
| `AoutCursors.MarkSections` | binutils/bfd/aoutx.h:5549-5558 | a section of an input is marked iff some order includes it |
| `AoutCursors.FinalLink.FirstPass` | binutils/bfd/aoutx.h:5546-5593 | each a.out input some order names is processed exactly once |
| `AoutCursors.FinalLink.InputSection` | binutils/bfd/aoutx.h:4792-4815 | the cursor advances by the section's relocations and stays in place |
| `AoutCursors.FinalLink.InputBfd` | binutils/bfd/aoutx.h:5308-5355 | the relocations of the marked sections, unless the back end takes the input over |
| `AoutCursors.FinalLink.RelocOrder` | binutils/bfd/aoutx.h:3937-3955 | the cursor advances by one entry |
| `AoutCursors.FinalLink.SecondPass` | binutils/bfd/aoutx.h:5604-5621 | every relocation order of .text and .data is made once; any other aborts |
| `ArchiveFile.MapNamesSpelled` | binutils/bfd/archive.c:1199-1253 | the names that announce a COFF and a 64-bit map, as text |
| `ArchiveFile.BsdNamesSpelled` | binutils/bfd/archive.c:1199-1253 | the names that announce a BSD or Mach-O map, as text |

## Left out

- Real files, `stat`, owners, modes, dates and the rewriting of the map's timestamp: the 32 octets between name and size of a header are arbitrary parameters.
- Failure of allocation and of writes; `bfd_write` and `bfd_malloc` succeed.
- 32-bit counters for the size of a map or a name table: `ArmapWriter.Writable`, `ArchiveFile.Ready` and `ArchiveFile.MapFits` ask for sizes below 2^32, where the original would wrap silently; `NameTable.ConstructNameTable` asks for a table below 10^10 octets, beyond which its header cannot be written.
- Normalisation and adjustment of paths: the stored name is given with each member and depends on its path only.
- The files a thin archive refers to: their names and nested origins are read back, the files are not opened.
- ArchiveFile.WriteArchive: `padded_len == extra_size`, which the 4.4BSD header writer asserts, is not modelled as a failure; the assertion only prints a message.
- ArmapWriter.DivertedLongNameMisplaced: a single instance; the general statement is OffsetsExactIff.
- ArmapWriter.ThinBsdMisplaced: a single instance; the general statement is OffsetsExactIff.
- ArHeader.ReadHeader: `atoi` of a 4.4BSD name length is unbounded, so lengths of 2^31 and more, which overflow an `int`, are not modelled as such.
- Armap.BsdRoundTrip: strings of a malformed BSD map that lack a NUL are taken to end with the member; the original reads on.
- Plugin and LTO warnings, messages and their translation.
- BfdIo.Serve: requests on the outermost bfd; elements are covered by `BfdRead`, `BfdSeek`, `BfdTell` and `ReadElementAt`.
- SectionList: sections that move from one bfd's list to another.
- GotAllocator.Got.FixValue: the symbol's address is a parameter; the store elf_arc_relocate_section makes itself for a non-PIC global, entries of type TLS_LE and the module number of a link without dynamic sections, which nothing fills in, are not modelled.
- GotAllocator.Got.CreateForEntry: the dynamic linker is not part of the repository; it is taken to add to the word of a slot for R_ARC_RELATIVE and R_ARC_TLS_DTPOFF, whose addend is always 0 here, and to store S and S + A for R_ARC_GLOB_DAT and R_ARC_TLS_TPOFF.
- DoPrnt.Print: the text produced by the C library for one directive, the 128-byte copy of the directive and the `%pA`/`%pB` printers are not modelled, only which argument is read, when and as what.
- AoutReloc.LinkInputSectionStd: the loop is on the numbers the fields hold; `AoutOctets` carries its effect over to octets. Fields that overlap, the report of an overflow, which changes no contents, the base-relative BASE10, BASE13 and BASE22 types and the dynamic-link hooks are not modelled.
- AoutReloc.StdTwoStepsAgree: on exact numbers; `StdFieldsAgree` and `AoutOctets.StdOctetsAgree` are the statements on fields and octets.
- AoutReloc.ExtTwoStepsAgree: as for standard relocations.
- AoutReloc.StdCellsAgree: on exact numbers, a step of the former.
- AoutReloc.LinkInputSectionExt: as for standard relocations; values that are shifted, or fill only some bits of their word (`rightshift`, `dst_mask`), are not modelled either.
- AoutSymbols.FinalLink.WriteSymbols: values and types of the symbols, and names outside the header search, are not modelled, only which symbol is written where; the chain of indirections of a hash entry is followed by a given map.
- AoutStabs.Checksum: the sum is an integer; wrap-around of a 64-bit `bfd_vma` is not modelled.
- AoutStabs.OutputIsDedup: inputs are well bracketed, as compilers write them, and nothing is stripped or discarded.
- AoutCursors.Link: symbols and contents are not modelled; file positions follow one another as the default callback lays them out, and owners of indirect orders are among the inputs.
- `adjust_n_magic` and `adjust_z_magic`, core files, COFF, ELF and the remaining back ends: not modelled.
