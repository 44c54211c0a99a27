# maloader: a verified model of the 64-bit Mach-O loader

maloader maps a Mach-O executable into memory, rebases and binds it, and finds its entry point. This
project models the 64-bit path (`loader_64`, `do_bind` and everything they call) and proves what the
loaded image and the tables are.

The end-to-end theorems hold for every file and host that meet these hypotheses, each of which can be
checked before loading:

- `WellLaidOut`: the command sizes step through the file, some segment takes up room, segments lie above
  address zero, do not overlap and are no larger in the file than in memory.
- `Maps`: mmap returns an address, with the whole image below 2^64.
- `FixupsAt`: there is one fixup command, after all segments (`NoFixups` if there is none); `DyldInfoAt`:
  there is one bind command, after all segments, and no fixup command.
- `WellFormed`: every chain, read from the segments' bytes before any fixup, stays in the image, and no
  two of its 8-byte words overlap. `GoodFixups` states this of the payload's format: each page's
  chain ends or is cut inside its page and has no stride one, and segments' pages do not meet
  (`FormatMakesWellFormed`). `HoldsIffDisjoint` shows that the second half of `WellFormed` is exactly what
  the two-phase reading needs, and `StrideOneBreaksTwoPhase` is a file without it.
- `GoodProgram`, for a written program: segments end below 2^64, are no larger in the file than in memory,
  do not start at zero and do not overlap (`ProgramIsLaidOut` derives `WellLaidOut` from it).
- `GoodBinds`: the rows of the bind table that are not skipped have names and slots that lie inside the
  image and do not overlap.

The file must be an executable, or nothing is loaded. The theorems about the loaded tables allow fixup
and bind commands anywhere; they need `WellLaidOut`, `Maps` and that loading never left the image.

## How the model is built

- `Memory`: bytes, little-endian words, C strings, word stores, and batches of patches. `Structs`: C
  structures as consecutive fields, each of which is read back at its offset.
- `ChainFormat`: the bit fields of a chained-fixup word. `ChainWalk`: the walk along the chains, which
  overwrites the words it reads, the simple two-phase reading of it, the counters and the slide between two
  bases. `ChainCap`: strides, pages and the 512-step cap. `TwoPhase`: when exactly the two-phase reading
  holds. `ChainedFixups`: the fixup payload, where chains start and what a word becomes. `FixupPayload`: the
  payload as the format writes it, and what the loader reads from it.
- `Uleb`, `BindStream`, `BindEncoder`: LEB128 operands, the bind-opcode interpreter, the meaning of
  opcode lists, and a compressing encoder that the interpreter inverts.
- `Binder`: `do_bind` and the last-definer-wins reading of it.
- `Layout`, `LoadCommands`: image size, segment copies and the command walk. `LoadedImage`: the memory
  after loading. `LoadedTables`: segments, libraries, binds and entry point after loading. `BoundImage`: the
  memory after loading and binding. `FailedMapping`: what happens when nothing is mapped. `StrideOneFile`: a
  concrete file whose chain overlaps itself.
- `MachOFile`, `ProgramImage`, `ProgramMemory`: a whole program as a linker writes it, header, commands,
  symbols and names, and its image, tables, entry point and memory after loading and binding, stated in
  terms of what was written rather than of the offsets at which the loader reads. `WrittenProgram`: such a
  program written out in full, and loaded.
- `MachContext`: the class `Context`, with the fields of `mach_context`, whose methods update the image
  array, the tables and the counters in place; the bind table and the library list are heap blocks that
  grow by one entry at a time. The contract of every method equates the new state with a function of
  the old one; the theorems are about those functions.

Conventions. Integers carry their C width and wrap where the source wraps. `host` stands for what the
program asks the operating system: the address mmap returns (0 for failure; zero bytes never map), a
partial map from import names to addresses, and for each library that opens the symbols it defines.
An access outside the mapped image is undefined in C. The model sets `trapped` there and stops; the
end-to-end theorems prove it false for well-formed files. A read past the end of the file gives zero.

Where the code and its headers or comments differ, the model follows the code:

- The bind addend is signed, although the header says 0 to 255 (`AddendAgreesBelow128` gives the exact condition).
- The top byte of a rebase is dropped (`RebaseAgreesWithoutHigh8`).
- Imports are always read in the four-byte form; `imports_format` is not consulted.
- An unresolved bind keeps its raw word, and the unresolved counter is not reset between fixup commands.
- `__TEXT` is recorded at the image base whatever its address (`MappedAtItsBytes`), and segments after
  the 32nd are copied but not recorded.
- The step cap cuts chains on 0x4000-byte pages (`CapCutsLargePage`), never on 0x1000-byte pages (`CapSufficesOnSmallPages`).
- The DONE opcode does not end a stream.

## Model

| member | source | states |
|---|---|---|
| ChainFormat.AccessorsMatchLayout | main.c:465-488 | the shift-and-mask accessors return the fields of the packed rebase and bind layouts, whatever the other fields hold |
| ChainFormat.EveryWordIsPacked | mach-o/fixup-chains.h:161-169 | every 64-bit word is a packed rebase or bind, so the statements about packed pointers cover every word of a chain |
| ChainFormat.AddendAgreesBelow128 | main.c:470-473 | the int8 decoding equals the documented 0..255 addend if and only if it is below 128, and is 256 less otherwise |
| ChainFormat.RebaseAgreesWithoutHigh8 | main.c:475-478 | the rebase value meets the documented one if and only if high8 is zero |
| ChainWalk.WalkRefinesTwoPhase | main.c:523-617 | main theorem: for in-bounds, non-overlapping chains taken from the initial memory, the destructive walk leaves every chain word with its own fixup (raw if unresolved), every other byte unchanged, and counts exactly those words |
| ChainWalk.FixedUpIsUnique | main.c:506-521 | the two-phase description determines every byte of the final memory |
| ChainWalk.WalkAllReplays | main.c:570-615 | for chains of any shape, the result is the replay, in order, of the words visited with the contents read |
| ChainWalk.TraceIsPlan | main.c:570-615 | on well-formed chains the words the walk visits are those of the initial memory, and it never leaves the image |
| ChainCap.WalkIsCapped | main.c:570-615 | the capped walk over a chain of any length fixes up exactly its first min(512, length) words; later words keep their raw value and no other byte changes |
| ChainCap.CapSufficesOnSmallPages | main.c:570-615 | with strides other than one inside a 0x1000-byte page, the capped walk fixes up the whole chain, whatever words become |
| ChainCap.CapSufficesIff | main.c:570-615 | the capped walk fixes up a whole chain, whatever its words become, if and only if it has at most 512 words |
| ChainCap.CapCutsLargePage | main.c:570 | a chain that ends inside one 0x4000-byte page, with 2048 words that do not overlap: whatever its words become, the walk leaves every word from the 513th on raw |
| ChainCap.StridesAddUp | main.c:614 | a chain without stride one never overlaps itself, and its k-th word is at least 8k bytes on |
| ChainCap.ChainApartIff | main.c:614 | one chain never overlaps itself if and only if no word with a successor has stride one |
| ChainCap.WindowsMakeDisjoint | main.c:543-616 | chains without stride one that stay in disjoint windows never overlap |
| TwoPhase.HoldsIffDisjoint | main.c:562-615 | for chains that stay in the image, the walk is the two-phase result whatever the words become, if and only if no two planned words share a byte |
| TwoPhase.HoldsIffNoStrideOne | main.c:614 | for one such chain, if and only if no word with a successor has stride one |
| StrideOneFile.StrideOneBreaksTwoPhase | main.c:614 | a concrete file, well laid out, with one fixup command and one chain inside its page: its loaded memory is not the two-phase result |
| ChainWalk.CountersAreExact | main.c:375-376 | from zeroed counters, rebases and binds add up to the visited words and no 32-bit counter wraps, for 32 segments of 65535 pages; the unresolved count is carried over |
| ChainWalk.FixupsSlide | main.c:557-614 | two images fixed up with rules that slide differ at rebased words only, there by the slide |
| ChainWalk.TallySlides | main.c:587-608 | the slide changes no count |
| ChainedFixups.FixMeetsFormat | main.c:570-608 | a packed rebase becomes its documented value if and only if high8 is zero; a packed bind becomes its import's address plus the signed addend, or is unresolved (which import that is: `ImportIsRead`) |
| ChainedFixups.FixupAccounting | main.c:368-463 | one fixup command, whatever its words become: rebases + binds = visited words, unresolved ones are binds, no counter wraps, and the unresolved counter is not reset |
| ChainedFixups.UnresolvedMeans | main.c:490-504 | a bind is unresolved exactly if its ordinal is not below imports_count or its name does not resolve |
| FixupPayload.ImportIsRead | main.c:490-504 | in a written payload an ordinal gives the name of the import at that index, through its 23-bit name offset, and none past imports_count |
| FixupPayload.PointerIsFixed | main.c:570-608 | in a written payload a packed rebase becomes base + target, and a packed bind the address of the name at its ordinal plus the signed addend, or stays unresolved |
| FixupPayload.StartsAreListed | main.c:404-459 | which chains are walked: the chain of every page that has one, of every segment with chain info, the supported format and a mapped segment, each once, in order, at segment_offset + page * page_size + page_start; no others; none if the header does not fit |
| ChainedFixups.ImageStartsBound | main.c:415-459 | at most 65535 chain starts per recorded segment are walked |
| ChainedFixups.RulesSlide | main.c:506-521 | only rebased words depend on the base, and they move with it modulo 2^64 |
| ChainedFixups.PagesMakeDisjoint | main.c:543-616 | in a whole segment, chains without stride one that each stay in their own page never overlap and stay in the segment's pages |
| ChainedFixups.PayloadMakesWellFormed | main.c:415-459 | over all segments: if every page keeps to the format and the pages of different segments do not meet, the chains are well formed |
| Uleb.ReadUleb128 | bind.c:349-368 | the loop returns the sum of the seven-bit groups modulo 2^64 and the position after the last one |
| Uleb.UlebRoundTrip | bind.c:349-368 | every 64-bit number, shortest or padded to at most ten bytes, followed by anything, is read back and the cursor stops right after it |
| Uleb.UlebTruncated | bind.c:355-366 | on truncated input the cursor stops at the end |
| Uleb.SlebSkipInSync | bind.c:449-455 | the unsigned reader consumes exactly the bytes of every signed 64-bit operand |
| BindStream.RunSplits | bind.c:418-512 | a stream split at any opcode boundary is the first part, then the second continued from its registers |
| BindStream.StepDecodes | bind.c:419-511 | each encoded opcode does what the opcode means and the cursor stops right after it |
| BindStream.RunDecodes | bind.c:418-512 | a stream that encodes a list of opcodes has the effect of the list |
| BindStream.IgnoredOpsChangeNothing | bind.c:424-455 | inserting DONE, an ordinal, a type, an addend or an unknown opcode at any boundary leaves the table unchanged |
| BindStream.AddendOpIsIgnored | bind.c:449-455 | SET_ADDEND_SLEB with any signed 64-bit addend is such an opcode |
| BindStream.TrailingZeros | bind.c:424-429 | zero padding after any opcode boundary changes nothing |
| BindStream.InsertedEncoding | bind.c:418-421 | the encoding of a list with an inserted opcode has that opcode's bytes between the two parts |
| BindStream.RunIsCopies | bind.c:494-506 | from every machine state, a counted run of n binds is n copies of the single bind with an operand |
| BindStream.CompressedMeansExpanded | bind.c:475-506 | from every machine state, the counted opcode is its expansion into single binds, and the scaled form the operand form with eight times the immediate |
| BindStream.RunClosedForm | bind.c:494-506 | entry i of a counted bind is at offset + i * (8 + skip) modulo 2^64, and the offset ends past the last |
| BindStream.RetrieveAppends | main.c:670-680 | a second stream appends its own table and keeps the first as a prefix |
| BindEncoder.BindTableRoundTrip | bind.c:407-515 | the compressed encoding of any table is interpreted back to exactly that table, in order |
| BindEncoder.PaddedTableRoundTrip | bind.c:407-515 | and so is the encoding padded with zeros to the size of its stream |
| BindEncoder.BindOpExpands | bind.c:466-506 | the bind opcode the encoder picks for the leading run of rows expands to those rows |
| Binder.LastDefinerWins | bind.c:279-347 | for disjoint slots and any library list, each slot ends with the value of the last openable library of the list, then libc and libm, that defines its symbol, else unchanged; no other byte changes |
| Binder.WinnerIsLast | bind.c:293-340 | the winning value is the definition of the last defining library, none only if there is none |
| Binder.SymbolMeans | bind.c:308-338 | from one library, a name with its leading underscore gets the library's own symbol without it, except mmap and __stack_chk_guard, which are replaced; a name without an underscore means the same |
| Binder.WinnerExports | bind.c:293-338 | the Mach-O name of a C symbol that is not replaced is won by the last library that exports the symbol |
| Binder.WrappersWin | bind.c:312-327 | _mmap, mmap and ___stack_chk_guard get the wrapper and the guard as soon as some library opens, whatever it exports |
| Binder.BindingTraps | bind.c:302-338 | binding leaves the image, or meets an entry without a name, if and only if some entry that is not skipped does so with some library that opens |
| Binder.SkippedMeans | bind.c:302-306 | inside the image, an entry is skipped exactly if its segment is bad or unmapped or its address is the image base |
| Binder.SkippedNeverWrites | bind.c:302-306 | a skipped entry has no effect in any library |
| Layout.ExtentBounds | main.c:113-132 | the scan bounds every segment, and each bound is met by one of them |
| Layout.AlignIsLeast | main.c:96-102 | the map size is the least whole number of pages that covers its argument |
| Layout.LayoutHolds | main.c:213-237 | in disjoint segments, byte k is file byte k for k < filesize and zero after; later copies disturb nothing |
| Layout.LayoutOutside | main.c:145-150 | bytes outside every segment are zero |
| Layout.RecordedInOrder | main.c:239-263 | the recorded table has the first 32 segment commands, in order, entry n for the n-th one |
| Layout.MappedAtItsBytes | main.c:239-256 | a segment is recorded inside the mapping, at its distance from the lowest segment; the distance holds for __TEXT if and only if it is the lowest |
| LoadCommands.WalkersAgree | main.c:637-753 | the loader's stepping and the scan's stepping visit the same offsets if and only if every command but the last is well sized |
| LoadCommands.SegmentsInside | main.c:104-161 | the mapping starts at the lowest segment, every segment lies inside it, and no smaller whole number of pages contains them all |
| LoadCommands.LayoutRun | main.c:637-753 | after any prefix of the commands before fixups, memory is the layout of its segments, the mapping and the recorded table are as laid out, and nothing left the image |
| LoadedImage.LoadIsLayoutThenWalk | main.c:619-758 | loading is laying out all segments, then walking the chains, and nothing else touches the image |
| LoadedImage.LoadedMemory | main.c:619-758 | end to end: the final memory is the segments' bytes with every chained word fixed up, and nothing left the image |
| LoadedImage.FormatMakesWellFormed | main.c:415-459 | a file whose payload keeps to the format has well-formed chains |
| LoadedImage.LoadedWithoutFixups | main.c:619-758 | without fixup commands the final memory is the segments' bytes, and no counter moved |
| LoadedImage.SegmentBytes | main.c:213-237 | in the image before fixups, offset i of a segment holds its file byte, or zero past the file bytes |
| LoadedImage.ZerosOutsideSegments | main.c:145-150 | every other byte of that image is zero |
| LoadedImage.LoadsSlide | main.c:557-614 | the same file loaded at two bases: the memories are equal except at rebased words, which differ by the distance of the bases modulo 2^64 |
| LoadedImage.SameStarts | main.c:523-568 | the same chains are walked at either base |
| LoadedImage.TablesSlide | main.c:239-256 | the same table entries are mapped at either base, empty segments included unless one wraps to address zero |
| LoadedImage.CountersDoNotSlide | main.c:587-608 | the fixup counters are the same at either base |
| LoadedTables.PlaceRun | main.c:637-753 | at every command boundary of a run inside the image: the mapping, the segments, libraries and binds recorded so far, and the entry point so far |
| LoadedTables.LoadedTable | main.c:619-758 | after loading, the libraries are those of the LC_LOAD_DYLIB commands in order, and the binds are the bind stream then the lazy stream of each LC_DYLD_INFO command in order |
| LoadedTables.LoadedSegment | main.c:239-256 | the loaded table has min(32, n) entries; entry n has the range of the n-th segment command and is mapped inside the image, at its distance from the lowest segment unless it is a __TEXT that is not the lowest; __PAGEZERO is unmapped |
| LoadedTables.DistancesKept | main.c:250-253 | distances between entries of the loaded table are those of the file, and entries are disjoint in memory exactly if they are in the file |
| LoadedTables.LoadedFilter | bind.c:302-306 | in every loaded context, an entry is skipped exactly if its index is bad, its segment unmapped, or it names the first byte of the image |
| LoadedTables.EntryIsLastMain | main.c:683-704 | if a segment precedes every symbol table, the entry point after loading is the slid value of the last symbol named _main |
| LoadedTables.EntryInsideText | main.c:699-702 | the loaded entry point for a _main in the range of __TEXT lies inside the recorded mapping of __TEXT if and only if it is less than the size of __TEXT above the lowest segment; always when __TEXT is the lowest |
| BoundImage.LoadedThenBound | bind.c:279-347 | load, then bind: each slot of the file's bind table ends with the value of the last library that defines its symbol, in load-command order and then libc and libm; a slot none defines and every other byte is as loaded |
| BoundImage.RowLands | bind.c:386-405 | the address of a bind row is the image base plus the segment's distance from the lowest one plus the row's offset; inside the segment, it is a byte of that segment |
| BoundImage.BoundFile | bind.c:279-515 | from file to bound memory: in a file without fixup commands whose bind and lazy streams encode two tables, each row's word, at the segment's own place plus the row's offset, holds what the last defining library gives its symbol, else its file bytes; every other byte is that of the segment image |
| FailedMapping.NothingIsTouched | main.c:134-160 | if mmap fails, there is nothing to map or the file is no executable, loading and binding never leave the image, which stays empty; every segment is unmapped and every bind entry is skipped |
| FailedMapping.NoRoomMapsNothing | main.c:134-137 | there is nothing to map if no segment but __PAGEZERO has a size |
| MachOFile.KindIsRead | main.c:640-741 | each written command is recognized as what it is, both forms of LC_DYLD_INFO included |
| MachOFile.SegmentIsRead | mach-o/loader.h:399-411 | the fields of a written segment_command_64, and the copied name |
| MachOFile.DylibIsRead | main.c:714-720 | the library name of a written LC_LOAD_DYLIB, at its own name offset |
| MachOFile.SymbolIsRead | main.c:683-702 | the count, names and values of a written symbol table of nlist_64 entries |
| MachOFile.DyldInfoIsRead | main.c:660-682 | the places of the bind and lazy streams of a written dyld_info_command |
| MachOFile.FixupsAreRead | main.c:721-731 | the place of the payload of a written LC_DYLD_CHAINED_FIXUPS |
| MachOFile.CommandsAreVisited | main.c:619-653 | in a written program both walkers visit exactly the written commands, whatever their section counts |
| ProgramImage.ProgramIsLaidOut | main.c:104-161 | a written program whose segments do not overlap meets `WellLaidOut`; its mapping starts at the lowest segment and has the fewest pages that cover all |
| ProgramImage.ProgramBytes | main.c:213-237 | byte i of a written segment is in the image at its own place: byte i of its file range, or zero past it |
| ProgramImage.ProgramZeros | main.c:145-150 | every other byte of that image is zero |
| ProgramImage.ProgramTables | main.c:239-263 | after loading a written program: its libraries in order, and its first 32 segments in order with name, range and place |
| ProgramImage.ProgramEntry | main.c:683-704 | the entry point is the place of the last symbol named _main |
| WrittenProgram.CodeRoundTrip | main.c:619-758 | any bytes written out as a one-segment executable and loaded are the start of the image, which is padded with zeros to the fewest pages |
| ProgramMemory.ProgramFixups | main.c:368-617 | a written program with a written payload: the chain of every page of every walked segment ends with each packed pointer at its value, and no other byte of the segments' image is changed |
| ProgramMemory.ProgramBinds | bind.c:279-515 | a written program whose streams encode two tables: the word that a row names holds what the last library that defines its symbol gives it, else its own file bytes |
| MachContext.Context.constructor | main.c:882-890 | the zeroed context |
| MachContext.Context.ApplyRebase | main.c:506-521 | stores base + target, no other byte changes |
| MachContext.Context.ApplyChainedBind | bind.c:243-272 | counts the bind; stores address + addend if the name resolves, else counts it unresolved and stores nothing |
| MachContext.Context.FixSlot | main.c:571-608 | one word: the visit of the specification on the word just read |
| MachContext.Context.WalkChainFrom | main.c:562-615 | the in-place loop equals the 512-step walk of the specification |
| MachContext.Context.WalkSegment | main.c:523-617 | all pages of one recorded and mapped segment |
| MachContext.Context.WalkFixups | main.c:368-463 | the whole fixup command |
| MachContext.Context.AppendBindInfo | bind.c:370-384 | the heap block is replaced by a new one, one entry larger, with the old rows in their places and the new row last; the old block is not written |
| MachContext.Context.BindTimes | bind.c:494-506 | the counted loop equals the run of the specification |
| MachContext.Context.RetrieveBindList | bind.c:407-515 | the in-place interpreter loop equals the machine of the specification |
| MachContext.Context.EnsureImageMapping | main.c:104-161 | the scan and the mapping, done once |
| MachContext.Context.CopySegmentBytes | main.c:218-237 | the segment copy |
| MachContext.Context.LoadSegment64 | main.c:213-266 | map, copy, record |
| MachContext.Context.AddDylib | main.c:290-307 | the library list grows in the same way |
| MachContext.Context.ScanSymbolTable | main.c:683-704 | the symbol loop equals the scan of the specification |
| MachContext.Context.RetrieveBinds | main.c:660-682 | the bind stream, then the lazy bind stream |
| MachContext.Context.ExecCommand | main.c:640-741 | the dispatch on one command |
| MachContext.Context.LoadCommand | main.c:638-751 | one command and the step to the next |
| MachContext.Context.Loader64 | main.c:619-758 | the whole loader equals the run of the specification, from a fresh context the function the end-to-end theorems are about |
| MachContext.Context.BindEntry | bind.c:302-338 | one table entry against one library |
| MachContext.Context.BindAgainst | bind.c:300-340 | the whole table against one library |
| MachContext.Context.DoBind | bind.c:279-347 | the nested loops equal the specification of last definer wins |

## Left out

- The 32-bit loader, which repeats the 64-bit path with fixed sizes and always fails.
- open, fstat, dlopen, dlsym, printing and the jump to the entry point; their answers are parameters.
- The shim table and the name normalization inside the import resolver: only the map from import names to addresses is kept.
- Import tables in the forms with addends: the code reads every table in the plain form, and so does the model.
- Pointer formats other than DYLD_CHAINED_PTR_64_OFFSET and pages with several chain starts, which the code skips.
- What the C program does after an access outside the image, and reads outside the file, which the model takes as zero.
- Uleb.ReadUleb128: operands longer than ten bytes shift by 64 or more, which C leaves undefined; the model drops those bits.
- BindEncoder.BindTableRoundTrip: tables of 2^64 rows and more; the source counts rows in an int.
- Overflow of the int counters for load commands, symbols, libraries and bind entries at 2^31; only the section count is converted as the source does.
- LoadedImage.LoadsSlide: needs that no empty segment is recorded at address zero at either base, because the code takes such a segment for an unmapped one.
- Binder.LastDefinerWins: slots that overlap, where the order of the stores decides.
