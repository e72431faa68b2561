# DUET firmware: verified models

Five components of the DUET (Developer's UEFI Emulation) package of EDK II do real algorithmic work behind their driver
interfaces. This project models them in Dafny and proves what they are for.

* **The EFI/Tiano decompressor** (sections 19.2 and 19.4 of the UEFI Specification 2.10). `Words`, `BitStream` and
  `BitReader` treat words and the bit buffer; `CanonicalCode`, `HuffmanTrie`, `TrieSteps` and `MakeTable` the Huffman
  code and the direct table with its overflow tree; `TianoFormat` says what a stream means, symbol by symbol, with the
  textbook prefix rule and no tables; `TianoDecompress` is the decoder over its scratch record, proved against that
  meaning; `TianoPrinter` and `TianoRoundTrip` print the format and prove that decoding undoes printing; `TianoStored`
  gives every byte string a compressed form.
* **The variable store** (section 8.2 of the UEFI Specification 2.10). `VariableLog` says what a log of records means,
  `VariableUpdate` and `VariableRun` what each atomic write and each run of writes does to it, `VariableRecovery` what
  callers may rely on after calls and after power failures, `VariableEnumeration` what an enumeration visits,
  `VariableGhosts` and `VariableMoves` exactly when the store stops being a map, `VariableServices` what holds of
  every request, and `VariableOutcome` what each is answered, in numbers. `VariableBytes` lays the log out in memory;
  `FsStore` and `FsVariable` are the services over byte arrays, and `VariableJournal` the order of their writes, each
  of which is proved to be the one that the run has at its place.
* **The loader's memory map and PE relocation**: `MemoryMap`, `MemoryMapGen`, `PeRelocation`, `PeLoader`.
* **VBE block transfers**: `PixelCodec`, `BiosVideo`.
* **The firmware volume block device**: `FvbBlockMap`, `FvbDevice`.

The imperative members are proved against functions that say what they compute, and the theorems are about those
functions; where the states between the writes matter, the members are proved against every one of them. What ties these
functions to the outside is stated without them: printed streams and directories, the bits of attributes and states, the
bytes of records, page and block numbers.
`dafny verify dfyconfig.toml` checks everything.

## Conventions

Machine words are integers with their bounds as subset types; every truncation, shift and wrap-around of the source is
written out, except that sums of 64-bit addresses are taken not to wrap. Arrays and record fields that the source
updates in place are arrays and fields of classes. Memory outside an object is not modelled: where the source would
leave its object, and on inputs named below, the method has a precondition.

* The decompressor: `Outside`, `Wild`, `Undefined` and `Overrun` mark the inputs that have no meaning in the format.
  These are code lengths above 16; lengths that pass the check of `MakeTable`
  (edk2/DuetPkg/EfiLdr/TianoDecompress.c:218) without being a complete code (`AcceptedButIncomplete` says exactly
  which), and for the Character Set also lengths that fail it, because that result is dropped
  (edk2/DuetPkg/EfiLdr/TianoDecompress.c:518); a single symbol outside its set; runs of zeros beyond the 510 lengths of
  the Character Set; a match that reaches back before the output, or stands behind a full output; and a compressed size
  so large that adding the header wraps. What the source does with such inputs is not modelled: some it decodes with
  whatever its tables then hold, on others it leaves its arrays. The first `FillBuf` call, which shifts an empty buffer
  by its own width, is the general case at 32 bits before the stream.
* The variable store: `Stray` marks an update that changes a variable's volatility and fits without a reclaim: its
  deletion mark is a byte written to the wrong store (edk2/DuetPkg/FSVariable/FSVariable.c:1281). `MovedIsStray` says
  when that happens, `MovedOutcome`, `MovedOthers`, `MovedField`, `MovedStart`, `WriteBehind` and `StrayByte` what it
  does there; the byte must lie inside that store, which the source only asserts
  (edk2/DuetPkg/FSVariable/MemStorage.c:122).
  Walks that look for a valid header before the end of the store (edk2/DuetPkg/FSVariable/FSVariable.c:354) may read the
  two bytes behind a full store, so a store is modelled with two foreign bytes that do not begin a record. Pad sizes are
  zero, as on IA-32 and Intel 64. The flag `u` of the log lemmas stands for uniform access: all records of one variable
  agree on runtime access, which only statements about what the runtime sees need (`SetThenGet`, `RuntimeSeesGhost`,
  `ReclaimAtRuntime` and `CrashConsistent` say what holds without it).
* A reclaim erases a store before it writes it back. In the states of a run the erased store is a log without records;
  its bytes have lost the store header too, so that a restart would find no records and a size of 0xFFFFFFFF
  (`WipedReads`). What is lost is `EraseLoses`.
* The memory map: addresses of descriptors are page numbers. A BIOS memory entry that starts inside a page must reach
  the next page: otherwise its unsigned length wraps (edk2/DuetPkg/EfiLdr/Support.c:196) and stands for nearly the whole
  address space, which is not modelled.
* PE relocation: blocks of size zero, pages outside the image, entries of unknown type and sites inside the directory
  itself are outside the model's inputs; so is a directory that logs more than the pages set aside for it, which
  `LogFits` excludes for directories that their blocks fill exactly or overshoot by at most seven bytes.
* Block transfers: a buffer is modelled line by line, so that an access stays inside its line. The source rectangle of a
  move on the screen is not checked by the source (edk2/DuetPkg/BiosVideoThunkDxe/BiosVideo.c:1993-2003) and must lie on
  the screen.
* The block device: a write that begins in the part the mapped file lacks must reach past it, or the length of the file
  write goes below zero (edk2/DuetPkg/FvbRuntimeService/FWBlockService.c:99-102).

Three promises of the source's comments are not kept by its code, and the model follows the code. A reclaim is said to
save only the latest of several records of one variable (edk2/DuetPkg/FSVariable/FSVariable.c:371-374), yet an update
that reclaims ends with two live ones: `ReclaimLeavesGhost` and `CleanStep` say exactly when a store is left in that
state. Erasing is described as leaving the volume alone when a block does not exist
(edk2/DuetPkg/FvbRuntimeService/FWBlockService.c:949-953), yet a pair of a list that wraps may stop it half way:
`AllOrNothing` says exactly when it is all or nothing, `EraseAllExact` what is erased. The loader assumes that fixup
data lies just below its image (edk2/DuetPkg/EfiLdr/PeLoader.c:526-529): `Adjacent` says exactly when it does. Three
more expectations fail and have their exact conditions. An enumeration names every variable if and only if nothing is
hidden in the log (`EnumerationAll`; `EnumerationComplete` without ghosts, `EnumerationNames` variable by variable). A
successful SetVariable with other data is what GetVariable then reads, in the same phase, if and only if the call came
before the runtime or the new record has runtime access (`SetThenGet`; `RuntimeHides` is an input, `RuntimeThenGet` says
what is read instead). That is before the mark of a move that goes astray (`MovedIsStray` says when there is one). When
it lands on the state of a record, the new data is lost if and only if that is the new record itself (`MovedOutcome`),
and otherwise the mark may take another variable with it (`MovedOthers`); on the two bytes that open a record it cuts
the log off there (`MovedStart`); in the data of a record it spoils a byte (`MovedData`), and `MovedField` treats every
other change that leaves a record; behind the records it changes nothing (`WriteBehind`). A call cut off by a power
failure outside an erasure leaves every variable old or new unless a reclaim has torn what the runtime reads of it
(`CrashConsistent`, `CrashBytes`; `RuntimeTorn` is an input).

## Model

| member | source | states |
|---|---|---|
| `BitReader.OrRest` | edk2/DuetPkg/EfiLdr/TianoDecompress.c:109-122 | the bits that FillBuf ors in again from a byte already partly used are those the window holds anyway, so stale high bits do no harm |
| `TianoDecompress.ScratchData.FillBuf` | edk2/DuetPkg/EfiLdr/TianoDecompress.c:76-123 | after dropping n bits the 32-bit buffer is the window of the zero-padded stream n bits further on, and the low mBitCount bits of mSubBitBuf are the stream bits behind it |
| `TianoDecompress.ScratchData.GetBits` | edk2/DuetPkg/EfiLdr/TianoDecompress.c:125-156 | returns the next n bits of the stream as a number and leaves the reader n bits further on |
| `CanonicalCode.PrefixUnique` | edk2/DuetPkg/EfiLdr/TianoDecompress.c:206-216 | no two symbols of a complete canonical code have codes that are prefixes of one 16-bit window |
| `CanonicalCode.PrefixExists` | edk2/DuetPkg/EfiLdr/TianoDecompress.c:206-216 | some symbol of a complete canonical code has a code that is a prefix of any window |
| `CanonicalCode.CodeOrder` | edk2/DuetPkg/EfiLdr/TianoDecompress.c:206-216 | the codes are in canonical order: shorter ones first, and those of one length in symbol order |
| `MakeTable.CountLengths` | edk2/DuetPkg/EfiLdr/TianoDecompress.c:202-208 | counts the symbols of every code length |
| `MakeTable.RunningStarts` | edk2/DuetPkg/EfiLdr/TianoDecompress.c:210-216 | the running starts are the left-aligned first codes of the lengths, modulo 2^16 |
| `MakeTable.Rescale` | edk2/DuetPkg/EfiLdr/TianoDecompress.c:223-233 | starts of short lengths become table indices and weights the steps between codes of one length |
| `MakeTable.ClearLong` | edk2/DuetPkg/EfiLdr/TianoDecompress.c:235-242 | empties exactly the table entries that codes longer than the table will use |
| `MakeTable.EnterShort` | edk2/DuetPkg/EfiLdr/TianoDecompress.c:256-260 | fills exactly the block of table entries whose index begins with the symbol's code |
| `MakeTable.EnsureNode` | edk2/DuetPkg/EfiLdr/TianoDecompress.c:269-272 | gives an empty slot on the symbol's path a fresh tree node and keeps every other slot, and all that was entered before |
| `MakeTable.Descend` | edk2/DuetPkg/EfiLdr/TianoDecompress.c:274-281 | takes the branch that the next code bit names |
| `MakeTable.WalkDown` | edk2/DuetPkg/EfiLdr/TianoDecompress.c:262-282 | reaches the slot whose block of codes is the symbol's own, creating nodes only where none exist |
| `MakeTable.EnterSymbol` | edk2/DuetPkg/EfiLdr/TianoDecompress.c:249-288 | enters one symbol and keeps the structure built for the symbols before it |
| `TrieSteps.StepAlloc` | edk2/DuetPkg/EfiLdr/TianoDecompress.c:269-272 | adding a node to an empty slot keeps the invariant that slots and nodes stand for disjoint aligned blocks of codes |
| `TrieSteps.StepWrite` | edk2/DuetPkg/EfiLdr/TianoDecompress.c:284 | writing a symbol at the end of its path keeps that invariant |
| `TrieSteps.BuiltDecodes` | edk2/DuetPkg/EfiLdr/TianoDecompress.c:247-289 | once every symbol is entered, table plus tree walk returns for every 16-bit window the one symbol whose canonical code is a prefix of it, within 16 - TableBits steps |
| `TrieSteps.NodeBound` | edk2/DuetPkg/EfiLdr/TianoDecompress.c:61-62 | a complete code needs fewer tree nodes than symbols, so no node is numbered 2 * NumOfChar - 1 or above |
| `HuffmanTrie.DecodesFrame` | edk2/DuetPkg/EfiLdr/TianoDecompress.c:556-558 | a table keeps decoding when tree nodes below its symbol count are overwritten, so the position table does not disturb the character table |
| `MakeTable.MakeTable` | edk2/DuetPkg/EfiLdr/TianoDecompress.c:158-294 | refuses exactly the lengths whose Kraft sum is not a multiple of 2^16; a complete code gets a table and tree that decode it on every window, lengths that use no symbol change nothing, and no node outside its own range is touched; accepted lengths with an overflowing code are left out |
| `MakeTable.AcceptedButIncomplete` | edk2/DuetPkg/EfiLdr/TianoDecompress.c:218-221 | the check lets lengths through that are no complete code if and only if their Kraft sum is zero, so that no symbol is used, or a higher multiple of 2^16, and then some symbol's code does not fit into its length |
| `MakeTable.BothAccepted` | edk2/DuetPkg/EfiLdr/TianoDecompress.c:218-221 | both occur for the 19 lengths of an Extra Set |
| `TianoDecompress.ScratchData.ReadPTItem` | edk2/DuetPkg/EfiLdr/TianoDecompress.c:399-421 | reads one code length (3 bits, or unary above 7) and at the special index the run of zeros, as the format defines |
| `TianoDecompress.ScratchData.ReadPTLen` | edk2/DuetPkg/EfiLdr/TianoDecompress.c:349-428 | reads a code of the Extra or Position Set as the format defines, into a table and tree that decode it, or reports a bad table exactly when the format does |
| `TianoDecompress.ScratchData.ReadCItem` | edk2/DuetPkg/EfiLdr/TianoDecompress.c:470-512 | reads one coded length or zero run of the Character Set with the Extra Set's code |
| `TianoDecompress.ScratchData.ReadCLen` | edk2/DuetPkg/EfiLdr/TianoDecompress.c:430-521 | reads the code of the Character Set as the format defines, into a table and tree that decode it |
| `TianoDecompress.ScratchData.DecodeSymbol` | edk2/DuetPkg/EfiLdr/TianoDecompress.c:565-583 | table lookup plus tree walk plus refill read exactly the symbol the prefix rule gives and advance by its code length |
| `TianoDecompress.ScratchData.DecodeP` | edk2/DuetPkg/EfiLdr/TianoDecompress.c:296-347 | reads a match position: 0, 1, or 2^(v-1) plus v-1 more bits |
| `TianoDecompress.ScratchData.ReadBlockHeader` | edk2/DuetPkg/EfiLdr/TianoDecompress.c:550-561 | reads a block header as the format defines; both codes are loaded afterwards although they share the tree arrays |
| `TianoDecompress.ScratchData.StartBlock` | edk2/DuetPkg/EfiLdr/TianoDecompress.c:546-562 | reads a header only when no block is open |
| `TianoDecompress.ScratchData.NextChar` | edk2/DuetPkg/EfiLdr/TianoDecompress.c:564-586 | counts the symbol against the block, wrapping a size of zero to 2^16, and returns the one the format reads |
| `TianoDecompress.ScratchData.CopyMatch` | edk2/DuetPkg/EfiLdr/TianoDecompress.c:636-648 | copies byte by byte from a distance back, seeing bytes it has just written, and stops at the end of the output |
| `TianoDecompress.ScratchData.Emit` | edk2/DuetPkg/EfiLdr/TianoDecompress.c:620-649 | after one symbol the output and the decoder are as the format's step says |
| `TianoDecompress.ScratchData.DecodeNext` | edk2/DuetPkg/EfiLdr/TianoDecompress.c:614-650 | one turn of the loop is one step of the format |
| `TianoDecompress.ScratchData.Decode` | edk2/DuetPkg/EfiLdr/TianoDecompress.c:588-654 | leaves in the destination exactly what the format says the stream expands to, or flags the same corruption after the same bytes |
| `TianoDecompress.Decompress` | edk2/DuetPkg/EfiLdr/TianoDecompress.c:696-821 | refuses, does nothing or expands as the call's header demands; on success the destination is the expansion, with 4-bit and 5-bit position headers for versions 1 and 2 |
| `TianoPrinter.SymbolRoundTrip` | edk2/DuetPkg/EfiLdr/TianoDecompress.c:565-585 | reading a symbol where its code was printed returns it and moves on by the code |
| `TianoPrinter.LengthRoundTrip` | edk2/DuetPkg/EfiLdr/TianoDecompress.c:401-413 | reading a printed code length returns it, up to 16, and uses exactly its bits |
| `TianoPrinter.LengthsRoundTrip` | edk2/DuetPkg/EfiLdr/TianoDecompress.c:397-425 | reading a printed list of lengths, with zeros left out after the special index, returns the list |
| `TianoPrinter.PTRoundTrip` | edk2/DuetPkg/EfiLdr/TianoDecompress.c:381-427 | reading a printed Extra or Position Set header returns its code and uses exactly its bits |
| `TianoPrinter.ItemRoundTrip` | edk2/DuetPkg/EfiLdr/TianoDecompress.c:472-511 | one printed length or zero run (1, 3 to 18, or 20 to 531 zeros) is read back |
| `TianoPrinter.CRoundTrip` | edk2/DuetPkg/EfiLdr/TianoDecompress.c:453-518 | reading a printed Character Set header, cut into runs in any way, returns its code and uses exactly its bits |
| `TianoRoundTrip.CopyIsRepetition` | edk2/DuetPkg/EfiLdr/TianoDecompress.c:638-648 | the overlapping byte-by-byte copy is the last bytes repeated over and over |
| `TianoRoundTrip.PositionRoundTrip` | edk2/DuetPkg/EfiLdr/TianoDecompress.c:320-346 | reading a printed match position returns it |
| `TianoRoundTrip.TokenRoundTrip` | edk2/DuetPkg/EfiLdr/TianoDecompress.c:614-649 | reading a printed literal or match applies it to the output, with length symbol - 253 and distance position + 1 |
| `TianoRoundTrip.HeaderRoundTrip` | edk2/DuetPkg/EfiLdr/TianoDecompress.c:546-562 | reading a printed block header opens that block |
| `TianoRoundTrip.EndOfStream` | edk2/DuetPkg/EfiLdr/TianoDecompress.c:614-627 | zero padding behind the last block reads as a literal, so a complete output ends the decoder |
| `TianoRoundTrip.RunRoundTrip` | edk2/DuetPkg/EfiLdr/TianoDecompress.c:614-650 | from any point inside a printed stream the decoder produces the rest of the expansion |
| `TianoRoundTrip.RoundTrip` | edk2/DuetPkg/EfiLdr/TianoDecompress.c:588-654 | decoding any printed sequence of blocks gives exactly their LZ77 expansion |
| `TianoRoundTrip.PackedRoundTrip` | edk2/DuetPkg/EfiLdr/TianoDecompress.c:588-654 | every sequence of blocks whose tokens its codes can express has a packed form that decodes to its expansion |
| `TianoRoundTrip.EveryCodePrints` | edk2/DuetPkg/EfiLdr/TianoDecompress.c:545-561 | the printer, which spells out every field width of the format, leaves no code out: any complete codes of 510 and 31 symbols have a header with any complete code of 19 symbols that covers the lengths of the first; with the four-bit count of version 1 position symbols up to 14 |
| `TianoRoundTrip.EveryCharCodePrints` | edk2/DuetPkg/EfiLdr/TianoDecompress.c:451-520 | there always is such a code of 19 symbols |
| `TianoRoundTrip.SingleCodesPrint` | edk2/DuetPkg/EfiLdr/TianoDecompress.c:384-396 | so do codes of one symbol, whichever it is |
| `TianoRoundTrip.EveryCodeDecodes` | edk2/DuetPkg/EfiLdr/TianoDecompress.c:589-655 | and any tokens in any such codes decode to their expansion |
| `TianoRoundTrip.CallRoundTrip` | edk2/DuetPkg/EfiLdr/TianoDecompress.c:696-821 | a buffer with the two size fields and a printed stream decompresses to the expansion of its blocks |
| `TianoRoundTrip.BadLengthsRefused` | edk2/DuetPkg/EfiLdr/TianoDecompress.c:218-220 | printed lengths of either set whose Kraft sum is no multiple of 2^16 are refused |
| `TianoRoundTrip.BadStreamRefused` | edk2/DuetPkg/EfiLdr/TianoDecompress.c:551-554 | a stream that begins with such an Extra Set is corrupt, and nothing of it is decoded |
| `TianoFormat.CallIs` | edk2/DuetPkg/EfiLdr/TianoDecompress.c:743-806 | a call is refused exactly when the scratch memory or the source is too small, or, with output to make, the sizes do not agree or the version is unknown; otherwise it decodes the bytes behind the header with a position count of 4 bits for version 1 and 5 for version 2 |
| `TianoStored.EveryStringDecodes` | edk2/DuetPkg/EfiLdr/TianoDecompress.c:588-654 | every byte string of any length has a compressed form, literals in a code with all 510 symbols cut into blocks of 2^16, that decodes to it |
| `TianoStored.EveryStringDecompresses` | edk2/DuetPkg/EfiLdr/TianoDecompress.c:696-821 | the decompressor, called with a buffer of that form for version 1 or 2, returns the string |
| `VariableLog.FindIsNewest` | edk2/DuetPkg/FSVariable/FSVariable.c:467-546 | in a sound log "the first added record, else the last one in transition" is the newest live record of the key |
| `VariableLog.MarkBits` | edk2/DuetPkg/FSVariable/FSVariable.c:1117-1152 | the two marks on a state clear bit 0 and bit 1 and no other |
| `VariableLog.ContentTransition` | edk2/DuetPkg/FSVariable/FSVariable.c:1142-1160 | marking the found record in transition is invisible to every lookup |
| `VariableLog.SoundAppend` | edk2/DuetPkg/FSVariable/FSVariable.c:1256-1266 | an appended record keeps the log invariant exactly when it supersedes every live record of its key |
| `VariableLog.ReclaimPreserves` | edk2/DuetPkg/FSVariable/FSVariable.c:354-396 | a reclaim leaves what every key reads unchanged, and a sound log without two records of one key |
| `VariableLog.ReclaimTwice` | edk2/DuetPkg/FSVariable/FSVariable.c:354-396 | without a current variable only added records are left, and a second reclaim changes nothing |
| `VariableUpdate.WriteTransition` | edk2/DuetPkg/FSVariable/FSVariable.c:1147-1155 | this atomic write keeps the invariant of both stores and every variable's value |
| `VariableUpdate.WriteAppend` | edk2/DuetPkg/FSVariable/FSVariable.c:1256-1266 | this atomic write keeps the invariant, sets the record's variable and no other |
| `VariableUpdate.WriteDelete` | edk2/DuetPkg/FSVariable/FSVariable.c:1277-1286 | this atomic write keeps the invariant and, when a newer visible record follows, every value |
| `VariableUpdate.WriteCompact` | edk2/DuetPkg/FSVariable/FSVariable.c:354-406 | writing back a compacted store keeps the invariant and every value |
| `VariableRun.LocateFinds` | edk2/DuetPkg/FSVariable/FSVariable.c:467-546 | what FindVariable points to is the newest live record of the key, and the other store has none |
| `VariableRun.LocateMisses` | edk2/DuetPkg/FSVariable/FSVariable.c:531-549 | not found means no live record of the key anywhere, unless one hides from the runtime |
| `VariableRun.CompactReady` | edk2/DuetPkg/FSVariable/FSVariable.c:381-383 | the record under update stays in transition through a reclaim, so the new record may follow it |
| `VariableRun.UpdateRun` | edk2/DuetPkg/FSVariable/FSVariable.c:1064-1293 | for every update that keeps the variable's volatility (and, for what the runtime sees, its runtime access): all states between its writes satisfy the invariant, each state but the one inside a reclaim gives every variable its old or its final value, no other variable changes, and an error changes nothing; append, equal-data and reclaim paths alike |
| `VariableRecovery.DeleteRun` | edk2/DuetPkg/FSVariable/FSVariable.c:1113-1131 | a deleted variable is gone if and only if no other visible record of it was left in the log |
| `VariableRecovery.EraseLoses` | edk2/DuetPkg/FSVariable/FSVariable.c:398-412 | cut off inside a reclaim, a variable keeps its value if and only if it had no live record in that store |
| `VariableRecovery.DeletingShowsGhost` | edk2/DuetPkg/FSVariable/FSVariable.c:1113-1131 | deleting leaves what the newest visible record says that stood before the deleted one: an old value comes back if there is a ghost |
| `VariableOutcome.FoundIs` | edk2/DuetPkg/FSVariable/FSVariable.c:467-549 | a variable is found exactly when some record of it has state 0x3f or 0x3e and, at runtime, the runtime bit; what is found is the newest such record, and the other store has none |
| `VariableOutcome.DeleteOutcome` | edk2/DuetPkg/FSVariable/FSVariable.c:1084-1163 | no data, or neither access bit: a variable not found is answered EFI_NOT_FOUND and nothing is written; one found is deleted if and only if the call comes before the runtime or the record is in the non-volatile store with that bit; then one state byte is cleared, and the variable reads as its next older visible record or not at all |
| `VariableOutcome.StoreOutcome` | edk2/DuetPkg/FSVariable/FSVariable.c:1084-1293 | every other request, before the runtime and at it: which are refused and with what status, when the data is there already, and otherwise that the record is stored, last in the store its attributes name, if and only if it fits at once or behind the newest live records alone, the latter not for the non-volatile store at runtime; EFI_OUT_OF_RESOURCES if not |
| `VariableOutcome.CompactBytes` | edk2/DuetPkg/FSVariable/FSVariable.c:354-406 | a reclaim leaves the header and exactly the bytes of the newest live record of every variable |
| `VariableOutcome.CompactIs` | edk2/DuetPkg/FSVariable/FSVariable.c:354-406 | it keeps those records in log order, as added ones, but for the record under update, whose state stays |
| `VariableRecovery.RuntimeCreate` | edk2/DuetPkg/FSVariable/FSVariable.c:1176-1179 | creating a variable at runtime keeps the invariant if and only if no record of it lacks runtime access |
| `VariableGhosts.ReclaimLeavesGhost` | edk2/DuetPkg/FSVariable/FSVariable.c:1236-1286 | for every store: a successful update leaves its log without ghosts if and only if there were none and the new record fitted without a reclaim; after a reclaim the old record is left in transition in front of the new one |
| `VariableGhosts.GhostExample` | edk2/DuetPkg/FSVariable/FSVariable.c:1236-1286 | a store with garbage, one variable and too little room, whose update succeeds and leaves both records of the variable live |
| `VariableGhosts.RuntimeSeesGhost` | edk2/DuetPkg/FSVariable/FSVariable.c:489-512 | for every store: after a successful update the runtime reads the new state if and only if the new record has runtime access, or else, with room, no older ghost had it and, after a reclaim, the old record did not; otherwise it reads an old value |
| `VariableGhosts.ReclaimAtRuntime` | edk2/DuetPkg/FSVariable/FSVariable.c:354-396 | a reclaim leaves what the runtime reads of a variable unchanged if and only if the runtime sees its newest live record or none at all; otherwise the variable is not found at runtime any more |
| `VariableGhosts.ReplaceGhostFree` | edk2/DuetPkg/FSVariable/FSVariable.c:1277-1286 | replacing a record by a new one behind it neither adds nor removes a ghost |
| `VariableGhosts.CleanStep` | edk2/DuetPkg/FSVariable/FSVariable.c:1064-1293 | a store where every variable has one live record, which is added, stays so after any request if and only if the request does not replace data without room for the new record |
| `VariableGhosts.HistoryEnumerates` | edk2/DuetPkg/FSVariable/FSVariable.c:1364-1467 | after any number of requests none of which replaces data without room, the enumeration names every visible variable exactly once |
| `VariableMoves.MovedIsStray` | edk2/DuetPkg/FSVariable/FSVariable.c:1234-1286 | an update carried out with other data leaves, before any stray mark, a state that satisfies the invariant if and only if it keeps the variable's volatility; the deletion mark goes astray if and only if it does not and the new record fits without a reclaim |
| `VariableMoves.MovedReads` | edk2/DuetPkg/FSVariable/FSVariable.c:478-546 | when a variable has been moved and no mark has gone astray, or not yet, GetVariable answers the new data |
| `VariableMoves.StrayDeletes` | edk2/DuetPkg/FSVariable/FSVariable.c:1281-1286 | the stray mark deletes the record of the new store that stands at the offset the old record has in its own |
| `VariableMoves.MovedOutcome` | edk2/DuetPkg/FSVariable/FSVariable.c:1277-1291 | the completed call: when a move's mark lands on the state of a record, the new data is lost and the old value read although the call succeeds if and only if the new record begins at the offset the old one has in its own store; in that case alone the stores still satisfy the invariant |
| `VariableMoves.MovedOthers` | edk2/DuetPkg/FSVariable/FSVariable.c:1277-1291 | and every other variable keeps its value, but for the one whose newest record the mark lands on: that goes back to its next older record, or is gone |
| `VariableMoves.MovedData` | edk2/DuetPkg/FSVariable/FSVariable.c:1277-1291 | when the mark lands in the data of a record instead, the new data is read back with that byte spoilt if the record is the new one, and else intact; either way both records of the variable stay live |
| `VariableMoves.MovedField` | edk2/DuetPkg/FSVariable/FSVariable.c:1277-1291 | in general, when the mark turns a record of the new store into another record of its size, by a byte of its state, attributes, GUID, name or data: the new data is lost if that was the new record and is now dead or another variable's, read as changed if it is still one of the variable, hidden if an older record has become an added one of the variable, and else read back intact |
| `VariableMoves.MovedStart` | edk2/DuetPkg/FSVariable/FSVariable.c:1277-1291 | when the mark lands on the two bytes that open a record, a walk ends there: that record and all behind it are gone, the new one among them, and the old value is read |
| `VariableMoves.FirstIsLost` | edk2/DuetPkg/FSVariable/FSVariable.c:1281-1286 | the first variable of a store, moved to the other while that is empty, is lost: the old value is read |
| `VariableServices.SetThenGet` | edk2/DuetPkg/FSVariable/FSVariable.c:1087-1293 | for every store and every request but a deletion: after an error, or when the same data is already there, GetVariable answers what it did before; after any other success it answers the new data and attributes, before a mark that goes astray, if and only if the call came before the runtime or the new record has runtime access |
| `VariableServices.RuntimeThenGet` | edk2/DuetPkg/FSVariable/FSVariable.c:1092-1107 | what it answers otherwise: after a call at runtime whose new record lacks runtime access, what the next older record says that the runtime sees, or nothing; the old value, when the call moved the variable to the other store |
| `VariableServices.RuntimeHides` | edk2/DuetPkg/FSVariable/FSVariable.c:1224-1291 | an input on which the success is not read: a variable with runtime access, set at runtime without it, is not found any more |
| `VariableServices.RuntimeOnlyAppends` | edk2/DuetPkg/FSVariable/FSVariable.c:1092-1107 | at runtime a call changes only the non-volatile store and erases nothing if and only if it does not set other data without the non-volatile attribute on a variable found in that store |
| `VariableServices.CrashConsistent` | edk2/DuetPkg/FSVariable/FSVariable.c:1142-1291 | for every store and request: cut off after any write but one that erases the non-volatile store or goes astray, and restarted, every variable reads as after a restart before the call or after it, and every other variable as before, if and only if it is not one read at runtime behind a reclaim of the non-volatile store that dropped what the runtime saw of it while the new record does not show |
| `VariableServices.UniformCrash` | edk2/DuetPkg/FSVariable/FSVariable.c:1142-1291 | where all records of one variable agree on runtime access, such a call leaves every variable old or new and all others as before, whatever the request and in whatever phase |
| `VariableServices.RuntimeTorn` | edk2/DuetPkg/FSVariable/FSVariable.c:365-383 | an input on which that fails: cut off right behind the reclaim, a variable that the runtime reads before the call and after it is not found |
| `VariableServices.StartUpKeeps` | edk2/DuetPkg/FSVariable/FSVariable.c:1876-1888 | the reclaim that a start-up makes when little room is left changes no variable and leaves one added record of each |
| `VariableEnumeration.NextIsNext` | edk2/DuetPkg/FSVariable/FSVariable.c:1397-1466 | following a visible record's own name goes on to the next visible record |
| `VariableEnumeration.VisibleFromExact` | edk2/DuetPkg/FSVariable/FSVariable.c:1439-1463 | the reference list holds exactly the visible records, each once, in log order |
| `VariableEnumeration.EnumerationComplete` | edk2/DuetPkg/FSVariable/FSVariable.c:1397-1466 | in a state without ghosts the enumeration from the empty name lists every visible variable exactly once, non-volatile first, if and only if the first visible record is added or is the only one |
| `VariableEnumeration.EnumerationNames` | edk2/DuetPkg/FSVariable/FSVariable.c:1397-1466 | in every sound log, with ghosts or without, the enumeration names a visible variable if and only if its newest visible record is not in front of the first one named and the walk passes over it nowhere |
| `VariableEnumeration.EnumerationAll` | edk2/DuetPkg/FSVariable/FSVariable.c:1397-1466 | so, as a condition on the log alone: it names every visible variable if and only if no newest visible record stands in front of where the walk begins, or between a record the walk may come to (where it begins, or the first visible one behind a newest one) and a later visible record of that one's variable |
| `VariableEnumeration.NamedOnce` | edk2/DuetPkg/FSVariable/FSVariable.c:1397-1466 | and no variable is named twice |
| `VariableEnumeration.StartsLate` | edk2/DuetPkg/FSVariable/FSVariable.c:538-546 | a log without ghosts for which it does not: a record in transition in front of an added one is never named |
| `VariableEnumeration.GhostHides` | edk2/DuetPkg/FSVariable/FSVariable.c:1397-1408 | in every sound log, following a visible record's name goes on right behind it if and only if no newer record of the variable is visible; all that stands before that newer record is passed over |
| `VariableBytes.Fields` | edk2/DuetPkg/FSVariable/FSVariable.c:153-205 | state, attributes, sizes, GUID, name and data of a record are read back from where it stands, and the next record follows it |
| `VariableBytes.Layout` | edk2/DuetPkg/FSVariable/FSVariable.c:1190-1218 | every byte of a new record: 55AA, state, a reserved byte, then attributes, name size and data size in little-endian order, the GUID, the characters of the name with their terminator, the data |
| `VariableOutcome.ImageIs` | edk2/DuetPkg/FSVariable/FSVariable.c:1857-1873 | where the records of a store stand: the first behind 28 bytes of header, each behind the one before, erased bytes behind the last |
| `VariableBytes.Walk` | edk2/DuetPkg/FSVariable/FSVariable.c:354-394 | walking with GetNextVariablePtr visits record after record and finds no valid header at LastVariableOffset |
| `VariableBytes.ImageUnique` | edk2/DuetPkg/FSVariable/FSVariable.c:1857-1873 | a store's bytes hold one log only, so a scan finds the records that were written |
| `VariableBytes.ImageAppend` | edk2/DuetPkg/FSVariable/FSVariable.c:1256-1266 | writing an encoded record at LastVariableOffset appends it to the log |
| `VariableBytes.ImageState` | edk2/DuetPkg/FSVariable/FSVariable.c:1281-1286 | writing a state byte changes the state of that record and nothing else |
| `VariableBytes.StrayByte` | edk2/DuetPkg/FSVariable/FSVariable.c:1281-1286 | one byte written anywhere behind the header of a store leaves its log intact if and only if it was there already |
| `VariableBytes.WriteBehind` | edk2/DuetPkg/FSVariable/FSVariable.c:1281-1286 | a stray mark behind the records moves none of them and adds none to the walk |
| `VariableJournal.MemoryShows` | edk2/DuetPkg/FSVariable/FSVariable.c:1142-1286 | after the first n writes of a recorded run the memory of either store holds the log of state n, unless the store has just been erased |
| `VariableJournal.CrashBytes` | edk2/DuetPkg/FSVariable/FSVariable.c:1142-1291 | down to the bytes: cut off after any number of the byte writes that lead through its states, the last of which did not erase the non-volatile store, a call leaves a memory that a restart scans to a log with every variable old or new and all others as before, under the same condition exactly |
| `FsStore.VariableStore.ScanStore` | edk2/DuetPkg/FSVariable/FSVariable.c:1857-1874 | the start-up scan finds the end of the records |
| `FsStore.VariableStore.Fresh` | edk2/DuetPkg/FSVariable/FSVariable.c:1891-1907 | the volatile store starts erased, with its header and no records |
| `FsStore.VariableStore.EraseStore` | edk2/DuetPkg/FSVariable/MemStorage.c:96-106 | every byte of the store becomes 0xff, as one more write in the journal |
| `FsStore.VariableStore.WriteStore` | edk2/DuetPkg/FSVariable/MemStorage.c:109-129 | the bytes written stand at the offset, all others stay, and the journal has one more write |
| `FsStore.VariableStore.NameMatches` | edk2/DuetPkg/FSVariable/FSVariable.c:515 | comparing a name with its terminator against a record tells whether the names are equal, without reading past the record |
| `FsStore.VariableStore.Search` | edk2/DuetPkg/FSVariable/FSVariable.c:478-526 | the walk through one store finds the first added hit, or passes on the last one in transition |
| `FsStore.VariableStore.ExistNewerVariable` | edk2/DuetPkg/FSVariable/FSVariable.c:233-276 | true exactly when a later live record has the same key |
| `FsStore.VariableStore.Reclaim` | edk2/DuetPkg/FSVariable/FSVariable.c:278-421 | the store is erased and written back with the records worth keeping, its header stays, and the two totals add up to LastVariableOffset less the header |
| `FsStore.VariableStore.StartUp` | edk2/DuetPkg/FSVariable/FSVariable.c:1876-1888 | the start-up reclaims exactly when less than the threshold is left |
| `FsStore.VariableStore.Append` | edk2/DuetPkg/FSVariable/FSVariable.c:1256-1266 | the bytes of the new record extend the log by it |
| `FsStore.VariableStore.Supersede` | edk2/DuetPkg/FSVariable/FSVariable.c:1147-1155 | the record's state byte becomes in transition |
| `FsStore.VariableStore.Retire` | edk2/DuetPkg/FSVariable/FSVariable.c:1278-1286 | the record's state byte becomes deleted |
| `FsVariable.VariableGlobal.FindVariable` | edk2/DuetPkg/FSVariable/FSVariable.c:423-550 | points to the record that the search of both logs finds, or reports not found |
| `FsVariable.VariableGlobal.GetVariable` | edk2/DuetPkg/FSVariable/FSVariable.c:1295-1362 | returns data and attributes of what the logs mean for the key, or the size needed, or not found |
| `FsVariable.VariableGlobal.GetNextVariableName` | edk2/DuetPkg/FSVariable/FSVariable.c:1364-1467 | returns name and GUID of the record named next, crossing from the first store to the second, or the size needed, or not found |
| `FsVariable.VariableGlobal.MarkOld` | edk2/DuetPkg/FSVariable/FSVariable.c:1277-1286 | the last write of an update goes to the store of the new record: it marks the old record there deleted, or is one stray byte when the old record is in the other store |
| `FsVariable.VariableGlobal.UpdateVariable` | edk2/DuetPkg/FSVariable/FSVariable.c:1064-1293 | every single write to the memories is the one the update's run has at that place, in the same order, and leaves the image of that state; status and logs are those of the last state; a stray mark is one byte more |
| `FsVariable.VariableGlobal.SetVariable` | edk2/DuetPkg/FSVariable/FSVariable.c:1469-1568 | refuses bad arguments without a write; otherwise status, logs and the journal of writes are those of the update's run |
| `FsVariable.RefusedIs` | edk2/DuetPkg/FSVariable/FSVariable.c:1500-1548 | the arguments that SetVariable refuses, in numbers: no name, bit 4 of the attributes, bit 2 without bit 1, more bytes than the limit of its kind, or bit 3 without a name that begins with HwErrRec |
| `MemoryMap.AddOverwrites` | edk2/DuetPkg/EfiLdr/Support.c:44-87 | a region inside one free descriptor, or apart from all, is overwritten on the page map; every other page keeps its use, and nothing comes to overlap free memory |
| `MemoryMap.FreeOnce` | edk2/DuetPkg/EfiLdr/Support.c:22-88 | where nothing overlaps free memory, a free page has no other use |
| `MemoryMap.PickHighest` | edk2/DuetPkg/EfiLdr/Support.c:107-129 | FindSpace's loop chooses the highest free region below 4 GB that is large enough and not behind a runtime region, or finds there is none |
| `MemoryMap.SpaceOverwrites` | edk2/DuetPkg/EfiLdr/Support.c:131-148 | the region returned was free, lies at the top of the chosen descriptor below 4 GB, and is all that changes |
| `MemoryMap.SpaceIs` | edk2/DuetPkg/EfiLdr/Support.c:102-148 | in bytes: room is found exactly when a region of conventional memory with n pages that ends above 1 MB and at 4 GB at most, and does not begin at 0, stands in front of the first runtime region that ends above 1 MB; it is taken from the top of the one that begins highest |
| `MemoryMap.SpaceConserves` | edk2/DuetPkg/EfiLdr/Support.c:135-146 | the total number of pages stays the same |
| `MemoryMap.Adjacent` | edk2/DuetPkg/EfiLdr/Support.c:104-148 | for every map: a second region lies right below the first if and only if the descriptor that served the first has enough pages left above 1 MB and no higher reachable region has enough, or, when the first used it up, another free region that is the highest ends where it begins |
| `MemoryMap.FixupsElsewhere` | edk2/DuetPkg/EfiLdr/PeLoader.c:526-531 | a map on which the fixups of an image do not go below it: free pages 0x200 to 0x1200 and four at 0x2000, calls for 0x10 pages and 2 |
| `MemoryMap.Stack` | edk2/DuetPkg/EfiLdr/Support.c:104-148 | regions served by one descriptor stack downward without holes |
| `MemoryMap.TwoImagesContiguous` | edk2/DuetPkg/DxeIpl/DxeInit.c:200-205 | with one descriptor serving both images and their fixups, each image's fixups lie right below it and the length registered for DxeCore is the sum of the four parts |
| `MemoryMapGen.RegionsApart` | edk2/DuetPkg/EfiLdr/Support.c:192-205 | rounding memory inwards and the rest outwards makes no memory region overlap another |
| `MemoryMapGen.GenerateTidy` | edk2/DuetPkg/EfiLdr/Support.c:165-236 | for byte-disjoint BIOS entries nothing overlaps free memory in the finished map, which is what carving and allocating rely on |
| `MemoryMapGen.FreePagesAreMemory` | edk2/DuetPkg/EfiLdr/Support.c:165-236 | for byte-disjoint BIOS entries a free page lies wholly inside one memory entry and touches no other |
| `MemoryMapGen.GeneratedUses` | edk2/DuetPkg/EfiLdr/Support.c:151-237 | what the finished map says of every page, both ways: for entries apart from each other a page has a use if and only if some entry gives it, memory its whole pages, as free memory unless its region begins above 1 MB and below 4 GB with another entry beginning there below it, ACPI, NVS and all other entries every page they touch, with their own types and attributes |
| `MemoryMapGen.NoneAboveCeiling` | edk2/DuetPkg/EfiLdr/Support.c:228-236 | no free region above 1 MB and below 4 GB starts at or above the ceiling |
| `MemoryMapGen.CeilingLowest` | edk2/DuetPkg/EfiLdr/Support.c:209-213 | the ceiling is at or below every region between 1 MB and 4 GB that is not memory |
| `MemoryMapGen.DescriptorTable.EfiAddMemoryDescriptor` | edk2/DuetPkg/EfiLdr/Support.c:22-88 | the array becomes the carved and extended one |
| `MemoryMapGen.DescriptorTable.FindSpace` | edk2/DuetPkg/EfiLdr/Support.c:90-149 | array and address are those of the chosen region |
| `MemoryMapGen.DescriptorTable.GenMemoryMap` | edk2/DuetPkg/EfiLdr/Support.c:151-237 | the array becomes the map of the BIOS entries, clipped at the ceiling |
| `PeRelocation.OthersUnchanged` | edk2/DuetPkg/EfiLdr/PeLoader.c:461-520 | a byte no relocation entry touches is unchanged |
| `PeRelocation.SitePatched` | edk2/DuetPkg/EfiLdr/PeLoader.c:464-505 | with disjoint entries every field is patched once, whatever stands before and behind it in the list |
| `PeRelocation.FieldIncreased` | edk2/DuetPkg/EfiLdr/PeLoader.c:464-505 | in numbers: a field of type 3 grows by the amount modulo 2^32, of type 10 modulo 2^64, of type 2 modulo 2^16, and of type 1 by the high half of its low 32 bits modulo 2^16 |
| `PeRelocation.OrderFree` | edk2/DuetPkg/EfiLdr/PeLoader.c:447-524 | the same disjoint entries in any order give the same image |
| `PeRelocation.RelocationUndone` | edk2/DuetPkg/EfiLdr/PeLoader.c:469-505 | relocating by the opposite amount restores the image if and only if every HIGH entry was moved by a multiple of 64 KB |
| `PeRelocation.EntryRoundTrip` | edk2/DuetPkg/EfiLdr/PeLoader.c:461-464 | an entry printed as type * 0x1000 + offset is read as that type at that offset in its page |
| `PeRelocation.DirectoryRoundTrip` | edk2/DuetPkg/EfiLdr/PeLoader.c:436-524 | a printed directory is parsed to the fields its blocks mean, in order, and a block that runs past the image behind it is an error |
| `PeRelocation.LogFits` | edk2/DuetPkg/EfiLdr/PeLoader.c:436-505 | the aligned fixup log never exceeds Size/2 * sizeof(UINTN) bytes, nor the pages set aside, when the last block ends at most seven bytes behind the directory; whatever the blocks, a log of fields as wide as UINTN stays within it if and only if there are at most Size/2 sites, and any log lies between the sum of its widths and one UINTN for each site |
| `PeRelocation.LogOverflows` | edk2/DuetPkg/EfiLdr/PeLoader.c:436-505 | a directory of eight bytes whose block of 18 bytes logs 40 bytes where Size/2 * sizeof(UINTN) is 32 |
| `PeLoader.LoadedImage.Fixup` | edk2/DuetPkg/EfiLdr/PeLoader.c:463-516 | one entry patches its field and logs the new value |
| `PeLoader.LoadedImage.LoadPeRelocate` | edk2/DuetPkg/EfiLdr/PeLoader.c:404-534 | fails without a change when directory or space is missing, else patches exactly the directory's sites and logs their values; image base and pages then cover the fixups below |
| `PeLoader.LogHolds` | edk2/DuetPkg/EfiLdr/PeLoader.c:464-512 | the log holds, for every entry in order, the value its field has in the relocated image, at the next place aligned to its width |
| `PeLoader.PrintedLoads` | edk2/DuetPkg/EfiLdr/PeLoader.c:418-526 | every printed directory whose fields lie inside the image, outside the directory and apart from each other meets what LoadPeRelocate requires |
| `BiosVideo.BiosVideoDev.CopyVideoBuffer` | edk2/DuetPkg/BiosVideoThunkDxe/BiosVideo.c:1826-1896 | the three partial writes together copy the line segment whatever the alignment |
| `BiosVideo.BiosVideoDev.constructor` | edk2/DuetPkg/BiosVideoThunkDxe/BiosVideo.c:1283-1386 | every mode of 24 or 32 bits with colours of at most eight bits in places of their own meets what the transfers require |
| `BiosVideo.BiosVideoDev.VideoToVideo` | edk2/DuetPkg/BiosVideoThunkDxe/BiosVideo.c:2041-2074 | every pixel of the destination shows what the source showed before, whatever the overlap, no other byte changes, and the hardware buffer equals the shadow; a destination off the screen is refused |
| `BiosVideo.BiosVideoDev.VideoFill` | edk2/DuetPkg/BiosVideoThunkDxe/BiosVideo.c:2076-2121 | every pixel of the rectangle shows the colour, cut to the masks of the mode, no other byte changes, and the hardware buffer equals the shadow |
| `BiosVideo.BiosVideoDev.BufferToVideo` | edk2/DuetPkg/BiosVideoThunkDxe/BiosVideo.c:2123-2159 | every pixel of the rectangle shows the pixel of the caller, cut to the masks, no other byte changes, and the hardware buffer equals the shadow |
| `BiosVideo.BiosVideoDev.VideoToBuffer` | edk2/DuetPkg/BiosVideoThunkDxe/BiosVideo.c:2021-2039 | the caller's rectangle becomes the unpacked pixels of the screen and nothing else changes |
| `PixelCodec.PackedBits` | edk2/DuetPkg/BiosVideoThunkDxe/BiosVideo.c:2131-2133 | bit by bit: a packed pixel has the bits of each colour in its channel, and no other |
| `PixelCodec.UnpackBits` | edk2/DuetPkg/BiosVideoThunkDxe/BiosVideo.c:2030-2032 | and a colour read back has the bits of its channel, and no other |
| `PixelCodec.PixelRoundTrip` | edk2/DuetPkg/BiosVideoThunkDxe/BiosVideo.c:2030-2032 | a packed pixel unpacks to its colours, each cut to the bits the mode has for it |
| `PixelCodec.LineRoundTrip` | edk2/DuetPkg/BiosVideoThunkDxe/BiosVideo.c:2127-2141 | every pixel of a written line reads back as itself, cut to the masks |
| `FvbBlockMap.Tiles` | edk2/DuetPkg/FvbRuntimeService/FWBlockService.c:392-433 | an address exists exactly for block numbers below the block count, and the blocks tile the volume from 0 to its end |
| `FvbBlockMap.BlocksDisjoint` | edk2/DuetPkg/FvbRuntimeService/FWBlockService.c:392-433 | no byte belongs to two blocks |
| `FvbBlockMap.BlockAt` | edk2/DuetPkg/FvbRuntimeService/FWBlockService.c:381-432 | block j of run i stands behind all earlier runs and j blocks of its own, with the length of its run and the number of blocks left in it |
| `FvbBlockMap.CountIsAlike` | edk2/DuetPkg/FvbRuntimeService/FWBlockService.c:413-418 | so many blocks from this one on have its length and follow one another |
| `FvbBlockMap.CheckedIs` | edk2/DuetPkg/FvbRuntimeService/FWBlockService.c:995-1003 | the check accepts exactly the lists without an empty pair whose pairs name existing blocks only, or wrap to a small enough end |
| `FvbBlockMap.EraseAllOrRefuse` | edk2/DuetPkg/FvbRuntimeService/FWBlockService.c:949-953 | for lists without a wrapping pair: accepted if and only if all blocks exist, and then exactly the blocks named become 0xff |
| `FvbBlockMap.EraseAllExact` | edk2/DuetPkg/FvbRuntimeService/FWBlockService.c:986-1031 | a checked list is erased up to its first pair that wraps: exactly the blocks requested before it become 0xff |
| `FvbBlockMap.EraseAllOk` | edk2/DuetPkg/FvbRuntimeService/FWBlockService.c:986-1031 | a checked list is erased to its end and reported as done if and only if no pair wraps |
| `FvbBlockMap.AllOrNothing` | edk2/DuetPkg/FvbRuntimeService/FWBlockService.c:949-953 | a checked list is erased exactly as requested, or refused without a change, if and only if no pair wraps or all blocks requested before the first that does are blank already |
| `FvbBlockMap.WrapErasesHalf` | edk2/DuetPkg/FvbRuntimeService/FWBlockService.c:999-1002 | a list on which it is neither: the second pair wraps, and block 0 has gone when the call fails |
| `FvbDevice.FirmwareVolume.FlashFdWrite` | edk2/DuetPkg/FvbRuntimeService/FWBlockService.c:67-115 | the bytes are written, and outside runtime the mapped file stays equal to memory from its offset on |
| `FvbDevice.FirmwareVolume.constructor` | edk2/DuetPkg/FvbRuntimeService/FWBlockService.c:1519-1567 | counts the blocks of all runs; every volume below 4 GB with an unbroken block map, in memory that holds it, meets what the other operations require |
| `FvbDevice.FirmwareVolume.GetLbaAddress` | edk2/DuetPkg/FvbRuntimeService/FWBlockService.c:342-434 | the walk through the block map finds the block |
| `FvbDevice.FirmwareVolume.ReadBlock` | edk2/DuetPkg/FvbRuntimeService/FWBlockService.c:436-520 | returns the bytes asked for up to the block's end, all of them if they fit, with the status for each refusal |
| `FvbDevice.FirmwareVolume.WriteBlock` | edk2/DuetPkg/FvbRuntimeService/FWBlockService.c:521-626 | writes the bytes of the access cut at the block's end, or nothing with the status for each refusal |
| `FvbDevice.FirmwareVolume.EraseOne` | edk2/DuetPkg/FvbRuntimeService/FWBlockService.c:628-698 | the block becomes 0xff in memory and file, or nothing changes |
| `FvbDevice.FirmwareVolume.EraseBlocks` | edk2/DuetPkg/FvbRuntimeService/FWBlockService.c:940-1032 | a list that fails the check or may not be written changes nothing, otherwise the blocks are erased in order; on a writable volume a list whose pairs do not wrap erases exactly its blocks if all of them exist, and is refused otherwise |
| `FvbDevice.FirmwareVolume.SetVolumeAttributes` | edk2/DuetPkg/FvbRuntimeService/FWBlockService.c:700-807 | status and attributes follow the lock and capability rules |
| `FvbDevice.RequestSucceeds` | edk2/DuetPkg/FvbRuntimeService/FWBlockService.c:746-806 | bit by bit when a request succeeds, is denied or is invalid, and what the attributes then are |
| `FvbDevice.OneRequest` | edk2/DuetPkg/FvbRuntimeService/FWBlockService.c:746-806 | a request changes status bits only, none when the volume is locked, and sets them as asked on success |
| `FvbDevice.LockedForever` | edk2/DuetPkg/FvbRuntimeService/FWBlockService.c:756-760 | no sequence of requests changes a locked volume, and none ever changes a capability |
| `FvbDevice.OnlyPermitted` | edk2/DuetPkg/FvbRuntimeService/FWBlockService.c:764-800 | whatever the sequence of requests, a status bit only changes in a direction the volume has the capability for |

## Left out

- The language variables: `AutoUpdateLangVariable` runs between the search and the update and may reclaim, which leaves the saved pointer stale (edk2/DuetPkg/FSVariable/FSVariable.c:1558-1565); `SetVariable` is modelled for all other names.
- The running totals of common and hardware-error variables outside a reclaim: start-up counts them in header units (edk2/DuetPkg/FSVariable/FSVariable.c:1864) and updates add volatile sizes too (edk2/DuetPkg/FSVariable/FSVariable.c:1268-1272), so they are not conserved; `Reclaim` returns its two.
- `QueryVariableInfo`: it only sums sizes along the same walk.
- Null pointers, failed allocations, file protocol errors, events, device paths, task priorities and virtual address conversion: foreign calls. Storage is byte arrays; runtime is a parameter.
- FsStore.VariableStore.Reclaim: erasing and writing back are two steps in `VariableRun`, but each of them is one atomic step there; a write torn in the middle is not modelled. The buffer the source allocates for the new contents is a growing sequence, and a failed write back is left out.
- FsVariable.VariableGlobal.UpdateVariable: requires that the new record's size plus the store's does not wrap in 32 bits; `SetVariable` derives it from its size limits. Moves whose stray mark falls beyond the end of the new store, as for `MarkOld`.
- VariableBytes.Walk: alignment other than 1, which only IA-64 uses.
- TianoDecompress.Decompress: `sizeof (SCRATCH_DATA)` is a parameter, and the source buffer is cut to the compressed size, which is all that the bit reader sees.
- `GetInfo` of the decompressor and the protocol wrappers: they only read the size field.
- MemoryMap.AddOverwrites: a region that overlaps several descriptors, or one that is not free memory, gets a descriptor that overlaps theirs; no caller makes one.
- MemoryMapGen.DescriptorTable.GenMemoryMap: BIOS entries whose end does not fit in 64 bits, and memory entries that begin and end inside one page, whose unsigned length wraps.
- PE headers, sections, CodeView data and the entry point: plain copying. HIGHADJ entries: the source stops in an endless loop.
- BiosVideo.BiosVideoDev.VideoToBuffer: the source reads four bytes for every pixel; with three bytes per pixel the fourth is masked off, so only the pixel's own bytes are read here. Delta only says where the caller's rows begin.
- The VGA planar modes, mode setting, EDID parsing and the INT 10h thunks: device programming.
- The boot menus, status code tables, HOB filling and the ARM start-up code: no algorithm.
- MakeTable.MakeTable: accepted lengths with a code that overflows its length; they have no meaning in the format, and the source enters some of them over other symbols and others outside the table.
- TianoDecompress.ScratchData.ReadPTLen: lengths above 16, single symbols outside the set and accepted lengths that are no complete code; they have no meaning in the format.
- TianoDecompress.ScratchData.ReadCLen: lengths that MakeTable refuses, whose result the source drops, and the same inputs as ReadPTLen.
- TianoDecompress.ScratchData.Decode: streams without a meaning in the format.
- VariableMoves.MovedOutcome: of the marks that go astray, those on a record's size fields or on the terminator of its name, after which the bytes behind it are read as something else; `StrayByte` says that the log then does not survive unless the byte was there already.
- FsVariable.VariableGlobal.MarkOld: a stray mark beyond the end of the new store, which the source only asserts.
- FsVariable.VariableGlobal.SetVariable: moves with such a mark.
- VariableRun.UpdateRun: requests that change a variable's volatility; `MovedIsStray` shows that the invariant does not survive them, `VariableServices` what does.
- PeLoader.LoadedImage.LoadPeRelocate: directories with sites among their own bytes, which the source reads back patched, blocks of size zero, on which it does not end, and logs larger than their pages.
- BiosVideo.BiosVideoDev.VideoToVideo: a source rectangle off the screen, which the source does not check.
- FvbDevice.FirmwareVolume.FlashFdWrite: a write that ends in the part the mapped file lacks, for which the length of the file write wraps.
- FvbDevice.FirmwareVolume.WriteBlock: such a write, cut at the block's end.
