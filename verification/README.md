# A verified model of the DUET firmware core

DUET is the part of EDK II that boots UEFI on a legacy BIOS. This project
models six of its components in Dafny and proves what they promise.

* **The EFI 1.1 / Tiano decompressor** (`DuetPkg/EfiLdr/TianoDecompress.c`).
  The format is specified as a parser over a zero-padded bit stream
  (`TianoFormat`), with prefix codes defined by the canonical rule
  (`CanonicalCode`). The decoder itself is a class over mutable arrays
  (`Tiano`, `MakeTable`) in the 16- and 32-bit arithmetic of the original: a
  bit reader that ORs stale bits, a flat table with overflow trees in shared
  node pools in which 0 means "not allocated", and a byte-by-byte copy loop.
  It is proved to compute what the specification says. `TianoEncode` and
  `TianoRoundTrip` define how files are written in the format, with every choice
  of codes, of zero runs and of literals or back-references that a compressor
  has, and prove that decoding gives the file back, and that every file can be
  written; `TianoErrors` has the corruption that is reported.
* **The variable store** (`DuetPkg/FSVariable/FSVariable.c`). `VariableLog`
  and `VariableService` say what the services do to two logs of records;
  `VariableLaws`, `VariableNames` and `VariableEnumeration` prove the laws over
  all runs, `VariableRuntime` those of the services at runtime, and
  `VariableExamples` works out two runs where things go wrong;
  `VariableLayout`, `VariableStore` and `VariableDriver` do the same work on
  the bytes of the two stores and are proved to refine the logs. In plain
  numbers, `VariableRequests` says which requests are taken and `VariableBytes`
  how a store is laid out.
* **The loader's memory map** (`DuetPkg/EfiLdr/Support.c`): `MemoryMap`,
  `E820` and, in place on a descriptor table, `MemoryMapTable`; `MapContents`
  says in plain numbers what the map holds and when there is space.
* **VBE block transfers** (`DuetPkg/BiosVideoThunkDxe/BiosVideo.c`): `Rows`,
  `Pixels` and `VbeBlt`; `VbePixels` follows every bit from the caller's bytes to
  the screen and back.
* **PE base relocation** (`DuetPkg/EfiLdr/PeLoader.c`): `PeFixups` and
  `PeReloc`; `PeEntries` reads relocation off the bytes of the image.
* **The firmware volume block service**
  (`DuetPkg/FvbRuntimeService/FWBlockService.c`): `FirmwareVolume`.

`Words` has machine words as bounded integers and the bit operations;
`Bytes` has optional values and overwriting a stretch of bytes.

The decompressed format is described in section 19.2 of the UEFI
Specification 2.10, the variable services in section 8.2, the block transfer in
section 12.9; E820 in section 15.1 of ACPI 6.4; the `.reloc` section in section
5.6 of the Microsoft PE/COFF Specification, revision 8.

## What is proved, in short

* For every complete code with lengths up to 16, the table and the trees built
  by `MakeTable` give, for every 16-bit window, the one symbol whose canonical
  code starts it; fewer nodes are used than there are symbols; and building the
  position table leaves the Char&Len table's lookups as they were although both
  use the same node arrays.
* `Decompress` writes exactly what the specification expands the source to, or
  reports an error with the output so far in place. A stream of blocks is
  decompressed to the bytes it stands for, whatever codes and tokens it uses; as
  in the original, the last zero run of a list of lengths and the last
  back-reference may go beyond what was announced. Bytes behind the file do not
  matter; a file cut short, a destination of another length or an unknown version
  is rejected (`Restore`), and a bad code table behind any blocks ends with an
  error and the output so far (`Report`).
* Over every boot-time run of `SetVariable`, a lookup shows the data of the
  last successful set of its key unless a delete followed; calls for other keys
  change neither data nor attributes, reclaims included. Each key has a stack
  of at most two live values, and every call is described by what it does to
  these stacks. A delete removes a variable if and only if its stack has one
  value; after an update that had to reclaim it does not, and the old value
  comes back (`DeleteResurrects`, `ResurrectionExample`).
* A request is invalid exactly for the reasons listed in `InvalidExactly`; any
  other set with room in its store succeeds, and header, name and data have to
  fit the limit for their kind and no other (`TakenExactly`). A set without data
  or without access uncovers the value below (`DeletesExactly`).
* A set that finds the same data stored returns success without storing the
  new attributes: the law of one call (`UpdateObeys`) says so.
* A runtime lookup shows the newest live value that has runtime access. It
  shows what a boot-time lookup shows if and only if the newest value is not
  hidden from it, and then runtime updates obey the same law. In every case a
  successful runtime set shows at the next boot unless it wrote nothing because
  the data it found was the same, or an added non-volatile record that runtime
  does not see shadows it; it is lost if and only if one of these holds and
  other data showed before (`RuntimeSetLostIff`, with `HiddenValueReturns` an
  instance). A runtime set that writes breaks the order of the stores if and only
  if the newest value is hidden and is volatile or added (`RuntimeGoodIff`); no
  runtime update touches other keys.
* Enumerating the names always ends and returns no name twice. It passes by
  exactly the keys whose newest record lies before the first record found or
  between a returned record and the newest one of its key, and is complete if
  and only if there are none. After every boot-time run at most one key of each
  store has two live records; a variable between these two is never returned
  (`SkippingExample`).
* Adding a region to the memory map is a pointwise override of the use of
  pages if and only if the region lies in one conventional descriptor or apart
  from all; the regions given out by a run of `FindSpace` are pairwise apart and
  no page is lost. From the BIOS map on, each of them lies in one memory entry
  below 4 GB (`AllocationsLaw`). The finished map has exactly one kind of
  descriptor for every entry (`GenMapExactly`): whole pages of memory are kept
  unless they start between 1 MB and 4 GB above a hole, and a first call succeeds
  exactly if such memory offers enough pages (`FirstCall`).
* A video-to-video transfer is a simultaneous copy for every overlap, and the
  physical frame buffer stays equal to its shadow. Pixels written to the screen
  read back as their masked colours. The driver's coordinate check is right if
  and only if the coordinates do not wrap around onto the screen
  (`PassesExactly`). Every bit on the screen is the bit of the caller's blue, green
  or red byte that owns it, at its place in plain arithmetic (`Transfer`,
  `ReadBack`).
* Relocation adds the adjustment once to each field that an entry of the table
  names, block address and all, touches nothing else (`RelocateImage`), and never
  outgrows its log. The negative adjustment gives the image back if
  and only if no entry that is run is irreversible; with 64-bit words, if and
  only if no HIGH entry is run or the adjustment is a multiple of 64 KB.
* Erasing blocks is all or nothing unless the end of a range wraps around 64
  bits; what happens then is part of the contract, and `WrappingList` is a list
  that erases a block and then fails.

## Model

| member | source | states |
|---|---|---|
| BitStream.RefillAllWord | DuetPkg/EfiLdr/TianoDecompress.c:96-119 | ORing the last fetched byte over the vacated bits gives the buffer for the bits shifted in so far, although the byte's high bits are stale |
| BitStream.RefillLastWord | DuetPkg/EfiLdr/TianoDecompress.c:121-122 | the same for the last, partial byte |
| Tiano.ScratchData.FillBuf | DuetPkg/EfiLdr/TianoDecompress.c:77-123 | after shifting in n more bits the buffer holds the last 32 bits shifted in of the zero-padded source, and the reader's invariant holds |
| Tiano.ScratchData.GetBits | DuetPkg/EfiLdr/TianoDecompress.c:126-156 | the result is the number spelled by the next n bits of the source, and exactly these are consumed |
| CanonicalCode.PrefixesIsInterval | DuetPkg/EfiLdr/TianoDecompress.c:210-216 | a code starts a window exactly if the window lies in the interval that the start values assign to the symbol |
| CanonicalCode.SpansDisjoint | DuetPkg/EfiLdr/TianoDecompress.c:210-216 | the intervals of different symbols are disjoint |
| CanonicalCode.SymbolExists | DuetPkg/EfiLdr/TianoDecompress.c:210-221 | with a complete code every window is started by some symbol's code |
| CanonicalCode.SymbolUnique | DuetPkg/EfiLdr/TianoDecompress.c:210-221 | and by no other symbol's code |
| HuffmanForest.FewerNodesThanSymbols | DuetPkg/EfiLdr/TianoDecompress.c:244-289 | a complete code has fewer inner nodes than symbols, so node numbers stay below 2n - 1 |
| HuffmanBuild.RoomForNode | DuetPkg/EfiLdr/TianoDecompress.c:269-272 | whenever a node is allocated there is room for it |
| HuffmanLookup.ZeroFillSkipped | DuetPkg/EfiLdr/TianoDecompress.c:235-242 | the zero fill is skipped exactly if no code is longer than the table bits |
| HuffmanLookup.LookupFinds | DuetPkg/EfiLdr/TianoDecompress.c:565-579 | table then trees give the symbol whose canonical code starts the window |
| HuffmanLookup.DecodesFrame | DuetPkg/EfiLdr/TianoDecompress.c:551-561 | changing only nodes that a table does not use leaves all its lookups |
| HuffmanLookup.BuiltDescends | DuetPkg/EfiLdr/TianoDecompress.c:268-284 | in the finished arrays every child of a node is a symbol or a node with a higher number, and the table leads to symbols and nodes |
| HuffmanLookup.InsertKeepsBuilt | DuetPkg/EfiLdr/TianoDecompress.c:264-284 | inserting one long code, allocating nodes on the way, keeps what was built for the symbols before it and adds the new one |
| HuffmanLookup.InsertFramed | DuetPkg/EfiLdr/TianoDecompress.c:268-282 | an insertion writes only nodes from n to 2n - 2 |
| MakeTable.CountLengths | DuetPkg/EfiLdr/TianoDecompress.c:202-208 | counts the symbols of each length |
| MakeTable.StartCodes | DuetPkg/EfiLdr/TianoDecompress.c:210-216 | each start value is the code space taken by shorter codes, modulo 2^16 |
| MakeTable.ScaleStarts | DuetPkg/EfiLdr/TianoDecompress.c:223-228 | start values and weights for table entries |
| MakeTable.ZeroFill | DuetPkg/EfiLdr/TianoDecompress.c:235-242 | clears the table from the first long code on and nothing else |
| MakeTable.FillStretch | DuetPkg/EfiLdr/TianoDecompress.c:256-260 | fills the entries of a short code and no others |
| MakeTable.InsertLong | DuetPkg/EfiLdr/TianoDecompress.c:262-284 | the pointer loop does what the insertion along the code's path does |
| MakeTable.InsertSymbol | DuetPkg/EfiLdr/TianoDecompress.c:249-288 | one symbol: what was built stays, the symbol is added, the start value is the code of the next symbol of that length |
| MakeTable.Make | DuetPkg/EfiLdr/TianoDecompress.c:159-294 | returns 0 exactly if the Kraft sum is a multiple of 2^16; for a complete code every window then looks up to its symbol and every child is a symbol or a higher node; only nodes n to 2n - 2 change |
| Tiano.ScratchData.LookUp | DuetPkg/EfiLdr/TianoDecompress.c:320-335 | the descent over the bits of the buffer is the lookup of the next 16 bits |
| Tiano.ScratchData.ReadPTLen | DuetPkg/EfiLdr/TianoDecompress.c:350-428 | reads the code of the extra or position set that the format specifies, consumes exactly its bits and loads its table, or reports a bad table |
| Tiano.ScratchData.ReadCLen | DuetPkg/EfiLdr/TianoDecompress.c:431-521 | reads and loads the code of the Char&Len set |
| Tiano.ScratchData.LargeStaysLoaded | DuetPkg/EfiLdr/TianoDecompress.c:551-561 | building the position table leaves the Char&Len table loaded |
| Tiano.ScratchData.StartBlock | DuetPkg/EfiLdr/TianoDecompress.c:546-562 | a block header as specified, with both codes loaded at the end |
| Tiano.ScratchData.DecodeC | DuetPkg/EfiLdr/TianoDecompress.c:524-586 | the next symbol of the Char&Len set, after a new header if the block is used up |
| Tiano.ScratchData.DecodeP | DuetPkg/EfiLdr/TianoDecompress.c:297-347 | the next distance |
| Tiano.ScratchData.CopyMatch | DuetPkg/EfiLdr/TianoDecompress.c:638-648 | the copy loop appends what copying byte by byte from dist + 1 back gives, stopping when the output is full |
| TianoFormat.CopyBackPeriodic | DuetPkg/EfiLdr/TianoDecompress.c:641-648 | a self-overlapping copy repeats the last dist + 1 bytes periodically |
| TianoFormat.ExpandExtends | DuetPkg/EfiLdr/TianoDecompress.c:614-650 | a finished output has the announced size and output is never taken back |
| Tiano.ScratchData.Decode | DuetPkg/EfiLdr/TianoDecompress.c:589-654 | terminates and delivers what the specification expands the stream to |
| Tiano.DecodeBody | DuetPkg/EfiLdr/TianoDecompress.c:797-818 | sets up the scratch data and delivers the outcome of the body |
| Tiano.Decompress | DuetPkg/EfiLdr/TianoDecompress.c:697-821 | rejects, does nothing, or delivers the outcome of the body; on an error the output so far is in place and the rest is untouched |
| TianoEncode.ReadsLength | DuetPkg/EfiLdr/TianoDecompress.c:401-413 | a length in the 3-bit/unary code is read back and exactly its bits are consumed |
| TianoEncode.ReadsLengths | DuetPkg/EfiLdr/TianoDecompress.c:397-425 | a list of lengths with its zero run after the special index is read back |
| TianoEncode.ReadsSmallCode | DuetPkg/EfiLdr/TianoDecompress.c:381-427 | a written extra or position code is read back and exactly its bits are consumed |
| TianoEncode.ReadsItems | DuetPkg/EfiLdr/TianoDecompress.c:469-512 | lengths written with the zero-run symbols are read back |
| TianoEncode.ReadsLargeCode | DuetPkg/EfiLdr/TianoDecompress.c:453-518 | a written Char&Len code is read back and exactly its bits are consumed |
| TianoRoundTrip.ReadsHeader | DuetPkg/EfiLdr/TianoDecompress.c:546-562 | a written block header is read back |
| TianoRoundTrip.ReadsToken | DuetPkg/EfiLdr/TianoDecompress.c:615-649 | a written literal or back-reference has its effect on the output |
| TianoRoundTrip.ReadsBlocks | DuetPkg/EfiLdr/TianoDecompress.c:614-650 | written blocks decode to what they stand for, up to the announced size; the zeros after them are read as a block that finds the output full |
| TianoRoundTrip.RoundTrip | DuetPkg/EfiLdr/TianoDecompress.c:697-821 | whatever blocks a compressor chooses and whatever bytes follow the file, it is admitted and its outcome is what the blocks stand for, up to the announced size |
| TianoRoundTrip.Rejects | DuetPkg/EfiLdr/TianoDecompress.c:749-795 | every proper prefix of a compressed file is rejected, and so are a destination of another length and a version other than 1 or 2 |
| TianoRoundTrip.Restore | DuetPkg/EfiLdr/TianoDecompress.c:697-821 | what a caller gets: success and the data exactly for a whole file, with or without bytes behind it, a destination of the announced length and a known version; else an error and an unchanged destination |
| TianoRoundTrip.OneByteFile | DuetPkg/EfiLdr/TianoDecompress.c:546-562 | fifteen literal bytes decode to n times one byte, for every n up to 65536, every byte and both versions |
| TianoErrors.ReportsCorruption | DuetPkg/EfiLdr/TianoDecompress.c:218-221 | behind any blocks, an extra or position code whose Kraft sum is no multiple of 2^16 ends the decoding with the output so far |
| TianoErrors.Report | DuetPkg/EfiLdr/TianoDecompress.c:809-816 | and the caller gets an error, the output so far, and the rest of the destination untouched |
| TianoRoundTrip.ExactlyAnnounced | DuetPkg/EfiLdr/TianoDecompress.c:614-650 | blocks that stand for exactly the announced size never run short of room |
| TianoRoundTrip.EveryFile | DuetPkg/EfiLdr/TianoDecompress.c:697-821 | every sequence of bytes is what some blocks stand for |
| VariableLayout.PadAligns | MdeModulePkg/Include/Guid/VariableFormat.h:38-42 | the pad completes a multiple of the alignment, for every power of two |
| VariableLayout.PadIsLeast | MdeModulePkg/Include/Guid/VariableFormat.h:35-42 | no smaller pad does |
| VariableLayout.NamesPrefixFree | DuetPkg/FSVariable/FSVariable.c:267-268 | comparing StrSize bytes compares the names |
| VariableLayout.ParsesRecord | DuetPkg/FSVariable/FSVariable.c:153-205 | at a written record the walking routines find its state, attributes, name, GUID and data, and the start of the next record |
| VariableLayout.WalkStops | DuetPkg/FSVariable/FSVariable.c:1857-1874 | walking a store visits the records in turn and stops exactly at their end |
| VariableLayout.AppendHolds | DuetPkg/FSVariable/FSVariable.c:1256-1266 | writing the image of a record at the end appends it to the log |
| VariableLayout.StateHolds | DuetPkg/FSVariable/FSVariable.c:1278-1286 | writing a state byte changes that record's state and nothing else |
| VariableLog.SearchConcat | DuetPkg/FSVariable/FSVariable.c:466-547 | searching one store after the other is searching both as one log |
| VariableLog.SearchFindsVisible | DuetPkg/FSVariable/FSVariable.c:424-550 | the search by key finds the newest visible record, at boot time and at runtime, and nothing exactly if there is none |
| VariableLog.SearchFindsNewest | DuetPkg/FSVariable/FSVariable.c:424-550 | at boot time the search by key finds the newest live record |
| VariableLog.ReclaimKeepsTop | DuetPkg/FSVariable/FSVariable.c:279-421 | reclaiming leaves of every key exactly its newest value |
| VariableService.ReclaimDistinct | DuetPkg/FSVariable/FSVariable.c:353-394 | after reclaiming no key has two live records |
| VariableService.ReclaimLive | DuetPkg/FSVariable/FSVariable.c:353-394 | no dead record is left; without a current record all are added |
| VariableService.ReclaimIdempotent | DuetPkg/FSVariable/FSVariable.c:279-421 | reclaiming again changes nothing |
| VariableService.ReclaimShrinks | DuetPkg/FSVariable/FSVariable.c:353-396 | reclaiming never increases the used size |
| VariableLaws.FindsNewest | DuetPkg/FSVariable/FSVariable.c:424-550 | FindVariable finds the newest live record in the store that has one, and nothing exactly if there is none |
| VariableLaws.LookupIsView | DuetPkg/FSVariable/FSVariable.c:1333-1361 | a boot-time lookup shows the newest live value |
| VariableLaws.UpdateWrites | DuetPkg/FSVariable/FSVariable.c:1227-1291 | the exact new state and status of an update that writes, in each of its four ways |
| VariableLaws.ReplacedStacks | DuetPkg/FSVariable/FSVariable.c:1256-1291 | without reclaim the new value takes the place of the newest one; other keys keep all theirs |
| VariableLaws.ReclaimedForStacks | DuetPkg/FSVariable/FSVariable.c:1236-1254 | with reclaim every key of that store keeps its newest value only, the one being replaced included |
| VariableLaws.UpdateObeys | DuetPkg/FSVariable/FSVariable.c:1066-1293 | every boot-time update keeps the invariant and does to the live values of every key what the law says, for deletes, same data, writes and failures |
| VariableLaws.ObeysViews | DuetPkg/FSVariable/FSVariable.c:1066-1293 | other keys and failed calls leave lookups unchanged; a successful set shows the new value, or the old one if the data was the same |
| VariableLaws.DeleteRemoves | DuetPkg/FSVariable/FSVariable.c:1113-1131 | a successful delete removes the variable if and only if it has one live record; else the older value shows |
| VariableLaws.DeleteResurrects | DuetPkg/FSVariable/FSVariable.c:1236-1291 | after an update through Reclaim, a delete brings the old value back |
| VariableExamples.ResurrectionExample | DuetPkg/FSVariable/FSVariable.c:1236-1291 | a run from empty stores after which a delete shows the old value |
| VariableRuntime.RuntimeLookup | DuetPkg/FSVariable/FSVariable.c:486-531 | a runtime lookup shows the newest live value with runtime access, and nothing exactly if there is none |
| VariableRuntime.RuntimeViewIff | DuetPkg/FSVariable/FSVariable.c:486-531 | it shows what a boot-time lookup shows exactly if the newest value has runtime access or there is none |
| VariableRuntime.RuntimeUpdate | DuetPkg/FSVariable/FSVariable.c:1092-1108 | a runtime update is refused, or does what a boot-time update does that gets no buffer for Reclaim |
| VariableRuntime.RuntimeObeys | DuetPkg/FSVariable/FSVariable.c:1066-1293 | as long as the newest value is not hidden, runtime updates keep the invariant and obey the law |
| VariableRuntime.RuntimeSetShows | DuetPkg/FSVariable/FSVariable.c:1161-1291 | after a successful runtime set a boot-time lookup shows the new value, unless nothing was written or an added non-volatile record without runtime access shadows it; then what showed before |
| VariableRuntime.RuntimeSetLostIff | DuetPkg/FSVariable/FSVariable.c:1066-1293 | it shows other data than was set if and only if it wrote nothing or is shadowed, and other data showed before |
| VariableRuntime.RuntimeGoodIff | DuetPkg/FSVariable/FSVariable.c:1256-1291 | a runtime set that writes keeps the invariant if and only if the newest value is not hidden, or is non-volatile and in transition |
| VariableRuntime.RuntimeElse | DuetPkg/FSVariable/FSVariable.c:1066-1293 | a runtime update that is refused, fails, finds the same data or deletes keeps the invariant; it changes no lookup unless it deletes a value that is not hidden |
| VariableRuntime.RuntimeLeavesOthers | DuetPkg/FSVariable/FSVariable.c:1066-1293 | no runtime update changes what is shown of another key, not even one that breaks the invariant |
| VariableRuntime.HiddenValueReturns | DuetPkg/FSVariable/FSVariable.c:1161-1180 | the smallest store in which a runtime set is lost |
| VariableLaws.DeleteTwice | DuetPkg/FSVariable/FSVariable.c:1113-1131 | two deletes in a row always remove a variable |
| VariableLaws.StepLaw | DuetPkg/FSVariable/FSVariable.c:1469-1568 | one call of SetVariable: invariant, depth of the stacks, and what is shown for every key |
| VariableLaws.RunShowsLastSet | DuetPkg/FSVariable/FSVariable.c:1469-1568 | over every run a lookup shows the data of the last successful set unless a delete followed |
| VariableLaws.RunLeavesOthers | DuetPkg/FSVariable/FSVariable.c:1469-1568 | calls for other keys change neither data nor attributes |
| VariableLaws.RunStaysShallow | DuetPkg/FSVariable/FSVariable.c:1469-1568 | no run makes a stack deeper than two |
| VariableLaws.InterruptedUpdate | DuetPkg/FSVariable/FSVariable.c:1142-1291 | stopping an update that needs no reclaim after any of its writes leaves the old value before the append and the new one from then on |
| VariableLaws.ReclaimLaw | DuetPkg/FSVariable/FSVariable.c:279-421 | Reclaim by itself keeps the invariant and changes no lookup |
| VariableNames.EnumerationLists | DuetPkg/FSVariable/FSVariable.c:1366-1467 | the calls return the first record found and go on each time behind the newest record of the key returned, and then find nothing |
| VariableNames.NamesOnce | DuetPkg/FSVariable/FSVariable.c:1366-1467 | no name is returned twice |
| VariableNames.EnumerationExact | DuetPkg/FSVariable/FSVariable.c:1366-1467 | a key is returned exactly if its newest record is not passed by |
| VariableNames.EnumerationComplete | DuetPkg/FSVariable/FSVariable.c:1366-1467 | the enumeration is complete if and only if no newest record is passed by |
| VariableNames.DistinctComplete | DuetPkg/FSVariable/FSVariable.c:1366-1467 | with distinct keys, if and only if the first visible record is added or is the only one |
| VariableEnumeration.JumpedIff | DuetPkg/FSVariable/FSVariable.c:1403-1464 | where the stretches between live records of a key do not overlap, a record is jumped over exactly if it lies in one |
| VariableEnumeration.RunKeeps | DuetPkg/FSVariable/FSVariable.c:1469-1568 | over every run at most one key of each store has two live records |
| VariableEnumeration.EmptyStores | DuetPkg/FSVariable/FSVariable.c:1892-1908 | empty stores are such stores |
| VariableEnumeration.ReclaimedLean | DuetPkg/FSVariable/FSVariable.c:353-394 | so are reclaimed ones |
| VariableEnumeration.RunEnumerates | DuetPkg/FSVariable/FSVariable.c:1366-1467 | after every run the enumeration ends, returns no name twice, and misses exactly the variables whose newest record lies before the first one found or between two records of a key |
| VariableExamples.SkippingReached | DuetPkg/FSVariable/FSVariable.c:1236-1291 | a run of five sets from empty stores leads to such a store |
| VariableExamples.SkippingExample | DuetPkg/FSVariable/FSVariable.c:1366-1467 | in it a variable that a lookup finds is never returned |
| VariableNames.ListingHas | DuetPkg/FSVariable/FSVariable.c:1436-1463 | the listing has the key of every visible record and of no other |
| VariableNames.ListingOnce | DuetPkg/FSVariable/FSVariable.c:1436-1463 | each key is listed once |
| VariableNames.ReclaimedIsComplete | DuetPkg/FSVariable/FSVariable.c:1366-1467 | after both stores were reclaimed the enumeration is complete |
| VariableStore.CompareName | DuetPkg/FSVariable/FSVariable.c:267-268 | the comparison stops within the stored name and decides equality of names |
| VariableStore.VariableStorage.IsValidVariableHeader | DuetPkg/FSVariable/FSVariable.c:84-108 | true exactly at a record, false at the end |
| VariableStore.VariableStorage.GetNextVariablePtr | DuetPkg/FSVariable/FSVariable.c:178-205 | the start of the next record |
| VariableStore.VariableStorage.ExistNewerVariable | DuetPkg/FSVariable/FSVariable.c:233-276 | true exactly if a later live record has the same key |
| VariableStore.VariableStorage.FindIn | DuetPkg/FSVariable/FSVariable.c:486-531 | the first added match, else the last match in transition, of one store |
| VariableStore.VariableStorage.Reclaim | DuetPkg/FSVariable/FSVariable.c:279-421 | the bytes afterwards hold exactly the reclaimed log, the store header is kept, the used size does not grow |
| VariableStore.VariableStorage.AppendImage | DuetPkg/FSVariable/FSVariable.c:1256-1266 | the bytes hold the log with the record appended and LastVariableOffset is its end |
| VariableStore.VariableStorage.ClearState | DuetPkg/FSVariable/FSVariable.c:1278-1286 | the bytes hold the log with bits of one state cleared |
| VariableStore.VariableStorage.Existing | DuetPkg/FSVariable/FSVariable.c:1857-1874 | the walk over an existing store finds its end |
| VariableStore.VariableStorage.Formatted | DuetPkg/FSVariable/FSVariable.c:1892-1908 | erasing and writing a header gives a store without records |
| VariableBytes.Places | DuetPkg/FSVariable/FSVariable.c:178-205 | the first record starts at byte 28, each next one behind header, padded name and padded data |
| VariableBytes.RecordExactly | MdeModulePkg/Include/Guid/VariableFormat.h:111-136 | what it means for a store to hold a record, byte by byte: start flag, state, little-endian attributes and sizes, GUID, UTF-16 name with terminator, data at the aligned place |
| VariableBytes.StoreExactly | DuetPkg/FSVariable/FSVariable.c:1857-1874 | and a log: the records at their places, 0xff behind them |
| VariableRequests.InvalidExactly | DuetPkg/FSVariable/FSVariable.c:1504-1553 | which requests are invalid, in literal attribute bits and byte counts; they change nothing, and at boot time no other request is invalid |
| VariableRequests.TakenExactly | DuetPkg/FSVariable/FSVariable.c:1511-1553 | with valid attributes and room, a set succeeds exactly if 32 + name + data bytes are within the limit for its kind, hardware-error records also need the HwErrRec prefix; then its data shows and the other store is untouched |
| VariableRequests.StoredExactly | DuetPkg/FSVariable/FSVariable.c:1227-1291 | new data is stored exactly if its padded bytes fit, or fit after Reclaim when that gets a buffer; else the call is out of resources |
| VariableRequests.DeletesExactly | DuetPkg/FSVariable/FSVariable.c:1113-1131 | no data, or neither access attribute, takes the newest value away and uncovers the one below; nothing to take away is NotFound |
| VariableDriver.AssembleIsImage | DuetPkg/FSVariable/FSVariable.c:1190-1223 | the bytes that UpdateVariable assembles parse to the record |
| VariableDriver.VariableGlobal.constructor | DuetPkg/FSVariable/FSVariable.c:1848-1908 | the two stores after initialization; the non-volatile one is reclaimed if little space is left |
| VariableDriver.VariableGlobal.FindVariable | DuetPkg/FSVariable/FSVariable.c:424-550 | points to the record that the search of both logs finds |
| VariableDriver.VariableGlobal.WriteNew | DuetPkg/FSVariable/FSVariable.c:1190-1292 | reclaim if need be, append, delete the replaced record: new logs and status as specified, in 32-bit size arithmetic |
| VariableDriver.VariableGlobal.UpdateVariable | DuetPkg/FSVariable/FSVariable.c:1066-1293 | new logs and status as specified, at boot time and at runtime; without a reclaim the single writes leave, in order, the stores that InterruptedUpdate is about |
| VariableDriver.VariableGlobal.SetVariable | DuetPkg/FSVariable/FSVariable.c:1469-1568 | parameter checks and update: new logs and status as specified |
| VariableDriver.VariableGlobal.DuetGetVariable | DuetPkg/FSVariable/FSVariable.c:1295-1362 | data, attributes, size and status of the lookup, with the error cases |
| VariableDriver.VariableGlobal.GetNextVariableName | DuetPkg/FSVariable/FSVariable.c:1366-1467 | name, GUID, size and status of the next record, with the error cases |
| MemoryMap.AddOverrides | DuetPkg/EfiLdr/Support.c:22-88 | a region inside a conventional descriptor or apart from all overrides the use of its pages, and the map stays disjoint |
| MemoryMap.AddOverlaps | DuetPkg/EfiLdr/Support.c:22-88 | any other region makes the map overlap |
| MemoryMap.HeadOverrides | DuetPkg/EfiLdr/Support.c:53-62 | carving from the middle or the end of a descriptor |
| MemoryMap.PrefixOverrides | DuetPkg/EfiLdr/Support.c:70-73 | carving from the start of a descriptor |
| MemoryMap.ChooseIs | DuetPkg/EfiLdr/Support.c:107-131 | the search chooses the reachable eligible descriptor with the highest start |
| MemoryMap.TakeConserves | DuetPkg/EfiLdr/Support.c:137-147 | no page is lost or created |
| MemoryMap.TakeOverrides | DuetPkg/EfiLdr/Support.c:137-147 | the region given out was conventional and only its pages change use |
| MemoryMap.FreeIsOwned | DuetPkg/EfiLdr/Support.c:45-48 | in a disjoint map the free pages are those whose use is conventional |
| MemoryMap.FindSpaceLaw | DuetPkg/EfiLdr/Support.c:91-149 | where conventional descriptors are apart from all others, a call gives out a region of one of them below 4 GB, and its pages and only these cease to be free |
| MemoryMap.RunLaw | DuetPkg/EfiLdr/Support.c:91-149 | over every run each region lies in one conventional descriptor of the map at the start and below 4 GB, the regions are pairwise apart, and the pages are conserved |
| MemoryMap.TopDown | DuetPkg/EfiLdr/Support.c:91-149 | the next call that the same descriptor serves ends where the earlier one began |
| E820.MemoryRounding | DuetPkg/EfiLdr/Support.c:193-199 | rounded memory lies within its entry |
| E820.MemoryComplete | DuetPkg/EfiLdr/Support.c:193-199 | no whole page of memory is given away |
| E820.OtherRounding | DuetPkg/EfiLdr/Support.c:200-205 | every page of another rounded entry has a byte of it |
| E820.OtherComplete | DuetPkg/EfiLdr/Support.c:200-205 | no byte of another entry is left uncovered |
| E820.ShortEntryExplodes | DuetPkg/EfiLdr/Support.c:196-199 | an unaligned memory entry that ends before the next page boundary makes a descriptor of almost all addresses |
| E820.NothingCarved | DuetPkg/EfiLdr/Support.c:166-222 | for disjoint entries nothing is ever carved: the map lists the rounded entries |
| E820.GenMapLaw | DuetPkg/EfiLdr/Support.c:152-237 | conventional memory lies in memory entries, is apart from everything else, and starts below the lowest hole between 1 MB and 4 GB |
| E820.GenMapSeparated | DuetPkg/EfiLdr/Support.c:152-237 | the loader's map meets what the allocator's law needs |
| E820.AllocationsLaw | DuetPkg/EfiLdr/Support.c:91-237 | every region given out by a run on the loader's map lies in one memory entry and below 4 GB, and the regions are pairwise apart |
| E820.SharedPage | DuetPkg/EfiLdr/Support.c:200-205 | two entries that are not memory may share a page, so the map as a whole need not be disjoint |
| MapContents.GenMapExactly | DuetPkg/EfiLdr/Support.c:165-236 | the map has for every entry with pages the descriptor with its literal type, start, pages and attribute, memory being type 7 or, if given up, 0; and no others |
| MapContents.KeptExactly | DuetPkg/EfiLdr/Support.c:193-236 | a page is conventional exactly if it is a whole page of memory that does not start between 1 MB and 4 GB at or above another entry there |
| MapContents.FindSpaceExactly | DuetPkg/EfiLdr/Support.c:107-149 | a call succeeds exactly if some reachable conventional descriptor is large enough, ends above 1 MB and at most at 4 GB and does not start at 0; it gets the last pages of one with the highest start |
| MapContents.FirstCall | DuetPkg/EfiLdr/Support.c:91-236 | on the loader's map a first call succeeds exactly if kept memory offers the pages |
| MemoryMapTable.Table.AddMemoryDescriptor | DuetPkg/EfiLdr/Support.c:22-88 | the table afterwards is the specified map |
| MemoryMapTable.Table.FindSpace | DuetPkg/EfiLdr/Support.c:91-149 | the table and the address are as specified |
| MemoryMapTable.Table.Search | DuetPkg/EfiLdr/Support.c:107-131 | the loop's choice is the specified one |
| MemoryMapTable.Table.GenMemoryMap | DuetPkg/EfiLdr/Support.c:152-237 | the table afterwards is the specified map |
| Rows.ReplacedUnique | DuetPkg/BiosVideoThunkDxe/BiosVideo.c:2041-2159 | replacing the rows of a rectangle determines the result |
| Rows.SourceIntact | DuetPkg/BiosVideoThunkDxe/BiosVideo.c:2043-2050 | in the order that the direction asks for, a source row is not overwritten before it is read |
| VbeBlt.VbeScreen.CopyVideoBuffer | DuetPkg/BiosVideoThunkDxe/BiosVideo.c:1809-1897 | bytes, words and remaining bytes together are one plain copy |
| VbeBlt.VbeScreen.VideoToVideo | DuetPkg/BiosVideoThunkDxe/BiosVideo.c:2041-2074 | the destination gets the source rows as they were before, nothing else changes, and the physical frame buffer shows the shadow |
| VbeBlt.VbeScreen.VideoFill | DuetPkg/BiosVideoThunkDxe/BiosVideo.c:2076-2121 | every pixel of the destination is the fill pixel; frame buffers equal |
| VbeBlt.VbeScreen.BufferToVideo | DuetPkg/BiosVideoThunkDxe/BiosVideo.c:2123-2159 | the destination shows the caller's pixels; frame buffers equal |
| VbeBlt.VbeScreen.VideoToBuffer | DuetPkg/BiosVideoThunkDxe/BiosVideo.c:2021-2039 | the caller's rectangle gets the colours of the screen and nothing else changes; succeeds exactly for a nonempty source on the screen |
| Pixels.BitOfEncode | DuetPkg/BiosVideoThunkDxe/BiosVideo.c:2131-2133 | in a layout whose fields do not overlap, every bit of the word is the bit of the colour that owns it |
| Pixels.PixelReads | DuetPkg/BiosVideoThunkDxe/BiosVideo.c:2030-2033 | a word that agrees with a written pixel in the pixel's bits decodes to its masked colours |
| VbeBlt.PixelBack | DuetPkg/BiosVideoThunkDxe/BiosVideo.c:2029-2033 | a pixel in the frame buffer reads back as its masked colours, whatever the fourth byte is in a 24-bit mode |
| VbeBlt.ScreenBack | DuetPkg/BiosVideoThunkDxe/BiosVideo.c:2021-2159 | what a buffer-to-video transfer wrote, reading the same rectangle gives back as far as the masks go |
| VbeBlt.VbeScreen.Blt | DuetPkg/BiosVideoThunkDxe/BiosVideo.c:1927-2167 | succeeds exactly for a nonempty destination on the screen, and then replaces the destination and nothing else |
| VbePixels.LitExactly | DuetPkg/BiosVideoThunkDxe/BiosVideo.c:2131-2133 | a bit of the word is set exactly if a colour that owns it has it set, whatever the layout |
| VbePixels.Transfer | DuetPkg/BiosVideoThunkDxe/BiosVideo.c:1927-2167 | after a transfer to the screen every bit of every pixel comes from the literal byte of the caller's buffer or the literal place of the old screen, all other bytes are kept, and the status is exact |
| VbePixels.ReadBack | DuetPkg/BiosVideoThunkDxe/BiosVideo.c:2021-2039 | after a transfer from the screen blue, green and red are in bytes 0, 1 and 2 of each pixel, bit by bit, and byte 3 is 0 |
| VbeBlt.PassesExactly | DuetPkg/BiosVideoThunkDxe/BiosVideo.c:1986-2003 | the driver's check decides whether a rectangle is on the screen, except exactly for coordinates that wrap around onto it |
| VbeBlt.WrappingPixelPasses | DuetPkg/BiosVideoThunkDxe/BiosVideo.c:1986-2003 | one pixel at the last coordinates of all passes the check on every screen and is not on it |
| PeFixups.AddUndone | DuetPkg/EfiLdr/PeLoader.c:487-505 | adding and then adding the complement gives the bytes of a field back |
| PeFixups.AddUndoneOnly | DuetPkg/EfiLdr/PeLoader.c:487-505 | only a complement does |
| PeFixups.ApplyPatches | DuetPkg/EfiLdr/PeLoader.c:461-520 | fixups that do not overlap act as if all at once: each field changed once, no other byte |
| PeFixups.ApplyUndone | DuetPkg/EfiLdr/PeLoader.c:461-520 | other fixups of the same fields give the image back exactly if all addends cancel |
| PeReloc.RelocatedIs | DuetPkg/EfiLdr/PeLoader.c:404-534 | relocation adds the adjustment to each field modulo its width and changes no other byte |
| PeEntries.PlainExactly | DuetPkg/EfiLdr/PeLoader.c:447-524 | what relocation takes for granted, on the bytes of the image: the fields that are run are apart, in the image and outside the table |
| PeEntries.RelocatedBytes | DuetPkg/EfiLdr/PeLoader.c:447-524 | for every entry reached, the number at block address plus low 12 bits gains the adjustment, or a half of it, modulo its width; no other byte changes |
| PeEntries.RelocateImage | DuetPkg/EfiLdr/PeLoader.c:404-534 | the loader's routine does this, and succeeds exactly if all types in the table are known |
| PeEntries.LogBytes | DuetPkg/EfiLdr/PeLoader.c:470-505 | the log holds the fields as they are afterwards, in order, 32- and 64-bit ones aligned |
| PeReloc.TableKept | DuetPkg/EfiLdr/PeLoader.c:447-524 | the table itself is not changed |
| PeReloc.RelocateUndone | DuetPkg/EfiLdr/PeLoader.c:404-534 | relocating by the negative adjustment gives the image back if and only if no entry that is run is irreversible |
| PeReloc.HighUndone | DuetPkg/EfiLdr/PeLoader.c:404-534 | with 64-bit words, if and only if no HIGH entry is run or the adjustment is a multiple of 64 KB |
| PeReloc.LogFits | DuetPkg/EfiLdr/PeLoader.c:436-441 | with its padding the log takes at most one word a fixup |
| PeReloc.FixOne | DuetPkg/EfiLdr/PeLoader.c:487-505 | one fixup: the field is patched and logged |
| PeReloc.RunBlock | DuetPkg/EfiLdr/PeLoader.c:461-520 | the entries of one block |
| PeReloc.Relocate | DuetPkg/EfiLdr/PeLoader.c:404-534 | status, image and log after relocation, within the space set aside for the log |
| FirmwareVolume.LocateIff | DuetPkg/FvbRuntimeService/FWBlockService.c:392-433 | a block is found exactly for the numbers below the total |
| FirmwareVolume.LocateInRun | DuetPkg/FvbRuntimeService/FWBlockService.c:392-433 | start, length and number of blocks left of block j of run i |
| FirmwareVolume.Contiguous | DuetPkg/FvbRuntimeService/FWBlockService.c:392-433 | each block starts where the one before it ends |
| FirmwareVolume.Ascending | DuetPkg/FvbRuntimeService/FWBlockService.c:392-433 | blocks with different numbers do not overlap |
| FirmwareVolume.GetLbaAddress | DuetPkg/FvbRuntimeService/FWBlockService.c:343-433 | the walk over the block map locates the block |
| FirmwareVolume.Volume.EraseBlock | DuetPkg/FvbRuntimeService/FWBlockService.c:629-695 | erases the bytes of one block and no others, or fails without change |
| FirmwareVolume.Volume.EraseBlocks | DuetPkg/FvbRuntimeService/FWBlockService.c:942-1031 | fails without change or erases exactly the listed blocks; with a wrapping range, exactly those before it |
| FirmwareVolume.ListsExactly | DuetPkg/FvbRuntimeService/FWBlockService.c:984-1002 | which lists are refused, which are erased to the end and which block numbers that takes, without remainders |
| FirmwareVolume.WrappingList | DuetPkg/FvbRuntimeService/FWBlockService.c:997-1002 | a list that passes the check and of which only the first range is erased |
| FirmwareVolume.PartlyErased | DuetPkg/FvbRuntimeService/FWBlockService.c:1006-1027 | such a list changes a volume whose first block was not erased |

## Left out

- Tiano.Decompress: presupposes that lengths stay within 16 and within their lists, that the Char&Len code is complete, that distances stay within the output so far and that no back-reference follows a literal that fills the output, because the original checks none of these; a compressed size of 2^32 - 8 or more, which passes the size check by wrapping around, is excluded too.
- TianoRoundTrip.RoundTrip: is about files whose blocks hold exactly the announced number of tokens and are followed by zeros, as a compressor writes them, not about every stream that the decoder accepts.
- MakeTable.Make: presupposes lengths up to 16 and excludes over-subscribed codes whose Kraft sum is a larger multiple of 2^16, which the original takes for complete.
- Tiano.ScratchData.ReadCLen: presupposes a complete Char&Len code that does not outgrow its list, because the original discards MakeTable's result.
- VariableDriver.VariableGlobal.SetVariable: excludes data for the four language variables, whose hook sets related variables in between, and updates that move a variable to the other store, because the final state write then hits the wrong store; storage writes succeed, and a failing pool allocation in Reclaim is a parameter.
- VariableStore.VariableStorage.IsValidVariableHeader: a header beyond the end of a full store counts as invalid; the original reads past the end of the store in that case.
- VariableDriver.AssembleIsImage: pad bytes are zero here and left over from earlier records in the original; no contract depends on them.
- VariableLaws.UpdateObeys: is about boot time; VariableRuntime has the laws at runtime, where a set of a hidden variable can break the invariant (RuntimeGoodIff says when).
- VariableEnumeration.RunEnumerates: is about boot-time runs from stores in which at most one key of each store has two live records, such as empty or reclaimed ones; for other stores EnumerationComplete says what is missing.
- MemoryMap.RunLaw: orders are for at least one page and not of conventional type, as all callers' are.
- MemoryMapTable.Table.GenMemoryMap: starts from an empty table, as its caller does; entries are disjoint and nonempty and unaligned memory reaches the next page boundary (ShortEntryExplodes shows why).
- VbeBlt.VbeScreen.Blt: presupposes that the source rectangle is on the screen and the caller's buffer is large enough, which the driver does not check, and excludes exactly the coordinates that wrap around onto the screen (WrapsOnto), which the driver lets pass (WrappingPixelPasses).
- VbeBlt.VbeScreen.VideoToBuffer: excludes the same coordinates of the source; the caller's buffer is a whole number of rows; the byte that the driver reads past the end of the frame buffer for the last pixel of a 24-bit mode is taken as 0.
- PeReloc.Relocate: (in plain bytes: PeEntries.RelocateImage) presupposes blocks of even size of at least 8 that tile the directory, and fields that overlap neither each other nor the table and are no wider than a machine word; unknown entry types, on which the loader hangs, end the run with status Hangs.
- FirmwareVolume.GetLbaAddress: the volume's size fits 32 bits; larger products overflow in the original.
- The check of the scratch buffer's size, and GetInfo, in the decompressor.
- QueryVariableInfo, the running totals of variable sizes, and the signature and format fields of the store header.
- Power failure inside Reclaim, which the original says it cannot undo.
- The virtual addresses in memory descriptors.
- The image's page count and base page after relocation.
- Reading, writing and attributes of firmware volumes: easy next to the erase.
- File storage, file mirroring and address conversion for virtual mode.
- VGA planar transfers, mode setting, EDID and BIOS calls.
