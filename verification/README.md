# esp32-fx: a verified model of its algorithmic cores

The repository runs the fx coding agent on a small board: a WebAssembly guest with its own allocators, a host runner
with fixed memory arenas, JSON codecs on both sides of the guest boundary, an e-paper text renderer, and a patch that
lets the interpreter run from read-only flash. This project models these cores in Dafny and proves what they promise
to their callers. Each imperative routine is a method over arrays, linked nodes or fields, tied by its postcondition to
a specification function; the theorems are about those functions, over all inputs or all runs.

The files, by area:

- `Bytes`, `JsonText`, `TextBuffer`, `ByteSinks`: bytes, the piece grammar of JSON strings, growable buffers.
- `JsonStrings`, `RfcText`, `RfcEscapes`, `RfcLayout`, `EinkJson`, `BridgeJson`: three string decoders and two encoders against RFC 8259.
- `FlatObjects`, `ExampleTools`, `ArgumentLists`, `HttpHeaders`, `HeaderLists`: the argument object and the header list.
- `JsonDocument`, `JsonScanner`, `ScannerTheorem`, `ScannerLimits`, `ScannerKeys`, `AcpReader`, `AcpDocuments`: JSON trees with layout, the tree-less key scanner and its exact limits, collecting an answer.
- `Alignment`, `ByteStore`, `ArenaModel`, `ArenaRuns`, `ArenaReuse`, `CompactArena`: the compact arena: steps, runs, reuse, linked list.
- `AlignedAllocator`, `SliceAnswers`, `CompactAllocator`, `MemoryTower`, `TowerRuns`: the aligned allocator under it, down to header bytes, and runs of the two together.
- `Leb128`, `TableLoader`, `BytecodeOverlay`, `OverlayMachine`, `LabelStack`: `br_table` immediates, opcode replacements, and whole executions both ways.
- `TextSanitizer`, `TerminalTokens`, `LineWrapper`, `TextLines`, `Framebuffer`, `PageRenderer`, `PageBytes`: from terminal text to the bits of a page.
- `HostArenas`, `HostAnswers`, `HostAllocator`: the metadata arena, linear memory and libc behind one allocator interface.
- `StreamModel`, `StreamAnswers`, `StreamTable`: the table of buffered HTTP streams.

Main results:

- The key scanner, which builds no tree, finds the value of the first matching member in document order in every JSON
  document whose strings decode to at most 32768 bytes (`ScannerTheorem.FindsFirstMember`). Both facts the code relies
  on are made exact: 32768 is the largest bound under which this holds for all documents (`ScannerLimits.ExactLimit`,
  with documents beyond it in which a key is made up and in which one is missed); and, with keys read as RFC 8259 reads
  them, the match is the first member named by the wanted text exactly when no key before it passes for that text, which
  takes an escaped NUL behind it or surrogate escapes for its question marks, and its own key has no surrogate escape
  (`ScannerKeys.FindsFirstNamed`). For a key such as the client's own, without question marks and within the basic
  plane, only the NUL is left (`ScannerKeys.FindsFirstBasic`).
- Which lines of the exchange add text, answer, or break it off is stated on documents (`AcpDocuments`): by the first
  "sessionUpdate", "text" and "id" at any depth, the last read as the integer it is printed as. What a chunk adds is the
  text RFC 8259 gives the string exactly when the string has no surrogate escape (`AcpDocuments.ChunkIsText`).
- Three hand-written string decoders are one reading of the grammar in section 7 of RFC 8259 with three acceptance
  conditions (`JsonStrings.DecoderAcceptsExactly`). That reading is the string's text exactly when no escape in it is a
  surrogate: the client puts a question mark for each, the bridge refuses them, so all it accepts it reads as the text
  (`RfcText.MeaningIsText`, `RfcText.BridgeReadsTexts`). Both encoders emit the same bytes and both wide decoders invert
  them.
- Every run of the arena is memory safe, looks to its clients like a plain store of byte strings, and holds at most
  twice what was asked plus 512 bytes of data, node headers coming on top (`ArenaRuns.EveryRun`). The aligned allocator
  below it does the same from header words kept in guest memory, whatever `realloc` does to the block's address
  (`AlignedAllocator.RunFollowsStore`). Run one on top of the other, with malloc writing to the same memory, they still
  do, disturb no other slice, and leave the heap as it was after `deinit` (`TowerRuns.EveryRun`,
  `TowerRuns.DeinitRestores`).
- Executing read-only code through the overlay is executing the rewritten code, state for state over every run, for
  arbitrary opcode semantics, under any invariant by which the program's own jumps end on its opcodes
  (`OverlayMachine.EveryRunAgrees`). A machine with block, loop, if and else, whose branches go to labels on a stack,
  backwards or forwards, keeps such an invariant whatever its program (`LabelStack.ControlRunsAgree`).
- Every bit of a rendered page equals a declarative page description (`PageRenderer.RenderText`), and so every byte the
  panel is sent is given from the bytes of the font (`PageBytes.PageIsBytes`). What the sanitizer makes of any input is
  read off its longest tokens (`TerminalTokens.SanitizedIsTokens`).
- Besides what runs keep, what requests are answered is exact: where the arena puts a block and what free gives back
  (`ArenaReuse`), which alignment a slice has and when it may grow (`SliceAnswers`), which host arena serves and when it
  refuses (`HostAnswers`), what a stream opens with and what its reads give (`StreamAnswers`).

Where code and expectation differ, the model follows the code: `wrap_text` trims trailing spaces and then always undoes
the trim, so a piece is exactly as long as its split (`TextLines.NextPiece`); the doubling loop of `write_body` never
turns, because an owned sink starts with the full capacity (`ByteSinks.ByteSink.WriteBody`); tabs align to the offset in
the output, not to a display column (`TextSanitizer.Emitted`); an arena `free` reclaims only the newest block of the
head node.

## Model

| member | source | states |
|---|---|---|
| JsonText.Utf8IsRfc3629 | runtime/fx_eink.c:130-153 | the bytes written for a code point name that code point by the bit layout of RFC 3629 section 3, shortest form, proper lead and tail bytes |
| JsonText.PiecesMeanTheText | runtime/fx_eink.c:279-306 | decoding the escapes chosen for a text gives the text |
| JsonText.EncodeInjective | runtime/fx_eink.c:279-306 | distinct texts have distinct encodings |
| JsonText.ShowAllInjective | runtime/fx_eink.c:166-216 | the piece grammar is unambiguous: a string body is printed from one list of pieces only |
| RfcEscapes.EscapesAreRfc8259 | runtime/fx_eink.c:178-190 | the eight escape letters of section 7 of RFC 8259 stand for their bytes, and no other letter escapes anything |
| RfcEscapes.HexDigitsAre | runtime/fx_eink.c:191-201 | a digit has its place in 0123456789abcdef, or the same in capitals, as its value, and nothing else is one |
| RfcEscapes.FourDigitsName | runtime/fx_eink.c:191-201 | four digits name a number below 65536, the first digit the highest |
| RfcEscapes.UnescapedBytes | runtime/fx_eink.c:172-178 | the bytes that stand for themselves: all but controls, quotation mark and backslash |
| RfcEscapes.EscapeDecoded | runtime/fx_eink.c:166-216 | the token of one escape is read as its byte by every decoder that takes it: the tools refuse \b and \f only |
| RfcEscapes.NoControlsTaken | runtime/fx_wamr_native.c:398-468 | no decoder takes a string with a control byte between its quotation marks |
| RfcEscapes.EncodedAs | runtime/fx_eink.c:279-306 | how a byte is written: by its letter, as \u00 and two lower-case digits, or, the slash included, as it is |
| TextBuffers.TextBuffer.Append | runtime/fx_eink.c:102-128 | appends all of the text exactly when the total stays within 32768 bytes and memory suffices, else changes nothing; NUL-terminated throughout |
| TextBuffers.TextBuffer.AppendUtf8 | runtime/fx_eink.c:130-153 | appends the encoding of a code point, a question mark for a surrogate or one above 0xffff |
| JsonStrings.FourHexDigits | runtime/fx_eink.c:191-201 | succeeds exactly on four hex digits and returns their value |
| JsonStrings.DecoderAcceptsExactly | runtime/fx_wamr_native.c:398-468 | a decoder accepts exactly the legal string tokens all of whose pieces it accepts, returns their meaning and the position behind the closing quote |
| JsonStrings.ClientAcceptsWhatFits | runtime/fx_eink.c:166-216 | the client decoder accepts a legal body exactly when its text fits the limit |
| JsonStrings.BridgeAcceptsAllButSurrogates | runtime/fx_wamr_native.c:398-468 | the bridge decoder's acceptance of a body is piece by piece, whatever was decoded before |
| JsonStrings.ToolTokens | runtime/fx_example_tools.c:36-76 | a body the tool decoder accepts is one byte per piece, allowed ASCII, and leaves room for the terminator |
| JsonStrings.DecodersAgree | runtime/fx_example_tools.c:36-76 | whatever the tool decoder accepts, the other two accept with the same text and end |
| JsonStrings.BridgeAndClientAgree | runtime/fx_wamr_native.c:398-468 | what the bridge accepts the client decodes identically, exactly when it fits the client's limit |
| JsonStrings.EncodedTextRoundTrips | runtime/fx_wamr_native.c:709-781 | both wide decoders recover an encoded text and stop at its closing quote, whatever follows |
| RfcText.Utf8FourIsRfc3629 | runtime/fx_eink.c:139-151 | the text of a surrogate pair, for which the code writes two question marks: four bytes that name the pair's code point by the bit layout of RFC 3629 section 3 |
| RfcText.MeaningIsText | runtime/fx_eink.c:166-216 | what the decoders make of a body is its text by section 7 of RFC 8259 exactly when no escape in it is a surrogate; otherwise neither continues the other |
| RfcText.BridgeReadsTexts | runtime/fx_wamr_native.c:398-468 | the bridge accepts exactly the strings without surrogate escapes and reads each as its text |
| RfcText.ClientReadsTexts | runtime/fx_eink.c:166-216 | the client accepts every string that fits and reads it as its text exactly when no escape in it is a surrogate |
| RfcText.ToolReadsTexts | runtime/fx_example_tools.c:36-76 | the tools accept exactly the strings whose text is tab, newline, return and printable ASCII with room for a NUL, and read each as its text |
| RfcText.EncodersWriteTexts | runtime/fx_eink.c:279-306 | the text of an encoded string is the text that was encoded |
| EinkJson.DecodeOne | runtime/fx_eink.c:172-214 | one turn of the loop: decodes one piece, or fails exactly when the rest cannot be decoded |
| EinkJson.DecodeJsonString | runtime/fx_eink.c:166-216 | result, end and buffer contents are those of the grammar reading; the buffer stays null exactly when nothing was decoded |
| EinkJson.WriteJsonString | runtime/fx_eink.c:279-306 | writes the encoding shared with the bridge |
| JsonScanner.SkipWhitespace | runtime/fx_eink.c:218-222 | stops at the first byte that is not whitespace |
| RfcLayout.WhitespaceIs | runtime/fx_eink.c:218-222 | space, tab, newline and return are skipped by all readers, vertical tab and form feed by the client besides, and nothing else |
| RfcLayout.ScalarsAre | runtime/fx_eink.c:224-249 | the documents of the scanner theorem have every number of section 6 of RFC 8259 and its three literal names among their scalars |
| JsonScanner.NextToken | runtime/fx_eink.c:229-246 | what a quotation mark opens and where the scan goes on |
| JsonScanner.FindJsonKey | runtime/fx_eink.c:224-249 | the loop computes the scan |
| ScannerTheorem.FindsFirstMember | runtime/fx_eink.c:224-249 | on every document with strings within the limit and any whitespace, the scan finds the first member at any depth whose key matches and fails exactly when there is none; text inside strings is never taken for a key |
| ScannerTheorem.FirstMatchIsFirst | runtime/fx_eink.c:224-249 | first means: matches, and no member before it in document order does |
| ScannerTheorem.OccurrencesPlaced | runtime/fx_eink.c:224-249 | members are listed in strictly increasing position, each where its value is printed |
| ScannerTheorem.KeyTestIsEqualityUnless | runtime/fx_eink.c:232-246 | the key test differs from equality exactly for an empty wanted key met empty, and for keys that continue the wanted one with an escaped NUL |
| ScannerTheorem.OverlongKeyIsMisread | runtime/fx_eink.c:224-249 | whenever a key is too long for the buffer, text behind an escaped quote inside it is found as a key |
| ScannerLimits.ExactLimit | runtime/fx_eink.c:224-249 | the scan is right on all documents whose strings decode to at most n bytes exactly when n is at most 32768 |
| ScannerLimits.LongKeyIsMisread | runtime/fx_eink.c:224-249 | beyond the limit a key is made up: in an object with the one key a…a\"a of 32769 bytes the scan finds a key a |
| ScannerLimits.LongKeyIsMissed | runtime/fx_eink.c:224-249 | beyond the limit a key is missed: in an object with the one key a…a of 32769 letters the scan for it finds nothing |
| ScannerKeys.FindsFirstNamed | runtime/fx_eink.c:224-249 | with keys read as RFC 8259 reads them, the scan finds the first member named by a nonempty wanted text exactly when no key before it passes for that text, by a NUL or by surrogates, and its own key is written without surrogates |
| ScannerKeys.FindsFirstBasic | runtime/fx_eink.c:224-249 | for a wanted text without question marks and four-byte characters, exactly when no key before it is the text continued by a NUL |
| ScannerKeys.NulKeyIsTaken | runtime/fx_eink.c:232-246 | the one way it goes wrong: {"a\u0000":0} is taken to have a key a |
| ScannerKeys.PairKeyIsTakenAndMissed | runtime/fx_eink.c:130-153 | the other way: {"\ud83d\ude00":0} is taken to have a key ??, and its key U+1F600 is not found |
| AcpReader.JsonStringValue | runtime/fx_eink.c:251-261 | -1, 0 or 1 and the buffer contents, as the scan and the decoder say |
| AcpReader.JsonIntegerValue | runtime/fx_eink.c:263-277 | the integer value that `AcpDocuments.IntegerValueOfDocument` gives a meaning on documents |
| AcpReader.TextIsReadOfChunksOnly | runtime/fx_eink.c:483-496 | a text that cannot be decoded breaks the exchange only in a chunk, and only for a caller who collects |
| AcpReader.ReadLine | runtime/fx_eink.c:462-515 | one line breaks the exchange, answers it or goes on; which, and what it adds, is exact |
| AcpReader.ReadUntilId | runtime/fx_eink.c:455-520 | on success the response grew by exactly the chunk texts of the lines up to the first answering one, never past 32768 bytes; each failure is named |
| AcpDocuments.StringValueOfDocument | runtime/fx_eink.c:251-261 | on a document: the decoded string of the first member whose key matches when it is a string, nothing otherwise |
| AcpDocuments.StringValueOfNamed | runtime/fx_eink.c:251-261 | when no key holds a NUL, a wanted text of the basic plane without question marks finds the string of the first member RFC 8259 gives that name |
| AcpDocuments.ChunkOfDocument | runtime/fx_eink.c:477-497 | on every document: it adds its first "text" if that is a string and its first "sessionUpdate" is the string agent_message_chunk, and nothing otherwise |
| AcpDocuments.ChunkIsText | runtime/fx_eink.c:477-497 | a chunk adds the text RFC 8259 gives its first "text" exactly when no escape in that is a surrogate |
| AcpDocuments.LiteralRead | runtime/fx_eink.c:263-277 | a printed integer is read back when a long holds it and is an error when not, whatever but a digit follows |
| AcpDocuments.LiteralValue | runtime/fx_eink.c:263-277 | so is one with a fraction or exponent behind it |
| AcpDocuments.BeforeTheDigits | runtime/fx_eink.c:263-277 | whitespace and a plus sign in front of the digits make no difference |
| AcpDocuments.IntegerValueOfDocument | runtime/fx_eink.c:263-277 | on a document: the integer of the first member with the key, an error when that is none, nothing without such a member |
| AcpDocuments.AnswersOfDocument | runtime/fx_eink.c:499-515 | a document answers a request exactly when its first "id" is the request's and no member at any depth is "error" |
| AcpDocuments.AnswersLiteral | runtime/fx_eink.c:499-515 | with the first "id" printed as an integer: exactly when it is that integer, a long holds it, and there is no "error" |
| AcpDocuments.BreaksOfDocument | runtime/fx_eink.c:469-515 | a document breaks the exchange exactly when it is too long, its first "id" is no such integer, or it has the awaited id and an "error" |
| FlatObjects.SkipBlanks | runtime/fx_wamr_native.c:351-360 | stops at the first byte that is not a blank |
| FlatObjects.ObjectReaderAcceptsExactly | runtime/fx_wamr_native.c:482-563 | reading an object of strings succeeds on exactly the printed ones, with exactly their members and end |
| ExampleTools.StringValue | runtime/fx_example_tools.c:36-76 | decodes exactly the tool tokens into the array, NUL-terminated, within its bounds |
| ExampleTools.ParseField | runtime/fx_example_tools.c:89-100 | one member: accepted exactly when readable, known and new, and stored in its field |
| ExampleTools.ParseArgs | runtime/fx_example_tools.c:80-109 | succeeds exactly on argument objects and stores exactly their two fields |
| ExampleTools.ArgumentsAcceptedExactly | runtime/fx_example_tools.c:80-109 | accepted are exactly the printed objects of at most 8192 bytes with distinct keys from {path, content}, in any order, layout and escaping |
| ExampleTools.ArgumentsAreBounded | runtime/fx_example_tools.c:80-109 | recovered fields are allowed ASCII and fit their arrays with a terminator |
| ExampleTools.EncodedArgumentsRead | runtime/fx_example_tools.c:80-109 | fields within the limits survive encoding, in either order |
| ArgumentLists.TwoAreTaken | runtime/fx_example_tools.c:80-109 | of printed objects with two members exactly those with one path and one content are accepted, and each value goes to its own field; a key twice, or another key, is refused |
| BridgeJson.AppendUtf8 | runtime/fx_wamr_native.c:374-396 | appends the encoding exactly when there is room for it and a terminator |
| BridgeJson.DecodeOne | runtime/fx_wamr_native.c:413-462 | room left always exceeds input left, so the unguarded writes are in bounds and the capacity tests never fire |
| BridgeJson.ParseJsonString | runtime/fx_wamr_native.c:398-468 | succeeds exactly when there is memory and the grammar accepts; value and end are those of the grammar reading, NUL-terminated in bounds |
| BridgeJson.SinkAppendJsonString | runtime/fx_wamr_native.c:709-781 | appends the whole encoding, the same as the client's, exactly when it fits |
| HttpHeaders.HeaderIsSafe | runtime/fx_wamr_native.c:470-480 | no control character and no DEL anywhere in the text |
| HttpHeaders.ParseHeaderObject | runtime/fx_wamr_native.c:482-563 | appends the line of a readable object with a safe name and value, else leaves the list alone |
| HttpHeaders.ParseHeaders | runtime/fx_wamr_native.c:565-594 | on success exactly the lines read are appended to the list |
| HttpHeaders.HeadersAcceptedExactly | runtime/fx_wamr_native.c:565-594 | parsing inverts printing: accepted are exactly the printed lists, and the lines keep their order |
| HeaderLists.PrintedHeadersRead | runtime/fx_wamr_native.c:482-594 | the text of a list of headers comes to the lines name, colon, space, value, in order; one unfit name or value spoils the list |
| HeaderLists.LastCounts | runtime/fx_wamr_native.c:482-563 | of several members with a key the last counts |
| ArenaModel.FreshNodeServes | guest/compact-arena.zig:81-95 | a request that obtains a fresh node never fails |
| ArenaModel.AllocKeeps | guest/compact-arena.zig:77-96 | allocation keeps used == last_start + last_len in every node, houses an aligned block, and fails exactly when the head has no room and no node is to be had |
| ArenaModel.ResizeKeeps | guest/compact-arena.zig:98-116 | resizing keeps nodes in order and houses the resized block, or changes nothing |
| ArenaRuns.StepKeepsSafe | guest/compact-arena.zig:77-133 | every call keeps live blocks aligned, inside their nodes and pairwise disjoint |
| ArenaRuns.MovingIsApart | guest/compact-arena.zig:118-124 | a remap that copies grows, and its destination overlaps no live block, its source included |
| ArenaRuns.StepFollowsStore | guest/compact-arena.zig:77-133 | every call acts on names and byte strings as a plain store would: refused changes nothing, granted keeps the common prefix, nothing else changes |
| ArenaRuns.StepPaid | guest/compact-arena.zig:77-116 | each call keeps reservations paid for by what was asked |
| ArenaRuns.EveryRun | guest/compact-arena.zig:63-133 | every run is safe and follows the store; where S is what was asked, data is at most 2S + 512, nodes are at most S/256 + 1, and reserved bytes at most 2S + 512 + 20 (S/256 + 1) |
| ArenaReuse.ServesTheLeast | guest/compact-arena.zig:63-75 | a node serves a request exactly when some aligned address behind its used part has room, and then by the least |
| ArenaReuse.AnswersTheLeast | guest/compact-arena.zig:77-96 | the least address in the head, and a new node only when the head has none |
| ArenaReuse.FreedComesBack | guest/compact-arena.zig:126-133 | a block freed right after its allocation can be had again at once, the list being what it was |
| ArenaReuse.FreeReclaims | guest/compact-arena.zig:126-133 | freeing the newest block gives back its bytes to whatever is asked for next; freeing any other gives back nothing |
| ArenaReuse.GrantsGrowth | guest/compact-arena.zig:98-116 | a block can always shrink, and grow exactly when it is the newest of the head and the node has room |
| ArenaReuse.ShrunkGivesItsTail | guest/compact-arena.zig:148-159 | after the newest block shrank to n bytes, a byte-aligned request that fits is answered at its address plus n |
| ArenaReuse.NodesAreFilled | guest/compact-arena.zig:77-96 | equal small requests fill node after node: as many nodes as it takes, and 532 bytes reserved for each |
| ArenaReuse.TwentyOfAHundred | guest/compact-arena.zig:148-154 | twenty requests of 100 bytes reserve 2128 bytes, within the 3072 of the test |
| CompactArena.Node.AllocateFrom | guest/compact-arena.zig:63-75 | bump allocation in one node, or no change |
| CompactArena.Arena.Alloc | guest/compact-arena.zig:77-96 | answer and list are those of the model, in the head node or in a new one |
| CompactArena.Arena.Resize | guest/compact-arena.zig:98-116 | answer and list are those of the model |
| CompactArena.Arena.Remap | guest/compact-arena.zig:118-124 | in place, or a new block with the common prefix copied |
| CompactArena.Arena.Free | guest/compact-arena.zig:126-133 | reclaims the newest block of the head node and nothing else |
| CompactArena.Arena.ReservedBytes | guest/compact-arena.zig:52-57 | the sum of the lengths of all nodes |
| CompactArena.Arena.Deinit | guest/compact-arena.zig:30-38 | gives back every node exactly once with its own address and length |
| AlignedAllocator.WordRoundTrip | guest/compact-allocator.zig:19-20 | a header word reads back as written and disturbs no other byte |
| AlignedAllocator.SettledPayload | guest/compact-allocator.zig:36-47 | after the move and the header write, the slice is aligned inside the block, its header names the base, its first bytes are the old ones, and no byte outside the block changed |
| AlignedAllocator.RemapSafe | guest/compact-allocator.zig:29-48 | remap keeps the first min(old, new) bytes for every alignment and every base, and leaves all other blocks alone |
| AlignedAllocator.StepFollowsStore | guest/compact-allocator.zig:14-52 | every call keeps headers, blocks and slices in order and acts as a plain store would |
| AlignedAllocator.RunFollowsStore | guest/compact-allocator.zig:14-52 | so does every run, whatever malloc and realloc answer |
| AlignedAllocator.EveryRunFromStart | guest/compact-allocator.zig:14-52 | over every run from an empty heap malloc's live blocks are exactly those the headers of live slices name; when nothing is live malloc has everything back |
| AlignedAllocator.PayloadWritesSafe | guest/compact-allocator.zig:14-52 | whatever clients write into their slices, headers and blocks stay in order |
| SliceAnswers.AddressIsLeast | guest/compact-allocator.zig:15-19 | the address is the least that leaves a word for the header and is a multiple of the alignment and of a word, for every power of two |
| SliceAnswers.SlicesAreAligned | guest/compact-allocator.zig:14-48 | in every safe state each slice has the alignment that was asked for |
| SliceAnswers.RunSlicesAreAligned | guest/compact-allocator.zig:14-52 | so it has after every run |
| SliceAnswers.AllocGrants | guest/compact-allocator.zig:14-22 | alloc is refused exactly by malloc or the address space; else the slice has the length and alignment asked for, at the least address, and its header names the block |
| SliceAnswers.RemapGrants | guest/compact-allocator.zig:29-48 | remap is refused exactly by realloc or the address space; else the slice has the new length and the old alignment |
| SliceAnswers.ResizeGrants | guest/compact-allocator.zig:24-28 | resize is granted exactly when the slice still ends in its malloc block |
| CompactAllocator.CopyForwards | guest/compact-allocator.zig:41-42 | byte by byte upwards is memmove when the destination is not above the source |
| CompactAllocator.CopyBackwards | guest/compact-allocator.zig:43-44 | byte by byte downwards is memmove when the destination is not below the source |
| CompactAllocator.Alloc | guest/compact-allocator.zig:14-22 | aligned address inside the malloc block, header word below it, no other byte written |
| CompactAllocator.Resize | guest/compact-allocator.zig:24-28 | whether the new length fits the block the header names |
| CompactAllocator.Settle | guest/compact-allocator.zig:36-46 | the direction-aware copy is a move, and the header is written after it |
| CompactAllocator.Remap | guest/compact-allocator.zig:29-48 | memory and address are those of the model; a refused call changes nothing |
| CompactAllocator.Free | guest/compact-allocator.zig:49-52 | hands free the base in the header |
| MemoryTower.SlicesApart | guest/compact-allocator.zig:14-52 | slices of different names do not overlap |
| MemoryTower.AnswersAreOffers | guest/compact-arena.zig:85-86 | what the aligned allocator answers meets all the arena asks of its child, so the two proofs compose |
| TowerRuns.StepFollowsStore | guest/compact-arena.zig:77-133 | over nodes served by the aligned allocator, with malloc's and header writes in the same memory, each arena call keeps everything in order and acts as a plain store would |
| TowerRuns.StepSpares | guest/compact-arena.zig:77-133 | slices that are no nodes of the arena keep place, malloc block and bytes |
| TowerRuns.EveryRun | guest/compact-arena.zig:63-133 | so does every run, with the reservation bound |
| TowerRuns.DeinitRestores | guest/compact-arena.zig:30-38 | after a run and deinit malloc's blocks and all other slices are what they were before the arena |
| Leb128.ReadsLeb | guest/wamr-readonly.patch:129-132 | decoding at an encoding gives its value and its end (section 5.2.2 of the WebAssembly Core Specification) |
| Leb128.EncodedIsRead | guest/wamr-readonly.patch:129-132 | every number is read back from its encoding, whatever follows |
| Leb128.ReadLebUint32 | guest/wamr-readonly.patch:129-132 | the shift-and-add loop computes that reading |
| Leb128.DecodesNth | guest/wamr-readonly.patch:129-132 | decoding index + 1 of the depths in a row gives the depth at that index |
| Leb128.SelectsByIndex | guest/wamr-readonly.patch:124-128 | an index in the table selects its own depth, any other the last |
| Leb128.DecodeDepth | guest/wamr-readonly.patch:129-132 | the interpreter's loop computes it |
| TableLoader.PrepareDepth | guest/wamr-readonly.patch:378-418 | one depth goes to its byte or the cache; the write position never passes the read position |
| TableLoader.PadTable | guest/wamr-readonly.patch:423-433 | the rest of the depth bytes become no-ops, all of them when there is a cache |
| TableLoader.PrepareTable | guest/wamr-readonly.patch:356-433 | a table of small depths becomes one byte each, any other a cache of all of them under its opcode's address; bytes elsewhere are untouched |
| BytecodeOverlay.OverlayReadsAsWritten | guest/wamr-readonly.patch:80-97 | at every address, looking up through the prepend list gives what writing in place, last write last, would have put there |
| BytecodeOverlay.WasmFunction.AddBytecodePatch | guest/wamr-readonly.patch:216-230 | puts the replacement in front of the list, or changes nothing when there is no memory |
| BytecodeOverlay.WasmFunction.ResolveBytecodeOpcode | guest/wamr-readonly.patch:80-97 | the list walk finds the replacement in force |
| BytecodeOverlay.WasmFunction.FreePatches | guest/wamr-readonly.patch:308-318 | unloading frees every node once, front to back |
| BytecodeOverlay.PatchOpcode | guest/wamr-readonly.patch:326-337 | read-only: beside the code and never in it; otherwise into the code and never beside it |
| OverlayMachine.LoadFunction | guest/wamr-readonly.patch:326-433 | the loader's pass leaves read-only code alone and collects the overlay, or produces the rewritten code and the caches |
| OverlayMachine.WrittenAt | guest/wamr-readonly.patch:326-337 | replacements stay with their own instruction: at its address the last of its own is in force |
| OverlayMachine.CacheFor | guest/wamr-readonly.patch:371-373 | the cache of a table is found by the address of its opcode |
| OverlayMachine.DecodedBranch | guest/wamr-readonly.patch:125-132 | the read-only path through a br_table branches to the depth at min(index, count) |
| OverlayMachine.PreparedBranch | guest/wamr-readonly.patch:125-135 | so does the rewritten path, by depth byte or by cache |
| OverlayMachine.BranchesAgree | guest/wamr-readonly.patch:124-135 | in a loaded function both take the same branch for every index |
| OverlayMachine.SameStep | guest/wamr-readonly.patch:115-135 | one step from an opcode is the same from read-only and from rewritten code |
| OverlayMachine.RunsAgree | guest/wamr-readonly.patch:115-135 | so is every run that stands on opcodes |
| OverlayMachine.StepInOrder | guest/wamr-readonly.patch:115-135 | an invariant the program's own instructions keep, with their jumps ending on opcodes, goes from step to step |
| OverlayMachine.EveryRunAgrees | guest/wamr-readonly.patch:115-135 | under such an invariant every run is the same either way, however long |
| LabelStack.ExitIsBehindItsEnd | guest/wamr-readonly.patch:124-136 | the label a construct pushes is behind the end that closes it, whatever constructs are inside |
| LabelStack.LabelsStay | guest/wamr-readonly.patch:124-136 | a machine with block, loop, if and else, branching through a stack of labels backwards and forwards, keeps such an invariant, whatever the program |
| LabelStack.ControlRunsAgree | guest/wamr-readonly.patch:115-136 | so every run of every program of it from the first instruction is the same either way |
| TextSanitizer.SanitizeText | runtime/einkctl.c:303-365 | the look-ahead loop computes the one-byte-at-a-time transducer, at most four characters a byte, terminated |
| TextSanitizer.SanitizedIsClean | runtime/einkctl.c:303-365 | only newline and 0x20 to 0x7e come out; a second pass changes nothing; text is unchanged exactly when it was clean |
| TerminalTokens.SanitizedIsTokens | runtime/einkctl.c:303-365 | every input is a list of longest tokens, and the output is what they mean: letters, one newline a line end, spaces to a tab stop, one question mark a run of high bytes, nothing for sequences, finished or not, and controls |
| TextSanitizer.OneForOne | runtime/einkctl.c:352-361 | well-formed UTF-8 (RFC 3629 section 4) without controls keeps its code points one for one |
| TextSanitizer.SequencesVanish | runtime/einkctl.c:312-339 | inserting a complete CSI or OSC sequence, a shorter escape or a control in text leaves the output unchanged, except exactly between a return and its newline or a high byte and its continuation |
| TextSanitizer.TabStops | runtime/einkctl.c:345-351 | a tab adds one to four spaces, up to a multiple of four characters of output |
| LineWrapper.SplitJoins | runtime/einkctl.c:371-380 | the lines split on newline, none holding one, join back to the text |
| LineWrapper.PiecesAndGaps | runtime/einkctl.c:381-404 | pieces of 1 to 98 characters and gaps of spaces, in order, are the segment |
| LineWrapper.WrappingKeepsWords | runtime/einkctl.c:367-413 | no character but spaces and newlines is lost, repeated or moved |
| LineWrapper.BreaksAtLastSpace | runtime/einkctl.c:384-393 | a cut line ends at the last space that lets it fit, if that is past a third of the columns, and is full otherwise |
| LineWrapper.BreaksLeaveNoSpaces | runtime/einkctl.c:381-404 | what fits goes on one line, and a line behind a break begins with no space |
| LineWrapper.WordsStayWhole | runtime/einkctl.c:384-393 | a word of at most 66 characters lies in one line |
| LineWrapper.LongerWordsSplit | runtime/einkctl.c:384-393 | 66 is the most: a word of 67 can be split |
| LineWrapper.NoLineIsCut | runtime/einkctl.c:283-296 | no line exceeds 98 characters, so the truncation in lines_push is never reached |
| LineWrapper.LineCount | runtime/einkctl.c:367-413 | at least newlines + 1 lines, at most n/32 + newlines + 1 |
| TextLines.LineTable.Reserve | runtime/einkctl.c:265-281 | grows by doubling with all lines kept; fails only when the allocator has too little, and then changes nothing |
| TextLines.LineTable.Push | runtime/einkctl.c:283-296 | one more line of at most 98 characters |
| TextLines.NextPiece | runtime/einkctl.c:383-403 | a piece is exactly as long as its split, and the next starts behind the spaces |
| TextLines.WrapText | runtime/einkctl.c:367-413 | the lines are: split on newline, then wrap each segment |
| Framebuffer.MaskIsShift | runtime/einkctl.c:211 | the mask of a column is 0x80 shifted by it |
| Framebuffer.Pixel | runtime/einkctl.c:203-216 | sets the one pixel, if it is on the panel, and no other |
| Framebuffer.Rect | runtime/einkctl.c:218-227 | colours exactly the rectangle |
| Framebuffer.Glyph | runtime/einkctl.c:229-250 | draws the ink of a character, and its background when opaque, in its own cell only |
| Framebuffer.InkBytes | runtime/einkctl.c:229-250 | on a byte boundary a row of a character is the byte of the font, inverted when black; bytes without a glyph show a question mark |
| Framebuffer.Text | runtime/einkctl.c:252-263 | each pixel of the line belongs to the character whose cell it is in; nothing outside changes |
| PageRenderer.TextOnPlain | runtime/einkctl.c:451-477 | text over its own background shows its ink and nothing else |
| PageRenderer.RenderText | runtime/einkctl.c:415-482 | every pixel of an in-range page is that of the page description; an out-of-range page or lack of memory changes nothing |
| PageBytes.PageIsBytes | runtime/einkctl.c:415-482 | each of the 48000 bytes of a page, from the bytes of the font: bar, title, 26 lines, rule and footer |
| PageBytes.FooterIs | runtime/einkctl.c:466-474 | the footer carries the page number, counted from one, and the number of pages, cut to 63 characters |
| PageBytes.PagesHoldLines | runtime/einkctl.c:436-452 | line i is in row i mod 26 of page i / 26, and no page is without a line |
| HostArenas.SearchIsLeast | runtime/fx_wamr_runner.c:187-201 | the search ends with the least aligned offset that fits, or with none exactly when none does |
| HostArenas.FirstFit | runtime/fx_wamr_runner.c:178-207 | least offset; fails only for size 0, both slots taken, or no such offset |
| HostArenas.MallocLive | runtime/fx_wamr_runner.c:218-238 | a malloc adds one block where none was, or changes nothing |
| HostArenas.ReallocLive | runtime/fx_wamr_runner.c:240-280 | a realloc puts one block in place of another; a failed nonzero one changes nothing |
| HostArenas.FreeLive | runtime/fx_wamr_runner.c:282-301 | a free releases its block and no other |
| HostAnswers.MallocServes | runtime/fx_wamr_runner.c:218-238 | up to 32768 bytes libc answers and the area stays; beyond that the area answers with its first room, or NULL exactly when two blocks are in it or there is none; linear memory is given out once at a time, zeroed |
| HostAnswers.ReallocServes | runtime/fx_wamr_runner.c:240-280 | a block of the area is resized exactly when it then ends in the area and apart from the other; any other runtime block is libc's to resize up to 32768 bytes and refused beyond; linear memory up to its capacity |
| HostArenas.RoutedHome | runtime/fx_wamr_runner.c:282-301 | every live pointer is of one arena only, and release goes to that one |
| HostArenas.LiveApart | runtime/fx_wamr_runner.c:218-301 | live blocks do not overlap |
| HostArenas.LiveInBounds | runtime/fx_wamr_runner.c:218-301 | a live block is inside one of the arenas, or libc's and away from both |
| HostArenas.ResizedMemory | runtime/fx_wamr_runner.c:273-279 | growing appends zeros, shrinking truncates |
| HostArenas.MemoryStep | runtime/fx_wamr_runner.c:232-297 | every call acts on the guest's memory as on a sequence of bytes |
| HostArenas.EveryRun | runtime/fx_wamr_runner.c:178-302 | over every run of calls in order the arenas stay sound, blocks no call names stay live with their size, and the guest's memory is the run of the sequence model |
| HostArenas.EveryRunIsSafe | runtime/fx_wamr_runner.c:178-302 | however calls are mixed from an empty host on, live blocks are in bounds and do not overlap |
| HostAllocator.WamrAllocator.FindOffset | runtime/fx_wamr_runner.c:187-201 | the loop computes the search and ends |
| HostAllocator.WamrAllocator.MetadataMalloc | runtime/fx_wamr_runner.c:178-207 | slot, offset and pointer are those of the model |
| HostAllocator.WamrAllocator.MetadataSlot | runtime/fx_wamr_runner.c:209-215 | the slot whose live block starts at the pointer, or none |
| HostAllocator.WamrAllocator.Malloc | runtime/fx_wamr_runner.c:218-238 | state and answer are those of the model |
| HostAllocator.WamrAllocator.Realloc | runtime/fx_wamr_runner.c:240-280 | state and answer are those of the model |
| HostAllocator.WamrAllocator.Free | runtime/fx_wamr_runner.c:282-301 | state is that of the model; libc is only handed its own blocks |
| ByteSinks.ByteSink.WriteBody | runtime/fx_wamr_native.c:307-349 | all of a chunk, or nothing and a raised overflow flag, exactly by the room left and by realloc's answer |
| StreamModel.EveryRun | runtime/fx_wamr_native.c:963-1088 | in every run at most one live slot is in a borrowed buffer, and every allocated buffer is with one live slot or freed once, never both |
| StreamModel.DeinitFreesAll | runtime/fx_wamr_native.c:1253-1265 | after unloading every buffer ever allocated has been freed exactly once |
| StreamModel.ReadsArePrefixes | runtime/fx_wamr_native.c:1047-1071 | in every run, what was read from a slot is a prefix of the chunks its request delivered |
| StreamModel.EmptyReadIsTheEnd | runtime/fx_wamr_native.c:1047-1071 | an empty read with room means everything was read, and only then |
| StreamModel.LiveStays | runtime/fx_wamr_native.c:963-1088 | a live slot keeps its bytes, status and buffer until it is closed |
| StreamModel.LentMeansOne | runtime/fx_wamr_native.c:984-996 | while a buffer stays lent, at most one stream is live |
| StreamModel.RunsFromEmpty | runtime/fx_wamr_native.c:963-1088 | from an initialised table on, every run is sound and every read a prefix |
| StreamAnswers.OpenServes | runtime/fx_wamr_native.c:963-1027 | a stream is opened exactly when a slot is free, all are if a buffer is lent, the request succeeds and its body fits; in the first free slot |
| StreamAnswers.LendingServes | runtime/fx_wamr_native.c:283-288 | lending decides the room of the next stream and ends none |
| StreamAnswers.NextServes | runtime/fx_wamr_native.c:1047-1071 | a read gives as much of what is left as there is room for |
| StreamAnswers.ReadsGiveTheBody | runtime/fx_wamr_native.c:1047-1071 | reads with enough room in all give the whole body |
| StreamAnswers.StatusIsSent | runtime/fx_wamr_native.c:1029-1045 | in every run an open stream has the status its request came back with |
| StreamAnswers.CloseServes | runtime/fx_wamr_native.c:1073-1088 | a closed stream has no status and no bytes, its slot is free and its own buffer given back, once |
| StreamTable.Streams.PerformRequest | runtime/fx_wamr_native.c:307-349 | succeeds exactly when the request does, its chunks fit and memory for them is had, and then holds them in order |
| StreamTable.Streams.OpenStream | runtime/fx_wamr_native.c:963-1027 | table and handle are those of the model, in a borrowed or an owned buffer |
| StreamTable.Streams.StreamStatus | runtime/fx_wamr_native.c:1029-1045 | the status of an open handle, nothing otherwise |
| StreamTable.Streams.NextChunk | runtime/fx_wamr_native.c:1047-1071 | table, count and bytes are those of the model; no other byte of the output changes |
| StreamTable.Streams.CloseStream | runtime/fx_wamr_native.c:1073-1088 | frees what the slot owns and clears it; closing again does nothing |
| StreamTable.Streams.SetStreamBuffer | runtime/fx_wamr_native.c:283-288 | lends or takes back the buffer; live slots stay as they are |
| StreamTable.Streams.DeinitLib | runtime/fx_wamr_native.c:1253-1265 | clears every slot and gives its buffer back |

## Left out

- TextBuffers.TextBuffer.AppendUtf8: it, the decoders built on it and the ACP reader are given the memory they ask for within the size limit; `TextBuffers.TextBuffer.Append` itself has the failing case.
- ByteSinks.ByteSink.WriteBody: the overflow test on the product of its two sizes is not modelled; a chunk is a byte string.
- HttpHeaders.ParseHeaders: its strings and the libcurl list are values with the memory they need; their frees and out-of-memory returns are not modelled.
- EinkJson.WriteJsonString: write errors of the output stream are not modelled.
- BridgeJson.SinkAppendJsonString: its sink is given the memory it asks for.
- CompactArena.Arena.Alloc: node headers are records beside byte memory; `TowerRuns` lets any bytes be written where they lie.
- OverlayMachine.LoadFunction: which opcodes the loader replaces is given, any list of replacements per opcode; the one-byte forms of local accesses it writes into writable code only, whose meaning is in interpreter code outside the patch, and running out of memory in it are not modelled.
- HostAllocator.WamrAllocator.Malloc: the bytes of libc and metadata blocks are not modelled, only their places and sizes; the linear memory is modelled byte by byte.
- JSON numbers and literals are any run of letters, digits, sign and point, a superset of RFC 8259.
- Opcode semantics: what an opcode does at its address with its immediates and the machine state is a parameter, so the execution theorems hold for all of them.
- dlmalloc and libc are contracts: fresh disjoint blocks, realloc keeps the common prefix.
- Address-space overflow is modelled only where the code tests for it; other sizes are unbounded.
- The lend and rearm guards around test processes, curl and mbedTLS, the model catalog and fixture replies, process spawning, file input and the page number parsing are not modelled.
- Panel commands, SPI and GPIO, PBM output, serial console, deployment, flashing and build scripts are I/O and are not modelled.
- Partition checks, flash headers and trace auditing are left out because they hold no invariant beyond their own field comparisons.
