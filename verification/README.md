# Verified models of a gSOAP runtime and its zip components

The application in this repository is thin; the difficult logic is in the runtime
it carries. This project models that logic in Dafny and proves what it is relied
on for. Files, bottom up:

| files | what they model |
|---|---|
| Memory, IdRef, IdTable, Interleaving | multi-reference values: the id/href table whose waiting lists run through the cells to be filled |
| Relocation, Update, Blocks, Flatten, SaveBlock | block lists, and moving parsed objects while references are pending |
| Wire, Chunked, ChunkedBody, ChunkedSend | HTTP chunked transfer, both directions |
| Input, Mime, MimeHeader, MimeParts, MimeStart, TagCmp | MIME attachments, and the wildcard comparison their headers use |
| Dime, Attachments | DIME attachments, and the predicted length of both kinds |
| Lab, Entities, XmlToken, XmlText, XmlNested, XmlRefs, XmlMarkup, XmlAttr, Base64, Base64String | the look-aside buffer and the text codecs that read into it |
| Namespaces, Marks | the namespace stack; the pointer table and the two output passes |
| Repair, RepairRead, RepairWritten, Cipher, KeySchedule, Singleton | unzRepair, the PKWARE cipher, the double-checked singleton |

The default build is assumed: WITH_FAST, no zlib, SSL or DOM, 32 bit soap_wchar
and size_t, signed char, strings in UTF mode (SOAP_C_UTFSTRING). Routines that
update the soap record are methods of classes with those fields, proved against
functions on the state; what the routines are for is then proved about the
functions. `hide` statements only keep proofs small.

Where a routine does not meet the property one would expect, the code is kept and
the exact condition is proved:

- pointer cells filled before a block list is flattened dangle when their object
  lay in it (SaveBlock.GoodAfter, SaveBlock.FilledCellDangles);
- a chunk extension with a byte 255 ends a chunked body, and of a chunk size with
  more than sixteen digits only the first sixteen are read
  (ChunkedBody.FramingExactly, ChunkedBody.ChunkRead);
- a MIME boundary with a byte above 127 is never seen (MimeParts.MessageReadBack);
- a MIME part without header fields is misread, and a header value loses leading
  white space and leading bytes above 127 (MimeHeader.HeadReads);
- an empty DIME name comes back as none, a longer one than 65535 bytes cut
  (Dime.HeaderReadsExactly, Attachments.DimeLength);
- a streamed DIME record without an id repeats its type and options in every chunk
  (Dime.ContinuedExactly), and a long option text is declared too short
  (Dime.OptionExactly);
- the comparison treats `*` before `*` or `-` literally (TagCmp.PlainExactly), and
  lets a `*` of the subject use up one of the pattern (TagCmp.StarFreeExactly);
- a reference by number with more than five decimal or four hexadecimal digits
  leaves its end in the text (XmlRefs.DecimalReadsExactly, XmlRefs.HexReadsExactly),
  and of one above 127 an attribute value keeps the low byte only
  (XmlRefs.ValueReference);
- `/>` in the text of a nested element counts as the end of an element, so that the
  outer text ends too soon (XmlNested.SlashGtLost);
- an archive that breaks off inside a header is repaired without that entry, one
  that breaks off behind it not at all (RepairWritten.BrokenOff);
- HTML names are compared without regard to case, so that `&agrave;` gives an
  earlier character of the table than its own (Entities.FirstFound,
  Entities.CaseLost);
- between start tags a namespace lookup can see a declaration of an element
  already left (Namespaces.LookupBetweenTags);
- with Free, the singleton can hand out a deleted object (Singleton.ReturnedAlive).

## Model

| member | source | states |
|---|---|---|
| IdTable.Soap.IdLookup | doc/ws/stdsoap2.cpp:7720-7798 | a pointer cell meets an id that is new, waiting or defined: the whole new state, and NULL exactly when the defined id has another type |
| IdTable.Soap.IdForward | doc/ws/stdsoap2.cpp:7808-7855 | a by-value location joins the copy chain of its id or, when it is too short for a pointer or the id is not local, the forward list |
| IdTable.Soap.IdEnter | doc/ws/stdsoap2.cpp:7864-7918 | a definition: the address is recorded; NULL exactly for a duplicate id or a size or type that contradicts what already waits |
| IdRef.LookupKeeps | doc/ws/stdsoap2.cpp:7720-7798 | a lookup keeps the invariant of the table: both chains of every entry run through exactly the cells waiting for it, and every other pointer cell holds its address |
| IdRef.HangExactly | doc/ws/stdsoap2.cpp:7827-7853 | a location with room for a pointer whose id is local is written at once, as the new head of the chain; any other is left as it is until the copies are made |
| IdRef.ForwardStepKeeps | doc/ws/stdsoap2.cpp:7808-7855 | a by-value forward reference keeps the invariant of the table, whichever list it joins |
| IdRef.EnterStepKeeps | doc/ws/stdsoap2.cpp:7864-7918 | a definition keeps the invariant of the table, provided each waiting copy lies wholly inside or outside the new object |
| IdTable.Soap.WriteLinks | doc/ws/stdsoap2.cpp:2310-2320 | walking a chain while overwriting the very cells it runs through reaches each of them and writes nothing else |
| IdRef.LinksResolved | doc/ws/stdsoap2.cpp:2307-2321 | writing the address of an id into every cell of its link chain and emptying the chain keeps the invariant of the table |
| IdTable.Soap.LinkPhase | doc/ws/stdsoap2.cpp:2307-2328 | the first loop succeeds exactly when every id starting with # is defined, and names an undefined one otherwise |
| IdTable.Soap.HasCopies | doc/ws/stdsoap2.cpp:2274-2291 | found exactly when some location still waiting for a copy lies in the region |
| IdTable.Soap.FillChain | doc/ws/stdsoap2.cpp:2335-2346 | every object on a copy chain becomes the source's cells although the chain runs through the objects being overwritten |
| IdTable.Soap.FillList | doc/ws/stdsoap2.cpp:2347-2367 | every location on a forward list receives the source's cells, and the list is emptied |
| IdTable.Soap.Flush | doc/ws/stdsoap2.cpp:2334-2368 | everything that waited for one id is filled and nothing else changes |
| IdRef.CopiesResolved | doc/ws/stdsoap2.cpp:2334-2368 | filling everything that waited for one id keeps the invariant of the table for all other ids |
| IdRef.FlushSettles | doc/ws/stdsoap2.cpp:2334-2368 | copying only from objects without pending copies inside keeps earlier copies equal to the final bytes of their objects |
| IdTable.Soap.CopyPhase | doc/ws/stdsoap2.cpp:2329-2371 | the rounds terminate, and when they stop no defined object that something waits for could be copied |
| IdRef.NothingStuck | doc/ws/stdsoap2.cpp:2329-2371 | if containment between by-value objects is acyclic and all are defined, nothing stays pending |
| IdRef.AcyclicHasNoCycle | doc/ws/stdsoap2.cpp:2329-2371 | acyclic by ranks means that no path of containment returns to where it began |
| IdTable.ResolvedAll | doc/ws/stdsoap2.cpp:2301-2383 | the same of the states before and after the two loops: all registered pointers hold their addresses, filled copies equal their final objects, and none is left exactly when containment is acyclic and all are defined |
| IdTable.Soap.Resolve | doc/ws/stdsoap2.cpp:2301-2383 | SOAP_OK exactly when every # id is defined; then every pointer and every filled copy is final, and no copy is left pending exactly when containment is acyclic and all are defined |
| Interleaving.Perform | doc/ws/stdsoap2.cpp:7720-7918 | one reference, by-value reference, definition, allocated definition or moved chunk: it succeeds exactly when a plain record of the message accepts it (of types and sizes only what the runtime itself compares), and the table with its chains then shows what that record says |
| Interleaving.Parse | doc/ws/stdsoap2.cpp:2301-2383 | any message of such operations at one level, in distinct locations: it stops at the first one that is refused, with its error; otherwise resolving succeeds exactly when every # id is defined, every pointer cell then holds the address of its object wherever the definition stood and wherever both moved, every filled copy equals its object, and none is left exactly when all are defined and containment is acyclic |
| Interleaving.FirstType | doc/ws/stdsoap2.cpp:7720-7918 | the type an id is held to is the one it was met with first; a definition of another type behind pointers to it is accepted |
| Interleaving.DerivedAccepted | doc/ws/stdsoap2.cpp:7720-7918 | a reference of one type before the definition of another is a message as meant here, accepted and complete |
| Interleaving.CellsResolved | doc/ws/stdsoap2.cpp:2301-2383 | after a successful resolve every pointer cell of the message holds the address its id was defined with, and every copy made equals the object, at their places after all moves |
| Interleaving.RelocateShows | doc/ws/stdsoap2.cpp:2508-2518 | a chunk that moves in the middle of a message: the table shows the record with the same locations at their new places, provided no cell already filled points into the chunk |
| Interleaving.FlattenedThenResolved | doc/ws/stdsoap2.cpp:2498-2524 | a whole block list flattened in the middle of a message, and the message resolved afterwards: everything is resolved at its new place |
| Interleaving.AllDefinedIs | doc/ws/stdsoap2.cpp:2307-2328 | every # id known is defined exactly when every # id the message mentions is defined somewhere in it |
| Interleaving.DestsDefinedIs | doc/ws/stdsoap2.cpp:2329-2371 | every by-value location has a defined id exactly when every id the message refers to by value is defined somewhere in it |
| IdRef.EnterFreshKeeps | doc/ws/stdsoap2.cpp:7864-7918 | a definition whose object is allocated on the spot keeps the invariant of the table |
| Update.RethreadChain | doc/ws/stdsoap2.cpp:2232-2245 | walking a chain and redirecting the pointers that lead into a region |
| Update.UpdatePointers | doc/ws/stdsoap2.cpp:2216-2268 | every address of the table and every link of every chain that lies in the region is redirected; nothing else is |
| Relocation.RethreadThenCopy | doc/ws/stdsoap2.cpp:2510-2518 | redirecting the chains and then copying the region gives the moved memory: chain cells hold redirected links, all others their bytes |
| Relocation.ThreadsMoved | doc/ws/stdsoap2.cpp:2216-2268 | the id/href structure survives a move: each chain visits the new places of the same cells in the same order |
| Relocation.DirectMoved | doc/ws/stdsoap2.cpp:2216-2268 | a cell that was filled at once is not on a chain, so its value is left as it is |
| Blocks.PushBlock | doc/ws/stdsoap2.cpp:2175-2189 | a new chunk at the head of the list, older memory untouched |
| Blocks.PopBlock | doc/ws/stdsoap2.cpp:2197-2208 | the newest chunk is freed, the others stay |
| Blocks.ReverseChain | doc/ws/stdsoap2.cpp:2412-2419 | reversal of the chunk list in place: the same chunks in the opposite order, no other cell written |
| SaveBlock.FirstBlock | doc/ws/stdsoap2.cpp:2407-2425 | the oldest chunk's data |
| SaveBlock.NextBlock | doc/ws/stdsoap2.cpp:2432-2446 | the current chunk is freed, the next one's data returned |
| SaveBlock.BlockSizeOf | doc/ws/stdsoap2.cpp:2454-2458 | the size of the first chunk |
| SaveBlock.EndBlock | doc/ws/stdsoap2.cpp:2466-2490 | exactly the chunks are freed |
| SaveBlock.MoveChunk | doc/ws/stdsoap2.cpp:2508-2518 | the table and memory after one chunk has moved, whether its pointers had to be redirected or none led into it |
| SaveBlock.PlaceOf | doc/ws/stdsoap2.cpp:2498-2524 | the moves of all chunks together lay their data end to end, oldest first, and leave every other address alone |
| SaveBlock.SaveBlocks | doc/ws/stdsoap2.cpp:2498-2524 | flattening: the id/href structure at its new places, the data end to end, nothing else written; the memory afterwards is the memory before without exactly the chunks, so that no chain, waiting location or object touches a freed chunk |
| SaveBlock.GoodAfter | doc/ws/stdsoap2.cpp:2498-2524 | pointer cells that were filled before stay right if and only if none of them points into a chunk |
| SaveBlock.FilledCellDangles | doc/ws/stdsoap2.cpp:2216-2268 | an id defined in a chunk and then referenced: the table is in order and the chunk can be flattened, but afterwards the filled cell holds an address that is no longer allocated |
| SaveBlock.NothingInside | doc/ws/stdsoap2.cpp:2498-2524 | when the chunks are freed, no cell on a chain, no waiting location and no object lies in one of them |
| Chunked.Receiver.GetChunkChar | doc/ws/stdsoap2.cpp:1037-1047 | the next raw byte as a signed char, across refills, so that byte 255 reads as EOF |
| Chunked.Receiver.ReadHeader | doc/ws/stdsoap2.cpp:1146-1164 | one chunk header, across any number of refills |
| Chunked.Receiver.RecvRaw | doc/ws/stdsoap2.cpp:1119-1187 | for any piece the transport delivers: data bytes become available or EOF is reported, what is still to be delivered being unchanged |
| Chunked.Receiver.Get1 | doc/ws/stdsoap2.h:2138 | the next data byte, EOF exactly when none is left |
| Chunked.Receiver.ReadAll | doc/ws/stdsoap2.cpp:14656-14660 | reading up to EOF delivers exactly the data of the stream |
| ChunkedBody.SizeRead | doc/ws/stdsoap2.cpp:1162-1163 | the size announced is what the first 16 digits stand for, and 2^32 - 1 when that is more |
| ChunkedBody.HeaderRead | doc/ws/stdsoap2.cpp:1146-1164 | a header line with an extension is understood if and only if the extension holds no byte 255, and announces the number its first 16 digits stand for |
| ChunkedBody.ChunkRead | doc/ws/stdsoap2.cpp:1119-1187 | of a chunk as many bytes are delivered as the front of its size says, which is fewer than it has exactly when the size has more than 16 digits; the rest of the data is then read as what follows the chunk |
| ChunkedBody.BodyRead | doc/ws/stdsoap2.cpp:1119-1187 | the concatenated chunk data of a well-formed body (section 4.1 of RFC 7230) is delivered, when no chunk extension holds a byte 255 and no chunk size has more than 16 digits, the last chunk being written in any way |
| ChunkedBody.FramingExactly | doc/ws/stdsoap2.cpp:1119-1187 | a framing delivers whatever data is put into it if and only if it meets those two conditions |
| ChunkedBody.ExtensionLoses | doc/ws/stdsoap2.cpp:1160-1164 | with sizes of at most 16 digits, given data is delivered if and only if no chunk extension holds a byte 255 |
| ChunkedBody.ReceiveBody | doc/ws/stdsoap2.cpp:1064-1244 | reading a well-formed body through soap_get1 gives what the stream means, and its data when the framing is understood, for every splitting of the bytes, part of which may have come with the HTTP header |
| Wire.LowerHexRoundTrip | doc/ws/stdsoap2.cpp:1152-1163 | the numeral of any n as %x writes it is read as n |
| Wire.HexCase | doc/ws/stdsoap2.cpp:1152-1163 | a hexadecimal numeral is read alike whatever the case of each of its letters |
| ChunkedBody.NumeralDelivers | doc/ws/stdsoap2.cpp:1119-1187 | a chunk whose size is written in capitals, small letters or both is delivered whole |
| ChunkedSend.Sender.FlushRaw | doc/ws/stdsoap2.cpp:828-848 | one chunk, preceded by CRLF unless it is the first |
| ChunkedSend.Sender.Flush | doc/ws/stdsoap2.cpp:782-820 | the buffer goes out as a chunk, or nothing does |
| ChunkedSend.Sender.SendRaw | doc/ws/stdsoap2.cpp:746-774 | whatever the sizes, the bytes sent so far are extended by exactly these |
| ChunkedSend.Sender.EndSend | doc/ws/stdsoap2.cpp:8040-8045 | the output decodes to what was sent, and no empty chunk precedes the last one |
| ChunkedSend.FramesRead | doc/ws/stdsoap2.cpp:828-848 | chunks as the sender frames them are what the receiver takes apart |
| ChunkedSend.Transfer | doc/ws/stdsoap2.cpp:746-848 | send and receive end to end, the empty message included |
| Mime.Scanner.MatchPattern | doc/ws/stdsoap2.cpp:14002-14008 | how far the stream agrees with the delimiter, the bytes read being unsigned and those of the delimiter signed |
| Mime.Scanner.ReadContent | doc/ws/stdsoap2.cpp:13981-14042 | the one-pass scanner with replay delivers exactly the bytes before the first CRLF--boundary, and fails exactly when none with a byte behind it comes or the boundary has a byte above 127 |
| Mime.HighByteNeverSeen | doc/ws/stdsoap2.cpp:14008-14009 | a boundary with a byte above 127 is never seen, whatever the stream |
| Mime.CrStep | doc/ws/stdsoap2.cpp:14001-14020 | after a partial match the bytes to be replayed and the pending CR hold all that was read |
| MimeHeader.GetLine | doc/ws/stdsoap2.cpp:13389-13417 | the line and what is left of any stream, folded lines joined, failing exactly when the stream ends or the line is too long |
| MimeHeader.LineReads | doc/ws/stdsoap2.cpp:13389-13417 | a line that is not continued is read back if and only if it fits the buffer |
| MimeHeader.FoldedReads | doc/ws/stdsoap2.cpp:13389-13417 | a line and those that continue it are read as one, the line ends between them dropped and the blanks kept, if and only if together they fit the buffer |
| MimeHeader.SetField | doc/ws/stdsoap2.cpp:13879-13901 | a header line sets the field whose name its key matches, to the value without its lead; others are ignored |
| MimeHeader.FirstCode | doc/ws/stdsoap2.cpp:1376-1385 | a value is the first code whose name it matches, and 0 only when it matches none |
| MimeHeader.LookUpCode | doc/ws/stdsoap2.cpp:1376-1385 | the first code whose name matches |
| MimeHeader.GetMimeHdr | doc/ws/stdsoap2.cpp:13853-13906 | the fields of a header block and what is left of any stream, after empty lines and a delimiter line that may come first; that line must be the boundary known, or makes it known |
| MimeHeader.HeadReads | doc/ws/stdsoap2.cpp:14133-14150 | a written header block is read back, consuming exactly the block, if and only if it has a field, no value starts with white space or a byte above 127, and every line fits |
| MimeHeader.DelimitedHeadReads | doc/ws/stdsoap2.cpp:13859-13876 | behind a delimiter line, which may end in white space, the block is read if and only if that line is the one expected or none is, it and every other line fit, and no value starts with white space or a byte above 127; any other boundary is refused |
| MimeHeader.KeyCase | doc/ws/stdsoap2.cpp:13884-13898 | a key sets the field of its name in letters of any case |
| MimeParts.PutMimeHdr | doc/ws/stdsoap2.cpp:14133-14150 | the delimiter line and a line for each field present, in a fixed order |
| MimeParts.PutMime | doc/ws/stdsoap2.cpp:14160-14216 | every part after its header, and the closing delimiter |
| MimeParts.GetNext | doc/ws/stdsoap2.cpp:14044-14062 | what follows a delimiter is the end, white space and a header block of the next part, or an error |
| MimeParts.PaddedHeader | doc/ws/stdsoap2.cpp:14054-14062 | behind a delimiter white space is skipped up to the line end and the next header; anything else there is an error |
| MimeParts.GetMime | doc/ws/stdsoap2.cpp:13916-13920 | all parts of any stream in which no delimiter met is followed by NUL, or failure |
| MimeParts.ContentExactly | doc/ws/stdsoap2.cpp:13981-14042 | content written is content read if and only if it does not contain the delimiter and the boundary has no byte above 127 |
| MimeParts.MessageReadBack | doc/ws/stdsoap2.cpp:14160-14216 | a whole message is read back, the root content and every part with its fields and data (section 5.1.1 of RFC 2046), if and only if the boundary has no byte above 127; otherwise nothing is |
| MimeStart.FieldNames | doc/ws/stdsoap2.cpp:14133-14150 | the names of the header fields as they are sent |
| MimeStart.CodeNames | doc/ws/stdsoap2.cpp:541-550 | the name of each SOAP_MIME code as it is sent |
| MimeStart.RootTypes | doc/ws/stdsoap2.cpp:14775-14787 | the media type of the root part: DIME without MTOM, the envelope's own, or that of XOP naming it |
| MimeStart.PutRootHeader | doc/ws/stdsoap2.cpp:14774-14791 | the first delimiter and the header of the root part, with the media type of the mode, left out when boundary and start id are too long |
| MimeStart.BeginRecv | doc/ws/stdsoap2.cpp:14727-14733 | the preamble of any stream is skipped and the header of the root part read, or failure |
| MimeStart.PreambleExactly | doc/ws/stdsoap2.cpp:14728-14731 | the delimiter behind a preamble is found if and only if no two dashes stand together before it |
| MimeStart.StartReads | doc/ws/stdsoap2.cpp:14727-14733 | the header of the root part is read behind such a preamble, the boundary being known before or not; another boundary is refused |
| MimeStart.Exchange | doc/ws/stdsoap2.cpp:14727-14733 | a message written and read back by the routines themselves from its first delimiter, through the root header and all parts, nothing beyond its end being consumed; it fails exactly for a boundary with a byte above 127 |
| TagCmp.Compare | doc/ws/stdsoap2.cpp:2866-2906 | terminates, and is 0 exactly when the subject up to a double quote is accepted |
| TagCmp.AcceptsIsMatches | doc/ws/stdsoap2.cpp:2866-2906 | for a pattern where * is followed by neither * nor -, and a subject or pattern without *, acceptance is the declarative relation: the backtracking loses no match |
| TagCmp.PlainExactly | doc/ws/stdsoap2.cpp:2879-2898 | for subjects without * the comparison decides the relation if and only if the pattern is of that kind |
| TagCmp.StarFreeExactly | doc/ws/stdsoap2.cpp:2866-2906 | for all subjects, those with * included, the comparison decides the relation if and only if the pattern has no * |
| TagCmp.CaseIgnored | doc/ws/stdsoap2.cpp:2871-2876 | the comparison does not change with the case of any letter on either side |
| TagCmp.LiteralExactly | doc/ws/stdsoap2.cpp:2866-2906 | a pattern without wildcards accepts exactly the texts that differ from it in the case of letters only |
| Dime.PutDime | doc/ws/stdsoap2.cpp:13568-13646 | the bytes of a list of attachments, whichever way their data comes, and when it fails |
| Dime.PutChunks | doc/ws/stdsoap2.cpp:13585-13608 | a streamed record in chunks, with an empty last one when the length is a multiple of the chunk size |
| Dime.PutSized | doc/ws/stdsoap2.cpp:13610-13631 | a record of known size, in any pieces the handle gives |
| Dime.Reader.GetDimeField | doc/ws/stdsoap2.cpp:13654-13678 | a field is n bytes and its padding up to a multiple of four; no bytes make it absent |
| Dime.Reader.GetDimeHdr | doc/ws/stdsoap2.cpp:13688-13728 | the fields of a record header and what is left of any stream, or failure; the flag of the last record ends the list |
| Dime.Reader.GetDimeData | doc/ws/stdsoap2.cpp:13794-13818 | the data of a record is that of its chunks one after the other, headers between them taken off |
| Dime.Reader.GetDime | doc/ws/stdsoap2.cpp:13747-13842 | the record loop on any stream, up to and not beyond the record flagged as last |
| Dime.HeaderReadsExactly | doc/ws/stdsoap2.cpp:13524-13558 | a header, flags and type format included, is read back, with exactly what follows it left, if and only if each field is absent or has 1 to 65535 bytes |
| Dime.ChunksRead | doc/ws/stdsoap2.cpp:13585-13608 | chunks of any number join to the data, under the names and the type format of the first one |
| Dime.ContinuedExactly | doc/ws/stdsoap2.cpp:13602-13607 | the header of a chunk that continues a record carries no names and no type format if and only if the record has an id or had none of them |
| Dime.FieldPadded | doc/ws/stdsoap2.cpp:13485-13489 | a field ends on a boundary of four bytes, zeros filling it up |
| Dime.OptionExactly | doc/ws/stdsoap2.cpp:13499-13515 | an option block declares what it holds if and only if its text has at most 65535 bytes |
| Dime.ListRead | doc/ws/stdsoap2.cpp:13568-13646 | any nonempty list that can be sent is received record by record, names cut to 65535 bytes and empty ones dropped, and reading stops right after the last record |
| Dime.ListReadExactly | doc/ws/stdsoap2.cpp:13568-13646 | the list itself comes back if and only if every field survives and no nonempty stream of unknown size was sent without streaming |
| Dime.Exchange | doc/ws/stdsoap2.cpp:13738-13843 | a list written and read back by the routines themselves |
| Attachments.CountAttachments | doc/ws/stdsoap2.cpp:13424-13478 | the count grows by the sizes computed for the two lists, each only in its mode |
| Attachments.MimeExact | doc/ws/stdsoap2.cpp:13446-13472 | the MIME prediction is the length sent |
| Attachments.DimeLength | doc/ws/stdsoap2.cpp:13430-13443 | the DIME prediction is never short, and exact if and only if no name exceeds 65536 bytes |
| Attachments.ModesExactly | doc/ws/stdsoap2.cpp:6853-6856 | what the two passes make of the mode asked for: MTOM needs MIME, which asking for DIME as well brings in, and DIME attachments are sent only without it |
| Attachments.PredictionExactly | doc/ws/stdsoap2.cpp:6816-6950 | the length predicted in the mode of the counting pass is the length sent in the mode of the sending pass, with MTOM or without, if and only if no name of a DIME attachment that is sent exceeds 65536 bytes |
| Lab.Buffer.Reserve | doc/ws/stdsoap2.cpp:10176-10201 | doubling: room for n more bytes and one to spare, the prefix kept, the capacity the least one that doubling reaches |
| Lab.GrownExactly | doc/ws/stdsoap2.cpp:10176-10201 | the new length is the first of the doublings that is large enough |
| Lab.Buffer.Append | doc/ws/stdsoap2.cpp:10176-10201 | the stored bytes are extended by exactly the new ones |
| XmlToken.StringOut | doc/ws/stdsoap2.cpp:10637-10721 | runs of plain bytes and references between them make up the escaped text |
| XmlToken.EscapeExactly | doc/ws/stdsoap2.cpp:10637-10721 | of the bytes that would not survive in XML only the ampersands of references are sent, and a string is sent as it is if and only if it contains none of them |
| Entities.LookUp | doc/ws/stdsoap2.cpp:1376-1385 | the code of the first HTML name that matches |
| Entities.FirstFound | doc/ws/stdsoap2.cpp:354-452 | the character found is the first of the table with that name up to case, and there is none for an unknown name |
| Entities.CharacterOf | doc/ws/stdsoap2.cpp:354-452 | a named reference is read as character 160 + j for the first of the 96 names, the j-th, that is its own up to case, and as 127 if there is none |
| Entities.CaseLost | doc/ws/stdsoap2.cpp:354-452 | &agrave; is read as an earlier character of the table than its own |
| XmlToken.Reader.GetChar | doc/ws/stdsoap2.cpp:1459-1491 | the character of a numeric, XML or HTML reference, and how much of the stream it takes |
| XmlToken.Reader.Get | doc/ws/stdsoap2.cpp:1523-1613 | the next token of any stream: comments, declarations and instructions read over, the characters of CDATA sections as they are, one character put back in front |
| XmlMarkup.CommentSkipped | doc/ws/stdsoap2.cpp:1574-1597 | behind a comment (section 2.5 of XML 1.0) the next token is that of what follows it |
| XmlMarkup.InstructionSkipped | doc/ws/stdsoap2.cpp:1617-1655 | so it is behind an instruction |
| XmlMarkup.DeclarationSkipped | doc/ws/stdsoap2.cpp:1583-1597 | behind a declaration, whose own markup is balanced, the next token is that of what follows it; so behind <% |
| XmlMarkup.Marks | doc/ws/stdsoap2.cpp:1533-1597 | the marks of comments, sections and instructions, spelled |
| XmlMarkup.SectionReadBack | doc/ws/stdsoap2.cpp:1533-1573 | the text of a CDATA section without the end mark is read as it stands, and what follows the section is read on |
| XmlText.ReferenceReads | doc/ws/stdsoap2.cpp:1459-1491 | every byte sent as a reference is recovered from it |
| XmlText.Parser.NextPiece | doc/ws/stdsoap2.cpp:11048-11181 | the bytes one token adds to the text, given how many elements are open inside it, or that it ends the text |
| XmlText.Parser.StringIn | doc/ws/stdsoap2.cpp:11022-11195 | element content collected in the look-aside buffer from any starting capacity, with nested elements and references |
| XmlText.TextReadBack | doc/ws/stdsoap2.cpp:10637-10721 | element text: every string without NUL comes back, and exactly it and the start of the end tag are consumed |
| XmlText.Exchange | doc/ws/stdsoap2.cpp:11022-11195 | text written and read back by the routines themselves, for any capacity of the look-aside buffer |
| XmlNested.NestedReadBack | doc/ws/stdsoap2.cpp:11022-11195 | element content with elements nested to any depth is read as it stands, up to the end tag of the element itself |
| XmlNested.SlashGtLost | doc/ws/stdsoap2.cpp:11107-11114 | a text in which /> ends no element loses what stands behind it |
| XmlRefs.StrTolExactly | doc/ws/stdsoap2.cpp:1470-1474 | the number of a reference: white space, a sign, a prefix 0x when hexadecimal, and the digits up to the first other character |
| XmlRefs.Predefined | doc/ws/stdsoap2.cpp:1475-1485 | the five predefined references of section 4.6 of XML 1.0 |
| XmlRefs.Utf8Decodes | doc/ws/stdsoap2.cpp:11048-11076 | every character from 128 on is stored so that decoding (section 2 of RFC 2279) gives it back, and in no more bytes than it takes |
| XmlRefs.DecimalReadsExactly | doc/ws/stdsoap2.cpp:1459-1491 | &# and a decimal numeral is read as exactly that character if and only if the numeral has at most five digits |
| XmlRefs.HexReadsExactly | doc/ws/stdsoap2.cpp:1459-1491 | &#x and a hexadecimal numeral in letters of any case is, if and only if it has at most four digits |
| XmlRefs.NumberInText | doc/ws/stdsoap2.cpp:11048-11076 | such a reference in element text is stored as its character in UTF-8, and the text goes on behind it |
| XmlRefs.ValueReference | doc/ws/stdsoap2.cpp:10102-10154 | in an attribute value only the low eight bits are stored, which is the character in UTF-8 if and only if it is below 128 |
| XmlAttr.Attributes.GetAttrVal | doc/ws/stdsoap2.cpp:10102-10154 | a value up to its delimiter, or as much as there is room for, the rest being still to be read |
| XmlAttr.Attributes.ReadValue | doc/ws/stdsoap2.cpp:10408-10439 | the value, resumed in the look-aside buffer after every growth, for any buffer it starts with |
| XmlAttr.ValueReadBack | doc/ws/stdsoap2.cpp:9804-9841 | attribute value: every string without NUL comes back, and exactly it and the closing quote are consumed |
| XmlAttr.DelimitedReadBack | doc/ws/stdsoap2.cpp:10102-10154 | so it does in apostrophes when it contains none, and unquoted when it contains no blank, slash or >, what ends it then being still to be read |
| XmlAttr.Exchange | doc/ws/stdsoap2.cpp:10102-10154 | a value written and read back by the routines themselves, for any size of both buffers |
| Base64.PutDigits | doc/ws/stdsoap2.cpp:1902-1903 | the loop from the last digit to the first gives the four digits of a group, nothing around them written |
| Base64.PutBase64 | doc/ws/stdsoap2.cpp:1885-1921 | the encoding is sent after what was sent before |
| Base64.S2Base64 | doc/ws/stdsoap2.cpp:15287-15321 | the encoding as a C string that fills its buffer |
| Base64.SextetExactly | doc/ws/stdsoap2.cpp:333-334 | a character is accepted as a digit if and only if it is the digit of its value |
| Base64.CodeExactly | doc/ws/stdsoap2.cpp:1955-1956 | a character given by its number counts as itself, and markup as markup |
| Base64.Reading.GetQuad | doc/ws/stdsoap2.cpp:1951-1995 | four digits collected over white space, or where and how the text ended, or a wrong character |
| Base64.Reading.Fill | doc/ws/stdsoap2.cpp:1942-2000 | the groups that fit, ending at three times a third of the capacity |
| Base64.Reading.GetBase64 | doc/ws/stdsoap2.cpp:1937-2001 | the decoded bytes and their exact number, through any number of doublings |
| Base64.Base64ReadBack | doc/ws/stdsoap2.cpp:1885-1921 | any bytes come back through XML (section 4 of RFC 4648), the end tag put back |
| Base64.Exchange | doc/ws/stdsoap2.cpp:1937-2001 | bytes written and read back by the routines themselves, for any capacity of the look-aside buffer |
| Base64String.Base642S | doc/ws/stdsoap2.cpp:15329-15403 | the decoded string in a buffer of the computed size, which is never too small |
| Base64String.StringReadBack | doc/ws/stdsoap2.cpp:15287-15321 | soap_base642s inverts soap_s2base64 |
| Base64String.BlanksSkipped | doc/ws/stdsoap2.cpp:15340-15375 | white space put into an encoding anywhere does not matter |
| Base64String.DecodersAgree | doc/ws/stdsoap2.cpp:1951-1995 | element text without markup is decoded by soap_getbase64 as by soap_base642s, or refused by both, the end tag put back |
| Base64String.BlanksSkippedInXml | doc/ws/stdsoap2.cpp:1951-1995 | nor does white space matter in XML |
| Base64String.Alphabet | doc/ws/stdsoap2.cpp:333-334 | the digits are those of table 1 of RFC 4648 |
| Base64String.KnownEncodings | doc/ws/stdsoap2.cpp:1885-1921 | the test vectors f, fo and foo of section 10 of RFC 4648 |
| Namespaces.Stack.PushAll | doc/ws/stdsoap2.cpp:10484-10486 | the declarations of a start tag on top of the stack |
| Namespaces.Stack.Pop | doc/ws/stdsoap2.cpp:2793-2801 | bindings of the current level and deeper go |
| Namespaces.Stack.PeekElement | doc/ws/stdsoap2.cpp:10338-10486 | at a start tag the stack holds exactly the bindings of the open elements and of the element itself |
| Namespaces.Stack.BeginIn | doc/ws/stdsoap2.cpp:9849-9869 | entering an element; an empty one does not deepen the level |
| Namespaces.Stack.Revert | doc/ws/stdsoap2.cpp:10622-10629 | the last start tag can be matched again |
| Namespaces.Stack.EndIn | doc/ws/stdsoap2.cpp:9877-9945 | leaving an element leaves its bindings on the stack, and outside strict mode those of its last descendants |
| Namespaces.PopScope | doc/ws/stdsoap2.cpp:2793-2801 | levels never increase from head to tail, and popping leaves exactly the bindings of the elements still open |
| Namespaces.Stack.Lookup | doc/ws/stdsoap2.cpp:2809-2827 | the binding found is the innermost declaration among the elements whose bindings are on the stack: at a start tag, the open ones and the element itself (section 6.1 of Namespaces in XML 1.0) |
| Namespaces.LookupBetweenTags | doc/ws/stdsoap2.cpp:2835-2858 | elsewhere the entry found is the one in scope if and only if no element left since the last start tag declares the prefix |
| Namespaces.StillFound | doc/ws/stdsoap2.cpp:9877-9945 | a prefix declared only by a child that was left is still found, in strict mode as well |
| Namespaces.Walk | doc/ws/stdsoap2.cpp:9849-9945 | every lookup gives what lexical scope says, in any well-nested run with reverts, empty elements, skipped content and start tags read ahead |
| Marks.Pointers.PointerLookup | doc/ws/stdsoap2.cpp:6728-6742 | the chain of one bucket gives what a search of all entries would |
| Marks.Pointers.PointerEnter | doc/ws/stdsoap2.cpp:6752-6781 | a new entry with the next id, chains and numbering kept |
| Marks.Pointers.Reference | doc/ws/stdsoap2.cpp:7044-7062 | references are counted, up to two, for both passes alike |
| Marks.Pointers.ElementId | doc/ws/stdsoap2.cpp:9736-9764 | the decision for one element, and that only the marks of the running pass are read and written |
| Marks.Pointers.TwoPasses | doc/ws/stdsoap2.cpp:9736-9764 | length pass and send pass decide alike for any sequence of calls, in the header or not |
| Marks.MultiReferenced | doc/ws/stdsoap2.cpp:7143-7190 | an object referenced once never carries an id; one referenced more carries it at its first element only and is a reference afterwards (always, with SOAP 1.1 encoding) |
| Marks.IdsDistinct | doc/ws/stdsoap2.cpp:6776 | ids of different objects differ |
| Repair.CopyEntry | public/include/zip/mztools.c:72-128 | one entry is copied, and fails exactly when it is cut short or has no name |
| Repair.PutRecord | public/include/zip/mztools.c:137-158 | the 46 bytes of a directory record, taken from the local header and the offset |
| Repair.UnzRepair | public/include/zip/mztools.c:30-280 | succeeds exactly when the leading entries end cleanly, and then writes them, their directory and the end record, counting entries and data bytes |
| RepairRead.RecordRead | public/include/zip/mztools.c:137-200 | a record written is the record read (section 4.3.12 of APPNOTE.TXT) |
| RepairRead.RepairedReads | public/include/zip/mztools.c:49-259 | the output starts as the input does; its end record (4.3.16) locates the directory; the i-th record read there points at the i-th local header (4.3.7), which has the same crc, sizes, name and extra field |
| RepairWritten.SplitExactly | public/include/zip/mztools.c:49-128 | of an archive all entries as a zip program writes them (section 4.3.7 of APPNOTE.TXT, with as much data as the compressed size says, or the uncompressed one when that is 0) are found in front of anything that starts no entry |
| RepairWritten.BrokenOff | public/include/zip/mztools.c:49-128 | an archive that breaks off in an entry: the repair goes on exactly when not even the header of that entry is whole |
| RepairWritten.NamelessStops | public/include/zip/mztools.c:78-91 | an entry without a name stops the repair |
| RepairWritten.RepairWritten | public/include/zip/mztools.c:30-280 | such entries are all recovered and counted, and the directory found through the end record describes each as its own header does, in order and at its place |
| RepairWritten.LittleEndian | public/include/zip/mztools.c:16-27 | numbers are stored low byte first; the signatures are PK and two more bytes |
| Cipher.NoOverflow | public/include/zip/crypt.h:37-42 | temp*(temp^1) stays below 2^32 |
| Cipher.KeyArray.UpdateKeys | public/include/zip/crypt.h:47-57 | the three keys after a byte, each computed from the new value of the one before it |
| Cipher.KeyArray.Init | public/include/zip/crypt.h:64-74 | the keys after all bytes of a password, from the three start values |
| Cipher.KeyArray.Zencode | public/include/zip/crypt.h:79-80 | one byte encrypted |
| Cipher.KeyArray.Zdecode | public/include/zip/crypt.h:76-77 | one byte decrypted |
| Cipher.DecodesBack | public/include/zip/crypt.h:76-80 | decrypting with the same keys recovers every text (section 6.1 of APPNOTE.TXT) |
| Cipher.KeysInStep | public/include/zip/crypt.h:76-80 | the keys of the two sides agree after every byte |
| Cipher.WidthsAgree | public/include/zip/crypt.h:47-57 | the cipher text is the same for a 32 bit and a 64 bit unsigned long |
| Cipher.KeyArray.CryptHead | public/include/zip/crypt.h:90-129 | the twelve bytes of the encryption header, or none when the buffer is too small |
| Cipher.HeadDecodes | public/include/zip/crypt.h:90-129 | decrypting the output of crypthead gives its random bytes and then two bytes that are the high half of the checksum, the keys being in step |
| KeySchedule.TableStep | public/include/zip/crypt.h:30 | a step through the table is eight shifts with the polynomial 0xEDB88320 |
| KeySchedule.KeysAre | public/include/zip/crypt.h:47-74 | after any bytes the first key is the bitwise CRC of the bytes, the second the linear congruence of the low bytes of the first, the third the bitwise CRC of the high bytes of the second (section 6.1 of APPNOTE.TXT) |
| KeySchedule.DecryptByteIs | public/include/zip/crypt.h:35-43 | a byte of the key stream is bits 8 to 15 of the product, computed on numbers |
| KeySchedule.CipherText | public/include/zip/crypt.h:79-80 | each byte of a cipher text is that of the text and the byte of the key stream that the password and the text before it determine |
| KeySchedule.CrcTable | public/include/zip/crypt.h:30 | there is such a table, with three of its known entries |
| Singleton.EveryRun | public/include/dtk/DTK_Singleton.h:13-37 | for any number of threads and any order of steps: allocations minus deletions is 0 or 1, nothing is deleted twice, and m_pInstance is the object alive whenever the lock is free |
| Singleton.SameInstance | public/include/dtk/DTK_Singleton.h:13-25 | without Free all results that are not NULL are the same object |
| Singleton.AlwaysAnObject | public/include/dtk/DTK_Singleton.h:13-25 | without Free and failed allocations every result is that object, never NULL |
| Singleton.FlaggedAlways | public/include/dtk/DTK_Singleton.h:27-53 | whenever an object is deleted m_bFree is set, so that its destructor does not wait for the lock that Free holds; without Free it is never set |
| Singleton.ReturnedAlive | public/include/dtk/DTK_Singleton.h:13-37 | in every run, what a thread is about to return, unless NULL, is alive exactly when no thread has deleted it and not yet cleared m_pInstance; otherwise it has been deleted |
| Singleton.DeletedReturned | public/include/dtk/DTK_Singleton.h:13-37 | a run in which Instance returns a deleted object |
| Singleton.FreeChangesInstance | public/include/dtk/DTK_Singleton.h:27-37 | a run in which the calls before and after Free return different objects |

## Left out

- Sockets, TLS, HTTP header assembly, faults, plugins, dates and floating-point text; the transport is a source that delivers any nonempty piece and a sink that never fails.
- zlib, DOM, lean builds, SOAP_C_MBSTRING and the code without WITH_FAST.
- Allocation failure, except where soap_id_enter, soap_push_block and soap_save_block handle it; capacities and counts are not bounded by the address space.
- IdTable.Soap.IdLookup: pointer levels other than one common level are not modelled (soap_id_enter changes the level without adjusting the chain).
- IdTable.Soap.IdEnter: an object without a place is allocated directly, not by a callback.
- IdTable.Soap.IdForward: only the default copy function; attachments registered by id (xlist) are not modelled.
- IdTable.Soap.Resolve: the order of the hash table is any order, so that nothing depends on it; bytes of a pointer are not modelled below its cell.
- Interleaving.Parse: one common pointer level; the moves are single chunks (a whole list is Interleaving.FlattenedThenResolved); the copy a move leaves behind is not freed there.
- Update.UpdatePointers: the list of attachments awaited by id (xlist) is not modelled.
- SaveBlock.SaveBlocks: one block list at a time; the stack of lists is not modelled.
- SaveBlock.EndBlock: the block list is the caller's; taking it off the stack of lists is not modelled.
- Chunked.Receiver.RecvRaw: only chunked mode, and chunk sizes that do not wrap an index of the buffer.
- ChunkedSend.Sender.Flush: only chunked mode.
- Mime.Scanner.ReadContent: a first delimiter followed by NUL is excluded; streaming the content out through a callback is not modelled.
- MimeHeader.SetField: Content-Disposition is recognised and ignored, where the source takes the id from its name attribute.
- MimeHeader.GetMimeHdr: Content-Disposition is recognised and ignored (soap_get_header_attribute is not part of this model).
- MimeStart.BeginRecv: the loop that goes on to the part named by the start parameter is not modelled; a message as sent has it first.
- MimeStart.PutRootHeader: the text is a sequence; the room of the buffer it is printed into is not modelled.
- MimeParts.PutMime: content read through a callback is not modelled; the boundary is given and absent from the contents.
- Dime.Reader.GetDimeHdr: the branch for an XML record that was read in part is not modelled.
- Dime.Reader.GetDime: the loop over attachment records; skipping the rest of the XML record before it, and handing data to a callback, are not modelled.
- Dime.PutDime: a handle gives full buffers until it runs dry and as much as its size says; data is below 2^31 bytes.
- XmlToken.Reader.Get: the character encoding an XML declaration announces is read over; at the end of the stream, taking a byte back has no effect.
- XmlText.Parser.StringIn: the tag put in front of the content when an element is read as a literal, and minlen and maxlen, are not modelled.
- XmlAttr.ValueReadBack: the value as soap_attribute quotes it; the attribute name and the list of attributes are not modelled.
- Base64String.Base642S: only the buffer it allocates itself.
- Namespaces.Stack.Lookup: a binding keeps its URI; its index in the namespace table and the comparison of table prefixes are not modelled.
- Marks.Pointers.PointerEnter: entries are kept in one sequence instead of blocks of 32; arrays, soap_embedded and soap_embedded_id are not modelled.
- RepairWritten.RepairWritten: names and extra fields fit the buffers they are read into, and the output is below 2^31 bytes.
- Repair.UnzRepair: read and write errors of the files are not modelled; names and extra fields fit the buffers they are read into.
- RepairRead.RepairedReads: output and directory below 2^31 bytes.
- Cipher.KeyArray.CryptHead: the values of rand() are a parameter; the seed is not modelled.
- Singleton.EveryRun: sequential consistency, the steps being values rather than fields; the destructor of the manager is not modelled.
- MIME boundary selection, cookies, NTLM, the 7-Zip wrapper, the file I/O layers of minizip, the remaining headers and the programs in src: not part of this model.
