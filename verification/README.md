# DuerOS device SDK: a verified model

The repository is a device SDK in C. This project models its self-contained
algorithms in Dafny and proves what they are for. Files that change state step
by step are modelled by classes and loops, each proved against a function or a
sequence whose own properties are lemmas.

* **JSON** (`libduer-device/external/baidu_json/baidu_json.c`). `JsonValue` has
  the values and their text, `JsonParse` the grammar as a function of the rest
  of the text, `JsonRoundTrip`, `JsonMinify` and `JsonUnicode` the theorems.
  `JsonSpelling`, `JsonNumeral` and `JsonGrammar` have JSON texts in all their
  spellings and what they mean, without the parser, and `JsonLexeme` the parts of
  a text that the minifier keeps or drops.
  `JsonNode` has the linked nodes, with a ghost tree that says who is whose
  child. `JsonParser`, `JsonPrint`, `JsonBuffer`, `JsonPrintBuffered` and
  `JsonEdit` are the code that builds, prints, edits and copies them, and
  `JsonCodec` what it does together. All array accesses are inside blocks of the
  lengths the original computes.
* **HTTP** (`HttpBody`, `HttpClient`, `HttpResume`). The body receiver with its
  two fixed buffers, for chunked bodies and bodies of known length, and the
  download that is taken up again after connection errors.
* **Encrypted CoAP over TCP** (`CoapFrame`, `CoapTransport`). The sender's frames
  and the receiver that keeps partial headers and bodies between calls.
* **Queues and threads** (`EventQueue`, `QueueCache`, `OutgoingQueue`). The lists,
  and the threads as systems of steps, one step for each stretch under a lock
  and for each access outside of it.
* **Intrusive list** (`IntrusiveList`), **voice pipeline** (`VoiceStream`,
  `VoiceSession`), **audio player and speech** (`AudioPlayer`), **connection
  agent** (`ConnectAgent`), **sampling hash** (`SamplingHash`).
* `CText`, `Bits`, `Hex`, `Memory`, `Sequences` and `JsonWriter` hold what several
  of these use: C strings, bit operators on natural numbers, hexadecimal digits,
  copying, sequences, writing into a buffer.

## Assumptions

* Allocation succeeds, and a block that is given up is not looked at again.
* A C string is a sequence of bytes, a pointer into it the suffix or the index
  where it points; reading at the end gives the terminator.
* Numbers in JSON are real numbers, with the integer the parser truncates from
  them. Only 32-bit integers are printed; for them the arithmetic of doubles is
  exact. The truncation is not bounded to the width of an int.
* `PrintBuffered` is stated for texts that, with the reserve the printers ask
  for, stay below 2^30 bytes, the range of `pow2gt` without overflow.
* What the outside world does is a value or a list given in advance and
  quantified over: how many bytes each socket call gives or how it fails, what
  the server answers, when somebody wants to stop, what the speech coder and the
  cipher compute. The cipher is a pair with dec(enc(x)) = x that keeps lengths
  (CBC, section 6.2 of NIST SP 800-38A).
* A pointer read outside a lock is read as one step.
* The data callback of the HTTP client is registered.

## Where the code differs from what one would expect

* `duer_speex_encode` with no bytes in the middle of a frame codes the padded
  frame but does not start a new one (`VoiceStream.EmptySendCounts`); the exact
  condition is `VoiceStream.SplitDoesNotMatter`.
* `REPLACE_ENQUEUED` and `CLEAR_ENQUEUED` on an empty play queue leave a null in
  it. What is promised of the player breaks if and only if it is finished then
  (`AudioPlayer.HandlerKeeps`, and over runs `AudioPlayer.PromisesHold`). The null
  also keeps a song in the queue that a later one should replace
  (`AudioPlayer.NothingToReplace`).
* Two reports at the same time on an empty outgoing queue post no send
  (`OutgoingQueue.TwoReports`). The exact condition is `OutgoingQueue.WakeupStep`
  for one step and `OutgoingQueue.NoMessageWaits` for a run; later reports do not
  help (`OutgoingQueue.StaysStranded`).
* An agent whose registration was refused counts as started, because the state
  for it is the last of the enumeration (`ConnectAgent.Refused`). It is refused
  exactly when `ConnectAgent.StartDecides` says.
* The comment on the sampling hash gives 61696 bytes for one megabyte; with the
  constants of the code it is at most 8192 (`SamplingHash.WorkUpToMegabyte`).
* The offsets of the sampling hash do not leave the data for every size
  (`SamplingHash.Endless`); the exact condition is `SamplingHash.LoopEnds`. This
  is a fact about the arithmetic of offsets: it takes data that fills the address
  space but for less than one stretch, and `SamplingHash.HashCode` covers every
  size that an object can have.
* A chunked body of fewer than 1024 bytes reaches the callback in one call that
  is marked as a middle one (`HttpClient.ShortBody`); the exact condition is in
  `HttpClient.Client.RecvChunk`. Bodies of known length are always marked.
* The minifier reads behind the terminator of a text with an open string or block
  comment (`JsonMinify.LoneQuote`); the exact condition is
  `JsonMinify.ReadsInside`.
* An empty CoAP message is taken off the wire and not delivered
  (`CoapTransport.NonEmpty`). The header of a body above 2048 bytes stays in the
  receiver, which then reads nothing more (`CoapTransport.Coap.Recv`). The exact
  condition for everything to arrive is in `CoapTransport.SendAndReceive`.

## Model

| member | source | states |
|---|---|---|
| `JsonRoundTrip.RoundTrip` | libduer-device/external/baidu_json/baidu_json.c:856-1306 | the text printed for any value of null, booleans, 32-bit integers, NUL-free strings, arrays and objects, at any depth and in both formats, followed by anything, which for a number must not extend it, parses to that value and stops exactly behind its text |
| `JsonRoundTrip.StringRoundTrip` | libduer-device/external/baidu_json/baidu_json.c:446-760 | every NUL-free string comes back from its quoted and escaped form, up to the closing quote |
| `JsonRoundTrip.NumberRoundTrip` | libduer-device/external/baidu_json/baidu_json.c:133-345 | every 32-bit integer comes back from its decimal form, with the double value and the integer made of it |
| `JsonGrammar.DocRead` | libduer-device/external/baidu_json/baidu_json.c:856-1306 | every JSON text of section 2 of RFC 8259, with any blanks between its tokens and any spelling of its strings and numbers, parses to what it means; neither the text nor the meaning mentions the parser |
| `JsonSpelling.StringRead` | libduer-device/external/baidu_json/baidu_json.c:446-615 | every string, its characters given as bytes, escapes with a letter, or unicode escapes with digits in either case, is read as the bytes that its characters stand for |
| `JsonSpelling.StringOnly` | libduer-device/external/baidu_json/baidu_json.c:446-615 | and whatever is read as a string is such a spelling of it; only the closing quote may be missing, at the end of the text |
| `JsonSpelling.StandsForCodePoint` | libduer-device/external/baidu_json/baidu_json.c:516-600 | a unicode escape, or a pair of them, stands for the UTF-8 form of the code point that the written numbers are in UTF-16 |
| `JsonSpelling.HexUnitRead` | libduer-device/external/baidu_json/baidu_json.c:348-431 | four hexadecimal digits, each in either case, are read as the number whose digits they are |
| `JsonSpelling.HexUnitOnly` | libduer-device/external/baidu_json/baidu_json.c:348-431 | four bytes that are read as a number other than zero are the digits of that number |
| `JsonNumeral.NumeralRead` | libduer-device/external/baidu_json/baidu_json.c:133-200 | every number with sign, digits, fraction and exponent is read as the decimal number it spells, and as the integer in front of its dot |
| `JsonCodec.ParseSpelled` | libduer-device/external/baidu_json/baidu_json.c:788-825 | a JSON text in any spelling, with blanks around it, becomes a tree of new nodes with its meaning |
| `JsonCodec.PrintThenParse` | libduer-device/external/baidu_json/baidu_json.c:788-842 | a printed tree, parsed again to the end of the text, is an equal tree made of new nodes only |
| `JsonCodec.PrintThenMinify` | libduer-device/external/baidu_json/baidu_json.c:834-842 | minifying in place what Print gave leaves what PrintUnformatted gives |
| `JsonMinify.MinifyPrint` | libduer-device/external/baidu_json/baidu_json.c:2128-2190 | minifying the formatted text of any printable value gives its compact text |
| `JsonMinify.NeutralText` | libduer-device/external/baidu_json/baidu_json.c:902-1581 | in any surrounding text the minifier turns the formatted text of a value into its compact text, whatever the depths |
| `JsonMinify.Minify` | libduer-device/external/baidu_json/baidu_json.c:2128-2190 | the in-place loop leaves the minified text, terminated, never longer than what was there: the write position never passes the read position |
| `JsonLexeme.MinifyKeeps` | libduer-device/external/baidu_json/baidu_json.c:2128-2190 | of a text put together from blanks, comments, strings and other bytes the minifier drops the blanks and the comments and keeps all the rest, in order |
| `JsonLexeme.DropsNothingElse` | libduer-device/external/baidu_json/baidu_json.c:2128-2190 | every text in which strings and block comments are closed is put together like that, so that is what the minifier does to it |
| `JsonMinify.MinifyRound` | libduer-device/external/baidu_json/baidu_json.c:2131-2186 | one round of the loop goes on by exactly one blank, comment, string or byte, of which a string or byte is kept, and stays behind its read position |
| `JsonMinify.ReadsInside` | libduer-device/external/baidu_json/baidu_json.c:2128-2190 | the minifier reads only inside the text, and stops at its end, if and only if every string and block comment of the text is closed |
| `JsonMinify.ReadPointer` | libduer-device/external/baidu_json/baidu_json.c:2131-2186 | over any text the loop takes its read pointer to the place of which JsonMinify.ReadsInside speaks |
| `JsonMinify.LoneQuote` | libduer-device/external/baidu_json/baidu_json.c:2168-2180 | a quote alone: the byte behind the terminator is read |
| `JsonParse.PassesInStep` | libduer-device/external/baidu_json/baidu_json.c:463-612 | the copying pass over a string fails, or ends exactly where the counting pass ended, having written no more bytes than were counted |
| `JsonParse.UnicodeCopyStep` | libduer-device/external/baidu_json/baidu_json.c:463-600 | an accepted unicode escape writes no more bytes than the counting pass set aside for it, and the passes stay in step behind it |
| `JsonUnicode.EncodeDecode` | libduer-device/external/baidu_json/baidu_json.c:560-599 | the encoder gives the UTF-8 form (section 3 of RFC 3629) of every Unicode scalar value |
| `JsonUnicode.CombineIsUtf16` | libduer-device/external/baidu_json/baidu_json.c:533-558 | the code point computed from a surrogate pair is the one of section 2.2 of RFC 2781 |
| `JsonUnicode.UnicodeEscapeMeaning` | libduer-device/external/baidu_json/baidu_json.c:516-600 | each accepted unicode escape or pair of escapes stands for the code point its code units encode in UTF-16, and is written in UTF-8 |
| `JsonParser.SkipSpace` | libduer-device/external/baidu_json/baidu_json.c:777-785 | jumps over everything up to code 32, and stops at the terminator |
| `JsonParser.ParseNumberInto` | libduer-device/external/baidu_json/baidu_json.c:133-200 | reads sign, integer, fraction and exponent as the grammar function says, and sets the integer by truncation |
| `JsonParser.CountString` | libduer-device/external/baidu_json/baidu_json.c:463-475 | the first pass: the bytes to allocate and the end of the literal, or failure at a trailing backslash |
| `JsonParser.ReadHex4` | libduer-device/external/baidu_json/baidu_json.c:348-431 | the value of four hexadecimal digits, or zero; nothing behind the first wrong digit is read |
| `JsonParser.ReadUnicode` | libduer-device/external/baidu_json/baidu_json.c:516-558 | the code point of an escape and the position of its last digit, or failure for lone surrogates, zero and escapes cut off by the closing quote |
| `JsonParser.WriteUtf8` | libduer-device/external/baidu_json/baidu_json.c:560-599 | the bytes of a code point, written from the last to the first, with the rest of the buffer unchanged |
| `JsonParser.CopyCharacter` | libduer-device/external/baidu_json/baidu_json.c:489-607 | one character or escape of the second pass is copied inside the allocated buffer |
| `JsonParser.ParseStringInto` | libduer-device/external/baidu_json/baidu_json.c:446-615 | the string of the literal is stored, and the end is behind the closing quote; every write is inside the buffer of the counted size |
| `JsonParser.NewChild` | libduer-device/external/baidu_json/baidu_json.c:1016-1024 | a new node is linked behind the last child, and the finished children keep their values and links |
| `JsonParser.ParseElement` | libduer-device/external/baidu_json/baidu_json.c:999-1032 | one array item is read into a new child that is linked behind the others |
| `JsonParser.ParseItemsInto` | libduer-device/external/baidu_json/baidu_json.c:1012-1044 | the items of an array become a doubly linked list of new nodes with the parsed values, up to the bracket |
| `JsonParser.ReadKey` | libduer-device/external/baidu_json/baidu_json.c:1239-1255 | a key becomes the name of the new node, and its value string is cleared |
| `JsonParser.ParseMembersInto` | libduer-device/external/baidu_json/baidu_json.c:1232-1305 | the members of an object become a doubly linked list of new nodes with the parsed keys and values, up to the brace |
| `JsonParser.ParseArrayInto` | libduer-device/external/baidu_json/baidu_json.c:981-1045 | an array is read into a well-linked tree, or parsing fails where the grammar function does |
| `JsonParser.ParseObjectInto` | libduer-device/external/baidu_json/baidu_json.c:1214-1306 | an object is read into a well-linked tree, or parsing fails where the grammar function does |
| `JsonParser.ParseValueInto` | libduer-device/external/baidu_json/baidu_json.c:856-899 | a value is read into a well-linked tree of new nodes with the value of the grammar function, which also gives the place where it stops |
| `JsonParser.ParseWithOpts` | libduer-device/external/baidu_json/baidu_json.c:788-825 | the tree of the text, or null if it is malformed or, on demand, if more than blanks follow |
| `JsonWriter.EscapedLength` | libduer-device/external/baidu_json/baidu_json.c:682-695 | the counted length is the length of the escaped string |
| `JsonWriter.PutEscaped` | libduer-device/external/baidu_json/baidu_json.c:716-754 | one byte is written as it stands or in its short or long escape |
| `JsonWriter.PutString` | libduer-device/external/baidu_json/baidu_json.c:673-757 | the quoted string is written, on the fast path without escapes and on the slow one |
| `JsonWriter.StringRoom` | libduer-device/external/baidu_json/baidu_json.c:627-704 | the bytes allocated for a string are those of its text and the terminator |
| `JsonWriter.IntFits` | libduer-device/external/baidu_json/baidu_json.c:294-309 | every 32-bit integer fits the 21 bytes allocated for it |
| `JsonPrint.ItemsFit` | libduer-device/external/baidu_json/baidu_json.c:1142-1163 | the length added up over the items covers the text of the array |
| `JsonPrint.MembersFit` | libduer-device/external/baidu_json/baidu_json.c:1475-1501 | the length added up over the members covers the text of the object |
| `JsonPrint.TextNulFree` | libduer-device/external/baidu_json/baidu_json.c:902-978 | a printed text has no NUL in it, so its length can be taken with strlen |
| `JsonPrint.PrintNumber` | libduer-device/external/baidu_json/baidu_json.c:273-345 | the text of an integer, terminated, in a new block |
| `JsonPrint.PrintString` | libduer-device/external/baidu_json/baidu_json.c:618-766 | the text of a string, terminated, in a new block of the computed length |
| `JsonPrint.JoinItems` | libduer-device/external/baidu_json/baidu_json.c:1189-1206 | the texts of the items and the separators are copied into the block without leaving it |
| `JsonPrint.PrintArray` | libduer-device/external/baidu_json/baidu_json.c:1048-1211 | the text of an array in a new block of the length the code computes |
| `JsonPrint.JoinMembers` | libduer-device/external/baidu_json/baidu_json.c:1535-1566 | the texts of the members are copied into the block without leaving it |
| `JsonPrint.PrintObject` | libduer-device/external/baidu_json/baidu_json.c:1309-1581 | the text of an object in a new block of the length the code computes |
| `JsonPrint.PrintValue` | libduer-device/external/baidu_json/baidu_json.c:902-978 | the text of a tree at any depth and in both formats; the tree is unchanged |
| `JsonBuffer.Pow2gt` | libduer-device/external/baidu_json/baidu_json.c:203-214 | the least power of two that is not below the argument, from 1 to 2^30 |
| `JsonBuffer.Smear` | libduer-device/external/baidu_json/baidu_json.c:207-211 | each line doubles the run of ones below the top bit |
| `JsonBuffer.PrintBuffer.Ensure` | libduer-device/external/baidu_json/baidu_json.c:224-257 | room for the wanted bytes, the written ones unchanged; a new block only if needed, and then of the least power of two |
| `JsonBuffer.PrintBuffer.Update` | libduer-device/external/baidu_json/baidu_json.c:260-270 | the offset behind the text that stands at the offset |
| `JsonPrintBuffered.PutHere` | libduer-device/external/baidu_json/baidu_json.c:224-257 | a text is written at the offset and terminated, with what came before unchanged |
| `JsonPrintBuffered.Advance` | libduer-device/external/baidu_json/baidu_json.c:260-270 | after an item the offset is behind its text, wherever in the text it was left |
| `JsonPrintBuffered.BufferString` | libduer-device/external/baidu_json/baidu_json.c:618-766 | the text of a string at the offset of the buffer |
| `JsonPrintBuffered.BufferArray` | libduer-device/external/baidu_json/baidu_json.c:1087-1130 | the text of an array in the buffer, across regrowths |
| `JsonPrintBuffered.BufferMember` | libduer-device/external/baidu_json/baidu_json.c:1383-1440 | indentation, key, colon, value and line end of a member in the buffer |
| `JsonPrintBuffered.BufferObject` | libduer-device/external/baidu_json/baidu_json.c:1362-1457 | the text of an object in the buffer, across regrowths |
| `JsonPrintBuffered.BufferValue` | libduer-device/external/baidu_json/baidu_json.c:902-940 | the text of a tree behind what the buffer holds already |
| `JsonPrintBuffered.Print` | libduer-device/external/baidu_json/baidu_json.c:834-837 | the formatted text |
| `JsonPrintBuffered.PrintUnformatted` | libduer-device/external/baidu_json/baidu_json.c:839-842 | the compact text |
| `JsonPrintBuffered.PrintBuffered` | libduer-device/external/baidu_json/baidu_json.c:844-852 | the same text as Print or PrintUnformatted, for every initial size of at least 1 |
| `JsonEdit.SuffixObject` | libduer-device/external/baidu_json/baidu_json.c:1624-1628 | the link at the end of a list extends it by one, and the subtrees keep their values |
| `JsonEdit.AddItemToArray` | libduer-device/external/baidu_json/baidu_json.c:1646-1667 | the item becomes the last child, next and prev stay inverse |
| `JsonEdit.DetachItemFromArray` | libduer-device/external/baidu_json/baidu_json.c:1712-1742 | child number which is removed and belongs to no list; past the end nothing changes; a negative number means the first |
| `JsonEdit.InsertItemInArray` | libduer-device/external/baidu_json/baidu_json.c:1772-1796 | the item is inserted in front of child number which, or appended past the end |
| `JsonEdit.ReplaceItemInArray` | libduer-device/external/baidu_json/baidu_json.c:1798-1826 | the item takes the place of child number which; past the end nothing changes |
| `JsonEdit.BypassedChain` | libduer-device/external/baidu_json/baidu_json.c:1719-1739 | with the neighbours linked past an element, the others form a doubly linked list |
| `JsonEdit.SplicedChain` | libduer-device/external/baidu_json/baidu_json.c:1785-1794 | with the item linked in front of an element, all form a doubly linked list |
| `JsonEdit.SwappedChain` | libduer-device/external/baidu_json/baidu_json.c:1806-1823 | with the item linked in the place of an element, all form a doubly linked list |
| `JsonEdit.Duplicate` | libduer-device/external/baidu_json/baidu_json.c:2055-2126 | a new node with the same data; with recurse an equal tree made only of new nodes, the original unchanged |
| `HttpBody.DecodeEncode` | libduer-device/modules/HTTP/lightduer_http_client.c:1002-1215 | every well-formed chunked body (section 4.1 of RFC 7230), chunks above and below the buffer size mixed, the sizes written as hexadecimal digits in either case with leading zeros and extensions, decodes to the chunk payloads |
| `HttpBody.LineScanned` | libduer-device/modules/HTTP/lightduer_http_client.c:971-978 | a size line is read as the number its hexadecimal digits are worth in their places |
| `HttpBody.AnySize` | libduer-device/modules/HTTP/lightduer_http_client.c:971-978 | every size has a size line that is read as that size |
| `HttpBody.CutInside` | libduer-device/modules/HTTP/lightduer_http_client.c:1049-1197 | a body that ends inside a chunk is a protocol error behind the data that is whole; only a chunk above the buffer size is waited for |
| `HttpBody.NoCrlf` | libduer-device/modules/HTTP/lightduer_http_client.c:1103-1197 | a chunk without its CR LF is a protocol error behind its data |
| `HttpClient.HttpRecv` | libduer-device/modules/HTTP/lightduer_http_client.c:504-582 | reads until the wanted bytes are there, the stream ends, or an error; however the socket splits them, they arrive in order |
| `HttpClient.FindCrlf` | libduer-device/modules/HTTP/lightduer_http_client.c:943-951 | finds the first CR LF that has a byte behind it |
| `HttpClient.RecvChunkedSize` | libduer-device/modules/HTTP/lightduer_http_client.c:925-989 | the size in the line at the front of the stream; the buffer then starts behind the line; a line that does not fit or has no number is a protocol error |
| `HttpClient.Client.Flush` | libduer-device/modules/HTTP/lightduer_http_client.c:1081-1097 | a full buffer of 1024 bytes goes to the callback and the rest moves to its front |
| `HttpClient.Client.Collect` | libduer-device/modules/HTTP/lightduer_http_client.c:1081-1102 | bytes handed over and bytes waiting are always all bytes of the body so far; fewer than 1024 wait |
| `HttpClient.Client.RecvSmall` | libduer-device/modules/HTTP/lightduer_http_client.c:1049-1115 | a chunk that fits with its CR LF is collected whole, or a protocol or connection error |
| `HttpClient.Client.RecvLarge` | libduer-device/modules/HTTP/lightduer_http_client.c:1116-1197 | a chunk that does not fit is collected piece by piece, then its CR LF is removed |
| `HttpClient.Client.RecvData` | libduer-device/modules/HTTP/lightduer_http_client.c:1048-1197 | one chunk behind its size line, on either path |
| `HttpClient.Client.RecvChunk` | libduer-device/modules/HTTP/lightduer_http_client.c:1002-1215 | for every body that is all there, every split by the socket and everything already in the buffer: what the callback gets is a part of the decoded data, and all of it if the result is good and nobody stopped; without socket errors the result is bad only for a malformed body; all calls but the last hand over 1024 bytes, and the first one is marked as the first if and only if at least 1024 bytes are handed over |
| `HttpClient.FirstOfPieces` | libduer-device/modules/HTTP/lightduer_http_client.c:1081-1215 | the first call for a chunked body is marked as the first if and only if it is a full piece; otherwise it is the only call |
| `HttpClient.RecvEncoded` | libduer-device/modules/HTTP/lightduer_http_client.c:1002-1215 | every well-formed chunked body, however the socket splits it, reaches the callback as the payload of its chunks |
| `HttpClient.ShortBody` | libduer-device/modules/HTTP/lightduer_http_client.c:1199-1213 | a body of two bytes reaches the callback in one call that is marked as a middle one |
| `HttpClient.Client.RecvContent` | libduer-device/modules/HTTP/lightduer_http_client.c:1229-1303 | a body of known length: what the callback gets is a part of it, counted in recv_size, and all of it on success; bytes read before an error are delivered; the first call is marked as the first; without socket errors it fails only for a body that is too short or too long |
| `HttpResume.GetData` | libduer-device/modules/HTTP/lightduer_http_client.c:1550-1575 | one connection continues the run of the resource where recv_size says it stands; a complete body fails at most with the connection |
| `HttpResume.Get` | libduer-device/modules/HTTP/lightduer_http_client.c:1589-1668 | over all retries and both body modes the callback gets one run of the resource from the start position, recv_size says where it ends, FIRST comes only on the first call and LAST once, at the end, if and only if there was a data call; success means the end of the resource, and there is success if at most ten requests fail or break off and the next goes well |
| `HttpResume.LastCall` | libduer-device/modules/HTTP/lightduer_http_client.c:1651-1659 | the closing call is made exactly when there were data calls |
| `CoapFrame.Sender.Send` | libduer-device/framework/core/lightduer_net_trans_aes_cbc_encrypted.c:123-211 | header, prefix length, prefix and the encryption of the zero-padded data go out in one piece |
| `CoapFrame.Sender.Transmit` | libduer-device/modules/coap/lightduer_coap.c:143-189 | a message goes out as exactly one frame around its TCP header |
| `CoapFrame.FramesConcat` | libduer-device/framework/core/lightduer_net_trans_aes_cbc_encrypted.c:123-211 | what goes out for a series of messages is their frames one after the other |
| `CoapFrame.FrameBytes` | libduer-device/framework/core/lightduer_net_trans_aes_cbc_encrypted.c:123-211 | the bytes of one frame, with both magic numbers, sizes in network order, the prefix and the zeros |
| `CoapTransport.Trans.RecvHeader` | libduer-device/framework/core/lightduer_net_trans_aes_cbc_encrypted.c:227-297 | a header comes out once all 8 bytes are there, with the magic number replaced; until then what has come is kept, and the result is WOULD_BLOCK unless the socket fails |
| `CoapTransport.HeaderGrows` | libduer-device/framework/core/lightduer_net_trans_aes_cbc_encrypted.c:266-297 | the bytes kept and the bytes to come are the frames of the messages not yet delivered; a complete header announces the next body |
| `CoapTransport.Trans.RecvBody` | libduer-device/framework/core/lightduer_net_trans_aes_cbc_encrypted.c:298-360 | a body yields the message once all of it is there, in whatever parts it came; until then the result is WOULD_BLOCK unless the socket fails |
| `CoapTransport.BodyGrows` | libduer-device/framework/core/lightduer_net_trans_aes_cbc_encrypted.c:299-325 | the part of a body that has come stays the front of the body; a complete one leaves the next frames |
| `CoapTransport.Trans.Decrypt` | libduer-device/framework/core/lightduer_net_trans_aes_cbc_encrypted.c:327-359 | the message in a complete body is decrypted and its padding and header removed |
| `CoapTransport.Trans.Recv` | libduer-device/framework/core/lightduer_net_trans_aes_cbc_encrypted.c:220-367 | the size asked for decides between header and body; other sizes are an error, and for these two there is no error unless the socket fails |
| `CoapTransport.ReadyHeader` | libduer-device/modules/coap/lightduer_coap.c:573-588 | a header passed on has the mark of plain TCP CoAP and the size of the next body |
| `CoapTransport.Coap.Recv` | libduer-device/modules/coap/lightduer_coap.c:566-610 | one call delivers exactly the next message, or nothing and keeps everything; then it returns WOULD_BLOCK unless the socket fails; an empty message is taken and not delivered; the header of a body above 2048 bytes stays, and no call reads on |
| `CoapTransport.ReceiveAll` | libduer-device/modules/coap/lightduer_coap.c:566-610 | for every schedule of short reads, blocks and errors, repeated calls deliver the messages that are not empty, whole, once and in order, up to the first that does not fit; that far all of them when all bytes are read, or after as many calls as there are socket events and messages; the results are the lengths of the messages, then 8 for a header that stays, and, unless the socket fails, WOULD_BLOCK in between |
| `CoapTransport.SendAndReceive` | libduer-device/modules/coap/lightduer_coap.c:143-610 | what the sender transmits and the receiver reads, in whatever parts the socket gives it, is delivered; all messages as they were sent if and only if each fits and none is empty |
| `CoapTransport.AllOfThem` | libduer-device/modules/coap/lightduer_coap.c:573-604 | the messages in front of the first that does not fit, without the empty ones, are all messages if and only if each fits and none is empty |
| `CoapTransport.NonEmpty` | libduer-device/modules/coap/lightduer_coap.c:595-604 | what is delivered is what was sent if and only if no message is empty |
| `CoapTransport.NothingLeft` | libduer-device/framework/core/lightduer_net_trans_aes_cbc_encrypted.c:220-367 | when all bytes have been read, no message is still held back |
| `EventQueue.Events.Push` | libduer-device/platform/source-linux/lightduer_events.c:179-188 | the locked part of a call appends the message |
| `EventQueue.Events.Pop` | libduer-device/platform/source-linux/lightduer_events.c:80-85 | the locked part of the consumer loop removes the oldest message |
| `EventQueue.WakeupStep` | libduer-device/platform/source-linux/lightduer_events.c:65-201 | no step of any thread, the unlocked test and the signal included, loses the producer that will signal for the oldest message |
| `EventQueue.SignalsForTheNext` | libduer-device/platform/source-linux/lightduer_events.c:179-195 | a producer signals if and only if, at its test, the consumer would take its message next |
| `EventQueue.OrderStep` | libduer-device/platform/source-linux/lightduer_events.c:65-201 | every step keeps: posted messages are those run, in hand and queued, in order |
| `EventQueue.EveryRun` | libduer-device/platform/source-linux/lightduer_events.c:65-201 | in every interleaving, if the consumer waits and the queue is not empty, some producer is still about to signal; callbacks run in posting order, each once |
| `EventQueue.NeverStuck` | libduer-device/platform/source-linux/lightduer_events.c:65-201 | once all producers are done, a waiting consumer has run every posted message |
| `EventQueue.AllRun` | libduer-device/platform/source-linux/lightduer_events.c:65-201 | from every reachable state, without new messages and without spurious wakeups, the threads run the callback of every posted message, in order, in at most two steps for each message and a few more |
| `EventQueue.Serves` | libduer-device/platform/source-linux/lightduer_events.c:65-201 | for every list of messages there is an interleaving in which exactly they are posted and run |
| `IntrusiveList.List.constructor` | libduer-device/external/mbed-client-c-port/ns_list.h:555-559 | an empty list is well linked |
| `IntrusiveList.List.AddToStart` | libduer-device/external/mbed-client-c-port/ns_list.h:569-586 | prepends |
| `IntrusiveList.List.AddAfter` | libduer-device/external/mbed-client-c-port/ns_list.h:588-605 | inserts behind an entry |
| `IntrusiveList.List.AddBefore` | libduer-device/external/mbed-client-c-port/ns_list.h:607-615 | inserts in front of an entry, through the slot that points at it |
| `IntrusiveList.List.AddToEnd` | libduer-device/external/mbed-client-c-port/ns_list.h:617-625 | appends, through the last slot |
| `IntrusiveList.List.GetNext` | libduer-device/external/mbed-client-c-port/ns_list.h:627-630 | the next entry of the sequence, or nil |
| `IntrusiveList.List.GetPrevious` | libduer-device/external/mbed-client-c-port/ns_list.h:632-649 | the previous entry of the sequence, or nil, from the slot that points at the current one |
| `IntrusiveList.List.GetLast` | libduer-device/external/mbed-client-c-port/ns_list.h:651-660 | the last entry of the sequence, or nil |
| `IntrusiveList.List.Remove` | libduer-device/external/mbed-client-c-port/ns_list.h:662-680 | removes an entry at any place and poisons its links |
| `IntrusiveList.List.Replace` | libduer-device/external/mbed-client-c-port/ns_list.h:682-701 | puts another entry in its place and poisons the old one's links |
| `IntrusiveList.List.Concatenate` | libduer-device/external/mbed-client-c-port/ns_list.h:703-716 | joins two lists and leaves the second one empty |
| `IntrusiveList.List.Count` | libduer-device/external/mbed-client-c-port/ns_list.h:718-728 | the length of the sequence |
| `IntrusiveList.InsertDone` | libduer-device/external/mbed-client-c-port/ns_list.h:569-625 | one slot and one back link changed: every prev is again the slot that points at the entry, and last_nextptr the final slot |
| `IntrusiveList.NoSlotPointsAt` | libduer-device/external/mbed-client-c-port/ns_list.h:662-701 | no slot and no back link of a list leads to an entry that is not on it |
| `VoiceStream.SplitDoesNotMatter` | libduer-device/modules/voice_engine/lightduer_speex.c:139-170 | the frames of a session depend only on all its bytes together, if and only if no send without bytes falls inside a frame |
| `VoiceStream.EmptySendCounts` | libduer-device/modules/voice_engine/lightduer_speex.c:159-161 | a send without bytes in the middle of a frame codes that frame twice |
| `VoiceStream.FeedCount` | libduer-device/modules/voice_engine/lightduer_speex.c:139-170 | every such send costs exactly one frame too many; the cuts do not move |
| `VoiceStream.NoEmptySends` | libduer-device/modules/voice_engine/lightduer_speex.c:139-170 | sends with bytes never do harm |
| `VoiceStream.FrameAt` | libduer-device/modules/voice_engine/lightduer_speex.c:150-156 | frame number k is the stretch of bytes at k frame lengths |
| `VoiceStream.SessionContents` | libduer-device/modules/voice_engine/lightduer_voice.c:120-130 | the segments of a session are made of whole consecutive packets, concatenate to the packet stream, and each fits the input buffer |
| `VoiceStream.SessionNumbers` | libduer-device/modules/voice_engine/lightduer_voice.c:62-118 | segments are numbered from 0 without gaps and exactly the last one says eof |
| `VoiceStream.BufferSizes` | libduer-device/modules/voice_engine/lightduer_voice.c:41-42 | the base64 text of n bytes with its terminator fits the output buffer if and only if n is at most the size of the input buffer |
| `VoiceSession.Speex.Encode` | libduer-device/modules/voice_engine/lightduer_speex.c:139-170 | one call does what the framing function says: whole frames to the coder, the remainder kept, an empty call pads the frame in progress |
| `VoiceSession.Voice.SendContent` | libduer-device/modules/voice_engine/lightduer_voice.c:62-118 | one segment with the next number; no data or eof ends the session and numbering starts again; data that is too long is not sent |
| `VoiceSession.Voice.Encoded` | libduer-device/modules/voice_engine/lightduer_voice.c:120-130 | a packet is added to the segment in progress, which is sent first if the packet does not fit |
| `VoiceSession.Voice.Flush` | libduer-device/modules/voice_engine/lightduer_voice.c:194-198 | stop sends what is left and one eof: together the segments of the whole session |
| `VoiceSession.Talk` | libduer-device/modules/voice_engine/lightduer_voice.c:178-203 | a session from start to stop sends a function of the audio alone, however it was divided into sends with bytes; a reader that takes a length byte, three marks and that many bytes finds in it what the coder gave for the successive frames, in order |
| `VoiceStream.UnpackPackets` | libduer-device/modules/voice_engine/lightduer_speex.c:118-136 | from the packets of the frames such a reader gets what the coder gave for each |
| `VoiceStream.FramesCover` | libduer-device/modules/voice_engine/lightduer_speex.c:139-170 | the frames together are the audio, with fewer zeros behind it than a frame has bytes |
| `VoiceStream.Base64Groups` | libduer-device/modules/voice_engine/lightduer_voice.c:41-42 | the base64 text of n bytes takes the fewest groups of four characters for three bytes each |
| `QueueCache.QCache.Push` | libduer-device/framework/utils/lightduer_queue_cache.c:57-87 | appends to the list, its tail and its counter |
| `QueueCache.QCache.Length` | libduer-device/framework/utils/lightduer_queue_cache.c:89-93 | the number of entries |
| `QueueCache.QCache.Top` | libduer-device/framework/utils/lightduer_queue_cache.c:95-99 | the oldest entry, or null |
| `QueueCache.QCache.Pop` | libduer-device/framework/utils/lightduer_queue_cache.c:102-119 | removes the oldest entry; a null entry and an empty queue look the same |
| `OutgoingQueue.OrderStep` | libduer-device/modules/connagent/lightduer_engine.c:258-416 | every step keeps, stop and restart of the agent included: what was transmitted and what is still to be transmitted are the messages in the order they came |
| `OutgoingQueue.TransmitKeepsOrder` | libduer-device/modules/connagent/lightduer_engine.c:372-384 | the message transmitted is the oldest; a blocked or failed send leaves queue and transmissions as they were |
| `OutgoingQueue.PopKeepsOrder` | libduer-device/modules/connagent/lightduer_engine.c:385-388 | the message removed is the one that was transmitted |
| `OutgoingQueue.NothingLost` | libduer-device/modules/connagent/lightduer_engine.c:258-416 | in every interleaving, over stops and restarts of the agent, the transmitted messages followed by the unsent ones are the enqueued ones, in order |
| `OutgoingQueue.WakeupStep` | libduer-device/modules/connagent/lightduer_connagent.c:113-127 | of all steps of all threads exactly two kinds take the send away from a queue with messages: a report that comes when there is a message, no send event, no send going on and nobody about to post; and a send without success when nobody else is going to send |
| `OutgoingQueue.StrandedStep` | libduer-device/modules/connagent/lightduer_engine.c:75-90 | a queue without a send on the way gets one back by a response or by the transport that can send again, and by no other step, a restart of the agent included |
| `OutgoingQueue.NoMessageWaits` | libduer-device/modules/connagent/lightduer_connagent.c:276-297 | in every interleaving a queue with messages has a send on the way at every step, if and only if none of the steps is one of those two kinds |
| `OutgoingQueue.StaysStranded` | libduer-device/modules/connagent/lightduer_connagent.c:281-288 | in every interleaving without responses and without word from the transport, a queue that has lost its send keeps all its messages |
| `OutgoingQueue.OneAtATimeIsEnough` | libduer-device/modules/connagent/lightduer_connagent.c:276-297 | with reports one at a time and sends that succeed, in every interleaving, a queue with messages has a send on the way at every step |
| `OutgoingQueue.AllSent` | libduer-device/modules/connagent/lightduer_engine.c:353-390 | from every state of a running agent with a send on the way, with sends that succeed, the threads that are there transmit every message, in order, in a bounded number of steps, and then rest |
| `OutgoingQueue.Transmits` | libduer-device/modules/connagent/lightduer_engine.c:258-390 | for every list of messages there is an interleaving in which exactly they are reported and transmitted |
| `OutgoingQueue.StopsAtOnce` | libduer-device/modules/connagent/lightduer_engine.c:360-363 | an agent that was stopped, by the user or by a failed send, transmits nothing until it is started |
| `OutgoingQueue.StartsAgain` | libduer-device/modules/connagent/lightduer_engine.c:75-90 | a restarted agent transmits everything that waits once the transport tells that it can send |
| `OutgoingQueue.TwoReports` | libduer-device/modules/connagent/lightduer_connagent.c:281-288 | two reports at the same time on an empty queue both find two messages, and nobody sends; the second push is what takes the send away |
| `AudioPlayer.Player.StartAudio` | libduer-device/modules/dcs/lightduer_dcs_audio_player.c:182-208 | the head of the queue is played, or kept back while there is speech; without a head the player is finished |
| `AudioPlayer.Player.EmptyQueue` | libduer-device/modules/dcs/lightduer_dcs_audio_player.c:118-125 | the queue is emptied up to the first null |
| `AudioPlayer.Player.ReplaceAll` | libduer-device/modules/dcs/lightduer_dcs_audio_player.c:210-226 | the new song is the whole queue and is played, or waits for speech to end; what was behind a null in the queue stays in front of it |
| `AudioPlayer.Player.Enqueue` | libduer-device/modules/dcs/lightduer_dcs_audio_player.c:228-243 | the song is appended, and started if the player was finished |
| `AudioPlayer.Player.ReplaceEnqueued` | libduer-device/modules/dcs/lightduer_dcs_audio_player.c:245-263 | everything behind the head is replaced; without a head a null takes its place |
| `AudioPlayer.Player.ClearEnqueued` | libduer-device/modules/dcs/lightduer_dcs_audio_player.c:351-357 | only the head stays; without a head a null takes its place |
| `AudioPlayer.Player.ClearAll` | libduer-device/modules/dcs/lightduer_dcs_audio_player.c:358-365 | stopped, and empty up to the first null |
| `AudioPlayer.Player.Stop` | libduer-device/modules/dcs/lightduer_dcs_audio_player.c:375-381 | stopped |
| `AudioPlayer.Player.PauseAudio` | libduer-device/modules/dcs/lightduer_dcs_audio_player.c:383-390 | playing becomes paused at the reported position |
| `AudioPlayer.Player.ResumeAudio` | libduer-device/modules/dcs/lightduer_dcs_audio_player.c:392-420 | paused becomes playing, from the position where it paused, which is the start for a song that had not been played |
| `AudioPlayer.Player.AudioFinished` | libduer-device/modules/dcs/lightduer_dcs_audio_player.c:422-440 | the head is removed and the next one started, or the player is finished |
| `AudioPlayer.Player.Speak` | libduer-device/modules/dcs/lightduer_dcs_voice_output.c:114-152 | speech starts and playing audio pauses at the reported position |
| `AudioPlayer.Player.SpeechFinished` | libduer-device/modules/dcs/lightduer_dcs_voice_output.c:97-107 | paused audio goes on at the position where it paused, unless the dialogue does |
| `AudioPlayer.Player.ListenStarted` | libduer-device/modules/dcs/lightduer_dcs_voice_input.c:44-58 | speech ends and playing audio pauses at the reported position |
| `AudioPlayer.HandlerKeeps` | libduer-device/modules/dcs/lightduer_dcs_audio_player.c:182-440 | for every state in good order and every handler: afterwards audio and speech do not play together, what plays is the head last given out with its token, and finished means empty, if and only if the handler is not a REPLACE_ENQUEUED or CLEAR_ENQUEUED for a finished player without a head |
| `AudioPlayer.PromisesHold` | libduer-device/modules/dcs/lightduer_dcs_audio_player.c:182-440 | over all handler sequences these three hold after every handler, if and only if no such directive comes to a finished player without a head |
| `AudioPlayer.GoesOn` | libduer-device/modules/dcs/lightduer_dcs_voice_output.c:97-152 | a song interrupted by speech goes on where it paused when the speech ends, whatever is said, queued, replaced behind it or cleared in the meantime |
| `AudioPlayer.BetweenRounds` | libduer-device/modules/dcs/lightduer_dcs_voice_output.c:97-152 | a paused song waits through all rounds of a dialogue and goes on at its position when the dialogue ends |
| `AudioPlayer.StopStops` | libduer-device/modules/dcs/lightduer_dcs_audio_player.c:358-381 | stopped, by Stop or CLEAR_ALL, the player plays nothing until all songs are replaced, whatever else happens |
| `AudioPlayer.ClearAllClears` | libduer-device/modules/dcs/lightduer_dcs_audio_player.c:358-365 | CLEAR_ALL leaves no song |
| `AudioPlayer.PlaysInOrder` | libduer-device/modules/dcs/lightduer_dcs_audio_player.c:422-440 | the songs are played in the order of the queue, each from its start, and then the player is finished |
| `AudioPlayer.Handle` | libduer-device/modules/dcs/lightduer_dcs_audio_player.c:182-440 | the code of each handler takes the player where the specification of it says |
| `AudioPlayer.HandleAll` | libduer-device/modules/dcs/lightduer_dcs_audio_player.c:182-440 | the code takes the player where the specification says after every sequence of handlers, in any state; the three properties hold then if nothing on the way breaks them |
| `AudioPlayer.NothingToReplace` | libduer-device/modules/dcs/lightduer_dcs_audio_player.c:245-263 | replacing behind the head of an empty queue: the song is not played, and a later song that should replace everything is not played either |
| `ConnectAgent.Agent.CoapHandler` | libduer-device/modules/connagent/lightduer_ca.c:157-213 | an answer moves the agent on only while it waits for one: 2.05 to initialized, anything else to failed |
| `ConnectAgent.Agent.CreateServiceRouter` | libduer-device/modules/connagent/lightduer_ca.c:311-401 | connect, send and wait, each only after the one before succeeded on the same connection; where the start leads stays the same |
| `ConnectAgent.Agent.RunStep` | libduer-device/modules/connagent/lightduer_ca.c:442-508 | one step never goes back, makes progress whenever it says OK, and does not change where the start leads |
| `ConnectAgent.Agent.DoStart` | libduer-device/modules/connagent/lightduer_ca.c:687-709 | the loop ends where the connection, the send and the arrivals lead; OK means started |
| `ConnectAgent.Agent.Start` | libduer-device/modules/connagent/lightduer_ca.c:711-735 | a stopped agent begins, a refused one stays so, any other goes on; OK means started |
| `ConnectAgent.StartDecides` | libduer-device/modules/connagent/lightduer_ca.c:311-508 | a stopped agent is started if and only if the connection is made, the registration is sent, and the first answer that comes is 2.05; it is refused if and only if it is another code |
| `ConnectAgent.Agent.DataAvailable` | libduer-device/modules/connagent/lightduer_ca.c:901-939 | arriving data is read by an agent that is initialized; one that is not started goes on with its start |
| `ConnectAgent.TakenUpAgain` | libduer-device/modules/connagent/lightduer_ca.c:901-939 | a start that waits for the answer, taken up again by later data, ends as if everything had come at once |
| `ConnectAgent.Agent.Stop` | libduer-device/modules/connagent/lightduer_ca.c:962-997 | stop gives the connection up, and nothing of the registration remains |
| `ConnectAgent.StartedMeans` | libduer-device/modules/connagent/lightduer_ca.c:737-741 | an agent that counts as started is registered, if and only if the server did not refuse it |
| `ConnectAgent.Refused` | libduer-device/modules/connagent/lightduer_ca.c:711-741 | a new agent whose registration is answered with 4.04 counts as started and is not registered |
| `ConnectAgent.Accepted` | libduer-device/modules/connagent/lightduer_ca.c:711-741 | a new agent whose registration is answered with 2.05 is started and registered |
| `ConnectAgent.Drive` | libduer-device/modules/connagent/lightduer_ca.c:157-997 | after every sequence of starts, stops and arrivals: started means that since the last stop a connect succeeded, a registration was sent and 2.05 came while waiting, all on the connection in use; from sending on there is a connection |
| `SamplingHash.HashCode` | libduer-device/framework/utils/lightduer_hashcode.c:74-128 | for all data with room for one stretch behind it, the loop ends and mixes the hash of the prefix with those of the blocks, all inside the data and behind the prefix |
| `SamplingHash.OffsetSpread` | libduer-device/framework/utils/lightduer_hashcode.c:113-115 | the first block starts behind the prefix by as many 256ths of a stretch as the last byte of the hash says |
| `SamplingHash.LoopEnds` | libduer-device/framework/utils/lightduer_hashcode.c:115-124 | for all longer data, with sizes of 32 or 64 bits: the loop, whose offsets wrap around, ends if and only if the size is at most the width minus 256 plus the last byte of the hash of the prefix |
| `SamplingHash.Endless` | libduer-device/framework/utils/lightduer_hashcode.c:115-124 | one byte less than 32 bits can count, and a hash that ends in eight zeros: the offsets never leave the data |
| `SamplingHash.StartAt` | libduer-device/framework/utils/lightduer_hashcode.c:115-124 | block k starts k stretches behind the first one, inside the data |
| `SamplingHash.BlocksApart` | libduer-device/framework/utils/lightduer_hashcode.c:116-124 | no two blocks share a byte |
| `SamplingHash.BlockCount` | libduer-device/framework/utils/lightduer_hashcode.c:116-124 | there are exactly as many blocks as stretches begun behind the first offset |
| `SamplingHash.NoLongGap` | libduer-device/framework/utils/lightduer_hashcode.c:116-124 | every byte behind the first offset is less than one stretch behind the start of a block |
| `SamplingHash.Coverage` | libduer-device/framework/utils/lightduer_hashcode.c:101-124 | every byte behind the first offset is less than 4352 bytes behind the start of a block, in data above 262144 bytes less than 65792 |
| `SamplingHash.WorkBound` | libduer-device/framework/utils/lightduer_hashcode.c:101-124 | the bytes read are at most the prefix and one block for every stretch begun behind it |
| `SamplingHash.WorkUpToMegabyte` | libduer-device/framework/utils/lightduer_hashcode.c:86-124 | for data of up to one megabyte at most 19456 bytes are read, and at most 8192 for more than 262144, where the comment says 61696 |

## Left out

- JSON numbers that are not 32-bit integers when printed: no useful exact property of `%f` and `%e`.
- Failure of allocation, memory hooks, reference items and constant keys of the JSON library: branches without depth.
- The error pointer of the JSON parser: the place where it stops on success is modelled, the place of an error is not.
- `ParseWithOpts` on a null text; lookup by key and the object editing functions that call the array ones.
- Freeing of JSON nodes, texts and messages: the model keeps what the code gives back.
- The temporary `entries` and `names` arrays of the printers are sequences, not blocks of memory.
- The pointer that the buffered object printer returns for nested objects: it is not used by the code.
- HTTP connection set-up, headers, redirects, statistics; the model starts at the body, with its length and coding known.
- Size lines with leading blanks, a sign or `0x`, which `sscanf` would accept, and sizes beyond the width of a size.
- A chunked body that ends where the receiver waits for more: the original loops; the model calls it endless and requires that it is not. Errors of the socket are covered.
- Callbacks of the HTTP client that are not registered.
- `JsonPrintBuffered.PrintBuffered`: texts of 2^30 bytes and more, for which `pow2gt` would leave the range of an int, are not covered.
- `JsonMinify.Minify`: what is written for a text with an open string or block comment is not stated, because it depends on the bytes behind the text.
- `SamplingHash.HashCode`: the value for data so long that offsets wrap around, for which blocks overlap, is not stated; whether there is one is.
- `CoapTransport.Trans.RecvBody`: the check that fewer bytes are kept than wanted is not repeated, because the state excludes it.
- AES, base64, Speex and CoAP message parsing themselves; the conversion of the token to a key.
- UDP, which sends messages without frames; sizes near the end of 16 bits in the CoAP sender.
- Destruction of the Linux event queue, and clearing the outgoing queue while a send is running.
- The play queue inside the audio player is a sequence of items; the linked queue it is kept in is modelled by itself.
- Events reported by the player, the listen timer, topic numbers of voice sessions, a session that is started again without a stop.
- Resources of the connection agent, its statistics, its configuration, and the builds with LWM2M or a UDP reporter.
- The arithmetic of the block hash: any function of the bytes and the seed.
