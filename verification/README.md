# The XMMS2 client library, modelled in Dafny

The application bundles the client library of the XMMS2 music player.  This project models the
library and proves what it is for.

* **Wire format and framing.**  `Bytes`, `Utf8`, `Dicts`, `Values` and `Wire` define what a value is,
  its encoding and its decoding.  `RoundTrip` proves that decoding undoes encoding and stops where
  the encoding stops.  `Msg` is the message buffer that is written with counts patched in
  afterwards, and read through a cursor; it refines `Wire` byte by byte.  `Stream` is the protocol of
  short writes and short reads as a state machine, with the reassembly theorem; `Transport` and `Ipc`
  are the socket, which moves as many bytes as it likes, and the connection that takes those steps.
* **The collection query language.**  `Tokens`, `Tokenizer`, `Prepare` and `CollParser` follow the four
  stages of the parser.  `Printer` proves that parsing inverts printing of token lists, `Grammar` that
  the parser accepts nothing but the phrases of a grammar, `Spelling` that
  words, quoted strings and numbers are read as they were written, and `QueryText` that parsing undoes
  the whole way to text; `Phrases` spells out what particular texts mean.  `Numbers`, `Sequences` and `Bounds` say which numbers the parsed
  sequences and comparisons mean.
* **Requests and results.**  `Dispatch` is the state machine of cookies, registered results, notifiers,
  restarts and reference counts, with what every run keeps; `Client` updates the objects, queues the
  messages and takes exactly these steps.  `Requests` puts this machine and the byte stream together.
* **Containers.**  `Lists` says what an edit does to a sequence and to the positions in it;
  `ValueList` is the array with live iterators; `DictObject` the dict as a flat sorted list, which is a
  map; `IdList` the id array of a collection; `XList` and `XQueue` the doubly linked list and
  the queue on the heap.
* **Urls and formats.**  `Url` is the url coding of media, `Format` the bounded ${field} formatter.

Where a comment of the library and its code differ, the model follows the code.  The grammar comment
of the parser wants an operand on both sides of AND and OR; the code swallows a trailing operator
(`Printer.TrailingAnd`, `Printer.TrailingOr`).
The context pass says that it turns `<=` and `>=` into strict tests; the code prints the bound plus or
minus one into the width of the old text, so a bound that does not fit is cut short (`Bounds.AtMost`,
`Bounds.AtLeast`, and `Sequences.OneToNine` for the same in sequences).
A few premises are the library's own: a message is shorter than 2^32 bytes with its header,
at most 2^32 requests are made on a connection, the program releases only references it holds,
and where minutes or seconds are formatted the field "duration" is an integer with room for rounding.

## Model

| member | source | states |
|---|---|---|
| RoundTrip.SelfDelimiting | xmmsclient/xmmsipc/msg.c:470-537 | For every well-formed value whose encoding fits in 32 bits, wherever it stands between other bytes, decoding its encoding returns its normal form and stops exactly after the bytes written; the value itself comes back if and only if it is clean (nowhere operands under a reference or a zero among the ids) |
| RoundTrip.RoundTrip | xmmsclient/xmmsipc/msg.c:716-958 | The same by structural induction at any offset of any buffer, for nested lists, dicts and collection trees |
| RoundTrip.ArrivesExactly | xmmsclient/xmmsipc/msg.c:716-958 | The same for values of any content, valid or not: decoding what was encoded gives what the library makes of it - a string that is not UTF-8 is nothing and is left out, pairs and attributes are set one by one - and stops behind it; it breaks if and only if somewhere a collection with a type above the last one has an attribute with a UTF-8 value |
| RoundTrip.AnyPairsArrive | xmmsclient/xmmsipc/msg.c:807-844 | A dict of any pairs, in any order and with keys repeated, arrives sorted, and as a map it is what setting the pairs with UTF-8 keys from left to right makes, later values in the place of earlier ones |
| RoundTrip.SetPairsIsUpdates | xmmsclient/xmmsipc/msg.c:819-834 | Setting pairs one by one, on the map: updates from left to right |
| RoundTrip.SetAttrsIsUpdates | xmmsclient/xmmsipc/msg.c:732-750 | Setting attributes one by one, on the map: updates from left to right for the pairs that are UTF-8 |
| RoundTrip.WfReceived | xmmsclient/xmmsipc/msg.c:716-958 | Of a value that the library could have built, what arrives is its normal form |
| RoundTrip.NormIdentity | xmmsclient/xmmsipc/msg.c:408-466 | A value survives the wire unchanged exactly when it is clean: references carry no operands and id lists no zero |
| RoundTrip.NormClean | xmmsclient/xmmsipc/msg.c:408-466 | What was decoded once survives every further trip unchanged |
| RoundTrip.SameBytes | xmmsclient/xmmsipc/msg.c:470-537 | Two values that the library can build have the same bytes if and only if they have the same normal form: what the trip loses is all that the bytes do not say |
| RoundTrip.EncOfNorm | xmmsclient/xmmsipc/msg.c:408-466 | A value and its normal form have the same bytes |
| RoundTrip.EncodingInjective | xmmsclient/xmmsipc/msg.c:470-537 | Two clean values with the same bytes are the same value |
| RoundTrip.GetCollOfEnc | xmmsclient/xmmsipc/msg.c:716-803 | An encoded collection of any content decodes to what the library makes of it, whatever follows; a type above the last one gives nothing |
| RoundTrip.GetPairsOfEnc | xmmsclient/xmmsipc/msg.c:807-844 | The pairs of an encoded row, in any order, are set one by one |
| RoundTrip.GetItemsOfEnc | xmmsclient/xmmsipc/msg.c:847-876 | The items of an encoded list come back in order; those that are nothing are left out |
| RoundTrip.GetOperandsOfEnc | xmmsclient/xmmsipc/msg.c:774-791 | The operands of an encoded collection come back in order; those that are nothing are left out |
| RoundTrip.GetAttrsOfEnc | xmmsclient/xmmsipc/msg.c:732-750 | The attributes of an encoded collection are set one by one |
| Wire.GetValue | xmmsclient/xmmsipc/msg.c:879-958 | On any bytes at all the cursor never passes the end, a successful decode consumes at least four bytes, and what it returns is a value the library could have built; the recursion ends because the rest shrinks, whatever counts are claimed |
| Wire.ValueBreaksExactly | xmmsclient/xmmsipc/msg.c:879-958 | Decoding any bytes uses a null collection if and only if one of the collection headers that the decoder reaches has a type above the last one and, among its attributes, one with a UTF-8 value |
| Wire.CollBreaksExactly | xmmsclient/xmmsipc/msg.c:716-803 | The same for a collection: its own header and those of the operands that are reached |
| Wire.TypeTwelveBreaks | xmmsclient/xmmsipc/msg.c:716-803 | An input that breaks: any twenty bytes with the words 4, 12, 1, 0, 0, a collection of type 12 with one empty attribute |
| Wire.SuchBytes | xmmsclient/xmmsipc/msg.c:716-803 | There are such bytes |
| Wire.CollBreaks | xmmsclient/xmmsipc/msg.c:716-803 | One level of it: a collection breaks at its own header, or, once ids and count are read, where its operands break |
| Wire.AttrsBreak | xmmsclient/xmmsipc/msg.c:732-750 | Setting attributes in the null collection breaks exactly when one of them can be read and has a UTF-8 value |
| Wire.ValueBreaksAhead | xmmsclient/xmmsipc/msg.c:879-958 | A check before decoding: nothing breaks unless such a header stands somewhere at or behind the cursor |
| Wire.IdStoresFit | xmmsclient/xmmsipc/msg.c:752-772 | The stores of the ids and their terminator stay inside the allocation if and only if the claimed count did not wrap the allocation around, in 64 or in 32 bits, or the message ends before the wrapped room is used up |
| Wire.NoRoomForIds | xmmsclient/xmmsipc/msg.c:752-772 | An input where they do not: with a claimed count of 2^32 - 1 the allocation has no room and one word in the message is stored all the same, in 64 and in 32 bits |
| Wire.IdsRead | xmmsclient/xmmsipc/msg.c:752-772 | The id loop reads as many ids as claimed or as there are words left |
| Wire.GetColl | xmmsclient/xmmsipc/msg.c:716-803 | Cursor safety for collections: at least sixteen bytes consumed, the cursor within the buffer, a valid type, sorted UTF-8 attributes and no zero id |
| Wire.GetList | xmmsclient/xmmsipc/msg.c:847-876 | Cursor safety for lists, for any claimed number of entries |
| Wire.GetDict | xmmsclient/xmmsipc/msg.c:807-844 | Cursor safety for dicts, and the pairs are sorted by key |
| Wire.PairSetIsUpdate | xmmsclient/xmmsipc/msg.c:819-834 | A pair that was read is a map update if its value is not null and its key is UTF-8, and nothing otherwise; the order stays |
| Wire.TextEnds | xmmsclient/xmmsipc/msg.c:653-682 | A string ends at its first NUL, or with its data when there is none, and the cursor stands behind the data |
| Wire.EncCollShape | xmmsclient/xmmsipc/msg.c:408-466 | A collection is its type and three counted parts: attributes, ids up to the first zero, operands (none for a reference) |
| Msg.Message.PutValue | xmmsclient/xmmsipc/msg.c:470-537 | Refinement: the writer that grows a buffer and patches counts afterwards appends exactly the bytes of the pure encoder, and all earlier bytes survive |
| Msg.Message.PutList | xmmsclient/xmmsipc/msg.c:540-565 | A dummy count, the entries, then the count patched in by offset: the bytes of an encoder that knew the count first |
| Msg.Message.PutDict | xmmsclient/xmmsipc/msg.c:568-595 | The same for the key/value pairs of a dict |
| Msg.Message.PutColl | xmmsclient/xmmsipc/msg.c:408-466 | The same for a collection with its nested parts |
| Msg.Message.PutOperands | xmmsclient/xmmsipc/msg.c:443-464 | Operands are counted and written in order, each behind its type tag |
| Msg.Message.PutAttrs | xmmsclient/xmmsipc/msg.c:423-430 | The attribute count is known before the attributes are written |
| Msg.Message.PutIds | xmmsclient/xmmsipc/msg.c:434-441 | Ids are counted, then written, up to the first zero |
| Msg.Message.CountIds | xmmsclient/xmmsipc/msg.c:435-436 | The loop counts the ids before the first zero |
| Msg.Message.PatchCount | xmmsclient/xmmsipc/msg.c:375-381 | Overwriting the dummy word leaves what precedes and what follows it untouched |
| Msg.Message.PutData | xmmsclient/xmmsipc/msg.c:308-338 | Appends the bytes, returns the old length, and grows the buffer so that it always has room for header and payload |
| Msg.Message.Realloc | xmmsclient/xmmsipc/msg.c:315-330 | Every byte and the header survive a reallocation |
| Msg.Message.StoreU32 | xmmsclient/xmmsipc/msg.c:375-381 | Overwrites four payload bytes at an offset and nothing else |
| Msg.Message.PutText | xmmsclient/xmmsipc/msg.c:392-405 | A length that counts the terminator, the bytes, the terminator |
| Msg.Message.PutBin | xmmsclient/xmmsipc/msg.c:341-348 | A length and the bytes |
| Msg.Message.PutUint32 | xmmsclient/xmmsipc/msg.c:367-372 | Four big-endian bytes at the returned offset |
| Msg.Message.GetValue | xmmsclient/xmmsipc/msg.c:891-958 | The decoder with a cursor in the message does exactly what the pure decoder does, on any bytes, and reports where C would use a null collection |
| Msg.Message.GetColl | xmmsclient/xmmsipc/msg.c:716-803 | The same for collections: the use of a null collection is reported, not passed over |
| Msg.Message.GetList | xmmsclient/xmmsipc/msg.c:847-876 | The same for lists |
| Msg.Message.GetDict | xmmsclient/xmmsipc/msg.c:807-844 | The same for dicts |
| Msg.Message.GetAttrs | xmmsclient/xmmsipc/msg.c:732-750 | The attribute loop refines its pure form, in a collection or in none |
| Msg.Message.GetIds | xmmsclient/xmmsipc/msg.c:752-772 | The id loop refines its pure form |
| Msg.Message.GetOperands | xmmsclient/xmmsipc/msg.c:774-791 | The operand loop refines its pure form |
| Msg.Message.GetText | xmmsclient/xmmsipc/msg.c:653-682 | The string reader refines its pure form |
| Msg.Message.GetBytes | xmmsclient/xmmsipc/msg.c:685-712 | The bin reader refines its pure form |
| Msg.Message.GetUint32 | xmmsclient/xmmsipc/msg.c:625-636 | The word reader refines its pure form |
| Msg.Message.GetData | xmmsclient/xmmsipc/msg.c:599-613 | Moves the cursor by the length asked for, or refuses and leaves it alone |
| Bytes.U32AtPut | xmmsclient/xmmsipc/msg.c:367-372 | ntohl undoes htonl: the word read at the place of a stored word is that word |
| Bytes.PutU32Injective | xmmsclient/xmmsipc/msg.c:367-372 | Different words have different bytes |
| Bytes.CStringOfTerminated | xmmsclient/xmmsipc/msg.c:653-682 | A C string ends at its terminator whatever bytes follow |
| Bytes.Low32Wraps | xmmsclient/xmmsclient/xmmsclient.c:333-336 | Arithmetic in uint32_t wraps around |
| Stream.StreamReassembly | xmmsclient/xmmsclient/ipc.c:62-129 | Over every run of pushes, partial writes, partial reads and disconnects: what the reader completed is always an in-order, byte-exact prefix of what was pushed, and all of it, with nothing lost, once nothing is queued or on the wire, whether or not the reader has hung up |
| Stream.StepKeeps | xmmsclient/xmmsclient/ipc.c:62-129 | Every step keeps the bytes: pushed == completed + lost or partial + on the wire + still queued, and what a reader lost was no whole message |
| Requests.RequestsAndAnswers | xmmsclient/xmmsclient/xmmsclient.c:333-428 | Dispatch and framing together, over every run with at most 2^32 requests: the k-th message that reaches the peer is the k-th request and carries cookie k, an answer to it reaches exactly the result it was sent for unless that result has sent a later one, and every request has arrived when nothing is queued or on the wire |
| Requests.RunKeeps | xmmsclient/xmmsclient/xmmsclient.c:333-428 | Every run keeps the k-th pushed message stamped with cookie k |
| Requests.SendSteps | xmmsclient/xmmsclient/xmmsclient.c:411-428 | What SendMsg does to the results and to the out queue is one step of the joint machine, whatever else is on the way |
| Requests.ReplySteps | xmmsclient/xmmsclient/ipc.c:388-400 | So is what ExecMsg does, with the request of a restart if there is one |
| Requests.QuietSteps | xmmsclient/xmmsclient/result.c:126-336 | So are setting a notifier, taking and dropping a reference, which queue nothing |
| Requests.StampedFrame | xmmsclient/xmmsipc/msg.c:179-183 | Rewriting the third header word stamps the message with the cookie |
| Requests.HeaderDecides | xmmsclient/xmmsclient/xmmsclient.c:411-428 | What the first eight header bytes of a request make of its answer, where the notifier stays: object 0 and command 32 ask once more and answer to the new cookie, command 33 asks nothing and keeps its cookie, any other header has no notifier left |
| Requests.AskedIsSent | xmmsclient/xmmsclient/xmmsclient.c:360-374 | The request of a restart, byte by byte, is a whole message stamped with its cookie |
| Stream.Reassembled | xmmsclient/xmmsipc/msg.c:246-305 | A byte stream splits into frames in only one way: frames read from a prefix of the sent bytes are the frames sent |
| Stream.ReadKeeps | xmmsclient/xmmsclient/ipc.c:62-93 | Reading moves bytes from the wire to the partial message and to completed ones, in order |
| Stream.OutKeeps | xmmsclient/xmmsclient/ipc.c:103-129 | Writing moves bytes from the queue to the wire, in order |
| Msg.Message.WriteTransport | xmmsclient/xmmsipc/msg.c:201-238 | Sends some next part of the frame, resuming where the last short write stopped; full exactly when the frame is out; it reports the connection down exactly when the write found it so |
| Msg.Message.ReadTransport | xmmsclient/xmmsipc/msg.c:246-305 | Appends some next bytes of the stream, first to the header and then, in a buffer grown to the announced length, to the payload; full exactly when the frame is complete; an incomplete message means that the transport had nothing more, or is down and that is reported, or that the announced length wraps around |
| Msg.Message.Wanted | xmmsclient/xmmsipc/msg.c:252-273 | How many bytes the message needs next: the header, then what the header announces |
| Msg.Message.SetCookie | xmmsclient/xmmsipc/msg.c:179-183 | Rewrites the cookie word of the header and nothing else |
| Msg.Message.SetAddress | xmmsclient/xmmsipc/msg.c:109-119 | Sets object and command in the header and leaves the payload alone |
| Ipc.Connection.MsgWrite | xmmsclient/xmmsclient/ipc.c:308-322 | Sets the cookie and pushes the message at the back of the out queue |
| Ipc.Connection.IoOut | xmmsclient/xmmsclient/ipc.c:103-129 | The write loop is a writer step: messages leave in order, each popped exactly when its last byte is out; it ends disconnected exactly when something is left and the socket is down |
| Ipc.Connection.IoIn | xmmsclient/xmmsclient/ipc.c:62-93 | The read loop is a reader step: every completed message is handed over in order and a partial one is kept for the next call; it ends when nothing more is there to read, or disconnected when the socket is down |
| Ipc.Connection.Disconnect | xmmsclient/xmmsclient/ipc.c:147-158 | Drops the partial message and marks the connection |
| Ipc.Connection.SendHead | xmmsclient/xmmsclient/ipc.c:109-121 | One round of the write loop: part of the head message, popped when whole |
| Ipc.Connection.ReadOne | xmmsclient/xmmsclient/ipc.c:70-83 | One round of the read loop: the next part of the message being read |
| Utf8.Validate | xmmsclient/xmmstypes/value.c:2435-2456 | The scan of the terminated string, which never reads past the terminator, accepts exactly the sequences of well-shaped characters |
| Utf8.ValidIsCharacters | xmmsclient/xmmstypes/value.c:2416-2456 | A string is valid if and only if it is a row of characters, each one byte 01 to 7F, or C0 to DF with one, E0 to EF with two, or F0 to F7 with three bytes 80 to BF behind it |
| Utf8.ValidConcat | xmmsclient/xmmstypes/value.c:2435-2456 | Validity is compositional: behind a valid string the rest alone decides |
| Values.AttrSet | xmmsclient/xmmstypes/coll.c:512-521 | Setting an attribute keeps the attributes sorted and UTF-8 |
| Values.AttrSetIsUpdate | xmmsclient/xmmstypes/coll.c:512-521 | On the map it is an update when key and value are UTF-8, and nothing otherwise |
| Printer.ParserInvertsPrinter | xmmsclient/xmmsclient/collparser.c:667-800 | For every tree of NOT, n-ary AND and OR, filters, lone strings and patterns, number sequences, ids, references and the universe, printed with an AND written out or left out at each place by itself, properties by name or by the letter short for them, lone strings with or without their operator and the default namespace written or not, parsing gives back exactly that tree and no token is left over |
| Printer.ExprPrinted | xmmsclient/xmmsclient/collparser.c:501-543 | An operand, parenthesised where needed, is parsed back in front of any tokens that cannot continue it |
| Printer.AndPrinted | xmmsclient/xmmsclient/collparser.c:721-764 | An n-ary AND is accumulated flat, in order |
| Printer.OrPrinted | xmmsclient/xmmsclient/collparser.c:767-800 | An n-ary OR is accumulated flat, in order |
| Printer.LoneOperand | xmmsclient/xmmsclient/collparser.c:721-764 | A lone operand takes no operator |
| Printer.TrailingAnd | xmmsclient/xmmsclient/collparser.c:733-748 | An AND behind the last operand is swallowed |
| Printer.TrailingOr | xmmsclient/xmmsclient/collparser.c:779-793 | An OR behind the last operand is swallowed, and leaves a union of one |
| Printer.ParenMissing | xmmsclient/xmmsclient/collparser.c:522-543 | Any printed query behind an opening parenthesis that is never closed is refused |
| Printer.ParenParsed | xmmsclient/xmmsclient/collparser.c:522-543 | Parentheses around an operation are removed |
| Printer.ReferenceIs | xmmsclient/xmmsclient/collparser.c:803-839 | "ns/name" gives the two reference attributes |
| Printer.DefaultReferenceIs | xmmsclient/xmmsclient/collparser.c:803-839 | A name without a slash, or with a slash in front, is a reference into the namespace Collections |
| Printer.AlonePrinted | xmmsclient/xmmsclient/collparser.c:961-1003 | A lone string is looked for in artist, album and title, a lone pattern matched with them, in front of any rest |
| Printer.SignedPrinted | xmmsclient/xmmsclient/collparser.c:961-1003 | The same with : or ~ in front of it |
| Printer.SequencePrinted | xmmsclient/xmmsclient/collparser.c:547-664 | A number sequence is one of positions, behind # one of ids, in front of any rest |
| Printer.FilterIs | xmmsclient/xmmsclient/collparser.c:866-958 | A filter over the universe carries its field and value attributes |
| Grammar.AcceptsOnlyPhrases | xmmsclient/xmmsclient/collparser.c:501-1003 | And nothing else is accepted: every collection that the parser builds, from any tokens, is the meaning of a phrase that the grammar allows, and the tokens of the phrase are exactly those that were given |
| Grammar.ExprSound | xmmsclient/xmmsclient/collparser.c:501-519 | Whatever an operand was built from is an operand of the grammar, and what is left follows it |
| Grammar.OrSound | xmmsclient/xmmsclient/collparser.c:767-800 | What the OR accumulator collects is a row of operands with an OR behind each but the last, and maybe behind the last |
| Grammar.AndSound | xmmsclient/xmmsclient/collparser.c:721-764 | What the AND accumulator collects is a row of disjunctions with an AND or nothing behind each |
| QueryText.TextRoundTrip | xmmsclient/xmmsclient/collparser.c:135-497 | End to end: every tree comes back from tokenizer, context pass and parser as exactly that tree, for ANDs written or left out at any places, properties by letter or by name with any characters escaped, strings quoted or as words with any characters escaped, alone or behind their operator, MATCH behind ~ with a wrapped or a bare text or behind a colon with a wildcard, comparisons strict or with <= and >=, number sequences bare or escaped |
| Phrases.IsText | xmmsclient/xmmsclient/collparser.c:892-958 | a:, l:, t:, n:, y:, g: or u: and a quoted string is the EQUALS filter on artist, album, title, tracknr, year, genre or url, down to the numbers and names in the tree; any other small letter names itself |
| Phrases.LikeText | xmmsclient/xmmsclient/collparser.c:435-454 | The same letters with ~ and a string, a number or a pattern are a MATCH filter on the text with a star at each end where there is none |
| Phrases.LikeWord | xmmsclient/xmmsclient/collparser.c:435-454 | So a~word matches *word* |
| Phrases.Compared | xmmsclient/xmmsclient/collparser.c:892-958 | With < and > they are filters of types 7 and 8 |
| Phrases.HasLetter | xmmsclient/xmmsclient/collparser.c:866-889 | + and a letter is a filter of type 4 on the property |
| Phrases.AloneText | xmmsclient/xmmsclient/collparser.c:961-1003 | A string by itself is the union of EQUALS filters on artist, album and title |
| Phrases.AlonePattern | xmmsclient/xmmsclient/collparser.c:961-1003 | A pattern by itself is the union of MATCH filters on them |
| Phrases.StarText | xmmsclient/xmmsclient/collparser.c:842-863 | A star by itself is the reference to All Media |
| Phrases.InDefault | xmmsclient/xmmsclient/collparser.c:803-839 | in: and a name without a slash is a reference into Collections |
| Phrases.NumbersFound | xmmsclient/xmmsclient/collparser.c:547-664 | Digits, commas and dashes as text: where the sequence fits, the tree finds exactly the positions that are written, and behind # exactly the ids |
| Phrases.NotText | xmmsclient/xmmsclient/collparser.c:686-706 | NOT in front of a query is a collection of type 3 |
| Phrases.BothText | xmmsclient/xmmsclient/collparser.c:721-764 | Two queries with a blank or an AND between them are one of type 2 |
| Phrases.EitherText | xmmsclient/xmmsclient/collparser.c:767-800 | Two queries with an OR between them are one of type 1 |
| QueryText.ArtistFilter | xmmsclient/xmmsclient/collparser.c:1040-1075 | For one: a: and a quoted string is the artist filter |
| QueryText.EverySpeakable | xmmsclient/xmmsclient/collparser.c:135-497 | The queries that some choice can write are exactly the speakable ones, and each has a text that means it |
| Spelling.WordSpelled | xmmsclient/xmmsclient/collparser.c:279-351 | A word with any of its characters escaped, as an operand, is one token with exactly its characters, of the type that its bare characters give it |
| Spelling.NameSpelled | xmmsclient/xmmsclient/collparser.c:279-351 | A name with any of its characters escaped, in front of a filter operator, is one property token with exactly that name; a single bare letter is a shorthand |
| Spelling.SpellBack | xmmsclient/xmmsclient/collparser.c:279-351 | The scanning loop reads any spelling of a word as its own characters |
| Spelling.PatternIsSpelled | xmmsclient/xmmsclient/collparser.c:279-351 | A text with a wildcard, everything but its wildcards escaped, can be written as a word and is a pattern |
| Spelling.PatternHasWild | xmmsclient/xmmsclient/collparser.c:279-351 | Only a wildcard makes a pattern of a word |
| Spelling.SpellTypeIs | xmmsclient/xmmsclient/collparser.c:319-345 | The type of a word: a pattern with a bare wildcard, otherwise an integer of digits alone, a sequence of digits, commas and dashes, and a string of anything else |
| Spelling.JointToken | xmmsclient/xmmsclient/collparser.c:279-351 | A row of digits, commas and dashes, however it is spelled, is one integer or sequence token |
| QueryText.SettlesFilter | xmmsclient/xmmsclient/collparser.c:385-497 | The context pass turns the three tokens of a filter into the prepared ones: an empty name in front of a comparison becomes a property, a pattern behind a colon a MATCH, a non-strict comparison a strict one |
| QueryText.SettlesMatch | xmmsclient/xmmsclient/collparser.c:406-440 | A MATCH in each of its forms comes out of the context pass as the printed one: wrapped in wildcards behind ~, retyped behind a colon |
| Prepare.FuzzyWraps | xmmsclient/xmmsclient/collparser.c:435-454 | Wrapping loses nothing and puts a star at each end where there is none; nothing becomes one star |
| Prepare.FuzzyIsShortest | xmmsclient/xmmsclient/collparser.c:435-454 | The wrapped text is the shortest one that starts and ends with a star and has the text in it, and the only one of that length |
| Prepare.AdjustOnly | xmmsclient/xmmsclient/collparser.c:394-493 | What two neighbouring tokens do to each other, in type and in text, and that nothing else changes |
| Spelling.QuoteToken | xmmsclient/xmmsclient/collparser.c:215-355 | A quoted and escaped text is read back as one string token with exactly that text, whatever follows |
| Spelling.NumberToken | xmmsclient/xmmsclient/collparser.c:215-355 | A row of digits up to a boundary is read back as one integer token |
| QueryText.QueryTokens | xmmsclient/xmmsclient/collparser.c:173-188 | The tokenizer splits the written tree into the tokens it was written from |
| QueryText.QuerySettles | xmmsclient/xmmsclient/collparser.c:385-497 | The context pass turns the tokens of the written text into exactly the printed ones, behind any token that does not change its meaning |
| CollParser.ParseOperation | xmmsclient/xmmsclient/collparser.c:667-671 | Termination: what is left is a suffix of the tokens, strictly shorter when a collection was built; the whole mutual recursion ends on every token list |
| CollParser.ParseExpr | xmmsclient/xmmsclient/collparser.c:501-519 | Progress of an operand |
| CollParser.ParseParen | xmmsclient/xmmsclient/collparser.c:522-543 | Progress through parentheses |
| CollParser.ParseNot | xmmsclient/xmmsclient/collparser.c:686-706 | Progress through NOT |
| CollParser.AndAppend | xmmsclient/xmmsclient/collparser.c:721-764 | Progress of the AND accumulator, which adds operands to a shared operator while it recurses |
| CollParser.OrAppend | xmmsclient/xmmsclient/collparser.c:767-800 | Progress of the OR accumulator |
| CollParser.ParseFilter | xmmsclient/xmmsclient/collparser.c:842-863 | Progress through the alternatives of a filter |
| CollParser.UnaryFilter | xmmsclient/xmmsclient/collparser.c:866-889 | Progress of the existence filter |
| CollParser.BinaryFilter | xmmsclient/xmmsclient/collparser.c:892-958 | Progress of a comparison |
| CollParser.AutoFilter | xmmsclient/xmmsclient/collparser.c:961-1003 | Progress of the bare string filter over artist, album and title |
| CollParser.ParseReference | xmmsclient/xmmsclient/collparser.c:803-839 | Progress of a reference |
| CollParser.ParseSequence | xmmsclient/xmmsclient/collparser.c:547-643 | Progress of a sequence |
| CollParser.ParseIdSeq | xmmsclient/xmmsclient/collparser.c:646-664 | Progress of an id or position sequence |
| CollParser.FilterBuilt | xmmsclient/xmmsclient/collparser.c:866-958 | The collection that attribute setting and operand adding build |
| CollParser.UniverseIs | xmmsclient/xmmstypes/coll.c:607-614 | The universe is the reference named "All Media" |
| Tokenizer.NextToken | xmmsclient/xmmsclient/collparser.c:215-355 | Every token consumes at least one character, so the outer loop ends on every string |
| Tokenizer.ReadToken | xmmsclient/xmmsclient/collparser.c:215-355 | The scanning loops over the text refine the token function |
| Tokenizer.ScanQuoted | xmmsclient/xmmsclient/collparser.c:256-276 | The loop up to the closing quote, with escapes |
| Tokenizer.ScanWord | xmmsclient/xmmsclient/collparser.c:279-351 | The loop over an unquoted word, which settles its type on the way |
| Tokenizer.ParsePattern | xmmsclient/xmmsclient/collparser.c:135-209 | The outer loop: tokenize all, run the context pass, parse |
| Prepare.PrepareInPlace | xmmsclient/xmmsclient/collparser.c:385-497 | The in-place pass over the tokens equals its specification, position by position, though it rewrites the tokens it has yet to look back at |
| Sequences.PieceExact | xmmsclient/xmmsclient/collparser.c:547-643 | For every piece n, n-, -m, n-m the built tree denotes the written interval if and only if every bound leaves room for its neighbour: no upper bound of nines only, no lone zero as lower bound |
| Sequences.PieceMatches | xmmsclient/xmmsclient/collparser.c:571-619 | What the tree of a piece matches, for every piece: the interval whose upper end is the raised bound, or nothing below a lone zero |
| Sequences.LostIs | xmmsclient/xmmsclient/collparser.c:571-619 | Nothing is matched that was not written, and what a piece loses is one interval, empty exactly when its bounds fit |
| Sequences.SequenceDenotes | xmmsclient/xmmsclient/collparser.c:547-643 | A comma-separated sequence denotes exactly the union of its points and intervals if and only if every piece fits or the other pieces cover what it loses, which is checked at the first number lost and behind every built interval that ends inside |
| Sequences.SequenceMatches | xmmsclient/xmmsclient/collparser.c:547-643 | What the tree of a sequence matches, for every sequence: the union of what its pieces build |
| Sequences.OneToNine | xmmsclient/xmmsclient/collparser.c:595-607 | "1-9" matches nothing at all: the text of 10 is cut to the width of 9 |
| Sequences.FromMatches | xmmsclient/xmmsclient/collparser.c:582-593 | A lower bound compares as "at least" if and only if it is not the lone zero |
| Sequences.ToMatches | xmmsclient/xmmsclient/collparser.c:595-607 | An upper bound lets through exactly what is below the raised bound |
| Sequences.BuildSequence | xmmsclient/xmmsclient/collparser.c:547-643 | The strchr loop over the commas builds the specified tree |
| Sequences.BuildPiece | xmmsclient/xmmsclient/collparser.c:571-619 | The pointer arithmetic on one piece builds the specified tree |
| Sequences.StrChr | xmmsclient/xmmsclient/collparser.c:560-571 | The search returns the first separator or the end |
| Bounds.AtMost | xmmsclient/xmmsclient/collparser.c:470-490 | "p <= m" becomes a strict test for what is below the raised m; that means at most m if and only if m is not a row of nines |
| Bounds.AtLeast | xmmsclient/xmmsclient/collparser.c:470-490 | "p >= m" becomes a strict test that means at least m if and only if m is not the one-digit zero, and otherwise matches nothing |
| Bounds.AtMostLarge | xmmsclient/xmmsclient/collparser.c:470-490 | "p <= m" for an m that does not fit an int finds some negative numbers only |
| Bounds.AtLeastLarge | xmmsclient/xmmsclient/collparser.c:470-490 | "p >= m" for an m above the largest int means at least that largest int |
| Bounds.NineAndZero | xmmsclient/xmmsclient/collparser.c:470-490 | "p <= 9" finds nothing from 1 on, and "p >= 0" finds nothing |
| Numbers.RaiseExact | xmmsclient/xmmsclient/collparser.c:1105-1124 | Adding one to a bound gives the next number if and only if the bound is not all nines; for nines it gives the power of ten that is left after cutting |
| Numbers.LowerExact | xmmsclient/xmmsclient/collparser.c:1105-1124 | Subtracting one is exact if and only if the bound is not the one-digit zero; otherwise the result is no number |
| Numbers.ReadsWritten | xmmsclient/xmmsclient/collparser.c:1100-1124 | Blanks, a sign or none and digits are read as that number, held inside 32 bits |
| Numbers.ReadsOnlyWritten | xmmsclient/xmmsclient/collparser.c:1100-1124 | Nothing else is read as a number, but for the empty text |
| Numbers.AddsWritten | xmmsclient/xmmsclient/collparser.c:1100-1124 | The sum in int, wrapping around, in plain decimals, cut to as many characters as the text had |
| Numbers.RaiseLarge | xmmsclient/xmmsclient/collparser.c:1100-1124 | A bound that does not fit an int is raised to the smallest int, cut to the width of the text |
| Numbers.LowerLarge | xmmsclient/xmmsclient/collparser.c:1100-1124 | A bound above the largest int is lowered from the largest int |
| Numbers.DecNatLength | xmmsclient/xmmsclient/collparser.c:1105-1124 | A number prints in k digits or fewer exactly when it is below ten to the k |
| Numbers.DecNatValue | xmmsclient/xmmsclient/collparser.c:1105-1124 | Reading what was printed gives the number back |
| Dispatch.CookieDispatch | xmmsclient/xmmsclient/ipc.c:205-260 | In every reachable state with at most 2^32 requests, registered results have pairwise distinct cookies, all issued, and a lookup finds exactly the result whose latest request carried the cookie |
| Dispatch.ResultLifetime | xmmsclient/xmmsclient/result.c:411-462 | In every reachable state the count of a result is the references the program holds plus its pending notifiers, and positive; a result is freed exactly when it is no longer registered; a notifier of a default result runs at most once |
| Dispatch.StepKeeps | xmmsclient/xmmsclient/result.c:126-336 | Every operation keeps population, counts, cookies and notifiers in order |
| Dispatch.ReachesKeeps | xmmsclient/xmmsclient/result.c:126-336 | So every run does |
| Dispatch.ReplyReaches | xmmsclient/xmmsclient/ipc.c:388-400 | A reply calls every notifier of the result it belongs to, in order and with its value, which may be null, and leaves all other results as they are |
| Dispatch.StaleReplyIgnored | xmmsclient/xmmsclient/ipc.c:388-400 | A reply with a cookie that is nobody's latest request changes nothing |
| Dispatch.RestartReplacesCookie | xmmsclient/xmmsclient/result.c:196-207 | After a signal restarts, the new cookie finds the result and the old one finds nothing |
| Dispatch.DropFrees | xmmsclient/xmmsclient/result.c:285-294 | Releasing a reference frees the result exactly when it was the last one and no notifier is pending |
| Dispatch.RunFrees | xmmsclient/xmmsclient/result.c:412-462 | A run frees its result exactly when the program holds no reference and no notifier stays |
| Dispatch.GuardHolds | xmmsclient/xmmsclient/result.c:427-443 | Inside the notifier loop the count never reaches zero |
| Dispatch.LookupIsLatest | xmmsclient/xmmsclient/ipc.c:217-238 | A cookie finds a result exactly when it is the cookie of the result's latest request |
| Dispatch.RunKeeps | xmmsclient/xmmsclient/result.c:412-462 | A run with all its callbacks, deletions, restart and final release keeps the invariant |
| Client.Connection.SendMsg | xmmsclient/xmmsclient/xmmsclient.c:411-428 | Queues the message, byte for byte but for the next cookie in its header, and registers a new result under that cookie, of the class that its header asks for: the Send step, and one step of the joint machine |
| Client.Connection.SendSignalMsg | xmmsclient/xmmsclient/xmmsclient.c:379-390 | Queues the request for a signal and registers a signal result that knows which signal to ask for again |
| Client.Connection.SendBroadcastMsg | xmmsclient/xmmsclient/xmmsclient.c:350-356 | Queues the request for a broadcast and registers a broadcast result |
| Client.Connection.WriteMsg | xmmsclient/xmmsclient/xmmsclient.c:339-348 | The message is pushed stamped with the cookie |
| Client.Connection.ResultNew | xmmsclient/xmmsclient/result.c:471-498 | One reference for the caller, one for the connection, first in the list |
| Client.SignalMsg | xmmsclient/xmmsclient/xmmsclient.c:360-374 | The request for a signal or a broadcast, byte by byte: its header words and its encoded argument |
| Client.Connection.NextId | xmmsclient/xmmsclient/xmmsclient.c:333-336 | Returns the counter and advances it in 32 bits |
| Client.Connection.NotifierSet | xmmsclient/xmmsclient/result.c:323-336 | Adds a notifier and a reference: the Hook step |
| Client.Connection.ResultRef | xmmsclient/xmmsclient/result.c:126-132 | One more reference: the Take step |
| Client.Connection.Release | xmmsclient/xmmsclient/result.c:285-294 | The program gives up a reference: the Drop step |
| Client.Connection.ReleaseObjects | xmmsclient/xmmsclient/result.c:285-294 | The objects are what the Drop step says of them |
| Client.Connection.Unref | xmmsclient/xmmsclient/result.c:285-294 | Decrements, and at zero unregisters and frees |
| Client.Connection.ResultFree | xmmsclient/xmmsclient/result.c:138-162 | Unregisters the result and gives back its reference to the connection |
| Client.Connection.ResultLookup | xmmsclient/xmmsclient/ipc.c:217-238 | The linear search finds the first registered result with the cookie |
| Client.Connection.ResultUnregister | xmmsclient/xmmsclient/ipc.c:241-260 | Removes exactly that result from the list |
| Client.Connection.NotifierDelete | xmmsclient/xmmsclient/result.c:530-539 | Removes one notifier and releases its reference, which is never the last one |
| Client.Connection.RunNotifiers | xmmsclient/xmmsclient/result.c:429-443 | The loop that deletes nodes while it walks calls every notifier once, in order, and leaves exactly those kept |
| Client.Connection.RunGuarded | xmmsclient/xmmsclient/result.c:412-459 | A run up to the release of its own reference, with the request of a restart |
| Client.Connection.Run | xmmsclient/xmmsclient/result.c:412-462 | The whole run of a message: nothing if it does not parse, otherwise the Run step with its value, and exactly the request of a restart in the out queue |
| Client.Connection.RunValue | xmmsclient/xmmsclient/result.c:421-462 | The same once the value is there |
| Client.Connection.ParseMsg | xmmsclient/xmmsclient/result.c:210-240 | The value of a reply, null included; an error reply always has one |
| Client.AnswerArrives | xmmsclient/xmmsclient/result.c:210-240 | The value a peer encoded into its reply is the value that the notifiers get, in normal form; an error reply passes on an error and turns anything else into one |
| Client.NoAnswer | xmmsclient/xmmsclient/result.c:210-240 | A reply without a value is none, but an error reply without one is an error all the same |
| Client.Connection.Restart | xmmsclient/xmmsclient/result.c:196-207 | The request for the signal that the result remembers is queued, byte for byte, and its cookie replaces the old one in place |
| Client.Connection.ExecMsg | xmmsclient/xmmsclient/ipc.c:388-400 | A message that has arrived goes by the cookie in its header to its result, with the value in its payload: the Reply step, nothing at all for an unknown cookie, and one step of the joint machine; if the signal of the result is asked for again, that request and no other is queued; it reports a null collection used while reading |
| Lists.IteratorsFollow | xmmsclient/xmmstypes/value.c:1026-1195 | Over every run of inserts, removals, moves and clears an iterator stays in [-1, size], and on its element as long as no edit evicts it |
| Lists.FollowElement | xmmsclient/xmmstypes/value.c:1026-1195 | One edit: a spared iterator keeps its element, one at an insertion point sees the new element, one on a removed slot the successor |
| Lists.SparesExactly | xmmsclient/xmmstypes/value.c:1026-1195 | In a list without repetitions those are exactly the edits that keep the iterator on its element |
| Lists.MoveBack | xmmsclient/xmmstypes/value.c:1120-1168 | Moving back restores the list and every iterator |
| Lists.RemoveUndoesInsert | xmmsclient/xmmstypes/value.c:1026-1117 | Removing what was inserted restores the list and every iterator |
| Lists.InsertUndoesRemove | xmmsclient/xmmstypes/value.c:1026-1117 | Re-inserting what was removed restores the list, and an iterator if and only if it did not stand on the successor |
| Lists.EditsConserve | xmmsclient/xmmstypes/value.c:1026-1195 | No edit makes up or loses elements beyond the one it names |
| Lists.AbsoluteNames | xmmsclient/xmmstypes/value.c:2465-2483 | A position names a slot exactly when it is the index or the negative distance from the end |
| Lists.CapacityIsLeast | xmmsclient/xmmstypes/value.c:1026-1117 | The capacity is the least power of two that holds the list |
| Lists.GrownIsCapacity | xmmsclient/xmmstypes/value.c:1039-1050 | Doubling when full keeps the capacity exact |
| Lists.ShrunkIsCapacity | xmmsclient/xmmstypes/value.c:1101-1107 | Halving when at most half full keeps the capacity exact |
| ValueLists.ValueList.Insert | xmmsclient/xmmstypes/value.c:1026-1070 | In place with memmove: the contents and every iterator are those of the insertion; refused, and unchanged, for a bad position or a value of another type than the list is restricted to; capacity stays exact |
| ValueLists.ValueList.Append | xmmsclient/xmmstypes/value.c:1073-1076 | Insertion after the last element; no iterator moves |
| ValueLists.ValueList.Remove | xmmsclient/xmmstypes/value.c:1079-1117 | The contents and every iterator are those of the removal; capacity stays exact |
| ValueLists.ValueList.MoveElement | xmmsclient/xmmstypes/value.c:1120-1168 | The contents and every iterator are those of the move |
| ValueLists.ValueList.Clear | xmmsclient/xmmstypes/value.c:1172-1195 | Empty, no capacity, every iterator at the front |
| ValueLists.ValueList.Get | xmmsclient/xmmstypes/value.c:1210-1229 | The element at an index or at a distance from the end |
| ValueLists.ValueList.Set | xmmsclient/xmmstypes/value.c:1241-1261 | Replaces one element and nothing else |
| ValueLists.ValueList.RestrictType | xmmsclient/xmmstypes/value.c:1405-1428 | Succeeds exactly on an unrestricted list whose elements all have the type; a failing scan leaves its iterator registered |
| ValueLists.ValueList.Adjust | xmmsclient/xmmstypes/value.c:1061-1067 | The loop over the registered iterators takes each where the edit takes it |
| ValueLists.ValueList.Rotate | xmmsclient/xmmstypes/value.c:1134-1153 | The two memmoves of a move |
| ValueLists.ValueList.OpenSlot | xmmsclient/xmmstypes/value.c:1052-1059 | The memmove and store of an insertion |
| ValueLists.ValueList.CloseSlot | xmmsclient/xmmstypes/value.c:1092-1098 | The memmove of a removal |
| ValueLists.ValueList.Resize | xmmsclient/xmmstypes/value.c:1008-1023 | realloc keeps the contents |
| ValueLists.ValueList.GetIter | xmmsclient/xmmstypes/value.c:1432-1449 | A new iterator at the front, registered first |
| ValueLists.ListIter.Insert | xmmsclient/xmmstypes/value.c:1628-1635 | Insertion where the iterator stands; before the front it inserts before the last element |
| ValueLists.ListIter.Remove | xmmsclient/xmmstypes/value.c:1644-1650 | Removal where the iterator stands |
| ValueLists.ListIter.Entry | xmmsclient/xmmstypes/value.c:1487-1511 | The element under the iterator, if it is on one |
| ValueLists.ListIter.Next | xmmsclient/xmmstypes/value.c:1545-1552 | Stops just past the last element |
| ValueLists.ListIter.Prev | xmmsclient/xmmstypes/value.c:1560-1567 | Stops just before the first |
| ValueLists.ListIter.Seek | xmmsclient/xmmstypes/value.c:1579-1589 | Goes to a slot or the end, or refuses and stays |
| ValueLists.ListIter.Last | xmmsclient/xmmstypes/value.c:1528-1537 | The last element, or the front of an empty list |
| DictObjects.DictIter.Find | xmmsclient/xmmstypes/value.c:2020-2082 | The bisection ends, finds a key if and only if the map has it, and leaves the iterator at the one slot that keeps the order |
| DictObjects.DictIter.Set | xmmsclient/xmmstypes/value.c:2093-2111 | Replaces the value of one pair through a list removal and insertion, and puts the iterator back |
| DictObjects.DictIter.Entry | xmmsclient/xmmstypes/value.c:1940-1966 | The pair under the iterator; the position is restored |
| DictObjects.DictIter.Next | xmmsclient/xmmstypes/value.c:2001-2008 | Skips a pair |
| DictObjects.DictObject.Set | xmmsclient/xmmstypes/value.c:1744-1784 | On the map: an update, for exactly the keys that are UTF-8; the flat list stays even and strictly sorted |
| DictObjects.DictObject.InsertNew | xmmsclient/xmmstypes/value.c:1758-1779 | A key and then its value inserted at the slot; a key that is no valid string is refused |
| DictObjects.DictObject.Remove | xmmsclient/xmmstypes/value.c:1795-1816 | On the map: removal of the key, successful exactly when it was there |
| DictObjects.DictObject.Get | xmmsclient/xmmstypes/value.c:1709-1732 | On the map: the value of the key if it is there |
| DictObjects.DictObject.HasKey | xmmsclient/xmmstypes/value.c:2486-2489 | On the map: membership |
| DictObjects.DictObject.Clear | xmmsclient/xmmstypes/value.c:1825-1834 | On the map: empty |
| DictObjects.DictObject.GetSize | xmmsclient/xmmstypes/value.c:1874-1880 | On the map: the number of keys |
| DictObjects.DictObject.Foreach | xmmsclient/xmmstypes/value.c:1845-1865 | The callback sees every pair once, in key order |
| DictObjects.DictObject.GetIter | xmmsclient/xmmstypes/value.c:1883-1900 | A new iterator at the front, whose list iterator is registered with the flat list |
| DictObjects.FlatInsert | xmmsclient/xmmstypes/value.c:1763-1768 | Two list insertions at a slot are one pair insertion |
| DictObjects.FlatRemove | xmmsclient/xmmstypes/value.c:1807-1809 | Two list removals at a slot are one pair removal |
| DictObjects.FlatReplace | xmmsclient/xmmstypes/value.c:2103-2106 | A list removal and insertion behind a key replace its value |
| Dicts.SetIsMapUpdate | xmmsclient/xmmstypes/value.c:1744-1784 | Setting in the sorted list is map update and keeps the keys strictly increasing |
| Dicts.RemoveIsMapRemoval | xmmsclient/xmmstypes/value.c:1795-1816 | Removing is map removal and keeps the keys strictly increasing |
| Dicts.LookupIsMap | xmmsclient/xmmstypes/value.c:1709-1732 | Looking up is map lookup |
| Dicts.SizeIsMapSize | xmmsclient/xmmstypes/value.c:1874-1880 | Half the length of the flat list is the size of the map |
| Dicts.SortedCanonical | xmmsclient/xmmstypes/value.c:1653-1658 | A map has only one sorted list |
| Dicts.SetAtSlot | xmmsclient/xmmstypes/value.c:1752-1769 | Setting acts at the slot that the search reports |
| Dicts.RemoveAtSlot | xmmsclient/xmmstypes/value.c:1803-1810 | So do removal and lookup |
| Dicts.CmpAntisymmetric | xmmsclient/xmmstypes/value.c:2060-2060 | strcmp is zero exactly for equal strings and changes sign when they are swapped |
| Dicts.LessTransitive | xmmsclient/xmmstypes/value.c:2060-2060 | strcmp orders strings transitively |
| Dicts.LessIsLexicographic | xmmsclient/xmmstypes/value.c:2060-2060 | One string comes before another if and only if, behind what both start with, it ends first or has the smaller unsigned byte |
| IdLists.IdList.Insert | xmmsclient/xmmstypes/coll.c:290-316 | Ids as a sequence: insertion up to and including the end, doubling when full; the terminator stays last and at most half of the slots are unused |
| IdLists.IdList.Append | xmmsclient/xmmstypes/coll.c:275-281 | Appends, and always succeeds |
| IdLists.IdList.Remove | xmmsclient/xmmstypes/coll.c:359-383 | Removal, halving when at most half full |
| IdLists.IdList.Move | xmmsclient/xmmstypes/coll.c:325-351 | The shifting loops move one id |
| IdLists.IdList.SetIdlist | xmmsclient/xmmstypes/coll.c:168-192 | Takes the ids up to the first zero, in an array of exactly that size |
| IdLists.IdList.Clear | xmmsclient/xmmstypes/coll.c:390-399 | No ids |
| IdLists.IdList.GetIndex | xmmsclient/xmmstypes/coll.c:409-420 | The id at an index before the terminator |
| IdLists.IdList.SetIndex | xmmsclient/xmmstypes/coll.c:430-441 | Replaces one id and nothing else |
| IdLists.IdList.Resize | xmmsclient/xmmstypes/coll.c:624-639 | realloc keeps the used slots |
| XLists.Append | xmmsclient/xmmstypes/xlist.c:64-82 | A new node after the last one, from wherever in the chain the caller points |
| XLists.Prepend | xmmsclient/xmmstypes/xlist.c:85-102 | A new node linked in front of the one pointed to, in both directions |
| XLists.Insert | xmmsclient/xmmstypes/xlist.c:105-135 | Insertion at a position; a negative one or one past the end appends |
| XLists.Remove | xmmsclient/xmmstypes/xlist.c:197-220 | The first node with the data is unlinked; the others keep their order |
| XLists.RemoveAll | xmmsclient/xmmstypes/xlist.c:223-247 | Every node with the data is unlinked in one walk |
| XLists.RemoveEveryExactly | xmmsclient/xmmstypes/xlist.c:223-247 | Exactly the equal data goes |
| XLists.DeleteLink | xmmsclient/xmmstypes/xlist.c:249-281 | One given node is unlinked, at the front, in the middle or at the end |
| XLists.Reverse | xmmsclient/xmmstypes/xlist.c:308-321 | Swapping the links of every node reverses the list in place |
| XLists.Concat | xmmsclient/xmmstypes/xlist.c:179-194 | The first list, then the second, for empty lists too |
| XLists.Copy | xmmsclient/xmmstypes/xlist.c:284-305 | New nodes with the same data |
| XLists.InsertSorted | xmmsclient/xmmstypes/xlist.c:457-498 | A new node in front of the first that does not come before it |
| XLists.InsertSortedKeeps | xmmsclient/xmmstypes/xlist.c:457-498 | That keeps the order, for any comparison that never ranks two elements above each other |
| XLists.Nth | xmmsclient/xmmstypes/xlist.c:324-330 | The node at an index, or none |
| XLists.Last | xmmsclient/xmmstypes/xlist.c:410-418 | The last node, from anywhere in the chain |
| XQueues.Queue.PushHead | xmmsclient/xmmsclient/xqueue.c:32-42 | On the sequence: in front; head, tail, length and all links stay consistent |
| XQueues.Queue.PushTail | xmmsclient/xmmsclient/xqueue.c:45-57 | On the sequence: at the back |
| XQueues.Queue.PopHead | xmmsclient/xmmsclient/xqueue.c:60-81 | On the sequence: the first element, or none exactly when empty |
| XQueues.Queue.PopTail | xmmsclient/xmmsclient/xqueue.c:84-105 | On the sequence: the last element, or none exactly when empty |
| XQueues.Queue.PeekHead | xmmsclient/xmmsclient/xqueue.c:108-113 | The first element |
| XQueues.Queue.PeekTail | xmmsclient/xmmsclient/xqueue.c:116-121 | The last element |
| XQueues.Queue.IsEmpty | xmmsclient/xmmsclient/xqueue.c:124-129 | Empty exactly when there is no element |
| Urls.UrlRoundTrip | xmmsclient/xmmsclient/medialib.c:564-626 | Decoding the encoding of any url gives back its bytes |
| Urls.EncodeVerified | xmmsclient/xmmsclient/medialib.c:481-501 | The encoding passes the url check and the UTF-8 check |
| Urls.UrlVerified | xmmsclient/xmmsclient/medialib.c:492-501 | With arguments it passes exactly when every key and every string value does |
| Urls.EncodeInjective | xmmsclient/xmmsclient/medialib.c:564-626 | Different urls have different encodings |
| Urls.EncodeByte | xmmsclient/xmmsclient/medialib.c:584-599 | Byte by byte: letters, digits and : / - . _ stay, a blank is a plus, everything else a percent sign and two small hex digits |
| Urls.OneMoreArg | xmmsclient/xmmsclient/medialib.c:600-622 | One more argument goes behind ? if it is the first and behind & otherwise, with = and its value if that is a string |
| Urls.DecodePlain | xmmsclient/xmmstypes/value.c:2159-2210 | A plus is a blank, and what is no percent sign stands for itself |
| Urls.DecodeHex | xmmsclient/xmmstypes/value.c:2159-2210 | A percent sign and two hex digits, small or capital, are one byte |
| Urls.DecodeRefused | xmmsclient/xmmstypes/value.c:2159-2210 | A percent sign is refused where the text ends too early, or one of the two characters cannot be read as strtoul does |
| Urls.DecodeSigned | xmmsclient/xmmstypes/value.c:2159-2210 | Behind a blank or a plus the second digit counts alone, behind a minus its complement |
| Urls.UrlCharIs | xmmsclient/xmmsclient/medialib.c:481-501 | The characters that an encoded url may have |
| Urls.FitsExactly | xmmsclient/xmmsclient/medialib.c:548-583 | The encoding and its terminator fit the allocation if and only if the arguments that are neither strings nor none need no more than the spare room of the url |
| Urls.NumberDoesNotFit | xmmsclient/xmmsclient/medialib.c:548-583 | A number as the only argument of an empty url does not fit |
| Urls.StringsFit | xmmsclient/xmmsclient/medialib.c:548-583 | With string and none arguments they always fit |
| Urls.EncodeInto | xmmsclient/xmmsclient/medialib.c:564-626 | The writing loops store inside the allocation and leave exactly the encoding, terminated |
| Urls.SumLengths | xmmsclient/xmmsclient/medialib.c:548-561 | The loop adds up the room for the arguments |
| Urls.DecodeUrl | xmmsclient/xmmstypes/value.c:2159-2210 | The decoding loop computes the decoding, and fails exactly when the two characters behind a percent sign are missing or are not used up by strtoul |
| Urls.DecodeShrinks | xmmsclient/xmmstypes/value.c:2159-2210 | The decoded bytes fit the buffer |
| Urls.VerifyUrl | xmmsclient/xmmsclient/medialib.c:492-501 | Accepts exactly the urls made of url characters |
| Formats.DictFormat | xmmsclient/xmmstypes/value.c:2296-2412 | The output is exactly the first len - 1 characters of the unlimited expansion, and the loop ends; a play length is needed only where minutes or seconds are asked for |
| Formats.AlwaysExpandable | xmmsclient/xmmstypes/value.c:2337-2374 | With a play length every format can be expanded |
| Formats.MinutesAndSeconds | xmmsclient/xmmstypes/value.c:2337-2374 | For every play length, negative ones too: the printed minutes and seconds, two characters at least each, add up to the length rounded to seconds, and the seconds are less than sixty |
| Formats.PlaceExpands | xmmsclient/xmmstypes/value.c:2306-2410 | Text without a place, then ${key}: the text is copied, the place shows what its key has, and the rest is expanded behind it |
| Formats.PlainExpands | xmmsclient/xmmstypes/value.c:2306-2410 | Text without a place is copied |
| Formats.OpenPlaceExpands | xmmsclient/xmmstypes/value.c:2306-2410 | A place that is not closed is the last one |
| Formats.FieldShows | xmmsclient/xmmstypes/value.c:2376-2401 | A place shows a string as it is, an integer as the unsigned number with the same 32 bits in plain decimals, and nothing for a value of another type or a key that is not there |
| Formats.StrNCat | xmmsclient/xmmstypes/value.c:2323-2323 | Appends what fits and terminates |

## Left out

- Memory: allocation always succeeds; array sizes stay below the range of int; freed nodes and objects are only dropped from the structure they were in.
- Reference counts of values, and aliasing: a list holds values, not shared mutable objects, so changing a value inside a list through another reference is not modelled.
- Collections in messages: attributes are string pairs rather than a dict of values.
- Wire.GetIds: where the room for the ids wraps around, C stores outside of it before the decoding fails; the model only fails. IdStoresFit says exactly when that is.
- Msg.Message.PutData: the offset that the other put functions return is not stated, as no caller uses it.
- Ipc.Connection.Disconnect: the error text and the disconnect callback.
- Ipc.Connection.IoIn: completed messages are handed over and executed after the read loop, not inside it, so callbacks do not re-enter the connection.
- Methods such as Ipc.Connection.SendHead, Ipc.Connection.ReadOne, Client.Connection.RunGuarded and DictObjects.DictObject.InsertNew are parts of one C function, cut out to keep each proof small.
- The out queue and the results list of the connection are sequences in Ipc and Client; XList and XQueue model the linked structures on their own.
- Tokens are a sequence, or an array in Prepare, where C links them; a token without text has the empty text; the caller-supplied tokenizer of the custom parser is not modelled.
- Numbers.StrToL: long is taken as 32 bits wide, as on the phones of the time, so a longer number is clamped.
- Sequences.Matches: what a filter means on the server is not in the library; comparisons are taken as integer comparison, and a value that is no number matches nothing.
- Sequences.WfPiece: an upper interval bound of 2^31 - 1 or a larger bound of either kind, where the conversion saturates or the addition wraps around, and pieces with other characters than digits and one dash.
- QueryText.TextRoundTrip: the choices are those of Style and Writable.  They leave out apostrophes as quotes, names and patterns in quotes, blanks around a filter operator, more blanks than one and needless parentheses. No choice writes an equality or a MATCH on a property with an empty name, HAS on a letter that is short for another name, a MATCH or a lone pattern whose text is neither wrapped nor has a wildcard, and comparison values that are neither digits nor what the context pass makes of digits; Speakable names what is left.
- Client: the data, free function and visualization class of a result, locking, waiting for a reply with select and the error that this stores in a result, disconnecting a result by hand, and callbacks that call back into the library.
- Client.Connection.SendMsg: cookies that come round after 2^32 requests.
- DictObjects.DictObject: the dict's own list of iterators, which only serves to free them; the branch that takes a key out again when its value cannot be inserted, which an unrestricted list never reaches; a second iterator across a replaced value, which is shifted by one slot.
- ValueLists.ValueList.Set: the type restriction is not checked, as in the library.
- Operands added to and removed from a collection by identity; the choice of sources when a property dict is flattened; index, find and foreach of the linked list.
- Urls.DecodeUrl: an argument that is not a string value, and the older encoder with an argument array.
- Formats.DictFormat: a buffer of no length, and a "duration" that is not an integer, for which C reads an uninitialised variable.
- Utf8.Valid: overlong forms and surrogates, which the library accepts.
- Sockets, address resolution, the command wrappers for playback, playlist, configuration and statistics, and the user interface.
