# WebFront: a verified model

WebFront lets a C++ program drive a browser page. The program serves files and a small HTTP
handshake, upgrades connections to WebSockets, and exchanges tagged messages with JavaScript. This
project models the parts of it that carry hard properties and proves them, or the exact condition on
which they hold, for every input, every split of a request or a frame into reads, and every
interleaving. Run `dafny verify dfyconfig.toml`.

Where the source changes things step by step the model does too: decoders, frames, the call encoder,
the request machine, connections, SHA-1, the base64 and percent encoders, the URI splitter, the file
reader, the link table and the tree walk are classes and loops, each proved against a function of the
old state, and the properties are proved about those functions. The worker pool and the life of a
connection are state machines over all their interleavings.

| module | what it models |
|---|---|
| Header, FrameDecoder, ChunkInvariance, WebSocketSession | frames as they are read (RFC 6455, sections 5.2 and 5.3): cut into chunks by the network, or several in one read |
| Frame | frames as they are written: the length in place, views of the bytes to send |
| Messages, Peer, FunctionCall, JsFunction | the tagged parameter code, a peer that reads it by the table of codes, its in-place encoder, a call from end to end |
| Request, RequestGrammar, RequestSoundness, SharedBuffer | the character machine for HTTP requests, its language, its shared static buffer |
| RequestHandler, Connection, Interference | what is answered, the asynchronous life of a connection, and what other requests do to it |
| Percent, UriParts, UriHistory, Base64, Sha1, Sha1Example, SecKey | encodings (RFC 3986, RFC 4648, FIPS 180-4, RFC 6455 section 4.2.2) |
| StaticFile, TreeWalk, TreeWalkEnds, LinkIds, ThreadPool | file streaming, document walk and when it returns, identifier allocation, worker pool |
| Bytes, Seqs, Text, Options | shared vocabulary |

## What the code does not do

Several properties the design asks for hold on part of the inputs only. The model keeps the code as it
is and each of these is proved as an exact condition, or with the inputs that fail.

- A masked frame with a 16-bit length is lost unless its first chunk has 14 bytes, because the decoder
  waits for 14 bytes although the header has 8; and a chunk in the middle of a payload must be shorter
  than what is missing after it, because the size is compared after the bytes were counted
  (`ChunkInvariance.DeliversIffGuard`). A chunk that is too long completes the frame early, and the handler
  is shown bytes behind those held (`WebSocketSession.CompletesEarlyIff`).
- Bytes that arrive behind the end of a frame in the same read are dropped: of frames that share a read
  only the first is delivered (`WebSocketSession.TrailingBytesAreLost`,
  `WebSocketSession.FirstOnesAreDelivered`, `WebSocketSession.AllAreReceivedIff`).
- A frame grown past 125 bytes after its construction announces a length the two header bytes sent do
  not hold, so a call of more than 125 bytes is not delivered; nor is one with a boolean. The size of a
  message adds to that of the one before, so every later call of an object announces bytes it does not
  have, and the peer reads them behind the message (`JsFunction.DeliveredIff`, `Frame.ReceivedIff`,
  `Messages.RoundTripIff`).
- A call message counts the elements of a tuple as parameters of their own, so that a peer that reads as many
  parameters as the message counts does not understand a call with a tuple that is not empty
  (`Peer.CallIsReadIff`, `Peer.CountsAloneIff`, `JsFunction.JsFunction.Invoke`).
- The scratch buffer of a call object is never emptied: the call whose parameters no longer fit what is
  left of its 1024 bytes is written past its end (`FunctionCall.FunctionCall.EncodeParameters`,
  `FunctionCall.InTurnIff`, `FunctionCall.ObjectsRunOut`, `FunctionCall.ManyNumbersDoNotFit`).
- A parameter that is cut off behind its tag is read past the end of the data, because the size of the data
  is compared after the size field has been read (`Messages.LeafOutOfBoundsIff`,
  `Messages.OutOfBoundsAtStub`, `Messages.CutShort`).
- A completed request whose method is not one of the nine names makes the connection look up a name behind
  the end of the table before the request is handled (`Connection.AnswersExactly`,
  `Connection.UnknownMethodFaults`, `Request.LookupInTableIff`).
- A message of 2^29 bytes or more gets a wrong SHA-1 length field (`Sha1.PadIff`).
- Base64 of a whole number of groups ends in a null character, and inputs of less than two bytes are read
  past their end (`Base64.Encode`).
- Percent-encoding a character outside ASCII indexes the table of digits outside its bounds
  (`Percent.EncodeUri`).
- Of a URI without a scheme, what stands before the first slash of its path is lost (`UriParts.ReferenceIff`).
- A URI with a fragment and no query is not split into its components, an authority whose host has a
  colon is cut at it, and an empty URI throws and spoils every later one that is not empty
  (`UriParts.ComponentsIff`, `UriParts.AuthorityIff`, `UriHistory.AsIfFirstIff`).
- Reads of a static file with buffers that end inside a word lose the rest of that word
  (`StaticFile.ReadsConcatenateIff`).
- The tree walk does not return when the element has both a child and a next sibling: it goes on to the end
  of the document and dereferences null at the root (`TreeWalkEnds.EndsIff`,
  `TreeWalkEnds.WalksOutOfTheDocument`).
- Requests read at the same time mix their methods: one interrupted inside its method goes on right, whatever
  follows, if and only if the static buffer holds what it has read, or neither text begins the name of a
  method. No other field is ever affected (`SharedBuffer.AsIfAloneIff`, `SharedBuffer.AllButTheMethod`,
  `SharedBuffer.MethodsMix`). A connection can so answer another method than the one it was sent, and hand
  its socket over without a GET (`Interference.OutcomeAsIfAloneIff`, `Interference.AnswersUpToTheMethod`,
  `Interference.UpgradeWithoutGet`).
- The upgrade takes place even when the 101 response could not be written (`Connection.HandedOverIff`,
  `Connection.UpgradeDespiteWriteError`, `Connection.UpgradeRequestFails`).
- The identifier loop does not end when all 65536 identifiers are live
  (`LinkIds.AllocationTerminatesIff`).

## Model

| member | source | states |
|---|---|---|
| Bytes.XorBit | include/http/WebSocket.hpp:164-167 | each bit of the exclusive or of two bytes is the sum of their bits modulo 2 |
| Header.PrefixDecides | include/http/WebSocket.hpp:46-69 | whatever bytes follow a header, its size, length, masking key and opcode are those of its own bytes |
| Header.LayoutIsRead | include/http/WebSocket.hpp:46-69 | a header laid out as RFC 6455 section 5.2 prescribes, masked or not and of any length, is read back field by field, whatever follows it |
| Header.LayoutIsShortest | include/http/WebSocket.hpp:99-103 | no header that announces the same size, masked or not, is shorter than the one laid out |
| FrameDecoder.Decoder.Parse | include/http/WebSocket.hpp:163-210 | one call of `parse`, on the decoder's own fields and buffers with an 8-bit mask index, has the effect and the result of the functional step, and leaves a decoder that can be fed again |
| FrameDecoder.Decoder.DecodePayload | include/http/WebSocket.hpp:164-167 | the byte that becomes byte i of the payload is the byte received combined with octet i mod 4 of the key, counted from the start of the payload, although the index wraps at 256 |
| FrameDecoder.Decoder.BufferizeHeaderData | include/http/WebSocket.hpp:175-181 | buffers exactly the bytes up to the first complete header, never more than 14 |
| FrameDecoder.Decoder.Reset | include/http/WebSocket.hpp:212-217 | the decoder is between frames again |
| FrameDecoder.TakeIsFirstCompletion | include/http/WebSocket.hpp:82-85 | the byte at which the buffered header first becomes complete does not depend on what follows it |
| ChunkInvariance.DeliversIffGuard | include/http/WebSocket.hpp:163-210 | for every masked frame and every split into chunks: `parse` returns true first at the last chunk, with the payload whose octet i is octet i behind the header combined with octet i mod 4 of the last four bytes of the header, if and only if the first chunk of a 16-bit-length frame has 14 bytes and each later chunk but the last is shorter than what is missing after it |
| ChunkInvariance.ClientFrameDelivered | include/http/WebSocket.hpp:163-210 | for every payload, key and split of the frame a client makes of them, octet i of the payload masked with octet i mod 4 of the key: the decoder ends, at the last chunk, with exactly the payload and the opcode, if and only if the split satisfies the same guard |
| ChunkInvariance.ReadLate | include/http/WebSocket.hpp:196-203 | once payload bytes went into the header buffer no continuation delivers the frame |
| ChunkInvariance.WholeFrame | include/http/WebSocket.hpp:185-190 | a masked frame read in one piece is delivered if and only if it is not a 16-bit-length frame of less than 14 bytes |
| ChunkInvariance.MaskingRoundTrip | include/http/WebSocket.hpp:164-167 | masking twice with the same key, from any offset, gives the data back |
| WebSocketSession.WebSocket.ReadCompleted | include/http/WebSocket.hpp:272-300 | one completed read: at most one handler is called, for the frame that is now complete, with the bytes held and the number of bytes the span shows behind them, and the decoder is ready for the next |
| WebSocketSession.TrailingBytesAreLost | include/http/WebSocket.hpp:183-210 | a chunk that completes a frame with its whole payload has the same effect and result with any bytes behind it |
| WebSocketSession.CompletesEarlyIff | include/http/WebSocket.hpp:204-206 | a call completes a frame before its payload is there if and only if, in the payload, the chunk is shorter than what is missing before it but not than what is missing after it |
| WebSocketSession.SpanIsWhole | include/http/WebSocket.hpp:272-300 | whatever the read: at most one handler is called, and the bytes held together with those the span shows behind them are as many as the frame announced |
| WebSocketSession.ByOpcode | include/http/WebSocket.hpp:272-300 | on the bytes of the wire: the text handler is called for 1 in the low four bits of the first byte, the binary handler for 2, the close handler for 8, which alone stops the session, and none for any other; with octet i of the payload combined with octet i mod 4 of the key |
| WebSocketSession.EveryFrameIsDelivered | include/http/WebSocket.hpp:272-300 | any number of frames, each begun by a read of its own and cut within the guard, with any bytes behind its last chunk: the handlers are called with exactly the messages of these frames, unmasked and in order, up to the first close frame, which alone stops the session |
| WebSocketSession.FirstOnesAreDelivered | include/http/WebSocket.hpp:272-300 | for reads that each hold one or more whole client frames the handlers get exactly the first frame of each, up to the first of them that closes |
| WebSocketSession.AllAreReceivedIff | include/http/WebSocket.hpp:272-300 | for such reads, and nothing behind a close frame: the messages received are those sent if and only if every frame that shares a read with an earlier one is of a type no handler is called for |
| Frame.Frame.SetFin | include/http/WebSocket.hpp:87-92 | the final bit is set as asked, no other bit of the header changes |
| Frame.Frame.SetOpcode | include/http/WebSocket.hpp:94-97 | the opcode reads back, the flags and the other bytes are kept |
| Frame.Frame.SetPayloadSize | include/http/WebSocket.hpp:99-103 | for every size under 2^64 the header holds that size in its shortest form, most significant byte first, whatever the extra byte of the last iteration is, and keeps its first byte and its mask bit |
| Frame.Frame.FromText | include/http/WebSocket.hpp:116-122 | the header bytes are those RFC 6455 prescribes for an unmasked final text frame of the size of its payload, 0x81 first |
| Frame.Frame.FromBinary | include/http/WebSocket.hpp:124-131 | the same for a final binary frame of one or two payload views, 0x82 first |
| Frame.Frame.AddBuffer | include/http/WebSocket.hpp:143-148 | after any sequence of additions the length in the header is the total of the payload views, in shortest form, and the views are those added, in order |
| Frame.ReceivedIff | include/http/WebSocket.hpp:82-148 | an unmasked frame is read back in one piece, payload and opcode, if and only if its header still has the size chosen at construction and the payload has four bytes |
| Frame.FrameReceivedIff | include/http/WebSocket.hpp:114-148 | the same for a frame object: what the socket gathers is the first header bytes and the payload views |
| Messages.RoundTripIff | include/weblink/Messages.hpp:204-339 | for every value tree, every old value of the parameter and every tail: decoding the encoding gives the value and exactly the tail if and only if all lengths fit and no boolean occurs |
| Messages.RoundTripAllIff | include/weblink/Messages.hpp:204-339 | the same for parameter lists |
| Messages.DecodeKeepsTypes | include/weblink/Messages.hpp:286-339 | on every byte string, encoding or not: if decoding returns, the parameter has the type it was declared with, nested tuples included |
| Messages.DecodeLeavesAnEnd | include/weblink/Messages.hpp:286-339 | on every byte string, for every type and old value: if decoding returns, the data left is an end of the data given |
| Messages.UnsuitedTag | include/weblink/Messages.hpp:286-339 | a tag that does not suit the type: strings and numbers leave the parameter as it was, a tuple is refused, any other tag makes it the default, and nothing is consumed |
| Messages.RefusedData | include/weblink/Messages.hpp:286-339 | a suitable tag with too little data behind its size, and a tuple of another size, are refused |
| Messages.BoolFromNumber | include/weblink/Messages.hpp:313-322 | a boolean parameter read from a number is false for the two zeros alone |
| Messages.LeafOutOfBoundsIff | include/weblink/Messages.hpp:293-312 | a parameter that is no tuple is read past the end of its data if and only if it is a string and the data is a small-string tag alone, or a string or exception tag with at most one byte behind it |
| Messages.OutOfBoundsAtStub | include/weblink/Messages.hpp:286-339 | a parameter of any type, nested tuples included, is read past the end only where an end of the data of at most two bytes is a tag without its size |
| Messages.CutShort | include/weblink/Messages.hpp:293-312 | parameters that arrive whole, then the tag of a string without its size: reading the string that is expected there goes past the end |
| Messages.TupleCutShort | include/weblink/Messages.hpp:323-332 | the same inside a tuple |
| Messages.DecodeExtends | include/weblink/Messages.hpp:286-339 | decoding is local: bytes appended to the data stand at the end of what is left and change nothing else, for every type, old value and data |
| Messages.PartIsNotTheWhole | include/weblink/Messages.hpp:286-339 | no proper beginning of the encoding of a list is decoded to its end |
| Messages.SelfDelimiting | include/weblink/Messages.hpp:204-284 | two encodings with any tails that agree as bytes come from the same value and the same tail |
| Messages.SelfDelimitingAll | include/weblink/Messages.hpp:204-284 | the same for lists of equal length |
| Messages.EncodingIsInjective | include/weblink/Messages.hpp:204-284 | two parameter lists with the same encoding are the same list |
| Messages.ScratchFits | include/weblink/Messages.hpp:213-251 | a value never needs more scratch bytes than its encoding has |
| Peer.ReadsIff | include/weblink/Messages.hpp:29-49 | a peer that keeps to the table of coded types, in the numbers of that table, understands every value tree exactly as it was, booleans and exceptions included, with exactly the tail left, if and only if all lengths fit the fields that carry them |
| Peer.ReadsAllIff | include/weblink/Messages.hpp:29-49 | the same for parameter lists |
| Peer.CallIsReadIff | include/weblink/Messages.hpp:161-166 | a peer that reads as many parameters as a call message counts understands exactly the parameters encoded, with nothing left, if and only if their lengths fit, the message announces no more than their size, and its count, modulo 256, is that of the parameters alone |
| Peer.CountsAloneIff | include/weblink/Messages.hpp:207-236 | the encoder counts as many parameters as there are if and only if every tuple among them is empty |
| FunctionCall.ViewsAreDisjoint | include/weblink/Messages.hpp:213-251 | the scratch regions registered for a value are in order, without overlap, and inside the bytes it claims |
| FunctionCall.ViewsShowEncoding | include/weblink/Messages.hpp:213-284 | views registered before their bytes were written show, read through the scratch buffer afterwards, exactly the encoding |
| FunctionCall.ViewsSize | include/weblink/Messages.hpp:213-284 | the registered views have the size of the encoding |
| FunctionCall.AfterThenAll | include/weblink/Messages.hpp:203-284 | encoding one parameter and then the others is encoding the list, with the 8-bit count and the 32-bit size wrapping |
| FunctionCall.FunctionCall.SetPayloadSize | include/weblink/Messages.hpp:190-190 | the size field is written without touching the count |
| FunctionCall.FunctionCall.IncrementPayloadSize | include/weblink/Messages.hpp:193-195 | the data size read back from the message header grows by the value modulo 2^32 |
| FunctionCall.FunctionCall.EncodePrefix | include/weblink/Messages.hpp:213-219 | reports exactly when the bytes pass the end of the scratch buffer; otherwise the bytes claimed in it are registered before they are written, earlier scratch bytes and views are kept, and the sizes in frame and message grow by them |
| FunctionCall.FunctionCall.EncodeInPlace | include/weblink/Messages.hpp:226-227 | the caller's text becomes a view of the frame and is counted, nothing else changes |
| FunctionCall.FunctionCall.EncodeParameter | include/weblink/Messages.hpp:203-284 | for any nested value and any fill of the scratch buffer: the writes stay inside the buffer if and only if the scratch bytes of the whole value fit what is left, and then views, scratch bytes, parameter count (tuples included) and data size are those of its encoding, and what was encoded before is untouched |
| FunctionCall.FunctionCall.EncodeParameters | include/JsFunction.hpp:23-30 | the same for any list |
| FunctionCall.InTurnIff | include/weblink/Messages.hpp:169-170 | the calls of one object all stay inside the scratch buffer if and only if their scratch bytes fit it together |
| FunctionCall.ObjectsRunOut | include/weblink/Messages.hpp:169-170 | no object takes more than 512 calls |
| FunctionCall.ManyNumbersDoNotFit | include/weblink/Messages.hpp:243-250 | a call with 114 numbers does not fit a buffer nothing was written to |
| JsFunction.JsFunction.Open | include/JsFunction.hpp:24-25 | a call begins with no parameter counted and a two-byte frame header in front of the message header |
| JsFunction.JsFunction.EncodeCall | include/JsFunction.hpp:26-27 | name, then arguments, are appended to the open frame, unless they do not fit the scratch buffer together |
| JsFunction.JsFunction.Invoke | include/JsFunction.hpp:23-30 | for any object and any arguments: the call stays inside the scratch buffer if and only if its scratch bytes fit what is left; then what is sent is two header bytes, the message header with the size left by earlier calls added, and the encoding of name and arguments; and whatever lies behind the message, the peer decodes exactly name and arguments with nothing left if and only if no earlier call left a size, the message has at most 125 bytes, and no boolean occurs; and a peer that keeps to the table of coded types understands name and arguments, booleans and exceptions included, if and only if no earlier call left a size, all lengths fit and the message counts the parameters alone |
| JsFunction.DeliveredIff | include/JsFunction.hpp:23-30 | the same for the frame a call hands over, for every left-over size; and a left-over size that does not wrap around makes the peer find as many stray bytes behind the arguments |
| JsFunction.DispatchIff | include/weblink/Messages.hpp:196-201 | a call message gives back its name and its arguments with nothing left if and only if it announces its own size and none holds a boolean; if it announces more, they come back with bytes from behind the message |
| JsFunction.LongMessageIsLost | include/http/WebSocket.hpp:99-148 | a message that outgrew the header bytes sent is never dispatched as a call |
| Request.Reader.constructor | include/http/HTTPServer.hpp:78-117 | a request starts empty, with method and version uninitialised |
| Request.Reader.CompleteRequest | include/http/HTTPServer.hpp:118-183 | one character: the object and the shared static variable change as the step function says, with the state changed before an exception where the code does so |
| Request.Reader.ParseSomeData | include/http/HTTPServer.hpp:104-110 | one chunk, up to the end of the request or the exception |
| Request.GetMethodFromString | include/http/HTTPServer.hpp:90-94 | the search of the table of names gives the method of the text, or undefined |
| Request.VerbIffName | include/http/HTTPServer.hpp:90-96 | a method is recognised if and only if the text is its own name |
| Request.MethodsByName | include/http/HTTPServer.hpp:184-184 | the nine methods are recognised by the names of RFC 7231 and RFC 5789, in the order of the table |
| Request.LookupInTableIff | include/http/HTTPServer.hpp:90-96 | the name looked up for the method of a text is in the table if and only if the text is one of the nine names, and then it is the text |
| Request.Reader.GetMethodName | include/http/HTTPServer.hpp:96-96 | gives the name of the method, or reports an index outside the table |
| Request.TokenCharsAre | include/http/HTTPServer.hpp:119-126 | the characters of methods and header names are exactly the letters, the digits and the fifteen marks RFC 7230 allows |
| Request.FeedInChunks | include/http/HTTPServer.hpp:104-183 | reading resumes at any byte: the split into chunks does not matter |
| Request.FeedKeepsClean | include/http/HTTPServer.hpp:118-183 | in every reachable state, refused ones included, header names are non-empty tokens and no control character is in the URI or a header value |
| RequestGrammar.UnparseIsRead | include/http/HTTPServer.hpp:118-183 | every text of the grammar (request line, headers, folded lines) is read to its last character and not before, and the fields are what it says: method, URI, version numbers, ordered headers with unfolded values |
| RequestGrammar.FeedFolds | include/http/HTTPServer.hpp:162-177 | continuation lines are appended to the value of the last header without their white space |
| RequestGrammar.ExampleIsRead | include/http/HTTPServer.hpp:118-183 | a request written out character by character, with a folded header, is read to its fields |
| RequestSoundness.FeedFollows | include/http/HTTPServer.hpp:118-183 | whatever has been read without an exception is the beginning of a text of the grammar, and the fields are those of that beginning |
| RequestSoundness.CanComplete | include/http/HTTPServer.hpp:118-183 | no reachable state is a dead end: some continuation completes the request |
| RequestSoundness.AcceptsExactlyTheGrammar | include/http/HTTPServer.hpp:104-183 | on every input: completed if and only if it begins with a text of the grammar, and then with that text's fields; waiting if and only if it is a proper beginning of one; otherwise refused |
| SharedBuffer.FeedAndBuffer | include/http/HTTPServer.hpp:132-142 | outside its method a request neither depends on the static variable nor, past it, writes it |
| SharedBuffer.AllButTheMethod | include/http/HTTPServer.hpp:104-183 | for any number of requests and every interleaving of chunks: each request ends with the status and with all the fields, but for its method, that it would have alone |
| SharedBuffer.SameMethodIff | include/http/HTTPServer.hpp:90-94 | two beginnings of a method end in the same method, whatever follows, if and only if they are the same or neither begins a name |
| SharedBuffer.AsIfAloneIff | include/http/HTTPServer.hpp:104-183 | after every interleaving, a request goes on as if it had been alone, whatever it is fed, if and only if its method is right or, when it is suspended inside its method, the static variable holds what it has read or neither text begins a name |
| SharedBuffer.EachAsIfAlone | include/http/HTTPServer.hpp:104-142 | for any interleaving of chunks in which no request writes the static variable while another is suspended in its method: each ends as if fed its own input alone |
| SharedBuffer.MethodsMix | include/http/HTTPServer.hpp:132-142 | outside that condition a request goes on with the method another one has begun |
| RequestHandler.GetHeaderValue | include/http/HTTPServer.hpp:39-43 | the value of the first header of the name, in any case of letters, or none |
| RequestHandler.SameLettersIff | include/http/HTTPServer.hpp:67-71 | names are compared letter by letter, a letter of either case standing for the other |
| RequestHandler.ContainsIff | include/http/HTTPServer.hpp:54-62 | a header value contains a word if and only if a part of it spells the word, in any case |
| RequestHandler.WordsOfTheProtocol | include/http/HTTPServer.hpp:266-289 | the header names and words looked for, as text |
| RequestHandler.RefusedIff | include/http/HTTPServer.hpp:255-259 | a URI is refused if and only if, as it was received, it does not begin with a slash or has two full stops in a row, each of them plain or percent-encoded |
| RequestHandler.StatusIff | include/http/HTTPServer.hpp:255-307 | every request is answered with the one status it deserves: 400 if and only if its URI is refused; otherwise 101 if and only if it asks for the protocol with a key; otherwise 501 for any method but GET and HEAD, 404 if and only if the provider does not open the decoded URI, 506 if and only if GET finds a file whose encoding no Accept-Encoding value names, and 200 for the rest |
| Connection.Link.ReadCompleted | include/http/HTTPServer.hpp:375-405 | the completion of a read on the object: parse, look up the name of the method, answer, upgrade or read on, as the transition says, with a fault for a name outside the table |
| Connection.Link.WriteCompleted | include/http/HTTPServer.hpp:407-419 | the completion of a write on the object: hand over or close |
| Connection.Connections.Start | include/http/HTTPServer.hpp:323-327 | the connection is registered and reads |
| Connection.Connections.Stop | include/http/HTTPServer.hpp:329-333 | the connection is removed and its socket closed |
| Connection.Connections.StopAll | include/http/HTTPServer.hpp:335-338 | every registered connection is stopped exactly once, no other one is touched, and none stays registered |
| Connection.Lifecycle | include/http/HTTPServer.hpp:305-419 | on every run: at most one operation outstanding; only reads, then at most one response and no read behind it, then at most one upgrade and only behind a 101; the branch for a read outside HTTP is never taken; a run that faults has only read |
| Connection.ProtocolAdvances | include/http/HTTPServer.hpp:342-419 | in every state of a run the protocol moves by at most one step and never back |
| Connection.NoneForgotten | include/http/HTTPServer.hpp:375-419 | on every run a started connection with nothing outstanding was stopped, its socket was handed over, it faulted, one of its operations was aborted, or it went through a 101 without an upgrade handler |
| Connection.AnswersExactly | include/http/HTTPServer.hpp:375-405 | for every split, and every interleaving in which no other request writes the static buffer while this one is suspended in its method: no response while the input can still become a request; the handler's answer to exactly the request the input begins with, if its method is one of the nine names; 400 to every input that begins with no request and cannot become one; a name is looked up outside the table if and only if the input begins with a request of any other method |
| Connection.StatusesExactly | include/http/HTTPServer.hpp:375-405 | with the program's own handler, on every run undisturbed in its method: a request of the grammar with a named method is answered with the one status it deserves, and every input that cannot become a request with 400 |
| Interference.AnswersUpToTheMethod | include/http/HTTPServer.hpp:375-405 | for every split and every interleaving, whatever other requests write: no response and no fault while the input can still become a request; 400 to every input that begins with no request and cannot become one; a request is answered by the handler for exactly its own fields but for the method, or looks up a name outside the table exactly when the method was read as none |
| Interference.EveryAnswerIsDeserved | include/http/HTTPServer.hpp:375-405 | with the program's own handler, on every run: whatever is answered is deserved by the request the input begins with, read with some method, or is 400 to an input that begins with none and cannot become one |
| Interference.OutcomeAsIfAloneIff | include/http/HTTPServer.hpp:375-405 | a read that any run has left outstanding has the outcome it would have alone, for every chunk and every handler, if and only if the method is right or, inside the method, the static buffer holds what was read of it or neither text begins a name |
| Connection.UnknownMethodFaults | include/http/HTTPServer.hpp:383-384 | the request FOO / HTTP/1.0 in the first read makes the lookup leave the table |
| Connection.HandedOverIff | include/http/HTTPServer.hpp:407-419 | on every run the socket is handed over if and only if a write has completed, with whatever error code, behind a 101 on a connection with an upgrade handler |
| Connection.AfterTheResponse | include/http/HTTPServer.hpp:407-419 | on every run, when a write ends: behind a 101 the socket is handed over and nothing else happens; behind any other response it is shut down, if the write succeeded, and then stopped, unless it was aborted |
| Connection.ShutDownIff | include/http/HTTPServer.hpp:415-415 | on every run the socket is shut down if and only if a write has succeeded behind a response other than 101 |
| Connection.StoppedIff | include/http/HTTPServer.hpp:401-416 | on every run the connection is stopped if and only if the server stops all, a read has failed, or a write behind a response other than 101 has ended, aborts excepted |
| Connection.UpgradeDespiteWriteError | include/http/HTTPServer.hpp:407-413 | for every request that is answered with 101: reading it and failing to write the answer hands the socket over |
| Connection.UpgradeRequestFails | include/http/HTTPServer.hpp:268-278 | a concrete request for the WebSocket protocol takes that run, whatever the files are |
| Connection.UpgradeIsAskedFor | include/http/HTTPServer.hpp:268-278 | undisturbed inside its method, a connection hands its socket over only if the input begins with a GET request of the grammar that asks for the WebSocket protocol with a key and an acceptable URI |
| Interference.UpgradeIsAskedForButTheMethod | include/http/HTTPServer.hpp:268-278 | on every run a socket is handed over only behind a 101 and if the input begins with a request of the grammar that, but for its method, asks for the WebSocket protocol |
| Interference.UpgradeWithoutGet | include/http/HTTPServer.hpp:132-142 | a run in which another request writes the static buffer hands the socket over although the input begins with no GET request |
| Percent.DecodeEncode | include/http/Encodings.hpp:22-60 | for every ASCII string and every continuation, decoding after encoding gives the string and goes on with the continuation |
| Percent.EncodeIsCanonical | include/http/Encodings.hpp:22-36 | only unreserved characters and upper-case triplets are emitted, at most three characters for one |
| Percent.DecodeSize | include/http/Encodings.hpp:38-60 | decoding never lengthens a text and keeps its length if and only if it has no triplet |
| Percent.TripletDecodes | include/http/Encodings.hpp:43-50 | a triplet decodes to the character of its code with digits in either case, whatever follows |
| Percent.OtherCharDecodes | include/http/Encodings.hpp:51-56 | a plus sign decodes to a space and every other character but the percent sign to itself |
| Percent.UnreservedAre | include/http/Encodings.hpp:26-27 | the characters kept by the encoding are the unreserved ones of RFC 3986 |
| Percent.DecodeIsIdentityIff | include/http/Encodings.hpp:38-60 | a text decodes to itself if and only if it has neither a triplet nor a plus sign |
| Percent.EncodeUri | include/http/Encodings.hpp:22-36 | the loop computes the encoding of every ASCII string, and indexes the digits outside their table if and only if the string is not ASCII |
| Percent.DecodeUri | include/http/Encodings.hpp:38-60 | the loop with its skipped indices computes the decoding, for every text |
| UriParts.Splitter.Next | include/http/Encodings.hpp:77-103 | one call of `next` on the static variables, with size_t arithmetic and std::out_of_range |
| UriParts.Splitter.Split | include/http/Encodings.hpp:69-74 | the eight member initialisers, in order, up to an exception |
| UriParts.ComponentsIff | include/http/Encodings.hpp:69-104 | a URI written out of its components completes, and its first five fields are those components if and only if it has a query or no fragment |
| UriParts.AuthorityIff | include/http/Encodings.hpp:96-100 | an authority is split into its userinfo, host and port if and only if the host holds no colon |
| UriParts.AuthoritySteps | include/http/Encodings.hpp:96-100 | the last three fields are cut from the authority field and no authority makes the program throw |
| UriParts.ReferenceIff | include/http/Encodings.hpp:79-103 | a URI without scheme and authority completes with nothing for them and for the authority's parts; path from its first slash on, query and fragment are as written if and only if it has a query or no fragment |
| UriParts.ExampleIsSplit | include/http/Encodings.hpp:60-74 | a URI with all eight components, written out character by character, is split into them |
| UriHistory.AsIfFirstIff | include/http/Encodings.hpp:79-103 | for every list of URIs constructed one after the other: each gives the fields, or throws, as it would first in the process if and only if no empty URI stands before one that is not empty |
| UriHistory.ShiftedIsVisible | include/http/Encodings.hpp:79-103 | after an empty URI every URI that is not empty gives other fields than it would first, or throws |
| UriHistory.StaticsAfter | include/http/Encodings.hpp:79-81 | after any list of URIs with the empty ones last the static variables stand at their resting step, or where the last empty one left them |
| UriParts.IndependentOfHistory | include/http/Encodings.hpp:79-81 | after any history of non-empty URIs the construction of a non-empty one completes and gives what it would give first in the process |
| UriParts.EmptyUriBreaksTheNext | include/http/Encodings.hpp:79-92 | an empty URI throws, and the next URI loses its scheme |
| Base64.Encode | include/http/Encodings.hpp:111-140 | for every input: the encoding of RFC 4648, followed by a null character if and only if the input is a whole number of groups, with no write outside the allocation; a read behind the input if and only if it has fewer than two bytes |
| Base64.EncodeGroups | include/http/Encodings.hpp:118-124 | the whole groups are written, in order, and nothing behind them |
| Base64.EncodeRest | include/http/Encodings.hpp:125-136 | the incomplete group is written with its padding |
| Base64.RfcSize | include/http/Encodings.hpp:116-116 | the encoding has four characters for every three bytes begun |
| Base64.BufferSize | include/http/Encodings.hpp:116-116 | the allocation exceeds the encoding by two characters, by none or by one, as the input ends |
| Base64.DecodeRfc4648 | include/http/Encodings.hpp:111-140 | the encoding can be read back, whatever its padding |
| Base64.VectorsOfTheStandard | include/http/Encodings.hpp:111-137 | test vectors of RFC 4648 section 10 |
| Base64.MoreVectors | include/http/Encodings.hpp:111-137 | another one, and the last two symbols of the alphabet |
| Base64.SextetsByShifts | include/http/Encodings.hpp:120-123 | the masks and shifts cut the 24-bit group into its four sextets |
| Sha1.Sha1 | include/http/Encodings.hpp:165-219 | for every message under 2^29 bytes the digest of FIPS 180-4; for every message under 2^61 bytes the fold of the compression function over whole blocks |
| Sha1.PadIff | include/http/Encodings.hpp:211-216 | the padding fed is that of FIPS 180-4 section 5.1.1 if and only if the message is shorter than 2^29 bytes |
| Sha1.PadZerosIsLeast | include/http/Encodings.hpp:213-215 | the zeros are the least number that leaves room for the length in the last block |
| Sha1.FeedPadding | include/http/Encodings.hpp:212-215 | the two loops feed exactly those zeros |
| Sha1.FeedLength | include/http/Encodings.hpp:211-216 | the eight bytes fed are the low 32 bits of the bit count, in big-endian order |
| Sha1.Stream.Next | include/http/Encodings.hpp:169-208 | after every byte the digest covers the whole blocks consumed and the block buffer holds the rest |
| Sha1.Stream.Expand | include/http/Encodings.hpp:174-176 | the eighty words are the message schedule |
| Sha1.EightyRounds | include/http/Encodings.hpp:177-201 | the rounds with the program's forms of the functions are those of section 6.1.2 |
| Sha1.FForms | include/http/Encodings.hpp:179-194 | choice and majority written with inclusive or are those written with exclusive or |
| Sha1.ConstantsAreRoots | include/http/Encodings.hpp:177-199 | the four constants are the square roots of 2, 3, 5 and 10 times 2^30, rounded down |
| Sha1.FunctionsAre | include/http/Encodings.hpp:179-198 | choice, majority and parity on the words that tell them apart |
| Sha1Example.RollingIsRounds | include/http/Encodings.hpp:174-201 | sixteen words of the schedule, replaced one by one, give the rounds of the eighty-word form (FIPS 180-4 section 6.1.3) |
| Sha1Example.DigestOfAbc | include/http/Encodings.hpp:165-219 | the digest of "abc" is that of FIPS 180-2 appendix A.1 |
| SecKey.SwappedIsNetworkOrder | include/http/Encodings.hpp:154-159 | a byte-swapped word in little-endian memory lies in network order |
| SecKey.WordsAreInNetworkOrder | include/http/Encodings.hpp:174-174 | the words of a block are its bytes, most significant first |
| SecKey.InitialOctets | include/http/Encodings.hpp:166-166 | the initial digest, as it lies in memory, counts up and down in steps of 0x22 |
| SecKey.OctetsOfAbc | include/http/Encodings.hpp:154-159 | the octets of a digest are in the order in which FIPS 180-2 writes it |
| SecKey.GuidOfTheStandard | include/http/WebSocket.hpp:316-316 | the GUID, character by character |
| SecKey.EncodeInNetworkOrder | include/http/Encodings.hpp:154-159 | the base64 text of the digest's octets in network order |
| SecKey.GetHashedSecKey | include/http/WebSocket.hpp:315-318 | always 28 characters, the base64 text of the SHA-1 digest of key and GUID, which decodes to it |
| StaticFile.File.Read | include/system/FileSystem.hpp:70-83 | fills the buffer up to its size or the end of the file; a byte whose word began before this read comes out as zero |
| StaticFile.File.ReadAll | include/http/HTTPServer.hpp:290-291 | the 512-byte loop ends with the whole content of the file |
| StaticFile.ContentOctet | include/system/FileSystem.hpp:85-94 | byte p of the content is byte p mod 8, from the most significant one, of word p / 8 |
| StaticFile.AlignedRead | include/system/FileSystem.hpp:70-94 | a read that begins at a word delivers the bytes of the words, most significant first |
| StaticFile.ReadsConcatenateIff | include/system/FileSystem.hpp:70-83 | reads with given buffer sizes concatenate to the content, for every file of a size, if and only if each that delivers something begins at a word |
| TreeWalk.GetElementsByTagName | webfront/DOM/xmldoc_element.cpp:119-147 | on well-formed links, when the element has no child or no next sibling, the walk ends and returns the matching descendants in document order, `*` matching all |
| TreeWalk.MatchingIff | webfront/DOM/xmldoc_element.cpp:124-132 | of every stretch of nodes exactly those of type 1 with the name are returned, in order, and for `*` all of type 1 |
| TreeWalk.NextAfterSubtree | webfront/DOM/xmldoc_element.cpp:137-144 | the climb over parents reaches the next node in document order, or the end |
| TreeWalk.WalkVisitsDescendants | webfront/DOM/xmldoc_element.cpp:119-147 | on any well-formed element with a child the cursor visits the descendants in document order and then the element's own next sibling; an element without a child has no descendants |
| TreeWalkEnds.ClimbIsUnique | webfront/DOM/xmldoc_element.cpp:139-143 | the climb over parents stops at one place |
| TreeWalkEnds.MoveIsUnique | webfront/DOM/xmldoc_element.cpp:133-144 | an iteration leads to one next node |
| TreeWalkEnds.WalksOutOfTheDocument | webfront/DOM/xmldoc_element.cpp:119-147 | in every document, for an element with a child and a next sibling, the walk visits the descendants, goes on to the end of the document and dereferences null at the root |
| TreeWalkEnds.EndsIff | webfront/DOM/xmldoc_element.cpp:119-147 | in every document the walk from the first child comes to its end if and only if the element has no child or no next sibling |
| LinkIds.AllocationTerminatesIff | include/WebFront.hpp:98-104 | the wrapping loop ends if and only if fewer than 65536 links are live |
| LinkIds.WebFront.OnUpgrade | include/WebFront.hpp:98-104 | the first free identifier from the counter on is taken and the counter is left behind it, with a termination measure |
| LinkIds.WebFront.OnClosed | include/WebFront.hpp:197-199 | the link of that identifier is erased; every other link and the counter stay as they were |
| LinkIds.KeysAreIds | include/WebFront.hpp:98-104 | on every run each link's own identifier is its key |
| LinkIds.LinksAreStable | include/WebFront.hpp:98-104 | on every run a link stays as it is until its own identifier is closed |
| LinkIds.UpgradeAddsOne | include/WebFront.hpp:98-104 | an upgrade adds one link under the free identifier reached first when counting up from the counter, alters none, and leaves the counter behind it |
| LinkIds.ClosingRemovesOne | include/WebFront.hpp:197-199 | after a closing the live identifiers are the earlier ones without the one closed, and there is room for another link |
| LinkIds.LiveIff | include/WebFront.hpp:98-199 | on every run an identifier is live if and only if an upgrade gave it out and it has not been closed since, and its link is that upgrade's |
| ThreadPool.ReachableInv | webfront/DOM/thread_pool.cpp:50-71 | in every interleaving of any number of workers, producers and the destructor no empty queue is read and no empty function is called |
| ThreadPool.EachTaskInOnePlace | webfront/DOM/thread_pool.cpp:35-71 | every task enqueued is in exactly one of queue, hands of a worker, run once, dropped; it is dropped only after the stop |
| ThreadPool.TakenInOrder | webfront/DOM/thread_pool.cpp:61-70 | tasks leave in the order they were enqueued and a worker runs what its own last pop took, which has not run before |
| ThreadPool.DropsAreBounded | webfront/DOM/thread_pool.cpp:67-70 | a worker drops at most one task, a pool of n workers at most n |
| ThreadPool.AfterShutdown | webfront/DOM/thread_pool.cpp:20-32 | once all workers have left, every task taken was run or dropped, and the pool was stopped |
| ThreadPool.DoneOnlyAfterStop | webfront/DOM/thread_pool.cpp:51-51 | on every run a worker leaves its loop only after the stop, and the pool runs until then |
| ThreadPool.OneIteration | webfront/DOM/thread_pool.cpp:51-70 | in a running pool with the mutex free and a task queued, the next eight steps of a worker at the top of its loop are possible, take the front task and execute exactly that one, and free the mutex |
| ThreadPool.EveryTaskCanBeRun | webfront/DOM/thread_pool.cpp:51-70 | from every reachable state before the stop the workers alone can go on until every task enqueued has been run, each exactly once |
| ThreadPool.ShutdownEnds | webfront/DOM/thread_pool.cpp:20-71 | once stopped no task is begun, whatever the interleaving the workers take at most six steps each, and when none of them can take one all have left |

## Left out

- Sockets, `io_context`, accepting connections and the mocks for them: operating system calls. Connections are modelled over completion events, which arrive after the call that started the operation has returned.
- `Response::toBuffers` and its static status line, the text of responses, the MIME table: data. The handler is modelled up to the status of its answer, with the file provider as a function of the decoded URI.
- `std::filesystem` paths, and exceptions from the file provider: not part of this model.
- Messages.RoundTripIff: decoding is modelled on values, not on a parameter and a span updated in place; the old value of the parameter is an argument. The meaning of the eight bytes of a number is not modelled, and machines are little endian.
- Booleans are encoded but the decoder does not consume them; strings of 65536 bytes or more and tuples of 256 elements or more wrap their length fields. Both are outside the round trips, as the exact conditions say.
- JsFunction.DispatchIff: bytes read behind the message are arbitrary; what a peer does when it runs out of them too is one outcome, Overrun. Writes past the scratch buffer are reported, and nothing is said of what they destroy.
- `FunctionReturn`, `Handshake`, `Ack`, `TextCommand` and the size check of `castFromRawData`: easy beside the above.
- WebSocketSession.AllAreReceivedIff: for reads of whole frames. What the decoder makes of the rest of a frame whose beginning was dropped with an earlier read is not described.
- WebSocketSession.EveryFrameIsDelivered: the bytes a span shows behind those held are counted, not described. Writing, close reasons and read errors of the session, the one a closed socket reports included, are not modelled.
- Pointer lifetime after a `Frame` moves: views are regions of live arrays. `reserve` and allocation failures are not modelled.
- Request.Reader.CompleteRequest: the version numbers are unbounded integers; the code's `int` overflows after ten digits.
- SharedBuffer.EachAsIfAlone: the condition on the turns is sufficient; the exact one, on what the static variable holds, is that of `AsIfAloneIff`.
- Connection.AnswersExactly: under a sufficient condition on the static buffer; what holds without it, and the exact condition, are `Interference.AnswersUpToTheMethod` and `Interference.OutcomeAsIfAloneIff`. Nothing is said of a connection behind a fault.
- Connection.UpgradeIsAskedFor: under the same condition; `Interference.UpgradeIsAskedForButTheMethod` has none.
- UriParts.IndependentOfHistory: for histories without an empty URI; the exact condition is that of `UriHistory.AsIfFirstIff`.
- UriParts.ReferenceIff: for a text with a slash in its path and no "://" in it.
- UriParts.ComponentsIff: the string is already decoded, and shorter than the largest size_t.
- Sha1.Sha1: messages of 2^61 bytes or more, where the bit count itself wraps.
- SecKey.GetHashedSecKey: keys that keep the hashed text under 2^29 bytes.
- StaticFile.File.Read: files held in memory with as many words as their size needs; native file streams are not modelled.
- LinkIds.WebFront.OnUpgrade: requires a free identifier, without which the code does not return. The arguments of `try_emplace` are moved only on insertion.
- ThreadPool.EveryTaskCanBeRun: that the workers can go on, not that a scheduler lets them. A worker that waits may wake at any time the mutex is free; the stop is not under the mutex, so that it is notified is not guaranteed. A step reads or writes one shared variable, in a sequentially consistent order.
- TreeWalk.GetElementsByTagName: links and child counts are well formed, and the element has no child or no next sibling, without which the code does not return.
- Logging, hex dumps, `TypeErasedFunction`, `Delegate`, `StringHash`, the browser and CEF glue, the rest of `webfront/DOM`: no property of interest.
