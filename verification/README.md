# Verification of the file manager's byte pipeline

The server handles each connection with parsers and senders that can stop at any byte, when a socket, a pipe or a
handler blocks, and must later continue as if nothing had happened. This project models these stages in Dafny and
proves that they do.

Every resumable stage follows one pattern. Its meaning is an automaton that takes one byte at a time (`Multipart`,
`HeaderBlock`, `Framing`). The class that models the C structure keeps the offsets, buffers and flags of the source
and is proved to be in the state that the automaton reaches on all bytes given to it so far, for every way these bytes
are cut into calls. Split invariance, round trips and conservation are then theorems about the automata, and hold for
every run of the classes. The environment (`Descriptors`) is nondeterministic: a read delivers any nonempty part of
what has arrived, reports end of file, would block or fails; a write accepts any nonempty prefix, would block or fails.

| files | contents |
|---|---|
| Bytes, Numerals, Descriptors | byte strings, printed numbers, the environment |
| Multipart, MultipartFeeding, MultipartData, ContentPart | multipart bodies: automaton, feeding in pieces, the parser, its parts |
| HeaderBlock, DataHeader, RequestHeader, StartLine | header blocks, the two header objects, in-place decoding of the request line |
| Framing, ServerConnection, Pipelines | the decoder of pipelined requests, the connection, what it has done at any moment |
| MemBuf, RespBuf, ResponseSender, ResponseRoundTrip | buffers, responses, the resumable sender, what the receiver decodes |
| CgiExecutor, FileManager, RequestHandler | what happens to request bodies, and where responses come from |
| Upload, EndToEnd | whole uploads, from the socket to the named parts |
| EarlyResponse | what goes wrong when a response is finished before its request is read |
| Mainloop, MainloopRound | the connection table, a round over the connections in it |
| DataChunk, ParamList, Md5, Config, Auth | parameter lists, MD5, share lookup and credentials, Digest authorization |
| Md5Example | the digest of one message, step by step |

Facts about the code that shape the statements:

* `PP_GOT_WS` is declared but never stored. A call that ends inside a boundary line therefore forgets that the line was
  begun, and the next call opens another part. Exact split invariance of multipart parsing is false
  (`MultipartFeeding.CutExample`); `CutInvisibleIff` says exactly which cuts can be seen. The parts that received bytes
  and the end of the body do not depend on cuts exactly when no boundary line has a hyphen behind its first byte
  (`SplitInvarianceIff`).
* A header is accumulated in C strings. Where a NUL byte was met, the automata say `Garbled` or `Lost`, and nothing is
  claimed about what follows; all other invariants still hold.
* A handler is freed when its response is finished, even while the body of its request still arrives; what arrives
  later is given to a null handler, and the program crashes (`ConnCrash`). `ServerConnection.ProcessDataReady` says
  exactly when: the call began with such a request, and by the bytes that have arrived at its end another body byte was
  read or the request was completed. `EarlyResponses.PutThenBody` is an example: a PUT request with a Content-Length is
  answered as soon as its header is read, and when the client has got the answer, the first body byte finds the handler
  gone. It never happens for requests to the folder handler.
* A lost wake-up: when the pipe to a CGI program takes no more bytes, and in the same call the program's output ends and
  has been sent, the handler is freed and its pipe closed, but the call registers the pipe all the same, and nothing
  else. The next select fails on the closed descriptor, and the program ends (unless another connection was given the
  number in the meantime). `ServerConnection.Stranded` is this state: no handler, body bytes left in the buffer.
  `ProcessDataReady` proves that whatever is registered is open exactly if the connection is not stranded, and
  `ServeInetd` that select fails exactly then. `EarlyResponses.PostIsStranded` is an example.
* A CGI program may send a `Transfer-Encoding` of its own, which precedes the server's. Its response then decodes
  correctly if and only if that value says "chunked", too (`CgiResponses.CgiBodyConserved`); `GzipNotDecoded` is an
  output for which it does not.
* The answer to a HEAD request has no body buffer, but `cgiexe_getResponse` appends what it has read, or its error page,
  to that buffer. A HEAD request to a CGI program therefore ends the server as soon as the program's header is complete
  or its output ends (`CgiExecutor.Ends`, `CgiExecutors.CgiExecutor.GetResponse`).
* An escaped NUL ends the path, and so does a percent sign without a hex digit behind it (`StartLines.NulEndsPath`,
  `StartLines.BadEscape`).
* Without a colon in its argument, `config_getCredentialsEncoded` hashes the terminating NUL in its place
  (`Config.EncodedArgument`).

## Model

| member | source | states |
|---|---|---|
| MultipartParser.MultipartData.AppendData | src/multipartdata.c:43-117 | One call takes the parser from the state that stands for all earlier pieces to the state the automaton reaches on the data, suspended; the parts hold exactly the bytes the automaton gives them |
| MultipartParser.FindStop | src/multipartdata.c:95-108 | The memchr/memcmp scan stops at the first place where a delimiter, possibly cut off by the end of the data, may start |
| Multipart.FalseStart | src/multipartdata.c:57-72 | When a match carried over from earlier data fails, emitting the withheld bytes and rescanning the new data from its start gives the automaton's state: no withheld byte is lost or repeated |
| Multipart.RunToStop | src/multipartdata.c:95-115 | Everything before the first possible delimiter is content, and the delimiter prefix found there is withheld |
| MultipartFeeding.CutInvisibleIff | src/multipartdata.c:76-91 | A cut is invisible to every continuation if and only if it does not fall inside a boundary line |
| MultipartFeeding.CutInBoundaryLine | src/multipartdata.c:76-91 | Such a cut leaves one additional, abandoned part behind unless the line goes on with a hyphen |
| MultipartFeeding.CutExample | src/multipartdata.c:76-91 | A concrete body that has one part in one piece and two parts in two pieces |
| MultipartFeeding.FeedIsOneCall | src/multipartdata.c:43-117 | Pieces that are not cut inside boundary lines give exactly the state of one call on their concatenation |
| MultipartFeeding.SplitInvariance | src/multipartdata.c:43-117 | When no boundary line has a hyphen behind its first byte (padding and a bare LF may occur), every sequence of pieces gives the non-empty parts and the epilogue status of one call |
| MultipartFeeding.SplitInvarianceIff | src/multipartdata.c:76-91 | The outcome of every prefix of a body is independent of its cuts if and only if no boundary line in it has a hyphen behind its first byte |
| MultipartFeeding.RoundTrip | src/multipartdata.c:28-117 | Printing parts that do not contain the delimiter and feeding the text in any pieces gives exactly these parts in order, and ends in the epilogue; preamble and epilogue are dropped (section 5.1.1 of RFC 2046) |
| MultipartFeeding.BoundaryOpensOrEnds | src/multipartdata.c:76-91 | Behind a delimiter a hyphen ends the body; anything else up to the line end, padding or a CR or nothing at all, opens a part |
| MultipartParser.MultipartData.GetPartByName | src/multipartdata.c:124-134 | Returns the part of that name before which no part has it, or null when no part has it; in terms of bytes, the first part whose header names it |
| ContentParts.ContentPart.AppendData | src/contentpart.c:40-115 | However the bytes of a part are cut, name, file name and stored content are those of the whole |
| ContentParts.ContentPart.FinishHeader | src/contentpart.c:52-92 | The names are those of Content-Disposition; content goes to a new file when there is a file name, to a new buffer otherwise |
| ContentParts.ContentPart.Store | src/contentpart.c:95-114 | Content is appended to the buffer or written to the file as a whole, over any short writes; a failing write drops the file |
| ContentParts.PartInHeader | src/contentpart.c:45-50 | What more bytes mean for a part whose header is incomplete |
| ContentParts.PartInBody | src/contentpart.c:95-114 | Behind the header all further bytes are content |
| ContentParts.LastNames | src/contentpart.c:57-68 | Of repeated parameters the last name counts, and the last file name that is not empty |
| Uploads.PartRoundTrip | src/contentpart.c:40-115 | A part written with Content-Disposition, further header lines and content is read back as its name, file name and content; with filename="" (no file was chosen) it is kept in memory |
| Uploads.AnyDisposition | src/contentpart.c:52-68 | In a Content-Disposition with any parameters, the last "name" is the name and the last non-empty "filename" the file name, in any case |
| Uploads.UploadRoundTrip | src/filemanager.c:743-748 | Once the folder handler has received an encoded form in any pieces, the parts that received bytes are exactly the parts of the form, in order |
| Uploads.FindUploaded | src/multipartdata.c:124-139 | Looking up a name finds the first part of the form with that name, with its content; abandoned parts are never found |
| EndToEnd.LastBodyReceived | src/serverconnection.c:78-180 | Whenever a request has been read, what was consumed ends exactly with it; its handler has received exactly the body this request carries, and a folder handler was told the Content-Type of its header |
| EndToEnd.UploadArrives | src/serverconnection.c:78-180 | A form uploaded with a Content-Length or in any chunks, with other pipelined requests before and behind it, under all cuts of reads and of handler data, arrives as exactly its parts; the boundary is taken from the Content-Type line of that request |
| FileManagers.FindBoundary | src/filemanager.c:722-732 | The boundary is the one that the written parameters of a multipart/form-data Content-Type name, as BoundaryRoundTrip states it |
| FileManagers.BoundaryRoundTrip | src/filemanager.c:722-732 | Of the written parameters of a multipart/form-data Content-Type, quoted or bare, the last one named "boundary", in any case, is the boundary; without one there is none |
| FileManagers.OtherTypes | src/filemanager.c:724-726 | Another Content-Type has no boundary, so that no parser is made |
| FileManagers.FileManager.ConsumeBodyBytes | src/filemanager.c:743-748 | The parser has been given exactly the received bytes |
| HeaderBlock.HeadSplitInvariance | src/dataheader.c:57-109 | Pieces give the lines and the end position that one call on all the data gives |
| HeaderBlock.BlockRoundTrip | src/dataheader.c:57-109 | A printed block ends exactly after its first blank line, whatever follows, with exactly its fields; lines without a colon vanish |
| HeaderBlock.RequestHeadRoundTrip | src/requestheader.c:172-222 | A printed request header ends exactly after its blank line and yields its request line and fields; blank lines before the request line are skipped (section 3.5 of RFC 7230) |
| HeaderBlock.MixedRoundTrip | src/dataheader.c:57-109 | The same for a block in which any lines end in a bare LF |
| HeaderBlock.MixedRequestHead | src/requestheader.c:172-222 | And for a request header with bare LFs |
| HeaderBlock.LookupWritten | src/dataheader.c:40-55 | The first field with these letters, of upper or lower case, gives its value without the blanks and tabs before it |
| ByteStrings.CaseIgnored | src/dataheader.c:46 | Names are equal when they have the same letters of the alphabet, in upper or lower case, and otherwise the same characters |
| HeaderBlock.ChunkedIff | src/requestheader.c:86-99 | A list of items, separated by commas, blanks and tabs, says "chunked" if and only if some item starts with it, in any case |
| DataHeaders.DataHeader.AppendData | src/dataheader.c:57-109 | The fields are those of all bytes given so far, and the result is the number of bytes up to the end of the blank line, or -1 |
| DataHeaders.DataHeader.GetHeaderVal | src/dataheader.c:40-55 | The value of the first field of that name, compared without case, without leading blanks |
| RequestHeaders.RequestHeader.AppendData | src/requestheader.c:172-222 | Request line, fields and login state are those of all bytes given so far, and the result is where the header ends, or -1 |
| RequestHeaders.RequestHeader.CheckAuthorization | src/requestheader.c:159-170 | The first Authorization field decides the login state; later ones change nothing |
| RequestHeaders.RequestHeader.GetHeaderVal | src/requestheader.c:69-84 | The value of the first field of that name |
| RequestHeaders.RequestHeader.IsChunkedTransferEncoding | src/requestheader.c:86-99 | Whether some item of the first Transfer-Encoding starts with "chunked" |
| RequestHeaders.SameHeadSameRequest | src/requestheader.c:172-222 | Header objects that got the same header in different pieces agree on method, path, query, version, fields and login state |
| RequestHeaders.LoginSnoc | src/requestheader.c:159-170 | The login state after one more field is that of the first Authorization field among all of them |
| RequestHeaders.LoginMeaning | src/requestheader.c:159-170 | Logged out without an Authorization field; otherwise the first one, in any case, decides between logged in and failed |
| RequestHeaders.LoginIffRfc | src/requestheader.c:159-170 | A request with a Digest Authorization is logged in if and only if the user has an account and the response is the one of section 3.2.2 of RFC 2617 |
| StartLines.DecodePathInPlace | src/requestheader.c:126-141 | Decoding in place yields the decoded path although the buffer is overwritten while it is read: the write index never passes the read index |
| StartLines.DecodeRequestStartLine | src/requestheader.c:117-157 | The parts that the buffer and its pointers show afterwards are method, path, query and version of the original line |
| StartLines.StartLineRoundTrip | src/requestheader.c:117-157 | A written request line is parsed into its parts, with the path decoded up to an escaped NUL |
| StartLines.EncodeRoundTrip | src/requestheader.c:126-141 | A request line with the percent-encoding of any NUL-free path is decoded to that path, between its method, query and version (section 2.1 of RFC 3986) |
| StartLines.AnySpelling | src/requestheader.c:126-141 | So is every other spelling of the path: any character may be escaped, with hex digits in any mix of cases |
| StartLines.NulEndsPath | src/requestheader.c:136-142 | An escaped NUL ends the path; query and version are found behind it as before |
| StartLines.BadEscape | src/requestheader.c:127-136 | A percent sign that no hex digit follows stands for NUL |
| StartLines.WithoutVersion | src/requestheader.c:142-153 | A request line may end behind path or query; the version is then empty |
| StartLines.OnlyMethod | src/requestheader.c:154-156 | A line without a blank is a method with path "/" |
| Framing.MessageRoundTrip | src/serverconnection.c:54-180 | Decoding an encoded request, with a Content-Length or chunked, gives that request and stops exactly behind it |
| Framing.ChunkedRoundTrip | src/serverconnection.c:84-121 | A chunked body with any chunk extensions and trailer is decoded to its data, finishing at its last byte (section 4.1 of RFC 7230) |
| Framing.AnySizeLine | src/serverconnection.c:107 | A chunk size may be written with leading zeros, with digits in any case, and with an extension behind it |
| Framing.SizeWraps | src/serverconnection.c:107 | A size of 64 bits is reduced to its low 32 bits |
| Framing.AnyLength | src/serverconnection.c:65-69 | The body length is the decimal number in the first Content-Length field, whatever the case of the name, blanks and leading zeros |
| Framing.PipelineRoundTrip | src/serverconnection.c:182-249 | A stream of pipelined requests is decoded to exactly these requests, in order |
| Framing.TakenHead | src/serverconnection.c:137-162 | What the header object took of the data puts the decoder behind the header, or leaves it inside |
| Framing.TakenTrailer | src/serverconnection.c:166-177 | The same for the trailer of a chunked body |
| Framing.RunData | src/serverconnection.c:85-94 | Bytes within a chunk or a body of known length are body bytes, and its last byte ends it |
| Framing.RunLineEnd | src/serverconnection.c:96-117 | A chunk line announces the next chunk in hex, stored in 32 bits; 0 starts the trailer |
| ServerConnections.ServerConnection.constructor | src/serverconnection.c:35-52 | A new connection awaits its first header, with nothing consumed, served or sent |
| ServerConnections.ServerConnection.OnFinishedHeader | src/serverconnection.c:54-76 | The fields afterwards stand for what the header announces: chunks, a length, or no body |
| ServerConnections.ServerConnection.TakeData | src/serverconnection.c:85-95 | Body bytes go to the handler as far as it takes them, and the decoder follows; taking fewer means waiting |
| ServerConnections.ServerConnection.TakeChunkLine | src/serverconnection.c:96-117 | The fields follow the decoder through chunk lines cut anywhere, including the two bytes that end the chunk before |
| ServerConnections.ServerConnection.AppendBodyData | src/serverconnection.c:78-127 | Everything taken from the buffer was decoded, and the rest of it is kept; with a freed handler it either crashes at a body byte, or takes none and goes on |
| ServerConnections.ServerConnection.BodyTurn | src/serverconnection.c:84-121 | One turn over body data crashes exactly when there is no handler and a body byte is due; otherwise the decoder follows, and without a handler no body byte is taken |
| ServerConnections.ServerConnection.AppendData | src/serverconnection.c:129-180 | Keeps all invariants of the connection, makes progress or waits, and has a handler that can answer once the request is complete; without a handler everything in the buffer is taken, unless it crashes |
| ServerConnections.ServerConnection.ReadRequest | src/serverconnection.c:192-217 | The inner loop ends with a complete request, or waiting for the socket or the handler, or closing; it terminates |
| ServerConnections.ServerConnection.Respond | src/serverconnection.c:218-224 | An unfinished response waits for something; a finished one is recorded as a complete reply |
| ServerConnections.ServerConnection.CloseRequested | src/serverconnection.c:233-240 | Whether the request ends the connection: version 1.0, or Connection is "close" |
| ServerConnections.KeepsAliveIff | src/serverconnection.c:233-240 | A written request keeps its connection if and only if its version is not "1.0" and no first Connection field says "close" |
| ServerConnections.CloseIsHeard | src/serverconnection.c:233-240 | "Connection: close" in any case of the name, behind other fields, closes |
| ServerConnections.ServerConnection.ProcessDataReady | src/serverconnection.c:182-266 | A connection that stays open has registered a descriptor for whatever it still has to do, after an attempt that found nothing there or no space, and all these are open if and only if it is not stranded; it is closed only when the socket has ended, failed or broken, a NUL was met, it idles, or every request, the last of which asked for it, has its whole reply written; the internal-error check cannot fail, and the program ends only when the output of a CGI program makes it; handlers have received the bodies in order, replies are complete and one per request; a freed handler is used if and only if a response was finished before its request when the call began and what has arrived contains another body byte or completes the request; an idle result implies no activity and no closeIfIdle |
| EarlyResponses.EarlyInBody | src/serverconnection.c:218-224 | Inside any body with a Content-Length, the handler is freed exactly when the client has a reply more than complete requests were read; one more byte then fulfils the crash condition |
| EarlyResponses.StrandedInBody | src/serverconnection.c:218-222 | There, the connection is stranded exactly when it is so and bytes have arrived that were not taken |
| EarlyResponses.RefusedInBody | src/reqhandler.c:267-275 | There, a request refused by its method, login or path has its response with the status 405, 401 or 403, in the handler or as the last reply |
| EarlyResponses.PostIsStranded | src/cgiexecutor.c:205-226 | A concrete POST request whose body has arrived and is not taken while its answer is complete: its connection is stranded |
| EarlyResponses.PutThenBody | src/serverconnection.c:218-224 | A concrete PUT request whose header was read: its answer, with status 405, is there or sent; once it is sent, every next byte fulfils the crash condition |
| ServerConnections.ServeInetd | src/main.c:93-107 | From a new connection, for any number of calls: whenever the program sleeps, what the connection waits for is selected, and select fails exactly when the connection is stranded; otherwise the program ends only when the output of a CGI program makes it, or by the crash above |
| Pipelines.RunPrefix | src/serverconnection.c:78-180 | The first k bytes of a stream of requests complete exactly the requests that lie in them as a whole |
| Pipelines.PrefixNotYet | src/serverconnection.c:78-180 | A proper prefix of an encoded request completes nothing |
| Pipelines.BodiesConserved | src/serverconnection.c:78-180 | At every moment the handlers have received exactly the bodies of the completed requests; between requests the consumed bytes end exactly with the last completed one, so that buffer and stream begin precisely at the next; in between they do not reach its end |
| Pipelines.StopsExactly | src/serverconnection.c:129-180 | The decoder is between two requests exactly when the bytes taken end with a complete request: nothing behind it, such as blank lines, was consumed |
| ResponseSenders.ResponseSender.constructor | src/responsesender.c:22-74 | The header ends with the announcement of the body and a blank line, and what the buffers hold is exactly the start of the announced stream; what is received in the end is stated by RegularFileReceived, BufferReceived and PipeReceived |
| ResponseSenders.FrameChunk | src/responsesender.c:123-128 | The hex size line, written right-aligned before the data in the ten reserved bytes, the data and CR LF form one chunk; it always fits |
| ResponseSenders.ResponseSender.FillSized | src/responsesender.c:81-108 | The next buffer load continues the stream by file bytes, and by zeros only when the file has ended or failed; it is empty only while waiting for the file |
| ResponseSenders.ResponseSender.FillChunked | src/responsesender.c:109-142 | The next buffer load is one more chunk of file bytes, and the last chunk when the file is closed; no bound of the 65553-byte buffer is exceeded |
| ResponseSenders.ResponseSender.Send | src/responsesender.c:145-204 | In every run what was written continues what was written before; unfinished means waiting, and finished without an error means the whole complete stream was written |
| ResponseRoundTrip.SizedExact | src/responsesender.c:44-47 | What was produced and what is still to come make up the announced Content-Length: buffered body, file prefix, zeros |
| ResponseRoundTrip.SentIsPrefix | src/responsesender.c:145-204 | At every moment the output is a prefix of header and stream, and never longer than announced |
| ResponseRoundTrip.ChunksDecode | src/responsesender.c:109-142 | The server's own chunk decoder turns chunked output back into initial body plus file bytes, and finishes exactly at its last byte |
| ResponseRoundTrip.AnnouncedCoding | src/responsesender.c:44-51 | The announcement line makes a receiver choose the right framing when the other lines do not announce any |
| ResponseRoundTrip.ResponseDecodes | src/responsesender.c:145-204 | Every finished response decodes to its header and exactly its body |
| ResponseRoundTrip.RegularFileReceived | src/responsesender.c:22-204 | From n bytes by fstat, the receiver gets a Content-Length of buffered bytes plus n, and as body the buffered bytes, what the file delivered of its n bytes, and zeros for the rest if it ended early or failed |
| ResponseRoundTrip.BufferReceived | src/responsesender.c:22-204 | Without a file, or when fstat fails, the body is the buffered one; the answer to a HEAD request is the header alone |
| ResponseRoundTrip.PipeReceived | src/responsesender.c:22-204 | From a descriptor that is no regular file, the body is the buffered bytes and all that was delivered |
| ResponseRoundTrip.ChunkedResponseIff | src/responsesender.c:49-51 | A chunked response decodes to its body if and only if its header fields say that it is chunked |
| MemBufs.MemBuf.AppendData | src/membuf.c:41-47 | Appends, keeping the terminating NUL |
| MemBufs.MemBuf.SetData | src/membuf.c:99-107 | Replaces bytes in place where they fit, and nothing else |
| MemBufs.MemBuf.ReadFile | src/membuf.c:123-132 | What was read is in the buffer at the offset, and nothing else changed |
| RespBufs.RespBuf.Finish | src/respbuf.c:157-165 | Turns status line, header lines, body and file into a sender, adding the Server line |
| CgiExecutors.CgiExecutor.ProcessData | src/cgiexecutor.c:205-226 | Takes less than everything only when the pipe, still open, is full; what the program got is exactly what was taken, until the pipe breaks |
| CgiExecutors.CgiExecutor.GetResponse | src/cgiexecutor.c:234-282 | The response consists of the CGI header found in the output, the bytes already read behind it and the rest of the pipe; an incomplete header gives the error page with status 500; otherwise waiting is reported, after a read that found nothing; the program ends exactly when a read has failed, or the answer to a HEAD request is to get output |
| CgiResponses.CgiBodyConserved | src/cgiexecutor.c:241-264 | However the output is split into reads, the decoded body is exactly the output behind its first blank line, if and only if the program does not send a different Transfer-Encoding itself |
| CgiResponses.StatusPassedOn | src/cgiexecutor.c:242-245 | The status line of the response has the value of the first Status field, without blanks before it, or "200 OK" |
| CgiResponses.ContentTypePassedOn | src/cgiexecutor.c:246-248 | The Content-Type is that of the program, or text/plain |
| CgiResponses.FieldsPassedOn | src/cgiexecutor.c:249-259 | Every other field is found in the response as the program sent it, unless its name is Server or begins with X-CGI- |
| CgiResponses.GzipNotDecoded | src/cgiexecutor.c:241-264 | A concrete output with a Transfer-Encoding of gzip, whose response does not decode to its body |
| CgiResponses.RunClean | src/dataheader.c:57-109 | Fields read from a header contain no line ends and no NULs, so that they can be passed on as header lines |
| RequestHandlers.RequestHandler.constructor | src/reqhandler.c:257-275 | Another method than GET, POST and HEAD is answered at once with status 405, a failed login or a missing privilege with 401, a path with a component ".." with 403, a file with 200 and that file; for HEAD the answer has no body; only the rest gets a folder or a CGI handler, without a response yet; a folder handler is told the Content-Type |
| RequestHandlers.RequestHandler.ProcessData | src/reqhandler.c:277-288 | Folder and CGI handlers receive exactly the bytes taken; taking fewer means waiting |
| RequestHandlers.RequestHandler.RequestReadCompleted | src/reqhandler.c:290-308 | Afterwards there is a response or a CGI program that will make one |
| RequestHandlers.RequestHandler.ProgressResponse | src/reqhandler.c:310-324 | Unfinished means that something to wait for was reported; finished without an error means that the response was sent completely |
| Mainloop.Table.Partition | src/main.c:66-89 | The in-place partition leaves the idle connections in their order, followed by the busy ones in theirs |
| Mainloop.Table.Round | src/main.c:45-90 | The table after a round is the partition of the old and newly accepted connections; it stays duplicate-free and ordered by last active round |
| Mainloop.Table.Serve | src/main.c:45-90 | The table is in order at each loop head of every run |
| Mainloop.RoundKeepsOrder | src/main.c:63-89 | Distinctness and order by last activity are preserved by the partition |
| Mainloop.RoundConserves | src/main.c:66-89 | A round keeps exactly the connections that were not to be closed |
| Mainloop.AtMostOneVictim | src/main.c:70 | closeIfIdle closes at most one connection per round: whoever was asked before another was busy |
| Mainloop.ClosesMostIdle | src/main.c:63-71 | When the table is full and a connection stays idle, another one was closed that had not been active more recently |
| MainloopRounds.Poll | src/main.c:63-86 | A round over the connection objects: the selector ends up with a descriptor of every connection that stays in the table, all of them open unless the connection is stranded; a threatened connection is not idle; one is closed only for a reason of its own, or in a full table when all before it are busy |
| MainloopRounds.PollIsRound | src/main.c:63-86 | What the objects answer in a round are answers as the table's results require them |
| Md5.LoopStepIsRfc | src/md5calc.c:55-62 | One turn of the single loop with rotated registers is the step of section 3.4 of RFC 1321 |
| Md5.Compress | src/md5calc.c:51-66 | The loop computes the four rounds of RFC 1321 on a block |
| Md5.HexByteReads | src/md5calc.c:69-71 | The two digits printed for byte j of a register, read back in base 16, are that byte; the low-order byte comes first |
| Md5.NextBlock | src/md5calc.c:30-50 | Each block loaded is the next block of the padded message, including the additional block when the length does not fit |
| Md5.Md5Calculate | src/md5calc.c:6-71 | The result is the digest of all blocks, with the bit count taken in 32 bits, as hex digits |
| Md5.ProgramIsMd5 | src/md5calc.c:6-71 | For messages below 2^29 bytes the program computes MD5 |
| Md5Example.AbcDigest | src/md5calc.c:6-71 | The digest of "abc" is that of the test suite in section A.5 of RFC 1321 |
| Md5.BlocksExactIff | src/md5calc.c:27 | The blocks are those of section 3 of RFC 1321 if and only if the message has fewer than 2^29 bytes |
| Auth.IsClientAuthorized | src/auth.c:36-110 | The value is accepted exactly when it has the Digest scheme, no foreign realm, a known user and the prescribed response |
| Auth.AcceptedIff | src/auth.c:36-110 | For credentials stored plain or encoded, a written Authorization value that names no foreign realm is accepted if and only if its response is the digest prescribed by section 3.2.2 of RFC 2617, with the program's digest function; of repeated parameters the last counts, missing ones are empty |
| Auth.AcceptedIffRfc | src/auth.c:36-110 | With texts below 2^29 bytes, it is accepted if and only if its response field is the one of RFC 2617 with MD5 of RFC 1321 |
| Auth.ForeignRealmRefused | src/auth.c:62-64 | A value that names another realm anywhere is refused |
| Auth.OtherSchemeRefused | src/auth.c:52-54 | A value with another scheme than Digest is refused |
| Auth.LeadingWs | src/auth.c:51-54 | White space before the scheme does not matter |
| Config.GetSysPathForUrlPath | src/fmconfig.c:243-272 | The path of a share of maximal length among those covering whole components, followed by the rest; nothing exactly when none covers |
| Config.RestIsAppended | src/fmconfig.c:262-269 | The path is that of the share with the rest of the URL path behind it; "/" when both are empty |
| Config.RootIsEmpty | src/fmconfig.c:248-249 | "/" is looked up as the empty path, every other path as it is |
| Config.NotCovered | src/fmconfig.c:256-258 | A share does not cover a path that merely begins with the same letters |
| Config.NoDotDotInRest | src/reqhandler.c:188-189 | For a path that passes the dot-dot test, no component of the rest behind the share is ".." |
| Config.DotDotTestIff | src/reqhandler.c:188-189 | The test fails exactly for the paths with a component ".." behind the first slash |
| Config.GetDigestAuthCredential | src/fmconfig.c:426-460 | The credential of the first entry for that user, hashed when stored plain |
| Config.GetCredentialsEncoded | src/fmconfig.c:462-477 | Prints the user name and the hash of the credential; without a colon the whole argument and the hash of it with the terminating NUL and the realm |
| Config.EncodedGivesAccess | src/fmconfig.c:426-477 | What is printed for "user:password" is the encoded form of the account that the argument is the plain form of |
| Config.BothFormsAgree | src/fmconfig.c:426-477 | Plain and encoded storage of an account give the same hash for the same users |
| Config.CredentialOfAccount | src/fmconfig.c:426-460 | With one account per user name, the credential found is that of the user's own account |
| DataChunks.DataChunk.ExtractParam | src/datachunk.c:99-117 | Reads the next parameter, returns slices of the line, and strictly shrinks the line on success |
| DataChunks.DataChunk.ExtractTillChr | src/datachunk.c:119-135 | Splits at the first delimiter, or takes everything; both results are slices of the line |
| ParamLists.ParamsRoundTrip | src/datachunk.c:99-117 | Repeatedly reading a printed list of quoted or bare parameters returns the list |
| ParamLists.SpacedName | src/datachunk.c:99-117 | White space around a name, or before a value, does not matter |
| ParamLists.QuotedThenAny | src/datachunk.c:99-117 | Anything may stand between a closing quote and the delimiter |
| ParamLists.BareThenWs | src/datachunk.c:99-117 | White space behind a bare value is not part of it |
| ParamLists.OpenQuote | src/datachunk.c:99-117 | A quote that is not closed takes the rest of the line |
| Numerals.PrintRoundTrip | src/serverconnection.c:107 | Reading back a printed hexadecimal or decimal number gives the number |
| Numerals.SpelledRoundTrip | src/serverconnection.c:107 | A numeral is read as its number, whatever the case of its digits, its leading zeros and the text behind it; from 2^64 on as 2^64 - 1 |
| Numerals.PrintIsSpelled | src/responsesender.c:123 | A printed number is a numeral for it, digit by digit |
| Numerals.AfterSpace | src/serverconnection.c:107 | White space before a numeral is skipped |
| Numerals.AfterSign | src/serverconnection.c:107 | A plus sign does not matter; a minus sign gives the number negated in 64 bits |
| Numerals.AfterPrefix | src/serverconnection.c:107 | In base 16 the numeral may begin with 0x or 0X |
| Numerals.NoNumeral | src/requestheader.c:136 | Text without a digit reads as 0 |

## Left out

- System calls, sockets, processes, users and logging: only the outcomes of reads, writes and accepts are modelled.
- Page generation, the MIME table, the file operations of src/filemanager.c, pattern matching, folder sorting and the
  parsing of configuration files.
- The permission matrix: whether an action is allowed is an arbitrary value.
- The header lines of answers that do not come from a CGI program: besides status line, Server and the announcement of
  the body they are arbitrary.
- Which handler a path gets: the state of the file system is an arbitrary value, and so are the pages answered.
- Boundaries that contain CR: no parser is made for them in the model, because the source relies on CR occurring only
  at the start of the delimiter.
- Header bytes with NUL: the automata stop making claims, since the effect of strlen depends on the cuts.
- Integer widths: lengths, offsets and 64-bit counters are unbounded, except for the 32-bit chunk size and the 32-bit
  bit count of MD5, which are modelled; a body of chunks of more than 2^64 bytes in total is not.
- `DataProcessingResult` is passed by reference in the source; here it is a value handed through.
- The parser's list of parts is an object of its own (`PartList`), so that one frame covers it.
- Digest nonces: the counter in `auth_getAuthResponseHeader` is not modelled, as the verification never looks at it.
- Temporary upload files: that a finished upload is linked to its final name is not part of this model.
- Mainloop.Table.Round: connections are identities, and their answers are arbitrary values that obey what
  ProcessDataReady promises; MainloopRounds.Poll asks the objects themselves, as a list, and PollIsRound links the two.
- ServerConnections.ServerConnection.ProcessDataReady: once a NUL was met in a header, the crash condition is stated by
  the fields of the connection only (`UsesFreed`, `StaysEarly`); what the client observes after an early response is not
  stated.
