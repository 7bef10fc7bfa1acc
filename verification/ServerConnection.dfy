/**
 One client connection (src/serverconnection.c): reads pipelined requests, hands their bodies to handlers and sends
 the responses. Proved to follow the decoder of Framing.dfy byte by byte, whatever the reads and the handlers do.
 */
module ServerConnections {
  import opened ByteStrings
  import opened CgiExecutors
  import opened Descriptors
  import FileManagers
  import opened Framing
  import opened HeaderBlock
  import opened MemBufs
  import opened Numerals
  import opened RequestHandlers
  import opened RequestHeaders
  import opened ResponseSenders
  import opened StartLines

  datatype ReadState = Idle | ReadHead | ReadBody | ReadTrailer | ReadFinished

  /** The fields say the same as the decoder; a part that is not given is not compared. */
  predicate Follows(dec: Decoder, rrs: ReadState, own: Head, h: Head, left: int, chunk: Option<Bytes>,
                    body: Option<Bytes>) {
    dec.Decoder? ==>
      match rrs
      case Idle => dec.phase.AtNext?
      case ReadHead => h.Head? && (dec.phase == InHead(h) || (dec.phase.AtNext? && h == NEW_REQUEST))
      case ReadBody =>
        && h.Head? && own == h
        && dec.phase.InBody? && dec.phase.h == h && dec.phase.left == left && dec.phase.chunk == chunk
        && (body.Some? ==> dec.phase.body == body.value)
      case ReadTrailer =>
        && h.Head? && dec.phase.InTrailer? && dec.phase.own == own && dec.phase.h == h
        && (body.Some? ==> dec.phase.body == body.value)
      case ReadFinished =>
        && h.Head? && dec.phase.AtNext? && dec.done != []
        && var last := dec.done[|dec.done| - 1];
           last.own == own && last.head == h && (body.Some? ==> last.body == body.value)
  }

  /** The requests done grow by the one that is now finished, if any. */
  predicate Grows(before: Decoder, after: Decoder, finished: bool) {
    after.Decoder? ==>
      before.Decoder? && before.done <= after.done && |after.done| == |before.done| + if finished then 1 else 0
  }

  // conn_processDataReady returns one of the first three. Otherwise it has used a handler that was already freed,
  // or the program has ended (log_fatal).
  datatype ConnResult = ConnToClose | ConnBusy | ConnIdle | ConnCrash | ProgramExit

  datatype Stop = Continues | Crashes | Exits

  // What was sent in answer to one request.
  datatype Reply = Reply(head: Bytes, stream: Stream)

  /** The replies sent so far, each of them complete. */
  function ReplyBytes(replies: seq<Reply>): Bytes {
    if replies == [] then []
    else
      var n := |replies| - 1;
      ReplyBytes(replies[..n]) + (replies[n].head + Payload(replies[n].stream))
  }

  predicate AllWhole(replies: seq<Reply>) {
    forall i :: 0 <= i < |replies| ==> WellFormed(replies[i].stream) && Complete(replies[i].stream)
  }

  /** The handlers have received exactly the bodies of the requests, in order. */
  predicate Recorded(dec: Decoder, served: seq<Bytes>) {
    dec.Decoder? ==> |served| == |dec.done| && forall i :: 0 <= i < |served| ==> served[i] == dec.done[i].body
  }

  /** The connection is kept open after this request. */
  predicate KeepsAlive(h: Head) {
    h.Head? && h.start.Some? && Parse(h.start.value).version != "1.0" && Lookup(h.fields, "Connection") != Some("close")
  }

  /** Every request but the one whose response is still being sent left the connection open. */
  predicate KeptAlive(dec: Decoder, answering: bool) {
    dec.Decoder? ==>
      forall i :: 0 <= i < |dec.done| - (if answering then 1 else 0) ==> KeepsAlive(dec.done[i].head)
  }

  /** Requests that were to be refused were refused. */
  predicate AllRefused(creds: seq<Bytes>, dec: Decoder, replies: seq<Reply>) {
    dec.Decoder? ==>
      forall i :: 0 <= i < |replies| && i < |dec.done| ==> Refuses(creds, dec.done[i].own, replies[i].head)
  }

  ghost function HandlerObjects(handler: RequestHandler?): set<object>
    reads handler
  {
    if handler == null then {} else handler.Repr
  }

  /** The pipe to the CGI program of a handler. */
  ghost function PipeIn(handler: RequestHandler?): int
    reads handler
  {
    if handler != null && handler.cgiexe != null then handler.cgiexe.input.fd else -1
  }

  ghost predicate PipeIsFull(handler: RequestHandler?)
    reads handler, CgiOf(handler), ResponseOf(handler), WaitObjects(handler)
  {
    handler != null && handler.InputFull()
  }

  ghost function WaitObjects(handler: RequestHandler?): set<object>
    reads handler, ResponseOf(handler)
  {
    if handler == null then {} else handler.WaitObjects()
  }

  ghost function CgiOf(handler: RequestHandler?): CgiExecutor?
    reads handler
  {
    if handler == null then null else handler.cgiexe
  }

  ghost function OutputOf(handler: RequestHandler?): set<object>
    reads handler
  {
    if CgiOf(handler) == null then {} else {CgiOf(handler).output, CgiOf(handler).cgiHeader}
  }

  function ReadFds(r: Dpr): set<int> {
    (if r.reqState == AwaitRead then {r.reqFd} else {}) + (if r.respState == AwaitRead then {r.respFd} else {})
  }

  function WriteFds(r: Dpr): set<int> {
    (if r.reqState == AwaitWrite then {r.reqFd} else {}) + (if r.respState == AwaitWrite then {r.respFd} else {})
  }

  ghost function ResponseOf(handler: RequestHandler?): ResponseSender?
    reads handler
  {
    if handler == null then null else handler.response
  }

  /** The system gives out any number that is not in use. */
  method NewDescriptor(inUse: int) returns (fd: int)
    ensures fd != inUse
  {
    fd := *;
    if fd == inUse {
      fd := inUse + 1;
    }
  }

  class ServerConnection {
    const input: Source            // the socket, as it is read
    const output: Sink             // and as it is written
    const creds: seq<Bytes>
    const readBuffer: array<char>
    var readOffset: nat
    var readSize: nat
    var rrs: ReadState
    var header: RequestHeader?
    var chunkHdr: MemBuf?
    var handler: RequestHandler?
    var bodyLen: nat
    var bodyReadLen: nat
    ghost var consumed: Bytes      // all bytes taken out of the buffer so far
    ghost var dec: Decoder         // what they mean
    ghost var served: seq<Bytes>   // the bodies that handlers received, request by request
    ghost var replies: seq<Reply>  // the responses sent completely
    ghost var folder: bool         // the current request goes to the folder handler
    ghost var own: Head            // its header, without the fields of a trailer
    ghost var Repr: set<object>

    ghost predicate Owned()
      reads `header, `chunkHdr, `handler, `Repr,
            header, chunkHdr, BufferObjects(chunkHdr), handler, HandlerObjects(handler)
    {
      && this in Repr && input in Repr && output in Repr && readBuffer in Repr && input.fd == output.fd
      && (header != null ==> header in Repr && header.Valid() && header.creds == creds)
      && (chunkHdr != null ==>
            chunkHdr in Repr && chunkHdr.data in Repr && chunkHdr.Valid() && chunkHdr.data != readBuffer)
      && (handler != null ==>
            && handler in Repr && handler.Repr <= Repr && handler.Valid() && handler in handler.Repr
            && this !in handler.Repr && input !in handler.Repr && output !in handler.Repr && readBuffer !in handler.Repr
            && header !in handler.Repr
            && (chunkHdr != null ==> chunkHdr !in handler.Repr && chunkHdr.data !in handler.Repr))
    }

    /** Everything before bol has been decoded; what follows is still in the buffer. */
    ghost predicate At(bol: nat)
      reads this`readSize, this`consumed, this`dec, input, readBuffer
    {
      && bol <= readSize <= readBuffer.Length == 65536
      && input.delivered == consumed + readBuffer[bol..readSize] && dec == Framing.Run(FRESH_DECODER, consumed)
    }

    ghost predicate Shape()
      reads `rrs, `header, `handler, `chunkHdr, `bodyLen, `bodyReadLen, `folder, `own, handler
    {
      && (rrs.Idle? <==> header == null)
      && (rrs.Idle? || rrs.ReadHead? ==> handler == null && chunkHdr == null && bodyLen == 0 && bodyReadLen == 0)
      && bodyReadLen <= bodyLen && (rrs.ReadBody? && chunkHdr == null ==> bodyReadLen < bodyLen)
      && (handler != null ==> folder == (handler.filemgr != null) && Serves(own, handler.filemgr))
      && (handler != null && handler.cgiexe != null ==> handler.cgiexe.input.fd != input.fd)
      && (handler != null ==> Answers(creds, own, handler.response))
      && (handler != null && folder && (rrs.ReadBody? || rrs.ReadTrailer?) ==> handler.response == null)
      && (handler == null && (rrs.ReadBody? || rrs.ReadTrailer?) ==> !folder)
    }

    /** The chunk line collected so far; empty while chunk data is read. */
    ghost function ChunkLine(): Option<Bytes>
      requires Owned()
      reads `header, `chunkHdr, `handler, `Repr,
            header, chunkHdr, BufferObjects(chunkHdr), handler, HandlerObjects(handler)
    {
      if chunkHdr == null then None else Some(chunkHdr.Contents())
    }

    ghost function Received(): Option<Bytes>
      reads `handler, handler
    {
      if handler == null then None else Some(handler.received)
    }

    ghost predicate Means()
      requires Owned()
      reads `rrs, `header, `handler, `chunkHdr, `bodyLen, `bodyReadLen, `dec, `own, `Repr,
            header, chunkHdr, BufferObjects(chunkHdr), handler, HandlerObjects(handler)
    {
      && Follows(dec, rrs, own, if header == null then NEW_REQUEST else header.h, bodyLen - bodyReadLen, ChunkLine(),
                 Received())
      && (rrs.ReadBody? && bodyReadLen < bodyLen && chunkHdr != null ==> chunkHdr.Contents() == [])
      && (header != null && !rrs.ReadHead? ==> header.hasRequestLine)
    }

    ghost predicate Inner()
      reads `rrs, `header, `handler, `chunkHdr, `bodyLen, `bodyReadLen, `folder, `dec, `own, `Repr,
            header, chunkHdr, BufferObjects(chunkHdr), handler, HandlerObjects(handler)
    {
      Owned() && Shape() && Means()
    }

    /** A handler takes no more now: its pipe is full, and there are bytes left. */
    ghost predicate WaitsForPipe(dpr: Dpr, r: Dpr)
      reads `rrs, `handler, `readSize, handler, CgiOf(handler), ResponseOf(handler), WaitObjects(handler)
    {
      r == dpr.(reqState := AwaitWrite, reqFd := PipeIn(handler)) && PipeFull(r.reqFd)
    }

    /** The handler awaits that this pipe can take the bytes left in the buffer. */
    ghost predicate PipeFull(fd: int)
      reads `rrs, `handler, `readSize, handler, CgiOf(handler), ResponseOf(handler), WaitObjects(handler)
    {
      fd == PipeIn(handler) && PipeIsFull(handler) && rrs.ReadBody? && readSize > 0
    }

    /** Body bytes are left in the buffer, but the handler that could not take them is freed, and its pipe closed. */
    predicate Stranded()
      reads `rrs, `handler, `readSize
    {
      handler == null && readSize > 0 && !rrs.ReadFinished?
    }

    /** The open descriptors of the connection. */
    function OpenFds(): set<int>
      reads `handler, handler, CgiOf(handler), ResponseOf(handler)
    {
      {input.fd} + if handler == null then {} else handler.OpenFds()
    }

    /** The program ends because reading from a CGI program failed. */
    ghost predicate CgiFailed()
      reads `handler, handler, CgiOf(handler), OutputOf(handler)
    {
      handler != null && handler.OutputFailed()
    }

    /** The response was finished, and its handler freed, before the request was read. */
    predicate Early()
      reads `rrs, `handler
    {
      handler == null && (rrs.ReadBody? || rrs.ReadTrailer?)
    }

    /** The freed handler is used: for the next body byte, or because the request is complete. */
    ghost predicate UsesFreed(before: Decoder, delivered: Bytes)
      reads `rrs, `handler, `bodyLen, `bodyReadLen, `consumed, `dec, input
    {
      && handler == null && delivered <= input.delivered
      && consumed <= input.delivered && dec == Framing.Run(FRESH_DECODER, consumed)
      && if rrs.ReadFinished? then Grows(before, dec, true)
         else
           && rrs.ReadBody? && bodyReadLen < bodyLen && |consumed| < |input.delivered| && Quiet(before, dec)
           && (dec.Decoder? ==> dec.phase.InBody? && dec.phase.left > 0)
    }

    /** All that has arrived was taken: no body bytes, and nothing that completes the request. */
    ghost predicate StaysEarly(before: Decoder, delivered: Bytes)
      reads `rrs, `handler, `consumed, `dec, input
    {
      && Early() && delivered <= input.delivered
      && consumed == input.delivered && dec == Framing.Run(FRESH_DECODER, consumed) && Quiet(before, dec)
    }

    /** What went wrong in none of the calls so far: bodies, connection headers and output are in order. */
    ghost predicate History()
      reads `rrs, `handler, `dec, `served, `replies, `own, output, handler, ResponseOf(handler)
    {
      && Recorded(dec, served) && KeptAlive(dec, rrs.ReadFinished?) && AllWhole(replies)
      && AllRefused(creds, dec, replies)
      && (Early() ==> replies != [] && Refuses(creds, own, replies[|replies| - 1].head))
      && |replies| + (if rrs.ReadFinished? && handler != null then 1 else 0) == |served| + (if Early() then 1 else 0)
      && output.written == ReplyBytes(replies) + if handler == null then [] else handler.Sent()
    }

    /** Once the request is read there is a handler that can answer. */
    ghost predicate Answering()
      reads `rrs, `handler, handler
    {
      rrs.ReadFinished? ==> handler != null && (handler.response != null || handler.cgiexe != null)
    }

    ghost predicate Sound()
      reads this, input, output, readBuffer, header, chunkHdr, BufferObjects(chunkHdr), handler, ResponseOf(handler),
            HandlerObjects(handler)
    {
      Inner() && At(readOffset) && History() && (readSize > 0 ==> readOffset < readSize)
    }

    ghost predicate Valid()
      reads this, input, output, readBuffer, header, chunkHdr, BufferObjects(chunkHdr), handler, ResponseOf(handler),
            HandlerObjects(handler)
    {
      Sound() && Answering()
    }

    /** conn_new: a connection first awaits the header of its first request. */
    constructor (socketFd: int, credentials: seq<Bytes>)
      ensures Valid() && Repr == {this, input, output, readBuffer, header}
      ensures fresh(input) && fresh(output) && fresh(readBuffer) && fresh(header)
      ensures rrs.ReadHead? && readSize == 0 && consumed == [] && dec == FRESH_DECODER
      ensures input.fd == output.fd == socketFd && creds == credentials
    {
      hide RequestHandler.Valid, RequestHeader.Valid, Serves, Answers, Refuses, KeepsAlive;
      var arrives: seq<ReadEvent> := *;
      var accepts: seq<WriteEvent> := *;
      var i := new Source(socketFd, arrives);
      var o := new Sink(socketFd, accepts);
      var buf := new char[65536](_ => ' ');
      var h := new RequestHeader(credentials);
      input, output, readBuffer, header, creds := i, o, buf, h, credentials;
      readOffset, readSize, rrs, chunkHdr, handler, bodyLen, bodyReadLen := 0, 0, ReadHead, null, null, 0, 0;
      consumed, dec, folder, own, Repr := [], FRESH_DECODER, false, NEW_REQUEST, {this, i, o, buf, h};
      served, replies := [], [];
      new;
      NewIsValid();
    }

    lemma NewIsValid()
      requires {this, input, output, readBuffer, header} == Repr && readBuffer.Length == 65536
      requires header !in {input, output} && input.fd == output.fd
      requires header != null && header.Valid() && header.h == NEW_REQUEST && header.creds == creds
      requires handler == null && chunkHdr == null
      requires readOffset == readSize == bodyLen == bodyReadLen == 0 && rrs.ReadHead?
      requires consumed == [] && dec == FRESH_DECODER
      requires served == [] && replies == [] && input.delivered == [] && output.written == []
      ensures Valid()
    {
      hide RequestHandler.Valid, RequestHeader.Valid, Serves, Answers, Refuses, KeepsAlive;
      assert readBuffer[0..0] == [];
    }

    /** IDLE: a new request starts with its first byte. */
    method StartRequest()
      requires Inner() && rrs.Idle?
      modifies `header, `rrs, `Repr
      ensures Inner() && rrs.ReadHead? && fresh(Repr - old(Repr)) && fresh(header)
    {
      hide RequestHandler.Valid, RequestHeader.Valid, Serves, Answers, Refuses;
      header := new RequestHeader(creds);
      rrs := ReadHead;
      Repr := Repr + {header};
    }

    /** onFinishedHeader: makes the handler, and decides how the body is framed. */
    method OnFinishedHeader(ghost done: seq<Request>)
      requires Owned() && Shape() && rrs.ReadHead? && header.hasRequestLine
      requires dec.Lost? || (header.h.Head? && dec == AfterHead(done, header.h))
      modifies `handler, `chunkHdr, `bodyLen, `rrs, `folder, `own, `Repr
      ensures Inner() && fresh(Repr - old(Repr)) && handler != null && handler.Sent() == [] && rrs !in {Idle, ReadHead}
      ensures dec.Decoder? ==> dec.done == done + if rrs.ReadFinished? then [Untrailed(header.h, [])] else []
    {
      hide RequestHandler.Valid, RequestHeader.Valid, Serves, Answers, Refuses, IsChunked, ContentLength;
      MakeHandler();
      var chunked, length := ReadFraming();
      StartBody(done, chunked, length);
    }

    method StartBody(ghost done: seq<Request>, chunked: bool, length: nat)
      requires Owned() && rrs.ReadHead? && header != null && header.hasRequestLine && handler != null
      requires handler.received == [] && folder == (handler.filemgr != null) && (folder ==> handler.response == null)
      requires Serves(header.h, handler.filemgr) && Answers(creds, header.h, handler.response)
      requires handler.cgiexe != null ==> handler.cgiexe.input.fd != input.fd
      requires chunkHdr == null && bodyLen == 0 && bodyReadLen == 0
      requires dec.Decoder? ==> header.h.Head? && dec == AfterHead(done, header.h)
      requires header.h.Head? ==> chunked == IsChunked(header.h.fields) && length == ContentLength(header.h.fields)
      modifies `chunkHdr, `bodyLen, `rrs, `own, `Repr
      ensures Inner() && fresh(Repr - old(Repr)) && rrs !in {Idle, ReadHead}
      ensures dec.Decoder? ==> dec.done == done + if rrs.ReadFinished? then [Untrailed(header.h, [])] else []
    {
      hide RequestHandler.Valid, RequestHeader.Valid, Serves, Answers, Refuses, IsChunked, ContentLength;
      EmptyConcat(done);
      own := header.h;
      if chunked {
        StartChunks();
      } else {
        bodyLen := length;
        rrs := if bodyLen > 0 then ReadBody else ReadFinished;
      }
    }

    method StartChunks()
      requires Owned() && rrs.ReadHead? && header != null && header.hasRequestLine && handler != null
      requires handler.received == [] && folder == (handler.filemgr != null) && (folder ==> handler.response == null)
      requires own == header.h && Serves(own, handler.filemgr) && Answers(creds, own, handler.response)
      requires handler.cgiexe != null ==> handler.cgiexe.input.fd != input.fd
      requires chunkHdr == null && bodyLen == 0 && bodyReadLen == 0
      requires dec.Decoder? ==> header.h.Head? && dec.phase == InBody(header.h, 0, Some("\r\n"), [])
      modifies `chunkHdr, `rrs, `Repr
      ensures Inner() && fresh(Repr - old(Repr)) && rrs.ReadBody?
    {
      hide RequestHandler.Valid, RequestHeader.Valid, Serves, Answers, Refuses;
      chunkHdr := new MemBuf.WithStr("\r\n");
      Repr := Repr + {chunkHdr, chunkHdr.data};
      rrs := ReadBody;
    }

    /** How the header says the body is framed. */
    method ReadFraming() returns (chunked: bool, length: nat)
      requires header != null && header.Valid()
      ensures header.h.Head? ==> chunked == IsChunked(header.h.fields) && length == ContentLength(header.h.fields)
    {
      hide IsChunked, Lookup, StrToUL, LoginOf, Reads;
      chunked := header.IsChunkedTransferEncoding();
      var val := header.GetHeaderVal("Content-Length");
      length := if val.Some? then StrToUL(val.value, 10) else 0;
    }

    lemma NoRefusal(response: ResponseSender?)
      requires header != null && !header.h.Head?
      ensures Answers(creds, header.h, response)
    {
    }

    /** The header object says what the header means. */
    lemma HeaderSays()
      requires header != null && header.Valid() && header.hasRequestLine && header.h.Head?
      ensures header.h.start.Some?
      ensures var line := Parse(header.h.start.value);
        && header.GetMethod() == line.verb && header.GetPath() == line.path
        && header.loginState == LoginOf(header.creds, line.verb, header.h.fields)
    {
      SameHeadSameRequest(header, header);
    }

    /** What the file system has for the path, and what the user may do, is outside the model. */
    method MakeHandler()
      requires Owned() && header != null && header.hasRequestLine && handler == null && chunkHdr == null
      modifies `handler, `folder, `Repr
      ensures Owned() && handler != null && fresh(handler) && fresh(Repr - old(Repr))
      ensures handler.received == [] && handler.Sent() == [] && folder == (handler.filemgr != null)
      ensures (folder ==> handler.response == null) && Serves(header.h, handler.filemgr)
      ensures handler.cgiexe != null ==> handler.cgiexe.input.fd != input.fd
      ensures Answers(creds, header.h, handler.response)
    {
      hide RequestHandler.Valid, RequestHeader.Valid, Serves, Answers, Refuses;
      handler := NewHandler();
      folder := handler.filemgr != null;
      Repr := Repr + {handler} + handler.Repr;
    }

    method NewHandler() returns (h: RequestHandler)
      requires header != null && header.Valid() && header.creds == creds && header.hasRequestLine
      ensures fresh(h) && fresh(h.Repr) && h.Valid() && h.received == [] && h.Sent() == []
      ensures (h.filemgr != null ==> h.response == null) && Serves(header.h, h.filemgr)
      ensures h.cgiexe != null ==> h.cgiexe.input.fd != input.fd
      ensures Answers(creds, header.h, h.response)
    {
      hide RequestHandler.Valid, RequestHeader.Valid, Serves, Answers, RequestHandler.MadeFor, Parse, LoginOf;
      var servable: bool := *;
      var found: Target := *;
      var destDir: Option<Bytes> := *;
      var inPipe := NewDescriptor(input.fd);
      var outPipe := NewDescriptor(input.fd);
      h := new RequestHandler(header, servable, found, destDir, inPipe, outPipe);
      if header.h.Head? {
        HeaderSays();
        h.AnswersHeader(creds, header.h, servable, found);
      } else {
        NoRefusal(h.response);
      }
    }

    // ----------------------------------------------------------------------------------------------------
    // The read buffer

    /** Bytes of the buffer that are decoded now. */
    ghost method Consume(bol: nat, next: nat)
      requires At(bol) && bol <= next <= readSize
      modifies `consumed, `dec
      ensures At(next) && dec == Framing.Run(old(dec), readBuffer[bol..next])
    {
      var d := readBuffer[bol..next];
      JoinedRanges(readBuffer[..], bol, next, readSize);
      Framing.RunConcat(FRESH_DECODER, consumed, d);
      Assoc(consumed, d, readBuffer[next..readSize]);
      consumed := consumed + d;
      dec := Framing.Run(dec, d);
    }

    /** Goes on at that place of the buffer; an exhausted buffer is empty. */
    method MoveTo(next: nat)
      requires At(next)
      modifies `readOffset, `readSize
      ensures At(readOffset) && (readSize > 0 ==> readOffset < readSize)
      ensures readSize - readOffset == old(readSize) - next
    {
      if next == readSize {
        assert readBuffer[next..next] == readBuffer[0..0];
        readOffset, readSize := 0, 0;
      } else {
        readOffset := next;
      }
    }

    /** The bytes of the buffer before that place are decoded, and done with. */
    method Take(next: nat)
      requires At(readOffset) && readOffset <= next <= readSize
      modifies `readOffset, `readSize, `consumed, `dec
      ensures At(readOffset) && (readSize > 0 ==> readOffset < readSize)
      ensures readSize - readOffset == old(readSize) - next
      ensures dec == Framing.Run(old(dec), old(readBuffer[readOffset..next]))
      ensures next == old(readSize) ==> readSize == 0
    {
      hide Framing.Run;
      Consume(readOffset, next);
      MoveTo(next);
    }

    // ----------------------------------------------------------------------------------------------------
    // appendData

    /** Gives bytes to the header object; nothing else changes. */
    method FeedHeader(data: Bytes) returns (used: int)
      requires Inner() && header != null
      modifies header
      ensures Owned() && Shape() && ChunkLine() == old(ChunkLine()) && Received() == old(Received())
      ensures handler != null ==> handler.Sent() == old(if handler == null then [] else handler.Sent())
      ensures -1 <= used <= |data| && used != 0 && (used >= 0 || old(header.hasRequestLine) ==> header.hasRequestLine)
      ensures header.h == HeaderBlock.Run(old(header.h), Taken(data, used))
      ensures End(old(header.h), data) == if header.h.Head? then used else -1
    {
      hide RequestHandler.Valid, RequestHeader.Valid, Serves, Answers, Refuses, HeaderBlock.Run, End, Follows;
      used := header.AppendData(data);
    }

    /** Gives body bytes to the handler; nothing else changes. */
    method Deliver(data: Bytes, dpr: Dpr) returns (processed: nat, r: Dpr)
      requires Inner() && handler != null
      modifies `Repr, handler.Repr
      ensures Owned() && Shape() && fresh(Repr - old(Repr)) && fresh(handler.Repr - old(handler.Repr))
      ensures processed <= |data| && handler.received == old(handler.received) + data[..processed]
      ensures ChunkLine() == old(ChunkLine()) && handler.Sent() == old(handler.Sent())
      ensures header != null ==> header.h == old(header.h) && header.hasRequestLine == old(header.hasRequestLine)
      ensures processed == |data| ==> r == dpr
      ensures processed < |data| ==> r == dpr.(reqState := AwaitWrite, reqFd := PipeIn(handler)) && PipeIsFull(handler)
    {
      hide RequestHandler.Valid, RequestHeader.Valid, Serves, Answers, Refuses, Follows;
      processed, r := handler.ProcessData(data, dpr);
      Repr := Repr + handler.Repr;
    }

    /** Header bytes; used is -1 while the header is incomplete. */
    method TakeHeadBytes() returns (used: int, ghost done: seq<Request>)
      requires Inner() && At(readOffset) && rrs.ReadHead? && readOffset < readSize
      modifies `readOffset, `readSize, `consumed, `dec, header
      ensures Owned() && Shape() && At(readOffset) && (used < 0 ==> Inner() && readSize == 0)
      ensures used >= 0 ==> header.hasRequestLine && (dec.Lost? || (header.h.Head? && dec == AfterHead(done, header.h)))
      ensures dec.Decoder? ==> old(dec).Decoder? && done == old(dec).done && (used < 0 ==> dec.done == done)
      ensures readSize - readOffset < old(readSize - readOffset) && (readSize > 0 ==> readOffset < readSize)
    {
      hide RequestHandler.Valid, RequestHeader.Valid, Serves, Answers, Refuses;
      hide Framing.Run, HeaderBlock.Run, End, AfterHead;
      ghost var h := header.h;
      done := if dec.Lost? then [] else dec.done;
      var data := readBuffer[readOffset..readSize];
      used := FeedHeader(data);
      var next := if used < 0 then readSize else readOffset + used;
      TakenFromBuffer(readBuffer[..], readOffset, readSize, used);
      if dec.Decoder? {
        RunFirst(done, readBuffer[readOffset..next]);
        TakenHead(done, h, data, used, header.h);
      } else {
        RunLost(readBuffer[readOffset..next]);
      }
      Take(next);
    }

    method TakeHead()
      requires Inner() && At(readOffset) && rrs.ReadHead? && readOffset < readSize
      modifies `readOffset, `readSize, `consumed, `dec, `handler, `chunkHdr, `bodyLen, `rrs, `folder, `own, `Repr,
               header
      ensures Inner() && At(readOffset) && fresh(Repr - old(Repr)) && !rrs.Idle?
      ensures Grows(old(dec), dec, rrs.ReadFinished?)
      ensures readSize - readOffset < old(readSize - readOffset) && (readSize > 0 ==> readOffset < readSize)
      ensures rrs.ReadHead? ==> readSize == 0 && handler == null
      ensures !rrs.ReadHead? ==> handler != null && handler.Sent() == []
    {
      hide RequestHandler.Valid, RequestHeader.Valid, Serves, Answers, Refuses, Framing.Run, AfterHead;
      var used;
      ghost var done;
      used, done := TakeHeadBytes();
      if used >= 0 {
        OnFinishedHeader(done);
      }
    }

    /** Trailer bytes: they are given to the header object, too; used is -1 while the trailer is incomplete. */
    method TakeTrailerBytes() returns (used: int)
      requires Inner() && At(readOffset) && rrs.ReadTrailer? && readOffset < readSize
      modifies `readOffset, `readSize, `consumed, `dec, header
      ensures Owned() && Shape() && At(readOffset) && header.hasRequestLine && (used < 0 ==> Inner() && readSize == 0)
      ensures handler != null ==> handler.Sent() == old(if handler == null then [] else handler.Sent())
      ensures Follows(dec, if used < 0 then ReadTrailer else ReadFinished, own, header.h, bodyLen - bodyReadLen,
                      ChunkLine(), Received())
      ensures Grows(old(dec), dec, used >= 0) && (used < 0 ==> Quiet(old(dec), dec))
      ensures readSize - readOffset < old(readSize - readOffset) && (readSize > 0 ==> readOffset < readSize)
    {
      hide RequestHandler.Valid, RequestHeader.Valid, Serves, Answers, Refuses;
      hide Framing.Run, HeaderBlock.Run, End, Grows;
      hide Follows;
      hide RequestHandler.Sent, Quiet;
      ghost var h := header.h;
      var data := readBuffer[readOffset..readSize];
      used := FeedHeader(data);
      var next := if used < 0 then readSize else readOffset + used;
      TakenFromBuffer(readBuffer[..], readOffset, readSize, used);
      FollowsTrailer(dec, own, h, bodyLen - bodyReadLen, ChunkLine(), Received(), data, used, header.h);
      Take(next);
    }

    method TakeTrailer()
      requires Inner() && At(readOffset) && rrs.ReadTrailer? && readOffset < readSize
      modifies `readOffset, `readSize, `consumed, `dec, `rrs, header
      ensures Inner() && At(readOffset) && (rrs.ReadTrailer? || rrs.ReadFinished?)
      ensures handler != null ==> handler.Sent() == old(if handler == null then [] else handler.Sent())
      ensures Grows(old(dec), dec, rrs.ReadFinished?)
      ensures readSize - readOffset < old(readSize - readOffset) && (readSize > 0 ==> readOffset < readSize)
      ensures rrs.ReadTrailer? ==> readSize == 0 && Quiet(old(dec), dec)
    {
      hide RequestHandler.Valid, RequestHeader.Valid, Serves, Answers, Refuses, Framing.Run, Grows, Follows;
      hide RequestHandler.Sent, Quiet;
      var used := TakeTrailerBytes();
      if used >= 0 {
        EndTrailer();
      }
    }

    method EndTrailer()
      requires Owned() && Shape() && rrs.ReadTrailer? && header.hasRequestLine
      requires Follows(dec, ReadFinished, own, header.h, bodyLen - bodyReadLen, ChunkLine(), Received())
      modifies `rrs
      ensures Inner() && rrs.ReadFinished?
    {
      hide RequestHandler.Valid, RequestHeader.Valid, Serves, Answers, Refuses, Follows;
      rrs := ReadFinished;
    }

    /** Body bytes within the current chunk, as many as the handler takes. */
    method TakeData(bol: nat, dpr: Dpr) returns (next: nat, r: Dpr)
      requires Inner() && At(bol) && rrs.ReadBody? && bodyReadLen < bodyLen && handler != null && bol < readSize
      modifies `bodyReadLen, `rrs, `Repr, `consumed, `dec, handler.Repr
      ensures Inner() && At(next) && bol <= next <= readSize
      ensures fresh(Repr - old(Repr)) && fresh(handler.Repr - old(handler.Repr))
      ensures rrs.ReadBody? || rrs.ReadFinished?
      ensures Grows(old(dec), dec, rrs.ReadFinished?) && handler.Sent() == old(handler.Sent())
      ensures (r == dpr && next > bol) || (WaitsForPipe(dpr, r) && next < readSize)
    {
      hide RequestHandler.Valid, RequestHeader.Valid, Serves, Answers, Refuses, Framing.Run, Follows, Grows;
      hide RequestHandler.Sent, Lookup;
      var addLen := if bodyReadLen + (readSize - bol) > bodyLen then bodyLen - bodyReadLen else readSize - bol;
      ghost var body := handler.received;
      var data := readBuffer[bol..bol + addLen];
      var processed;
      processed, r := Deliver(data, dpr);
      next := bol + processed;
      PrefixOfRange(readBuffer[..], bol, addLen, processed);
      DataTaken(bol, processed, body);
    }

    /** The handler has taken n bytes of the buffer. */
    method DataTaken(bol: nat, n: nat, ghost body: Bytes)
      requires Owned() && Shape() && At(bol) && rrs.ReadBody? && handler != null && header.hasRequestLine
      requires bol + n <= readSize && bodyReadLen + n <= bodyLen && bodyReadLen < bodyLen
      requires chunkHdr != null ==> chunkHdr.Contents() == []
      requires handler.received == body + readBuffer[bol..bol + n]
      requires Follows(dec, ReadBody, own, header.h, bodyLen - bodyReadLen, ChunkLine(), Some(body))
      modifies `bodyReadLen, `rrs, `consumed, `dec
      ensures Inner() && At(bol + n) && Grows(old(dec), dec, rrs.ReadFinished?)
      ensures bodyReadLen == old(bodyReadLen) + n
      ensures rrs == if bodyReadLen == bodyLen && chunkHdr == null then ReadFinished else ReadBody
    {
      hide RequestHandler.Valid, RequestHeader.Valid, Serves, Answers, Refuses, Framing.Run, Follows, Grows;
      FollowsData(dec, own, header.h, bodyLen - bodyReadLen, ChunkLine(), body, readBuffer[bol..bol + n]);
      Consume(bol, bol + n);
      CountData(n);
    }

    /** One turn of the loop over body data. */
    method BodyTurn(bol: nat, dpr: Dpr) returns (next: nat, r: Dpr, crashed: bool)
      requires Inner() && At(bol) && rrs.ReadBody? && bol < readSize && dpr.reqState.Ready?
      modifies `bodyLen, `bodyReadLen, `rrs, `Repr, `consumed, `dec, chunkHdr, HandlerObjects(handler)
      ensures handler == old(handler) && chunkHdr == old(chunkHdr)
      ensures readOffset == old(readOffset) && readSize == old(readSize)
      ensures crashed <==> old(handler == null && bodyReadLen < bodyLen)
      ensures crashed ==> rrs.ReadBody? && bodyReadLen < bodyLen && next == bol
      ensures Inner() && At(next) && bol <= next <= readSize && Grows(old(dec), dec, rrs.ReadFinished?)
      ensures rrs.ReadBody? || rrs.ReadTrailer? || rrs.ReadFinished?
      ensures handler == null ==> Quiet(old(dec), dec) && !rrs.ReadFinished? && r == dpr
      ensures fresh(Repr - old(Repr)) && fresh(HandlerObjects(handler) - old(HandlerObjects(handler)))
      ensures handler != null ==> handler.Sent() == old(if handler == null then [] else handler.Sent())
      ensures (r == dpr && (crashed || next > bol)) || (!crashed && WaitsForPipe(dpr, r) && next < readSize)
    {
      hide RequestHandler.Valid, RequestHeader.Valid, Serves, Answers, Refuses;
      hide Framing.Run, Follows, RequestHandler.Sent;
      hide Quiet;
      SameIsQuiet(dec);
      next, r, crashed := bol, dpr, false;
      if bodyReadLen < bodyLen {
        if handler == null {
          return bol, dpr, true;
        }
        next, r := TakeData(bol, dpr);
      }
      if r.reqState.Ready? && rrs.ReadBody? && bodyReadLen == bodyLen {
        next := TakeChunkLine(next);
      }
    }

    /** The loop over body data. */
    method BodyTurns(dpr: Dpr) returns (bol: nat, r: Dpr, crashed: bool)
      requires Inner() && At(readOffset) && rrs.ReadBody? && readOffset < readSize && dpr.reqState.Ready?
      modifies `bodyLen, `bodyReadLen, `rrs, `Repr, `consumed, `dec, chunkHdr, HandlerObjects(handler)
      ensures handler == old(handler) && Inner() && At(bol) && readOffset <= bol <= readSize
      ensures crashed ==> UsesFreed(old(dec), input.delivered)
      ensures crashed || handler == null ==> handler == null && Quiet(old(dec), dec) && !rrs.ReadFinished? && r == dpr
      ensures rrs.ReadBody? || rrs.ReadTrailer? || rrs.ReadFinished?
      ensures Grows(old(dec), dec, rrs.ReadFinished?)
      ensures fresh(Repr - old(Repr)) && fresh(HandlerObjects(handler) - old(HandlerObjects(handler)))
      ensures handler != null ==> handler.Sent() == old(if handler == null then [] else handler.Sent())
      ensures r == dpr || (WaitsForPipe(dpr, r) && bol < readSize)
      ensures !crashed && r == dpr ==> bol > readOffset && (rrs.ReadBody? ==> bol == readSize)
    {
      hide RequestHandler.Valid, RequestHeader.Valid, Serves, Answers, Refuses;
      hide Framing.Run, Follows, RequestHandler.Sent;
      hide Quiet;
      hide UsesFreed, At;
      bol, r, crashed := readOffset, dpr, false;
      SameIsQuiet(dec);
      BufferBounds(bol);
      while r.reqState.Ready? && rrs.ReadBody? && bol < readSize
        invariant Inner() && At(bol) && readOffset <= bol <= readSize && !crashed
        invariant handler == old(handler) && chunkHdr == old(chunkHdr)
        invariant readOffset == old(readOffset) && readSize == old(readSize)
        invariant rrs.ReadBody? || rrs.ReadTrailer? || rrs.ReadFinished?
        invariant fresh(Repr - old(Repr)) && fresh(HandlerObjects(handler) - old(HandlerObjects(handler)))
        invariant handler != null ==> handler.Sent() == old(if handler == null then [] else handler.Sent())
        invariant Grows(old(dec), dec, rrs.ReadFinished?)
        invariant r == dpr || (WaitsForPipe(dpr, r) && bol < readSize)
        invariant bol == readOffset ==> rrs.ReadBody?
        invariant handler == null ==> Quiet(old(dec), dec) && !rrs.ReadFinished? && r == dpr
        decreases readSize - bol, r.reqState.Ready?
      {
        ghost var before := dec;
        bol, r, crashed := BodyTurn(bol, r);
        QuietThrough(old(dec), before, dec);
        if crashed {
          CrashesInBody(old(dec), bol);
          return;
        }
      }
    }

    lemma BufferBounds(bol: nat)
      requires At(bol)
      ensures bol <= readSize
    {
    }

    /** appendBodyData; it crashes when body data arrives after the handler was freed. */
    method AppendBodyData(dpr: Dpr) returns (r: Dpr, crashed: bool)
      requires Inner() && At(readOffset) && rrs.ReadBody? && readOffset < readSize && dpr.reqState.Ready?
      modifies `bodyLen, `bodyReadLen, `rrs, `Repr, `consumed, `dec, `readOffset, `readSize, chunkHdr,
               HandlerObjects(handler)
      ensures crashed ==> handler == null && UsesFreed(old(dec), input.delivered)
      ensures !crashed && handler == null ==> Quiet(old(dec), dec) && !rrs.ReadFinished? && r == dpr
      ensures !crashed ==> Inner() && At(readOffset) && Grows(old(dec), dec, rrs.ReadFinished?)
      ensures !crashed ==> rrs.ReadBody? || rrs.ReadTrailer? || rrs.ReadFinished?
      ensures fresh(Repr - old(Repr)) && fresh(HandlerObjects(handler) - old(HandlerObjects(handler)))
      ensures handler != null ==> handler.Sent() == old(if handler == null then [] else handler.Sent())
      ensures !crashed ==> readSize > 0 ==> readOffset < readSize
      ensures r == dpr || WaitsForPipe(dpr, r)
      ensures !crashed ==> readSize - readOffset <= old(readSize - readOffset)
      ensures !crashed && r == dpr ==>
        readSize - readOffset < old(readSize - readOffset) && (rrs.ReadBody? ==> readSize == 0)
    {
      hide RequestHandler.Valid, RequestHeader.Valid, Serves, Answers, Refuses;
      hide Framing.Run, Follows, RequestHandler.Sent;
      hide Quiet;
      hide UsesFreed, At;
      hide Grows;
      var bol;
      bol, r, crashed := BodyTurns(dpr);
      if !crashed {
        MoveTo(bol);
      }
    }

    lemma CrashesInBody(before: Decoder, bol: nat)
      requires Inner() && At(bol) && rrs.ReadBody? && bodyReadLen < bodyLen && bol < readSize && handler == null
      requires Quiet(before, dec)
      ensures UsesFreed(before, input.delivered)
    {
      hide RequestHandler.Valid, RequestHeader.Valid, Serves, Answers, Refuses, Framing.Run, Quiet;
    }

    method AppendLine(data: Bytes)
      requires Inner() && chunkHdr != null
      modifies `Repr, chunkHdr
      ensures Owned() && Shape() && fresh(Repr - old(Repr))
      ensures ChunkLine() == Some(old(chunkHdr.Contents()) + data) && Received() == old(Received())
      ensures header == null || header.h == old(header.h)
    {
      hide RequestHandler.Valid, RequestHeader.Valid, Serves, Answers, Refuses, Follows;
      chunkHdr.AppendData(data);
      Repr := Repr + {chunkHdr.data};
    }

    /** Collects a chunk line up to its LF or the end of the data; its first two bytes end the previous chunk. */
    method FindLineEnd(bol: nat) returns (eol: nat)
      requires Owned() && chunkHdr != null && bol <= readSize <= readBuffer.Length
      ensures bol <= eol <= readSize
      ensures forall i :: bol <= i < eol && chunkHdr.dataLen + (i - bol) >= 2 ==> readBuffer[i] != '\n'
      ensures eol < readSize ==> readBuffer[eol] == '\n' && chunkHdr.dataLen + (eol - bol) >= 2
    {
      hide RequestHandler.Valid, RequestHeader.Valid, Serves, Answers, Refuses;
      var cur := bol;
      if chunkHdr.dataLen < 2 {
        cur := cur + if readSize - bol < 2 - chunkHdr.dataLen then readSize - bol else 2 - chunkHdr.dataLen;
      }
      eol := IndexFrom(readBuffer[..readSize], '\n', cur);
    }

    /** A chunk line, or what there is of it. */
    method TakeChunkLine(bol: nat) returns (next: nat)
      requires Inner() && At(bol) && rrs.ReadBody? && bodyReadLen == bodyLen && chunkHdr != null
      modifies `bodyLen, `rrs, `Repr, `consumed, `dec, chunkHdr
      ensures Inner() && At(next) && bol <= next <= readSize && (bol < readSize ==> bol < next)
      ensures fresh(Repr - old(Repr)) && (rrs.ReadBody? || rrs.ReadTrailer?)
      ensures Grows(old(dec), dec, false) && Quiet(old(dec), dec)
    {
      hide RequestHandler.Valid, RequestHeader.Valid, Serves, Answers, Refuses, Framing.Run, Follows, Grows, Quiet;
      var eol := FindLineEnd(bol);
      if eol < readSize {
        TakeWholeLine(bol, eol);
        next := eol + 1;
      } else {
        TakeLineStart(bol);
        next := readSize;
      }
    }

    /** The rest of the buffer does not complete the line. */
    method TakeLineStart(bol: nat)
      requires Inner() && At(bol) && rrs.ReadBody? && bodyReadLen == bodyLen && chunkHdr != null
      requires forall i :: bol <= i < readSize && chunkHdr.dataLen + (i - bol) >= 2 ==> readBuffer[i] != '\n'
      modifies `Repr, `consumed, `dec, chunkHdr
      ensures Inner() && At(readSize) && fresh(Repr - old(Repr))
      ensures Grows(old(dec), dec, false) && Quiet(old(dec), dec)
    {
      hide RequestHandler.Valid, RequestHeader.Valid, Serves, Answers, Refuses, Framing.Run, Follows, Grows, Quiet;
      FollowsLine(dec, own, header.h, chunkHdr.Contents(), Received(), readBuffer[bol..readSize]);
      AppendLine(readBuffer[bol..readSize]);
      Consume(bol, readSize);
    }

    /** The line ends at eol. */
    method TakeWholeLine(bol: nat, eol: nat)
      requires Inner() && At(bol) && rrs.ReadBody? && bodyReadLen == bodyLen && chunkHdr != null
      requires bol <= eol < readSize && readBuffer[eol] == '\n' && chunkHdr.dataLen + (eol - bol) >= 2
      requires forall i :: bol <= i < eol && chunkHdr.dataLen + (i - bol) >= 2 ==> readBuffer[i] != '\n'
      modifies `bodyLen, `rrs, `Repr, `consumed, `dec, chunkHdr
      ensures Inner() && At(eol + 1) && fresh(Repr - old(Repr))
      ensures Grows(old(dec), dec, false) && Quiet(old(dec), dec)
      ensures rrs.ReadBody? || rrs.ReadTrailer?
    {
      hide RequestHandler.Valid, RequestHeader.Valid, Serves, Answers, Refuses, Framing.Run, Follows, Grows, Quiet;
      FollowsLine(dec, own, header.h, chunkHdr.Contents(), Received(), readBuffer[bol..eol]);
      AppendLine(readBuffer[bol..eol]);
      RangeWithNext(readBuffer[..], bol, eol);
      Consume(bol, eol + 1);
      EndLine();
    }

    /** The chunk line is complete: a size of 0 ends the body. */
    method EndLine()
      requires Owned() && Shape() && rrs.ReadBody? && bodyReadLen == bodyLen
      requires chunkHdr != null && chunkHdr.dataLen >= 2 && header.hasRequestLine
      requires var size := ChunkSize(chunkHdr.Contents());
        Follows(dec, if size == 0 then ReadTrailer else ReadBody, own, header.h, size, Some([]), Received())
      modifies `bodyLen, `rrs, `Repr, chunkHdr
      ensures Inner() && fresh(Repr - old(Repr)) && (rrs.ReadBody? || rrs.ReadTrailer?)
    {
      hide RequestHandler.Valid, RequestHeader.Valid, Serves, Answers, Refuses, Follows;
      var size := StrToUL(chunkHdr.Contents()[2..], 16) % UINT_RANGE;
      if size == 0 {
        rrs := ReadTrailer;
      } else {
        bodyLen := bodyLen + size;
      }
      chunkHdr.Resize(0);
      Repr := Repr + {chunkHdr.data};
    }

    /** That much more of the body was taken; without chunks the body may be complete now. */
    method CountData(n: nat)
      requires Owned() && Shape() && rrs.ReadBody? && header.hasRequestLine
      requires bodyReadLen + n <= bodyLen && (chunkHdr != null ==> chunkHdr.Contents() == [])
      requires Follows(dec, if bodyReadLen + n == bodyLen && chunkHdr == null then ReadFinished else ReadBody,
                       own, header.h, bodyLen - bodyReadLen - n, ChunkLine(), Received())
      modifies `bodyReadLen, `rrs
      ensures Inner() && bodyReadLen == old(bodyReadLen) + n
      ensures rrs == if bodyReadLen == bodyLen && chunkHdr == null then ReadFinished else ReadBody
    {
      hide RequestHandler.Valid, RequestHeader.Valid, Serves, Answers, Refuses, Follows;
      bodyReadLen := bodyReadLen + n;
      if bodyReadLen == bodyLen && chunkHdr == null {
        rrs := ReadFinished;
      }
    }

    /** The start of a request and its header. */
    method DecodeHead()
      requires Inner() && At(readOffset) && (rrs.Idle? || rrs.ReadHead?) && readOffset < readSize
      modifies `readOffset, `readSize, `consumed, `dec, `handler, `chunkHdr, `bodyLen, `rrs, `folder, `own, `Repr,
               `header, header
      ensures Inner() && At(readOffset) && fresh(Repr - old(Repr)) && !rrs.Idle?
      ensures Grows(old(dec), dec, rrs.ReadFinished?)
      ensures readSize - readOffset < old(readSize - readOffset) && (readSize > 0 ==> readOffset < readSize)
      ensures rrs.ReadHead? ==> readSize == 0 && handler == null
      ensures !rrs.ReadHead? ==> handler != null && handler.Sent() == []
    {
      hide RequestHandler.Valid, RequestHeader.Valid, Serves, Answers, Refuses;
      hide Framing.Run, Follows, RequestHandler.Sent;
      if rrs.Idle? {
        StartRequest();
      }
      TakeHead();
    }

    /** Body bytes, and then trailer bytes. */
    method DecodeBody(dpr: Dpr) returns (r: Dpr, crashed: bool)
      requires Inner() && At(readOffset) && (rrs.ReadBody? || rrs.ReadTrailer?) && readOffset < readSize
      requires dpr.reqState.Ready?
      modifies `bodyLen, `bodyReadLen, `rrs, `Repr, `consumed, `dec, `readOffset, `readSize, header, chunkHdr,
               HandlerObjects(handler)
      ensures fresh(Repr - old(Repr)) && handler == old(handler) && (crashed ==> handler == null)
      ensures crashed ==> UsesFreed(old(dec), input.delivered)
      ensures !crashed && handler == null ==> r == dpr
      ensures !crashed && handler == null && !rrs.ReadFinished? ==> Quiet(old(dec), dec) && readSize == 0
      ensures !crashed ==> Inner() && At(readOffset) && Grows(old(dec), dec, rrs.ReadFinished?)
      ensures !crashed ==> (readSize > 0 ==> readOffset < readSize) && rrs !in {Idle, ReadHead}
      ensures !crashed && handler != null ==> handler.Sent() == old(if handler == null then [] else handler.Sent())
      ensures r == dpr || WaitsForPipe(dpr, r)
      ensures !crashed ==> readSize - readOffset <= old(readSize - readOffset)
      ensures !crashed && r == dpr ==> readSize - readOffset < old(readSize - readOffset)
    {
      hide RequestHandler.Valid, RequestHeader.Valid, Serves, Answers, Refuses;
      hide Framing.Run, Follows, RequestHandler.Sent;
      hide Quiet;
      hide UsesFreed;
      r, crashed := dpr, false;
      SameIsQuiet(dec);
      if rrs.ReadBody? {
        r, crashed := AppendBodyData(dpr);
      }
      if !crashed && rrs.ReadTrailer? && readSize > 0 {
        ghost var before := dec;
        TakeTrailer();
        QuietThrough(old(dec), before, dec);
      }
    }

    /** Everything appendData does but telling the handler that the request is complete. */
    method Decode(dpr: Dpr) returns (r: Dpr, crashed: bool)
      requires Inner() && At(readOffset) && !rrs.ReadFinished? && readOffset < readSize && dpr.reqState.Ready?
      modifies Repr
      ensures fresh(Repr - old(Repr)) && served == old(served) && replies == old(replies)
      ensures crashed ==> old(Early()) && UsesFreed(old(dec), input.delivered)
      ensures !crashed && old(Early()) ==> r == dpr && own == old(own)
      ensures !crashed && old(Early()) && !rrs.ReadFinished? ==> Quiet(old(dec), dec) && readSize == 0
      ensures input.delivered == old(input.delivered) && input.script == old(input.script)
      ensures input.tries == old(input.tries)
      ensures output.written == old(output.written) && output.tries == old(output.tries)
      ensures !crashed ==> Inner() && At(readOffset) && Grows(old(dec), dec, rrs.ReadFinished?) && !rrs.Idle?
      ensures !crashed ==> (readSize > 0 ==> readOffset < readSize)
      ensures !crashed && rrs.ReadHead? ==> handler == null && old(handler == null && !Early())
      ensures !crashed && !rrs.ReadHead? ==> (handler == null <==> old(Early()))
      ensures !crashed && handler != null ==> handler.Sent() == old(if handler == null then [] else handler.Sent())
      ensures r == dpr || WaitsForPipe(dpr, r)
      ensures !crashed ==> readSize - readOffset <= old(readSize - readOffset)
      ensures !crashed && r == dpr ==> readSize - readOffset < old(readSize - readOffset)
    {
      hide RequestHandler.Valid, RequestHeader.Valid, Serves, Answers, Refuses;
      hide Framing.Run, Follows, RequestHandler.Sent;
      hide Quiet;
      hide UsesFreed;
      r, crashed := dpr, false;
      if rrs.Idle? || rrs.ReadHead? {
        DecodeHead();
      }
      if (rrs.ReadBody? || rrs.ReadTrailer?) && readSize > 0 {
        r, crashed := DecodeBody(dpr);
      }
    }

    /** Outside an early response there are not more replies than requests. */
    lemma NotAhead()
      requires Valid() && !rrs.ReadFinished? && !Early()
      ensures dec.Decoder? ==> |replies| <= |dec.done|
    {
      hide RequestHandler.Valid, RequestHeader.Valid, Serves, Answers, Refuses, Framing.Run, Follows, KeptAlive;
      hide RequestHandler.Sent, AllWhole, ReplyBytes, AllRefused;
    }

    /** The request is complete: from now on the handler can answer. */
    method CompleteRequest()
      requires Inner() && At(readOffset) && rrs.ReadFinished? && handler != null
      modifies `served, `Repr, handler.Repr
      ensures Inner() && At(readOffset) && Answering() && fresh(Repr - old(Repr))
      ensures served == old(served) + [handler.received] && handler.Sent() == old(handler.Sent())
      ensures dec.Decoder? ==> dec.done != [] && dec.done[|dec.done| - 1].body == handler.received
    {
      hide RequestHandler.Valid, RequestHeader.Valid, Serves, Answers, Refuses, Framing.Run, RequestHandler.Sent;
      hide KeepsAlive, AllRefused;
      ghost var none := handler.response == null;
      handler.RequestReadCompleted(header);
      if none {
        AnswersAny(creds, own, handler.response);
      }
      Repr := Repr + handler.Repr;
      served := served + [handler.received];
    }

    /** appendData */
    method AppendData(dpr: Dpr) returns (r: Dpr, crashed: bool)
      requires Valid() && !rrs.ReadFinished? && readSize > 0 && dpr.reqState.Ready?
      modifies Repr
      ensures fresh(Repr - old(Repr)) && (crashed ==> old(Early()) && UsesFreed(old(dec), input.delivered))
      ensures input.delivered == old(input.delivered) && input.script == old(input.script)
      ensures input.tries == old(input.tries)
      ensures output.tries == old(output.tries)
      ensures !crashed ==> Valid() && !rrs.Idle? && (Early() <==> old(Early()))
      ensures !crashed && old(Early()) ==> r == dpr && readSize == 0 && Quiet(old(dec), dec)
      ensures r == dpr || WaitsForPipe(dpr, r)
      ensures !crashed ==> readSize - readOffset <= old(readSize - readOffset)
      ensures !crashed && r == dpr ==> readSize - readOffset < old(readSize - readOffset)
    {
      hide RequestHandler.Valid, RequestHeader.Valid, Serves, Answers, Refuses;
      hide Framing.Run, Follows, RequestHandler.Sent;
      hide Grows;
      hide Recorded, KeptAlive;
      hide At, Means, AllWhole, ReplyBytes, Quiet, UsesFreed;
      ghost var before, was := dec, served;
      if !Early() {
        NotAhead();
      }
      r, crashed := Decode(dpr);
      if !crashed {
        if !rrs.ReadFinished? {
          NothingDone(before, dec, was);
          StillRefused(creds, before, dec, replies, false);
        } else if handler == null {
          CrashesAtEnd(before);
          crashed := true;
        } else {
          CompleteRequest();
          OneDone(before, dec, was, handler.received);
          StillRefused(creds, before, dec, replies, true);
        }
      }
    }

    lemma CrashesAtEnd(before: Decoder)
      requires At(readOffset) && rrs.ReadFinished? && handler == null && Grows(before, dec, true)
      ensures UsesFreed(before, input.delivered)
    {
      hide Framing.Run, Grows;
    }

    // ----------------------------------------------------------------------------------------------------
    // conn_processDataReady

    /** What was read goes to the start of the buffer. */
    method Load(bytes: Bytes)
      requires Inner() && History() && Answering() && readSize == 0 && readOffset == 0
      requires 0 < |bytes| <= 65536 == readBuffer.Length
      requires input.delivered == consumed + bytes && dec == Framing.Run(FRESH_DECODER, consumed)
      modifies `readSize, readBuffer
      ensures Valid() && readSize == |bytes|
    {
      hide RequestHandler.Valid, RequestHeader.Valid, Serves, Answers, Refuses;
      hide Framing.Run, Follows, RequestHandler.Sent;
      hide Recorded;
      hide KeptAlive;
      hide AllWhole, ReplyBytes;
      forall i | 0 <= i < |bytes| {
        readBuffer[i] := bytes[i];
      }
      readSize := |bytes|;
      assert readBuffer[0..readSize] == bytes;
    }

    /** Reads into the empty buffer; end of file and errors close the connection. */
    method ReadSocket(dpr: Dpr) returns (r: Dpr)
      requires Valid() && readSize == 0
      modifies `readSize, readBuffer, input
      ensures Valid() && Fuel(input.script) <= old(Fuel(input.script)) && input.tries > old(input.tries)
      ensures readSize > 0 ==> r == dpr && Fuel(input.script) < old(Fuel(input.script))
      ensures Grew(old(input.delivered), readSize > 0)
      ensures readSize == 0 ==>
        (r == dpr.(reqState := AwaitRead, reqFd := input.fd) && input.dry)
        || (r == dpr.(closeConn := true) && (input.ended || input.errored))
    {
      hide RequestHandler.Valid, RequestHeader.Valid, Serves, Answers, Refuses;
      hide Framing.Run, Follows, RequestHandler.Sent;
      hide Recorded;
      hide KeptAlive;
      r := dpr;
      assert readBuffer[0..0] == [];
      EmptyConcat(consumed);
      var rd := input.Read(65536);
      match rd {
        case Got(bytes) =>
          Load(bytes);
        case WouldBlock =>
          r := dpr.(reqState := AwaitRead, reqFd := input.fd);
        case Eof =>
          r := dpr.(closeConn := true);
        case ReadError(connReset) =>
          r := dpr.(closeConn := true);
      }
    }

    /** A reason to close the connection: it is broken, or the last request asks for it and has got its reply. */
    ghost predicate MayClose()
      reads `dec, `served, `replies, input, output
    {
      input.ended || input.errored || output.broken || dec.Lost? || AllReplied()
    }

    /** Every request has got its complete reply, nothing else was sent, and the last one ends the connection. */
    ghost predicate AllReplied()
      requires dec.Decoder?
      reads `dec, `served, `replies, output
    {
      && dec.done != [] && !KeepsAlive(dec.done[|dec.done| - 1].head)
      && |replies| == |served| == |dec.done| && AllWhole(replies) && output.written == ReplyBytes(replies)
    }

    /** What the socket has delivered has grown, if anything was read. */
    ghost predicate Grew(before: Bytes, gotData: bool)
      reads input
    {
      before <= input.delivered && (gotData <==> |input.delivered| > |before|)
    }

    /** The socket was read when the result says that it has nothing to deliver. */
    ghost predicate ReadMore(r: Dpr, before: nat)
      reads input
    {
      input.tries >= before && (r.reqState.AwaitRead? ==> input.tries > before)
    }

    /** The socket was written to when the result says that it has no room. */
    ghost predicate WroteMore(r: Dpr, before: nat)
      reads output
    {
      output.tries >= before && (r.respState.AwaitWrite? ==> output.tries > before)
    }

    lemma SinceThen(before: Decoder, delivered: Bytes)
      requires delivered <= input.delivered
      ensures UsesFreed(before, input.delivered) ==> UsesFreed(before, delivered)
    {
    }

    /** One turn of the inner loop. */
    method ReadTurn(dpr: Dpr) returns (r: Dpr, gotData: bool, crashed: bool)
      requires Valid() && !dpr.closeConn && dpr.reqState.Ready? && !rrs.ReadFinished?
      modifies Repr
      ensures fresh(Repr - old(Repr)) && (crashed ==> old(Early()) && UsesFreed(old(dec), old(input.delivered)))
      ensures !crashed ==> Valid() && (Early() <==> old(Early()))
      ensures !crashed && old(Early()) ==> readSize == 0 && Quiet(old(dec), dec)
      ensures r == dpr.(closeConn := r.closeConn, reqState := r.reqState, reqFd := r.reqFd)
      ensures !crashed && r.reqState.AwaitRead? ==> r.reqFd == input.fd && input.dry && readSize == 0
      ensures ReadMore(r, old(input.tries)) && output.tries == old(output.tries)
      ensures !crashed && r.reqState.AwaitWrite? ==> PipeFull(r.reqFd)
      ensures r.closeConn ==> r.reqState.Ready? && MayClose()
      ensures !crashed ==> Grew(old(input.delivered), gotData)
      ensures r.reqState.Ready? ==> r == dpr.(closeConn := r.closeConn)
      ensures !crashed && !r.reqState.Ready? ==> !rrs.ReadFinished?
      ensures !crashed && !gotData ==> old(rrs.Idle? && readSize == 0) ==> rrs.Idle? && readSize == 0
      ensures !crashed ==>
        Nearer(old(Fuel(input.script)), old(readSize - readOffset))
        || (Fuel(input.script) <= old(Fuel(input.script)) && readSize - readOffset <= old(readSize - readOffset)
            && (r.closeConn || !r.reqState.Ready?))
    {
      hide RequestHandler.Valid, RequestHeader.Valid, Serves, Answers, Refuses;
      hide Framing.Run, Follows, RequestHandler.Sent;
      hide Recorded;
      hide KeptAlive;
      hide Quiet, UsesFreed;
      r, gotData, crashed := dpr, false, false;
      SameIsQuiet(dec);
      if readSize == 0 {
        r := ReadSocket(r);
        gotData := readSize > 0;
      }
      if readSize != 0 {
        r, crashed := AppendData(r);
        SinceThen(old(dec), old(input.delivered));
      }
    }

    /** The inner loop: reads and decodes until something blocks or the request is complete. */
    method ReadRequest(dpr: Dpr) returns (r: Dpr, gotData: bool, crashed: bool)
      requires Valid() && !dpr.closeConn && dpr.reqState.Ready?
      modifies Repr
      ensures fresh(Repr - old(Repr)) && (crashed ==> old(Early()) && UsesFreed(old(dec), old(input.delivered)))
      ensures !crashed ==> Valid() && (Early() ==> old(Early()))
      ensures !crashed && old(Early()) ==> StaysEarly(old(dec), old(input.delivered))
      ensures !crashed && !r.closeConn ==> (rrs.ReadFinished? <==> r.reqState.Ready?)
      ensures r == dpr.(closeConn := r.closeConn, reqState := r.reqState, reqFd := r.reqFd)
      ensures r.reqState.Ready? ==> r == dpr.(closeConn := r.closeConn)
      ensures !crashed && r.reqState.AwaitRead? ==> r.reqFd == input.fd && input.dry && readSize == 0
      ensures !crashed && r.reqState.AwaitWrite? ==> PipeFull(r.reqFd)
      ensures ReadMore(r, old(input.tries)) && output.tries == old(output.tries)
      ensures !crashed ==> Grew(old(input.delivered), gotData) && (r.closeConn ==> MayClose())
      ensures !crashed && !gotData ==> old(rrs.Idle? && readSize == 0) ==> rrs.Idle?
      ensures !crashed && !r.closeConn && r.reqState.Ready? ==>
        Nearer(old(Fuel(input.script)), old(readSize - readOffset))
        || (rrs == old(rrs) && Same(old(Fuel(input.script)), old(readSize - readOffset)))
    {
      hide RequestHandler.Valid, RequestHeader.Valid, Serves, Answers, Refuses;
      hide Framing.Run, Follows, RequestHandler.Sent;
      hide Recorded;
      hide KeptAlive;
      hide Quiet, UsesFreed, StaysEarly;
      r, gotData, crashed := dpr, false, false;
      SameIsQuiet(dec);
      while !r.closeConn && r.reqState.Ready? && !rrs.ReadFinished?
        invariant Valid() && fresh(Repr - old(Repr)) && !crashed
        invariant (Early() ==> old(Early())) && (old(Early()) ==> Early() && Quiet(old(dec), dec))
        invariant old(Early()) && (r.closeConn || !r.reqState.Ready?) ==> readSize == 0
        invariant r == dpr.(closeConn := r.closeConn, reqState := r.reqState, reqFd := r.reqFd)
        invariant r.reqState.AwaitRead? ==> r.reqFd == input.fd && input.dry && readSize == 0
        invariant r.reqState.AwaitWrite? ==> PipeFull(r.reqFd)
        invariant ReadMore(r, old(input.tries)) && output.tries == old(output.tries)
        invariant r.reqState.Ready? ==> r == dpr.(closeConn := r.closeConn)
        invariant (r.closeConn ==> r.reqState.Ready?) && (!r.reqState.Ready? ==> !rrs.ReadFinished?)
        invariant Grew(old(input.delivered), gotData) && (r.closeConn ==> MayClose())
        invariant !gotData ==> old(rrs.Idle? && readSize == 0) ==> rrs.Idle? && readSize == 0
        invariant !r.closeConn && r.reqState.Ready? ==>
          Nearer(old(Fuel(input.script)), old(readSize - readOffset))
          || (rrs == old(rrs) && Same(old(Fuel(input.script)), old(readSize - readOffset)))
        decreases Fuel(input.script), readSize - readOffset, !r.closeConn && r.reqState.Ready?
      {
        var got;
        ghost var before, delivered := dec, input.delivered;
        r, got, crashed := ReadTurn(r);
        gotData := gotData || got;
        if crashed {
          CrashesLater(old(dec), old(input.delivered), before, delivered);
          return;
        }
        QuietThrough(old(dec), before, dec);
      }
      if old(Early()) {
        AllTaken(old(dec), old(input.delivered));
      }
    }

    /** What was quiet before the crash does not matter. */
    lemma CrashesLater(first: Decoder, delivered: Bytes, before: Decoder, delivered': Bytes)
      requires Quiet(first, before) && delivered <= delivered' && UsesFreed(before, delivered')
      ensures UsesFreed(first, delivered)
    {
      hide Framing.Run;
    }

    lemma AllTaken(before: Decoder, delivered: Bytes)
      requires Valid() && Early() && Quiet(before, dec) && readSize == 0 && delivered <= input.delivered
      ensures StaysEarly(before, delivered)
    {
      hide RequestHandler.Valid, RequestHeader.Valid, Serves, Answers, Refuses;
      hide Framing.Run, Follows, RequestHandler.Sent;
      hide Recorded;
      hide KeptAlive, Quiet;
      assert readBuffer[0..0] == [];
      EmptyConcat(consumed);
    }

    /** Fewer read events are left, or as many and fewer bytes in the buffer. */
    ghost predicate Nearer(fuel: nat, left: int)
      reads `readSize, `readOffset, input
    {
      Fuel(input.script) < fuel || (Fuel(input.script) == fuel && readSize - readOffset < left)
    }

    ghost predicate Same(fuel: nat, left: int)
      reads `readSize, `readOffset, input
    {
      Fuel(input.script) == fuel && readSize - readOffset == left
    }

    /** Progresses the response, and frees the handler when it is finished. */
    method Respond(dpr: Dpr) returns (r: Dpr, finished: bool, exits: bool)
      requires Valid() && handler != null && !dpr.closeConn && dpr.respState.Ready?
      modifies `handler, `replies, `Repr, handler.Repr, output
      ensures fresh(Repr - old(Repr))
      ensures !exits && !finished ==>
        Valid() && handler == old(handler)
        && PipeIn(handler) == old(PipeIn(handler)) && (old(PipeIsFull(handler)) ==> PipeIsFull(handler))
      ensures exits ==> CgiFailed()
      ensures !exits && !finished ==>
        if handler.response == null && handler.cgiexe == null then r == dpr
        else handler.Blocks(dpr, r, output, old(output.tries), 0)
      ensures finished ==> !exits && handler == null && r == dpr.(closeConn := r.closeConn)
      ensures finished && r.closeConn ==> output.broken
      ensures !exits ==> WroteMore(r, old(output.tries))
      ensures finished && !r.closeConn ==> Sound()
    {
      hide RequestHandler.Valid, RequestHeader.Valid, Serves, Answers, Refuses;
      hide Framing.Run, Follows, Recorded, KeptAlive;
      hide ResponseSender.Finished;
      var o;
      o, r := Progress(dpr);
      finished, exits := o.Finished?, o.Exits?;
      if finished {
        if !r.closeConn {
          RecordReply();
          FreeHandler();
        }
        handler := null;
      }
    }

    method FreeHandler()
      requires Inner() && At(readOffset) && (readSize > 0 ==> readOffset < readSize) && handler != null
      requires folder ==> rrs.ReadFinished?
      requires Recorded(dec, served) && KeptAlive(dec, rrs.ReadFinished?) && AllWhole(replies)
      requires AllRefused(creds, dec, replies)
      requires !rrs.ReadFinished? ==> replies != [] && Refuses(creds, own, replies[|replies| - 1].head)
      requires output.written == ReplyBytes(replies)
      requires |replies| == |served| + if rrs.ReadBody? || rrs.ReadTrailer? then 1 else 0
      requires Follows(dec, rrs, own, if header == null then NEW_REQUEST else header.h, bodyLen - bodyReadLen,
              ChunkLine(), None)
      modifies `handler
      ensures Sound() && handler == null
    {
      hide RequestHandler.Valid, RequestHeader.Valid, Serves, Answers, Refuses;
      hide Framing.Run, Follows, Recorded, KeptAlive;
      hide Payload;
      hide WellFormed, Complete;
      EmptyConcat(ReplyBytes(replies));
      handler := null;
    }

    method Progress(dpr: Dpr) returns (o: Progress, r: Dpr)
      requires Valid() && handler != null && !dpr.closeConn && dpr.respState.Ready?
      modifies `Repr, handler.Repr, output
      ensures fresh(Repr - old(Repr)) && fresh(handler.Repr - old(handler.Repr)) && (!o.Exits? ==> Valid())
      ensures handler == old(handler) && PipeIn(handler) == old(PipeIn(handler))
      ensures (old(PipeIsFull(handler)) ==> PipeIsFull(handler)) && (o.Exits? ==> CgiFailed())
      ensures o.Unfinished? ==>
        if handler.response == null && handler.cgiexe == null then r == dpr
        else handler.Blocks(dpr, r, output, old(output.tries), 0)
      ensures o.Finished? ==> r == dpr.(closeConn := r.closeConn) && (folder ==> rrs.ReadFinished?)
      ensures o.Finished? && r.closeConn ==> output.broken
      ensures !o.Exits? ==> WroteMore(r, old(output.tries))
      ensures o.Finished? && !r.closeConn ==> handler.response != null && handler.response.Finished()
    {
      hide RequestHandler.Valid, RequestHeader.Valid, Serves, Answers, Refuses;
      hide Framing.Run, Follows, Recorded, KeptAlive;
      hide ResponseSender.Finished, AllWhole, ReplyBytes, RequestHandler.Sent, AllRefused, At;
      ghost var d, done, sent := [], ReplyBytes(replies), handler.Sent();
      o, r, d := ProgressHandler(dpr);
      Assoc(done, sent, d);
    }

    method ProgressHandler(dpr: Dpr) returns (o: Progress, r: Dpr, ghost d: Bytes)
      requires Inner() && At(readOffset) && Answering() && handler != null && !dpr.closeConn && dpr.respState.Ready?
      modifies `Repr, handler.Repr, output
      ensures fresh(Repr - old(Repr)) && fresh(handler.Repr - old(handler.Repr))
      ensures !o.Exits? ==> Inner() && At(readOffset) && Answering() && handler.Sent() == old(handler.Sent()) + d
      ensures output.written == old(output.written) + d
      ensures handler == old(handler) && PipeIn(handler) == old(PipeIn(handler))
      ensures (old(PipeIsFull(handler)) ==> PipeIsFull(handler)) && (o.Exits? ==> CgiFailed())
      ensures o.Unfinished? ==>
        if handler.response == null && handler.cgiexe == null then r == dpr
        else handler.Blocks(dpr, r, output, old(output.tries), 0)
      ensures o.Finished? ==> r == dpr.(closeConn := r.closeConn) && (folder ==> rrs.ReadFinished?)
      ensures o.Finished? && r.closeConn ==> output.broken
      ensures !o.Exits? ==> WroteMore(r, old(output.tries))
      ensures o.Finished? && !r.closeConn ==> handler.response != null && handler.response.Finished()
    {
      hide RequestHandler.Valid, RequestHeader.Valid, Serves, Answers, Refuses, Framing.Run, Follows;
      hide ResponseSender.Finished, RequestHandler.Sent;
      ghost var none := handler.response == null;
      o, r, d := handler.ProgressResponse(output, dpr);
      if none {
        AnswersAny(creds, own, handler.response);
      }
      Repr := Repr + handler.Repr;
    }

    /** The response has been sent completely. */
    ghost method RecordReply()
      requires Sound() && handler != null && handler.response != null && handler.response.Finished()
      requires folder ==> rrs.ReadFinished?
      modifies `replies
      ensures Inner() && At(readOffset) && (readSize > 0 ==> readOffset < readSize)
      ensures Recorded(dec, served) && KeptAlive(dec, rrs.ReadFinished?) && AllWhole(replies)
      ensures AllRefused(creds, dec, replies)
      ensures !rrs.ReadFinished? ==> replies != [] && Refuses(creds, own, replies[|replies| - 1].head)
      ensures output.written == ReplyBytes(replies)
      ensures |replies| == |served| + if rrs.ReadBody? || rrs.ReadTrailer? then 1 else 0
      ensures Follows(dec, rrs, own, if header == null then NEW_REQUEST else header.h, bodyLen - bodyReadLen,
              ChunkLine(), None)
    {
      hide RequestHandler.Valid, RequestHeader.Valid, Serves, Answers, Refuses;
      hide Framing.Run, Follows, Recorded, KeptAlive;
      hide Payload;
      hide WellFormed, Complete;
      hide ReplyBytes, AllWhole, At;
      ghost var reply := Reply(handler.response.head, handler.response.stream);
      ReplySnoc(replies, reply);
      RefusedSnoc(reply);
      replies := replies + [reply];
      FollowsLess(dec, rrs, own, if header == null then NEW_REQUEST else header.h, bodyLen - bodyReadLen, ChunkLine(),
                  Received());
    }

    /** The reply to the current request is the right one. */
    lemma RefusedSnoc(r: Reply)
      requires Sound() && handler != null && handler.response != null && r.head == handler.response.head
      ensures Refuses(creds, own, r.head)
      ensures AllRefused(creds, dec, replies + [r])
    {
      hide RequestHandler.Valid, RequestHeader.Valid, Serves, Framing.Run, KeptAlive, AllWhole, ReplyBytes, Refuses;
      hide RequestHandler.Sent;
      assert Refuses(creds, own, r.head) by {
        RefusesOf(handler.response);
      }
    }

    lemma RefusesOf(response: ResponseSender)
      requires Answers(creds, own, response)
      ensures Refuses(creds, own, response.head)
    {
    }

    /** An HTTP/1.0 request, or one with "Connection: close", ends the connection. */
    method CloseRequested() returns (close: bool)
      requires header != null && header.Valid() && header.hasRequestLine
      ensures header.h.Head? ==> close == !KeepsAlive(header.h)
    {
      var connection := header.GetHeaderVal("Connection");
      close := header.GetVersion() == "1.0" || connection == Some("close");
    }

    /** Request processing has completed: awaits the next request. */
    method Reinitialize()
      requires Sound() && rrs.ReadFinished? && handler == null && (header.h.Head? ==> KeepsAlive(header.h))
      modifies `rrs, `header, `chunkHdr, `bodyLen, `bodyReadLen
      ensures Valid() && rrs.Idle?
    {
      hide RequestHandler.Valid, RequestHeader.Valid, Serves, Answers, Refuses;
      hide Framing.Run, KeepsAlive, Follows, Recorded;
      hide KeptAlive;
      hide At, AllWhole;
      FollowsNext(dec, own, header.h, bodyLen - bodyReadLen, ChunkLine(), Received());
      rrs, header, chunkHdr, bodyLen, bodyReadLen := Idle, null, null, 0, 0;
    }

    /** What the connection waits for when a call ends: for input, or for the response. */
    ghost predicate Waiting(r: Dpr)
      reads `rrs, `readSize, `handler, handler, ResponseOf(handler), CgiOf(handler), WaitObjects(handler), input, output
    {
      && (if rrs.ReadFinished? then !r.respState.Ready? else !r.reqState.Ready?)
      && (handler != null && (handler.response != null || handler.cgiexe != null) ==> !r.respState.Ready?)
      && (r.reqState.AwaitRead? ==> r.reqFd == input.fd && input.dry && readSize == 0)
      && (r.reqState.AwaitWrite? ==>
            rrs.ReadBody? && readSize > 0 && if handler == null then r.reqFd != input.fd else PipeFull(r.reqFd))
      && (!r.respState.Ready? ==>
            handler != null && handler.Blocks(r.(respState := Ready, respFd := -1), r, output, 0, 0))
    }

    /** Request and response are finished. */
    method StartOver(dpr: Dpr) returns (r: Dpr, more: bool)
      requires Sound() && rrs.ReadFinished? && handler == null && !dpr.closeConn
      requires dpr.reqState.Ready? && dpr.respState.Ready?
      modifies `rrs, `header, `chunkHdr, `bodyLen, `bodyReadLen
      ensures if more then r == dpr && Valid() && rrs.Idle? else r == dpr.(closeConn := true) && MayClose()
    {
      hide RequestHandler.Valid, RequestHeader.Valid, Serves, Answers, Refuses, Framing.Run, KeepsAlive;
      r, more := dpr, false;
      // the sanity check: if the connection still had to wait for something, the program would end here
      if !r.reqState.Ready? || !r.respState.Ready? {
        assert false;
      }
      var close := CloseRequested();
      if close {
        r := r.(closeConn := true);
      } else {
        Reinitialize();
        more := true;
      }
    }

    /** The outer loop's body behind the inner loop: progresses the response, and starts over when it is finished. */
    method FinishRound(dpr: Dpr) returns (r: Dpr, more: bool, exits: bool)
      requires Valid() && !dpr.closeConn && dpr.respState.Ready? && (rrs.ReadFinished? <==> dpr.reqState.Ready?)
      requires dpr.reqState.AwaitRead? ==> dpr.reqFd == input.fd && input.dry && readSize == 0
      requires dpr.reqState.AwaitWrite? ==> PipeFull(dpr.reqFd)
      modifies Repr
      ensures fresh(Repr - old(Repr)) && readOffset == old(readOffset) && readSize == old(readSize)
      ensures input.delivered == old(input.delivered) && input.script == old(input.script)
      ensures input.tries == old(input.tries)
      ensures input.dry == old(input.dry)
      ensures !exits ==> WroteMore(r, old(output.tries)) && r.reqState == dpr.reqState
      ensures !exits ==> if r.closeConn then MayClose() else Valid()
      ensures more ==> !exits && r == dpr && old(rrs.ReadFinished?) && rrs.Idle?
      ensures exits ==> CgiFailed()
      ensures !exits && !more && !r.closeConn ==> Waiting(r) && rrs == old(rrs)
      ensures old(Early()) ==> !exits && !more && Early() && dec == old(dec) && consumed == old(consumed)
    {
      hide RequestHandler.Valid, RequestHeader.Valid, Serves, Answers, Refuses;
      hide Framing.Run, Follows, Recorded, KeptAlive;
      hide RequestHandler.Sent;
      r, more, exits := dpr, false, false;
      if handler != null {
        var finished;
        r, finished, exits := Respond(r);
      }
      if !exits && !r.closeConn {
        if rrs.ReadFinished? && handler == null {
          r, more := StartOver(r);
        } else if handler != null && !r.respState.Ready? {
          assert handler.Blocks(r.(respState := Ready, respFd := -1), r, output, 0, 0);
        }
      }
    }

    /** The outer loop's body: reads a request, progresses its response, and starts over when both are finished. */
    method OneRound(dpr: Dpr) returns (r: Dpr, gotData: bool, more: bool, stop: Stop)
      requires Valid() && !dpr.closeConn && dpr.reqState.Ready? && dpr.respState.Ready?
      modifies Repr
      ensures fresh(Repr - old(Repr))
      ensures stop.Crashes? ==> old(Early()) && UsesFreed(old(dec), old(input.delivered))
      ensures old(Early()) && !stop.Crashes? ==>
        stop.Continues? && !more && StaysEarly(old(dec), old(input.delivered))
      ensures stop.Continues? && !r.closeConn ==> Valid()
      ensures more ==> stop.Continues? && r == dpr && rrs.Idle?
      ensures stop.Exits? ==> CgiFailed()
      ensures more ==>
        Nearer(old(Fuel(input.script)), old(readSize - readOffset))
        || (old(rrs.ReadFinished?) && Same(old(Fuel(input.script)), old(readSize - readOffset)))
      ensures stop.Continues? && !more && !r.closeConn ==> Waiting(r)
      ensures stop.Continues? ==> ReadMore(r, old(input.tries)) && WroteMore(r, old(output.tries))
      ensures stop.Continues? ==> Grew(old(input.delivered), gotData) && (r.closeConn ==> MayClose())
      ensures stop.Continues? && !r.closeConn && !gotData && old(rrs.Idle? && readSize == 0) ==> rrs.Idle? && !more
    {
      hide RequestHandler.Valid, RequestHeader.Valid, Serves, Answers, Refuses;
      hide Valid, Waiting, MayClose, Fuel, UsesFreed;
      hide Quiet;
      hide Framing.Run;
      var crashed;
      more, stop := false, Continues;
      r, gotData, crashed := ReadRequest(dpr);
      if crashed {
        stop := Crashes;
      } else if !r.closeConn {
        var exits;
        r, more, exits := FinishRound(r);
        stop := if exits then Stop.Exits else Continues;
      }
    }

    /** The request whose response is in progress is the latest one served. */
    lemma LatestServed()
      requires Valid() && rrs.ReadFinished? && dec.Decoder?
      ensures handler != null && handler.Valid() && served != [] && handler.received == served[|served| - 1]
      ensures dec.done != [] && Serves(dec.done[|dec.done| - 1].own, handler.filemgr)
    {
      hide RequestHandler.Valid, RequestHeader.Valid, Serves, Answers, Refuses, Framing.Run, KeptAlive, AllWhole;
    }

    /** Selects the descriptors to wait for. */
    method Register(drs: DataReadySelector, r: Dpr)
      modifies drs
      ensures drs.readFds == old(drs.readFds) + ReadFds(r) && drs.writeFds == old(drs.writeFds) + WriteFds(r)
    {
      if r.reqState == AwaitRead {
        drs.SetReadFd(r.reqFd);
      } else if r.reqState == AwaitWrite {
        drs.SetWriteFd(r.reqFd);
      }
      if r.respState == AwaitRead {
        drs.SetReadFd(r.respFd);
      } else if r.respState == AwaitWrite {
        drs.SetWriteFd(r.respFd);
      }
    }

    /** What is waited for is open, unless the handler is gone that was waited for. */
    lemma OpenUnlessStranded(r: Dpr)
      requires Valid() && Waiting(r)
      ensures ReadFds(r) + WriteFds(r) <= OpenFds() <==> !Stranded()
      ensures Stranded() ==> Early() && ReadFds(r) + WriteFds(r) == {r.reqFd}
    {
      hide RequestHandler.Valid, RequestHeader.Valid, Serves, Answers, Refuses;
      hide Framing.Run, Follows, Recorded, KeptAlive;
      hide AllWhole;
      hide RequestHandler.Sent, ReplyBytes, RequestHandler.Blocks, RequestHandler.OpenFds;
      if handler != null {
        if !r.respState.Ready? {
          handler.BlocksOnOpen(r.(respState := Ready, respFd := -1), r, output);
        }
        if r.reqState.AwaitWrite? {
          handler.PipeIsOpen();
        }
      }
    }

    lemma SocketInRepr()
      requires Valid()
      ensures this in Repr && input in Repr && output in Repr
    {
      hide RequestHandler.Valid, RequestHeader.Valid, Serves, Answers, Refuses, Framing.Run, Follows, Recorded;
      hide KeptAlive, AllWhole, AllRefused;
    }

    lemma InOwnRepr()
      requires Valid()
      ensures this in Repr
    {
      hide RequestHandler.Valid, RequestHeader.Valid, Serves, Answers, Refuses;
      hide Framing.Run, Follows, Recorded, KeptAlive;
      hide AllWhole;
    }

    /** A connection does not notice what happens to other objects. */
    twostate lemma Unaffected()
      requires old(Valid()) && unchanged(old(Repr))
      ensures Valid() && Repr == old(Repr) && rrs == old(rrs) && readSize == old(readSize)
      ensures forall r :: old(Waiting(r)) ==> Waiting(r)
    {
      hide RequestHandler.Valid, RequestHeader.Valid, Serves, Answers, Refuses;
      hide Framing.Run, Follows, Recorded, KeptAlive;
      hide AllWhole;
      hide ReplyBytes;
      if old(handler) != null {
        InsideBefore(old(handler));
      }
    }

    twostate lemma InsideBefore(h: RequestHandler)
      requires old(h.Valid())
      ensures old(h.response) != null ==> old(h.response) in old(h.Repr)
      ensures old(h.cgiexe) != null ==> old(h.cgiexe) in old(h.Repr)
      ensures old(h.WaitObjects()) <= old(h.Repr)
    {
      hide FileManagers.FileManager.Valid;
    }

    /** Registers what the connection waits for. */
    method Wait(drs: DataReadySelector, r: Dpr)
      requires Valid() && Waiting(r) && drs !in Repr
      modifies drs
      ensures Valid() && Waiting(r) && (rrs.Idle? ==> readSize == 0) && ReadFds(r) + WriteFds(r) != {}
      ensures drs.readFds == old(drs.readFds) + ReadFds(r) && drs.writeFds == old(drs.writeFds) + WriteFds(r)
      ensures rrs.Idle? ==> input.fd in ReadFds(r)
      ensures ReadFds(r) + WriteFds(r) <= OpenFds() <==> !Stranded()
      ensures Stranded() ==> Early() && ReadFds(r) + WriteFds(r) == {r.reqFd}
    {
      hide RequestHandler.Valid, RequestHeader.Valid, Serves, Answers, Refuses;
      hide Framing.Run, Follows, Recorded, KeptAlive;
      hide RequestHandler.Sent;
      hide AllWhole, ReplyBytes;
      assert (if rrs.ReadFinished? then r.respFd else r.reqFd) in ReadFds(r) + WriteFds(r);
      OpenUnlessStranded(r);
      Register(drs, r);
    }

    /** The program sleeps in drs_select. */
    method Sleep(drs: DataReadySelector) returns (fails: bool)
      requires Valid() && drs !in Repr && drs.readFds + drs.writeFds != {}
      modifies drs
      ensures Valid() && (fails <==> !old(drs.readFds + drs.writeFds <= OpenFds())) && Stranded() == old(Stranded())
      ensures drs.readFds == {} && drs.writeFds == {}
    {
      hide RequestHandler.Valid, RequestHeader.Valid, Serves, Answers, Refuses;
      hide Framing.Run, Follows, Recorded, KeptAlive;
      hide RequestHandler.Sent, RequestHandler.OpenFds;
      hide AllWhole, ReplyBytes;
      fails := drs.Select(OpenFds());
    }

    /** Rounds until something blocks, or the connection is to be closed. */
    method Rounds() returns (r: Dpr, gotData: bool, stop: Stop)
      requires Valid()
      modifies Repr
      ensures fresh(Repr - old(Repr))
      ensures stop.Crashes? ==> old(Early()) && UsesFreed(old(dec), old(input.delivered))
      ensures old(Early()) && !stop.Crashes? ==> stop.Continues? && StaysEarly(old(dec), old(input.delivered))
      ensures stop.Exits? ==> CgiFailed()
      ensures stop.Continues? && !r.closeConn ==> Valid() && Waiting(r)
      ensures stop.Continues? ==> ReadMore(r, old(input.tries)) && WroteMore(r, old(output.tries))
      ensures stop.Continues? ==> Grew(old(input.delivered), gotData) && (r.closeConn ==> MayClose())
      ensures stop.Continues? && !r.closeConn && !gotData && old(rrs.Idle? && readSize == 0) ==> rrs.Idle?
    {
      hide Valid, Fuel, UsesFreed, StaysEarly;
      var more := true;
      r, gotData, stop := DPR_INIT, false, Continues;
      BufferInOrder();
      while more
        invariant more ==> readOffset <= readSize
        invariant fresh(Repr - old(Repr))
        invariant stop.Crashes? ==> old(Early()) && UsesFreed(old(dec), old(input.delivered))
        invariant stop.Exits? ==> CgiFailed()
        invariant old(Early()) && more ==> Early() && dec == old(dec) && input.delivered == old(input.delivered)
        invariant old(Early()) && !more && !stop.Crashes? ==>
          stop.Continues? && StaysEarly(old(dec), old(input.delivered))
        invariant stop.Continues? && !r.closeConn ==> Valid() && (if more then r == DPR_INIT else Waiting(r))
        invariant more ==> stop.Continues? && !r.closeConn && (Early() ==> old(Early()))
        invariant stop.Continues? ==> ReadMore(r, old(input.tries)) && WroteMore(r, old(output.tries))
        invariant stop.Continues? ==> Grew(old(input.delivered), gotData) && (r.closeConn ==> MayClose())
        invariant stop.Continues? && !r.closeConn && !gotData && old(rrs.Idle? && readSize == 0) ==>
          rrs.Idle? && readSize == 0
        decreases more, Fuel(input.script), readSize - readOffset, rrs.ReadFinished?
      {
        var got;
        r, got, more, stop := OneRound(r);
        gotData := gotData || got;
        if more {
          BufferInOrder();
        }
      }
    }

    lemma BufferInOrder()
      requires Valid()
      ensures readOffset <= readSize
    {
    }

    /** All that has arrived tells a crash from a call that goes on waiting for the rest of the request. */
    lemma CrashesExactly(before: Decoder, delivered: Bytes)
      ensures var all := Framing.Run(FRESH_DECODER, input.delivered);
        all.Decoder? ==>
          && (UsesFreed(before, delivered) ==> !Quiet(before, all))
          && (StaysEarly(before, delivered) ==> Quiet(before, all))
    {
      hide Framing.Run;
      if UsesFreed(before, delivered) {
        var rest := input.delivered[|consumed|..];
        SplitAt(input.delivered, |consumed|);
        assert input.delivered[..|consumed|] == consumed;
        Framing.RunConcat(FRESH_DECODER, consumed, rest);
        DoneGrows(dec, rest);
        if !rrs.ReadFinished? && dec.Decoder? {
          NotQuiet(dec, rest);
          assert Quiet(before, Framing.Run(dec, rest)) ==> Quiet(dec, Framing.Run(dec, rest));
        }
      }
    }

    /**
     conn_processDataReady. A connection that stays open waits for something: it has registered a descriptor. The
     sanity check never fails. A freed handler is used exactly if the call began with a request whose response was
     already finished while its body was still arriving, and another body byte arrives or the request is completed:
     that can be seen from all the bytes that have arrived.
     */
    method ProcessDataReady(drs: DataReadySelector, closeIfIdle: bool) returns (res: ConnResult, ghost r: Dpr)
      requires Valid() && drs !in Repr && (rrs.Idle? ==> readSize == 0)
      modifies Repr, drs
      ensures fresh(Repr - old(Repr))
      ensures var all := Framing.Run(FRESH_DECODER, input.delivered);
        all.Decoder? ==> (res.ConnCrash? <==> old(Early()) && !Quiet(old(dec), all))
      ensures res.ConnCrash? ==> old(Early()) && UsesFreed(old(dec), old(input.delivered))
      ensures old(Early()) && !res.ConnCrash? ==> !res.ProgramExit? && StaysEarly(old(dec), old(input.delivered))
      ensures res.ConnBusy? || res.ConnIdle? ==> Valid() && Waiting(r) && (rrs.Idle? ==> readSize == 0)
      ensures res.ConnBusy? || res.ConnIdle? ==>
        && ReadFds(r) + WriteFds(r) != {}
        && drs.readFds == old(drs.readFds) + ReadFds(r) && drs.writeFds == old(drs.writeFds) + WriteFds(r)
      ensures res.ConnIdle? ==>
        old(rrs.Idle?) && rrs.Idle? && input.delivered == old(input.delivered) && input.fd in ReadFds(r)
      ensures res.ConnBusy? ==> !old(rrs.Idle?) || |input.delivered| > |old(input.delivered)|
      ensures res.ConnBusy? || res.ConnIdle? ==> (ReadFds(r) + WriteFds(r) <= OpenFds() <==> !Stranded())
      ensures (res.ConnBusy? || res.ConnIdle?) && Stranded() ==> Early() && ReadFds(r) + WriteFds(r) == {r.reqFd}
      ensures res.ConnBusy? || res.ConnIdle? ==> ReadMore(r, old(input.tries)) && WroteMore(r, old(output.tries))
      ensures res.ConnBusy? || res.ConnIdle? ==> !(closeIfIdle && rrs.Idle?)
      ensures res.ProgramExit? ==> CgiFailed()
      ensures res.ConnToClose? ==> MayClose() || (closeIfIdle && rrs.Idle?)
      ensures res.ConnToClose? ==> drs.readFds == old(drs.readFds) && drs.writeFds == old(drs.writeFds)
    {
      hide RequestHandler.Valid, RequestHeader.Valid, Serves, Answers, Refuses;
      hide Framing.Run, Follows, Recorded, KeptAlive;
      hide RequestHandler.Sent;
      hide UsesFreed, StaysEarly, Quiet, Waiting, AllWhole, ReplyBytes;
      var isVeryIdle := rrs.Idle?;
      var dpr, gotData, stop := Rounds();
      r := dpr;
      if old(Early()) {
        CrashesExactly(old(dec), old(input.delivered));
      }
      if !stop.Continues? {
        return if stop.Crashes? then ConnCrash else ProgramExit, r;
      }
      if !dpr.closeConn && closeIfIdle && rrs.Idle? {
        dpr := dpr.(closeConn := true);
      }
      r := dpr;
      if dpr.closeConn {
        return ConnToClose, r;
      }
      Wait(drs, dpr);
      res := if isVeryIdle && !gotData then ConnIdle else ConnBusy;
    }
  }

  /**
   mainloop_inetd, for any number of calls: the one connection is served until it is to be closed, or the program ends.
   Whenever the program sleeps, the descriptors that can wake it up are selected, and they are open unless the
   connection is stranded: then the program ends.
   */
  method ServeInetd(credentials: seq<Bytes>, calls: nat) returns (c: ServerConnection, res: ConnResult, fails: bool)
    ensures res.ConnBusy? || res.ConnIdle? ==> c.Valid() && (c.rrs.Idle? ==> c.readSize == 0)
    ensures fails ==> res.ConnBusy? || res.ConnIdle?
    ensures res.ConnBusy? || res.ConnIdle? ==> (fails <==> c.Stranded())
    ensures res.ProgramExit? ==> c.CgiFailed()
  {
    hide ServerConnection.Valid, ServerConnection.Waiting, ReadFds, WriteFds, Framing.Run, ServerConnection.OpenFds;
    hide ServerConnection.CgiFailed, ServerConnection.UsesFreed, ServerConnection.StaysEarly;
    var drs := new DataReadySelector();
    c := new ServerConnection(0, credentials);
    res, fails := ConnBusy, false;
    var i := 0;
    while i < calls && !fails && (res.ConnBusy? || res.ConnIdle?)
      invariant fresh(c) && fresh(c.Repr) && fresh(drs) && drs !in c.Repr
      invariant res.ConnBusy? || res.ConnIdle? ==> drs.readFds == {} && drs.writeFds == {}
      invariant res.ConnBusy? || res.ConnIdle? ==> c.Valid() && (c.rrs.Idle? ==> c.readSize == 0)
      invariant fails ==> res.ConnBusy? || res.ConnIdle?
      invariant res.ConnBusy? || res.ConnIdle? ==> (fails <==> c.Stranded())
      invariant res.ProgramExit? ==> c.CgiFailed()
    {
      ghost var r;
      res, r := c.ProcessDataReady(drs, false);
      if res.ConnBusy? || res.ConnIdle? {
        assert drs.readFds + drs.writeFds == ReadFds(r) + WriteFds(r);
        fails := c.Sleep(drs);
      }
      i := i + 1;
    }
  }

  /** A request as it is written keeps the connection open unless it is HTTP/1.0 or says so. */
  lemma KeepsAliveIff(verb: Bytes, us: seq<Unit>, path: Bytes, query: Option<Bytes>, version: Bytes, fields: seq<Field>)
    requires ' ' !in verb && (query.Some? ==> ' ' !in query.value)
    requires |us| == |path| && forall i :: 0 <= i < |us| ==> Spells(us[i], path[i])
    ensures var h := Head(Some(PrintStartLine(verb, us, query, version)), fields, []);
            KeepsAlive(h) <==> version != "1.0" && Lookup(fields, "Connection") != Some("close")
  {
    hide Parse, PrintStartLine, Spells, Lookup;
    AnySpelling(verb, us, path, query, version);
  }

  /** The first Connection field counts, whatever the case of its name; its value is compared as it is. */
  lemma CloseIsHeard(h: Head, i: nat, gap: Bytes)
    requires h.Head? && i < |h.fields| && SameName(h.fields[i].name, "Connection")
    requires forall j :: 0 <= j < i ==> !SameName(h.fields[j].name, "Connection")
    requires h.fields[i].value == gap + "close" && forall k :: 0 <= k < |gap| ==> gap[k] in " \t"
    ensures !KeepsAlive(h)
  {
    hide SameName, Parse, Lookup;
    LookupWritten(h.fields, "Connection", i, gap, "close");
  }

  lemma FollowsNext(dec: Decoder, own: Head, h: Head, left: int, chunk: Option<Bytes>, body: Option<Bytes>)
    requires Follows(dec, ReadFinished, own, h, left, chunk, body)
    requires KeptAlive(dec, true) && (h.Head? ==> KeepsAlive(h))
    ensures Follows(dec, Idle, own, NEW_REQUEST, 0, None, None) && KeptAlive(dec, false)
  {
    hide KeepsAlive;
  }

  lemma FollowsLess(dec: Decoder, rrs: ReadState, own: Head, h: Head, left: int, chunk: Option<Bytes>,
                    body: Option<Bytes>)
    requires Follows(dec, rrs, own, h, left, chunk, body)
    ensures Follows(dec, rrs, own, h, left, chunk, None)
  {
  }

  lemma SameIsQuiet(d: Decoder)
    ensures Quiet(d, d)
  {
  }

  lemma QuietThrough(a: Decoder, b: Decoder, c: Decoder)
    ensures Quiet(a, b) && Quiet(b, c) ==> Quiet(a, c)
  {
  }

  lemma ReplySnoc(replies: seq<Reply>, r: Reply)
    ensures ReplyBytes(replies + [r]) == ReplyBytes(replies) + (r.head + Payload(r.stream))
    ensures AllWhole(replies) && WellFormed(r.stream) && Complete(r.stream) ==> AllWhole(replies + [r])
    ensures ReplyBytes(replies + [r]) + [] == ReplyBytes(replies + [r])
  {
    hide Payload, WellFormed, Complete;
    assert (replies + [r])[..|replies|] == replies;
    EmptyConcat(ReplyBytes(replies + [r]));
  }

  lemma NothingDone(before: Decoder, after: Decoder, served: seq<Bytes>)
    requires Grows(before, after, false) && Recorded(before, served) && KeptAlive(before, false)
    ensures Recorded(after, served) && KeptAlive(after, false)
  {
    hide KeepsAlive;
  }

  lemma StillRefused(creds: seq<Bytes>, before: Decoder, after: Decoder, replies: seq<Reply>, finished: bool)
    requires Grows(before, after, finished) && AllRefused(creds, before, replies)
    requires finished && before.Decoder? ==> |replies| <= |before.done|
    ensures AllRefused(creds, after, replies)
  {
    hide Refuses;
  }

  lemma OneDone(before: Decoder, after: Decoder, served: seq<Bytes>, body: Bytes)
    requires Grows(before, after, true) && Recorded(before, served) && KeptAlive(before, false)
    requires after.Decoder? ==> after.done != [] && after.done[|after.done| - 1].body == body
    ensures Recorded(after, served + [body]) && KeptAlive(after, true)
  {
    hide KeepsAlive;
  }

  /** The decoder over bytes of a chunk line, with or without the LF that ends it. */
  lemma FollowsLine(dec: Decoder, own: Head, h: Head, chunk: Bytes, body: Option<Bytes>, text: Bytes)
    requires Follows(dec, ReadBody, own, h, 0, Some(chunk), body)
    requires forall i :: 0 <= i < |text| && |chunk| + i >= 2 ==> text[i] != '\n'
    ensures Follows(Framing.Run(dec, text), ReadBody, own, h, 0, Some(chunk + text), body)
    ensures Grows(dec, Framing.Run(dec, text), false) && Quiet(dec, Framing.Run(dec, text))
    ensures |chunk + text| >= 2 ==>
      Grows(dec, Framing.Run(dec, text + "\n"), false) && Quiet(dec, Framing.Run(dec, text + "\n"))
    ensures |chunk + text| >= 2 ==>
      var size := ChunkSize(chunk + text);
      Follows(Framing.Run(dec, text + "\n"), if size == 0 then ReadTrailer else ReadBody, own, h, size, Some([]), body)
  {
    if dec.Lost? {
      RunLost(text);
      RunLost(text + "\n");
    } else {
      RunChunkLine(dec.done, dec.phase, text);
      if |chunk + text| >= 2 {
        RunLineEnd(dec.done, dec.phase, text);
      }
    }
  }

  /** The decoder over body bytes within the current chunk. */
  lemma FollowsData(dec: Decoder, own: Head, h: Head, left: nat, chunk: Option<Bytes>, body: Bytes, data: Bytes)
    requires Follows(dec, ReadBody, own, h, left, chunk, Some(body)) && |data| <= left && left > 0
    requires chunk.Some? ==> chunk.value == []
    ensures var d, whole := Framing.Run(dec, data), |data| == left && chunk.None?;
            && Follows(d, if whole then ReadFinished else ReadBody, own, h, left - |data|, chunk, Some(body + data))
            && Grows(dec, d, whole)
  {
    EmptyConcat(body);
    if dec.Lost? {
      RunLost(data);
    } else if data != [] {
      RunData(dec.done, dec.phase, data);
    }
  }

  /** The decoder over trailer bytes. */
  lemma FollowsTrailer(dec: Decoder, own: Head, h: Head, left: int, chunk: Option<Bytes>, body: Option<Bytes>,
                       data: Bytes, used: int, h': Head)
    requires Follows(dec, ReadTrailer, own, h, left, chunk, body)
    requires -1 <= used <= |data| && h' == HeaderBlock.Run(h, Taken(data, used))
    requires End(h, data) == if h'.Head? then used else -1
    ensures var d := Framing.Run(dec, Taken(data, used));
            && Follows(d, if used < 0 then ReadTrailer else ReadFinished, own, h', left, chunk, body)
            && Grows(dec, d, used >= 0) && (used < 0 ==> Quiet(dec, d))
  {
    if dec.Lost? {
      RunLost(Taken(data, used));
    } else {
      TakenTrailer(dec.done, own, h, dec.phase.body, data, used, h');
    }
  }

  lemma RangeWithNext(buf: Bytes, i: nat, j: nat)
    requires i <= j < |buf|
    ensures buf[i..j + 1] == buf[i..j] + [buf[j]]
  {
  }

  lemma PrefixOfRange(buf: Bytes, i: nat, n: nat, k: nat)
    requires k <= n && i + n <= |buf|
    ensures buf[i..i + n][..k] == buf[i..i + k]
  {
  }

  lemma JoinedRanges(buf: Bytes, i: nat, j: nat, k: nat)
    requires i <= j <= k <= |buf|
    ensures buf[i..k] == buf[i..j] + buf[j..k]
  {
  }

  lemma TakenFromBuffer(buf: Bytes, i: nat, k: nat, used: int)
    requires i <= k <= |buf| && -1 <= used <= k - i
    ensures Taken(buf[i..k], used) == buf[i..if used < 0 then k else i + used]
  {
  }
}
