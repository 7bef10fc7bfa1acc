/** Running a CGI program (src/cgiexecutor.c): its input is the request body, its output becomes the response. */
module CgiExecutors {
  import opened ByteStrings
  import opened DataHeaders
  import opened Descriptors
  import opened HeaderBlock
  import opened ResponseSenders
  import opened RespBufs

  predicate IsPassedOn(name: Bytes) {
    !EqualIgnoreCase(name, "Status") && !EqualIgnoreCase(name, "Content-Type") && !StartsIgnoreCase(name, "X-CGI-")
  }

  /** The header fields of the CGI program that go into the response as they are. */
  function PassedOn(fields: seq<Field>): seq<Line> {
    if fields == [] then []
    else
      var n := |fields| - 1;
      PassedOn(fields[..n])
        + if IsPassedOn(fields[n].name) then [Named(fields[n].name, " " + fields[n].value)] else []
  }

  function StatusLine(fields: seq<Field>): Bytes {
    "HTTP/1.1 " + Lookup(fields, "Status").GetOr("200 OK")
  }

  function ContentTypeLine(fields: seq<Field>): Line {
    Named("Content-Type", " " + Lookup(fields, "Content-Type").GetOr("text/plain"))
  }

  /** Header lines of the response to a CGI header with these fields. */
  function CgiLines(fields: seq<Field>): seq<Line> {
    [ContentTypeLine(fields)] + PassedOn(fields)
  }

  const MISSING_HEADER_PAGE: Bytes :=
    "<!DOCTYPE html><html><head>\n<title>Internal Server Error</title>\n</head>\n"
    + "<body><h3>Internal Server Error</h3>\nMissing end-of-header line in CGI response\n</body></html>"

  // Fatal: the program ends, because a read from the pipe has failed, or because the answer has no body buffer to put
  // output into.
  datatype CgiOutcome = Made(resp: RespBuf) | NotYet | Fatal

  /** The output read so far is a complete header, with that meaning, and then the rest. */
  predicate EndsWith(out: Bytes, h: Head, rest: Bytes) {
    var e := End(NEW_BLOCK, out);
    e >= 0 && h == HeaderBlock.Run(NEW_BLOCK, out[..e]) && h.Head? && out[e..] == rest
  }

  class CgiExecutor {
    var inFd: Sink?              // the pipe to the program
    var outFd: Source?           // the pipe from the program
    const cgiHeader: DataHeader
    const onlyHead: bool         // the answer to a HEAD request has no body buffer
    ghost const output: Source
    ghost const input: Sink
    ghost var received: Bytes    // body bytes accepted so far

    ghost function Repr(): set<object>
      reads this
    {
      {this, cgiHeader, output, input}
    }

    ghost predicate Valid()
      reads this, cgiHeader, output, input
    {
      && cgiHeader.Valid()
      && (inFd != null ==> inFd == input && inFd.written == received)
      && (outFd != null ==> outFd == output && cgiHeader.h == HeaderBlock.Run(NEW_BLOCK, output.delivered)
                            && End(NEW_BLOCK, output.delivered) == -1 && !output.errored && !output.ended)
    }

    /** cgiexe_new: fresh pipes to and from the program. */
    constructor (inPipe: int, outPipe: int, onlyHead: bool)
      ensures Valid() && fresh(Repr()) && received == [] && inFd != null && outFd != null
      ensures input.fd == inPipe && output.fd == outPipe && this.onlyHead == onlyHead
    {
      var accepts: seq<WriteEvent> := *;
      var arrives: seq<ReadEvent> := *;
      var i := new Sink(inPipe, accepts);
      var o := new Source(outPipe, arrives);
      cgiHeader := new DataHeader();
      this.onlyHead := onlyHead;
      inFd, input, outFd, output, received := i, i, o, o, [];
    }

    /** cgiexe_processData: takes less than everything only when the pipe is full. */
    method ProcessData(data: Bytes, dpr: Dpr) returns (processed: nat, r: Dpr)
      requires Valid()
      modifies `inFd, `received, input
      ensures Valid() && processed <= |data| && received == old(received) + data[..processed]
      ensures processed == |data| ==> r == dpr
      ensures processed < |data| ==> r == dpr.(reqState := AwaitWrite, reqFd := input.fd)
      ensures processed < |data| ==>
        inFd == input && input.full && input.tries > old(input.tries) && input.written == received
      ensures inFd == null && old(inFd) != null ==> input.broken
    {
      processed, r := 0, dpr;
      ghost var start := received;
      assert data[..0] == [];
      EmptyConcat(start);
      while inFd != null && processed < |data|
        invariant 0 <= processed <= |data| && received == start + data[..processed]
        invariant inFd != null ==> inFd == input && inFd.written == received
        invariant inFd == null && old(inFd) != null ==> input.broken
        invariant input.tries >= old(input.tries)
        decreases |data| - processed, inFd != null
      {
        var wr := inFd.Write(data[processed..]);
        if wr.Full? {
          return processed, dpr.(reqState := AwaitWrite, reqFd := inFd.fd);
        }
        if wr.WriteError? {
          inFd := null;
        } else {
          JoinRanges(data, 0, processed, wr.count);
          Assoc(start, data[..processed], data[processed..][..wr.count]);
          processed := processed + wr.count;
          received := start + data[..processed];
        }
      }
      assert data[..|data|] == data;
      processed, received := |data|, start + data;
    }

    method RequestReadCompleted()
      requires Valid()
      modifies `inFd
      ensures Valid() && inFd == null
    {
      inFd := null;
    }

    /** Reads until the header is complete, and keeps the last read: offset is where the body starts in it. */
    method ReadHeader() returns (offset: int, rd: ReadResult)
      requires Valid() && outFd != null
      modifies cgiHeader, output
      ensures cgiHeader.Valid() && -1 <= offset && (offset < 0 ==> !rd.Got? && (rd.WouldBlock? ==> Valid()))
      ensures (offset < 0 && rd.WouldBlock? ==> output.dry) && output.tries > old(output.tries)
      ensures (rd.Eof? <==> output.ended) && (rd.ReadError? <==> output.errored) && (rd.Got? ==> |rd.bytes| <= 4096)
      ensures offset >= 0 ==> rd.Got? && offset <= |rd.bytes|
      ensures offset >= 0 && cgiHeader.h.Head? ==> EndsWith(output.delivered, cgiHeader.h, rd.bytes[offset..])
    {
      offset, rd := -1, WouldBlock;
      var more := true;
      while offset < 0 && more
        invariant -1 <= offset && cgiHeader.Valid()
        invariant offset < 0 ==> (!more ==> !rd.Got?) && (more || rd.WouldBlock? ==> Valid())
        invariant !more && rd.WouldBlock? ==> output.dry
        invariant output.tries >= old(output.tries) && (!more || offset >= 0 ==> output.tries > old(output.tries))
        invariant (more ==> !rd.ReadError?) && (rd.ReadError? <==> output.errored)
        invariant (more ==> !rd.Eof?) && (rd.Eof? <==> output.ended) && (rd.Got? ==> |rd.bytes| <= 4096)
        invariant offset >= 0 ==> rd.Got? && offset <= |rd.bytes|
        invariant offset >= 0 && cgiHeader.h.Head? ==> EndsWith(output.delivered, cgiHeader.h, rd.bytes[offset..])
        decreases Fuel(output.script), more
      {
        ghost var before := output.delivered;
        rd := outFd.Read(4096);
        more := rd.Got?;
        if rd.Got? {
          offset := cgiHeader.AppendData(rd.bytes);
          HeaderMore(before, rd.bytes, offset, cgiHeader.h);
        }
      }
    }

    /**
     The output ends the program: it could not be read, or it has come to the answer to a HEAD request, which has no
     body buffer. A header with a NUL may count as read.
     */
    ghost predicate Ends()
      reads this, cgiHeader, output
    {
      outFd != null && (output.errored || (onlyHead && (output.ended || HeaderRead())))
    }

    ghost predicate HeaderRead()
      reads cgiHeader, output
    {
      End(NEW_BLOCK, output.delivered) >= 0 || cgiHeader.h.Garbled?
    }

    /** cgiexe_getResponse */
    method GetResponse(dpr: Dpr) returns (o: CgiOutcome, r: Dpr)
      requires Valid() && outFd != null
      modifies `outFd, cgiHeader, output
      ensures (o.Fatal? ==> Ends()) && (Ends() && !cgiHeader.h.Garbled? ==> o.Fatal?)
      ensures o.Made? ==> !onlyHead
      ensures (!o.Fatal? ==> Valid()) && (!o.Made? ==> outFd != null)
      ensures if o.NotYet? then AwaitsFile(dpr, r, output, old(output.tries)) else r == dpr
      ensures output.tries > old(output.tries)
      ensures o.Made? ==>
        && outFd == null && o.resp.Valid() && o.resp.body != null && (o.resp.file == null || o.resp.file == output)
      ensures o.Made? ==> AllNew(o.resp) && |o.resp.body.Contents()| <= 4096
      ensures o.Made? && cgiHeader.h.Head? && o.resp.file != null ==>
        && EndsWith(output.delivered, cgiHeader.h, o.resp.body.Contents())
        && o.resp.statusLine == StatusLine(cgiHeader.h.fields) && o.resp.lines == CgiLines(cgiHeader.h.fields)
      ensures o.Made? && o.resp.file == null ==>
        && o.resp.statusLine == "HTTP/1.1 " + "500 Internal Server Error"
        && o.resp.body.Contents() == MISSING_HEADER_PAGE && output.ended
    {
      r := dpr;
      var offset, rd := ReadHeader();
      if onlyHead && (offset >= 0 || rd.Eof?) {
        o := Fatal;
      } else if offset >= 0 {
        var resp := MakeResponse(rd.bytes[offset..], outFd);
        outFd := null;
        o := Made(resp);
      } else if rd.Eof? {
        outFd := null;
        var resp := MissingHeaderResponse();
        o := Made(resp);
      } else if rd.WouldBlock? {
        o, r := NotYet, dpr.(respState := AwaitRead, respFd := outFd.fd);
      } else {
        o := Fatal;
      }
    }

    /** The response: its header, the output already read behind the CGI header, and the rest of the pipe. */
    method MakeResponse(rest: Bytes, file: Source) returns (resp: RespBuf)
      requires cgiHeader.Valid()
      ensures AllNew(resp) && resp.Valid() && resp.file == file
      ensures resp.body != null && resp.body.Contents() == rest
      ensures resp.statusLine == StatusLine(cgiHeader.lines) && resp.lines == CgiLines(cgiHeader.lines)
    {
      resp := PrintHeader();
      resp.AppendData(rest);
      EmptyConcat(rest);
      resp.file := file;
    }

    /** The status line and header lines of the response. */
    method PrintHeader() returns (resp: RespBuf)
      requires cgiHeader.Valid()
      ensures AllNew(resp) && resp.Valid() && resp.file == null
      ensures resp.body != null && resp.body.Contents() == []
      ensures resp.statusLine == StatusLine(cgiHeader.lines) && resp.lines == CgiLines(cgiHeader.lines)
    {
      var status := cgiHeader.GetHeaderVal("Status");
      var contentType := cgiHeader.GetHeaderVal("Content-Type");
      resp := new RespBuf(status.GetOr("200 OK"), false);
      resp.AppendHeader("Content-Type", contentType.GetOr("text/plain"));
      EmptyConcat([ContentTypeLine(cgiHeader.lines)]);
      PassFields(cgiHeader.lines, resp);
    }
  }

  method MissingHeaderResponse() returns (resp: RespBuf)
    ensures AllNew(resp) && resp.Valid() && resp.file == null
    ensures resp.body != null && resp.body.Contents() == MISSING_HEADER_PAGE && |MISSING_HEADER_PAGE| <= 4096
    ensures resp.statusLine == "HTTP/1.1 " + "500 Internal Server Error"
  {
    resp := new RespBuf("500 Internal Server Error", false);
    resp.AppendHeader("Content-Type", "text/html");
    resp.AppendData(MISSING_HEADER_PAGE);
    EmptyConcat(MISSING_HEADER_PAGE);
  }

  method PassFields(fields: seq<Field>, resp: RespBuf)
    requires resp.Valid()
    modifies resp.header, resp`lines
    ensures resp.Valid() && resp.lines == old(resp.lines) + PassedOn(fields)
    ensures resp.header.data == old(resp.header.data) || fresh(resp.header.data)
  {
    ghost var before := resp.lines;
    EmptyConcat(before);
    var i := 0;
    while i < |fields|
      invariant 0 <= i <= |fields| && resp.Valid() && resp.lines == before + PassedOn(fields[..i])
      invariant resp.header.data == old(resp.header.data) || fresh(resp.header.data)
    {
      PassedOnSnoc(before, fields, i);
      if IsPassedOn(fields[i].name) {
        resp.AppendHeader(fields[i].name, fields[i].value);
      }
      i := i + 1;
    }
    assert fields[..i] == fields;
  }

  lemma PassedOnSnoc(before: seq<Line>, fields: seq<Field>, i: nat)
    requires i < |fields|
    ensures before + PassedOn(fields[..i + 1])
         == before + PassedOn(fields[..i])
              + if IsPassedOn(fields[i].name) then [Named(fields[i].name, " " + fields[i].value)] else []
  {
    var more: seq<Line> := if IsPassedOn(fields[i].name) then [Named(fields[i].name, " " + fields[i].value)] else [];
    assert fields[..i + 1][..i] == fields[..i];
    Assoc(before, PassedOn(fields[..i]), more);
  }

  lemma CutConcat(a: Bytes, b: Bytes, n: nat)
    requires n <= |b|
    ensures (a + b)[..|a| + n] == a + b[..n] && (a + b)[|a| + n..] == b[n..]
  {
  }

  /** The output read so far, after one more read was given to the header. */
  lemma HeaderMore(before: Bytes, bytes: Bytes, used: int, h: Head)
    requires End(NEW_BLOCK, before) == -1 && -1 <= used <= |bytes|
    requires h == HeaderBlock.Run(HeaderBlock.Run(NEW_BLOCK, before), if used < 0 then bytes else bytes[..used])
    requires End(HeaderBlock.Run(NEW_BLOCK, before), bytes) == if h.Head? then used else -1
    ensures used < 0 ==> h == HeaderBlock.Run(NEW_BLOCK, before + bytes) && End(NEW_BLOCK, before + bytes) == -1
    ensures used >= 0 && h.Head? ==> EndsWith(before + bytes, h, bytes[used..])
  {
    hide HeaderBlock.Run, End;
    EndConcat(NEW_BLOCK, before, bytes);
    if used < 0 {
      HeaderBlock.RunConcat(NEW_BLOCK, before, bytes);
    } else {
      HeaderBlock.RunConcat(NEW_BLOCK, before, bytes[..used]);
      CutConcat(before, bytes, used);
    }
  }
}

/** The body of a response to a CGI program is what the program put out behind its header. */
module CgiResponses {
  import opened ByteStrings
  import opened CgiExecutors
  import opened Framing
  import opened HeaderBlock
  import opened ResponseRoundTrip
  import opened ResponseSenders
  import opened RespBufs

  predicate CleanField(f: Field) {
    Plain(f.name) && Plain(f.value) && ':' !in f.name
  }

  predicate CleanFields(fields: seq<Field>) {
    forall i :: 0 <= i < |fields| ==> CleanField(fields[i])
  }

  predicate CleanHead(h: Head) {
    h.Head? ==> Plain(h.cur) && CleanFields(h.fields)
  }

  lemma AddLineClean(fields: seq<Field>, line: Bytes)
    requires CleanFields(fields) && Plain(line)
    ensures CleanFields(AddLine(fields, line))
  {
    var colon := Index(line, ':');
    if colon < |line| {
      assert CleanField(Field(line[..colon], line[colon + 1..]));
    }
  }

  /** Fields read from a header never contain line ends or NULs. */
  lemma {:induction false} RunClean(h: Head, data: Bytes)
    requires CleanHead(h)
    ensures CleanHead(HeaderBlock.Run(h, data))
    decreases |data|
  {
    if data != [] {
      if h.Head? && data[0] == '\n' {
        AddLineClean(h.fields, StripCr(h.cur));
      }
      RunClean(HeaderBlock.Step(h, data[0]), data[1..]);
    }
  }

  lemma {:induction false} SkipBlanksPlain(s: Bytes)
    requires Plain(s)
    ensures Plain(SkipBlanks(s))
  {
    if s != [] && IsBlank(s[0]) {
      SkipBlanksPlain(s[1..]);
    }
  }

  lemma LookupPlain(fields: seq<Field>, name: Bytes, default: Bytes)
    requires CleanFields(fields) && Plain(default)
    ensures Plain(Lookup(fields, name).GetOr(default))
  {
    var i := FirstNamed(fields, name);
    if i < |fields| {
      assert CleanField(fields[i]);
      SkipBlanksPlain(fields[i].value);
    }
  }

  lemma PlainIsLine(name: Bytes, value: Bytes)
    requires Plain(name) && Plain(value) && ':' !in name
    ensures ValidLine(Named(name, " " + value))
  {
    assert Plain(name + ":" + (" " + value));
  }

  lemma ValidLinesConcat(a: seq<Line>, b: seq<Line>)
    requires ValidLines(a) && ValidLines(b)
    ensures ValidLines(a + b)
  {
  }

  lemma OneValidLine(name: Bytes, value: Bytes)
    requires Plain(name) && Plain(value) && ':' !in name
    ensures ValidLines([Named(name, " " + value)])
  {
    PlainIsLine(name, value);
  }

  lemma {:induction false} PassedOnValid(fields: seq<Field>)
    requires CleanFields(fields)
    ensures ValidLines(PassedOn(fields))
    decreases |fields|
  {
    if fields != [] {
      var n := |fields| - 1;
      assert CleanField(fields[n]);
      PassedOnValid(fields[..n]);
      if IsPassedOn(fields[n].name) {
        OneValidLine(fields[n].name, fields[n].value);
        ValidLinesConcat(PassedOn(fields[..n]), [Named(fields[n].name, " " + fields[n].value)]);
      } else {
        EmptyConcat(PassedOn(fields[..n]));
      }
    }
  }

  const TE: Bytes := "Transfer-Encoding"

  lemma LookupSnoc(fields: seq<Field>, f: Field, name: Bytes)
    ensures Lookup(fields + [f], name) ==
      if Lookup(fields, name).Some? then Lookup(fields, name)
      else if EqualIgnoreCase(f.name, name) then Some(SkipBlanks(f.value)) else None
  {
    FirstNamedSnoc(fields, f, name);
  }

  lemma LookupCons(f: Field, fields: seq<Field>, name: Bytes)
    ensures Lookup([f] + fields, name) ==
      if EqualIgnoreCase(f.name, name) then Some(SkipBlanks(f.value)) else Lookup(fields, name)
  {
    assert ([f] + fields)[1..] == fields;
  }

  lemma EqualThrough(a: Bytes, b: Bytes, c: Bytes)
    requires EqualIgnoreCase(a, b)
    ensures EqualIgnoreCase(a, c) <==> EqualIgnoreCase(b, c)
    ensures StartsIgnoreCase(a, c) <==> StartsIgnoreCase(b, c)
  {
  }

  /** Passing on depends on the letters of the name only. */
  lemma PassedOnAlike(a: Bytes, b: Bytes)
    requires EqualIgnoreCase(a, b)
    ensures IsPassedOn(a) <==> IsPassedOn(b)
  {
    hide EqualIgnoreCase, StartsIgnoreCase;
    EqualThrough(a, b, "Status");
    EqualThrough(a, b, "Content-Type");
    EqualThrough(a, b, "X-CGI-");
  }

  lemma TeIsPassedOn()
    ensures IsPassedOn(TE) && !EqualIgnoreCase("Content-Type", TE) && !EqualIgnoreCase("Server", TE)
  {
    assert Lower(TE[0]) == 't' && |TE| == 17;
  }

  /** Fields that are passed on are found as the program sent them; the others are not found. */
  lemma {:induction false} LookupPassedOn(fields: seq<Field>, name: Bytes)
    ensures Lookup(FieldsOf(PassedOn(fields)), name) == if IsPassedOn(name) then Lookup(fields, name) else None
    decreases |fields|
  {
    hide SkipBlanks, IsPassedOn, Lookup, EqualIgnoreCase;
    if fields == [] {
      NothingFound(name);
    } else {
      var n := |fields| - 1;
      var f := fields[n];
      LookupPassedOn(fields[..n], name);
      assert fields == fields[..n] + [f];
      LookupSnoc(fields[..n], f, name);
      if EqualIgnoreCase(f.name, name) {
        PassedOnAlike(f.name, name);
      }
      if IsPassedOn(f.name) {
        PrintLinesSnoc(PassedOn(fields[..n]), Named(f.name, " " + f.value));
        OneField(Named(f.name, " " + f.value));
        LookupSnoc(FieldsOf(PassedOn(fields[..n])), Field(f.name, " " + f.value), name);
        BlankSkipped(f.value);
      } else {
        EmptyConcat(PassedOn(fields[..n]));
      }
    }
  }

  lemma NothingFound(name: Bytes)
    ensures Lookup([], name) == None && FieldsOf([]) == []
  {
  }

  lemma BlankSkipped(value: Bytes)
    ensures SkipBlanks(" " + value) == SkipBlanks(value)
  {
    assert (" " + value)[1..] == value;
  }

  /** All lines of the response but the announcement of its body. */
  function AllLines(fields: seq<Field>): seq<Line> {
    CgiLines(fields) + [SERVER_LINE]
  }

  lemma AllLinesFields(fields: seq<Field>)
    ensures FieldsOf(AllLines(fields)) ==
      [Field("Content-Type", ContentTypeLine(fields).value)] + FieldsOf(PassedOn(fields))
        + [Field("Server", " filemanager-httpd")]
  {
    PrintLinesSnoc(CgiLines(fields), SERVER_LINE);
    OneField(SERVER_LINE);
    FieldsCons(CgiLines(fields));
    OneField(ContentTypeLine(fields));
    assert CgiLines(fields)[1..] == PassedOn(fields);
  }

  lemma LookupAllLines(fields: seq<Field>)
    ensures Lookup(FieldsOf(AllLines(fields)), TE) == Lookup(fields, TE)
  {
    hide SkipBlanks, Lookup, FieldsOf, PassedOn;
    var first, last := Field("Content-Type", ContentTypeLine(fields).value), Field("Server", " filemanager-httpd");
    AllLinesFields(fields);
    TeIsPassedOn();
    LookupPassedOn(fields, TE);
    LookupCons(first, FieldsOf(PassedOn(fields)), TE);
    LookupSnoc([first] + FieldsOf(PassedOn(fields)), last, TE);
  }

  /** The names that have a meaning for the server itself, or are its own. */
  predicate IsReserved(name: Bytes) {
    || SameName(name, "Status") || SameName(name, "Content-Type") || SameName(name, "Server")
    || (|name| >= 6 && SameName(name[..6], "X-CGI-"))
  }

  lemma {:induction false} SkipTwice(s: Bytes)
    ensures SkipBlanks(SkipBlanks(s)) == SkipBlanks(s)
    decreases |s|
  {
    if s != [] && IsBlank(s[0]) {
      SkipTwice(s[1..]);
    }
  }

  lemma ReservedNames(name: Bytes)
    ensures IsReserved(name) <==> !IsPassedOn(name) || EqualIgnoreCase("Server", name)
  {
    hide EqualIgnoreCase, SameLetter;
    CaseIgnored(name, "Status");
    CaseIgnored(name, "Content-Type");
    CaseIgnored("Server", name);
    CaseIgnored(name, "Server");
    SameBack("Server", name);
    if |name| >= 6 {
      CaseIgnored(name[..6], "X-CGI-");
    }
  }

  lemma SameBack(a: Bytes, b: Bytes)
    ensures EqualIgnoreCase(a, b) <==> EqualIgnoreCase(b, a)
  {
  }

  /** Every field of the program is in the response as it was sent, but for those with a reserved name. */
  lemma FieldsPassedOn(fields: seq<Field>, name: Bytes)
    requires !IsReserved(name)
    ensures Lookup(FieldsOf(AllLines(fields)), name) == Lookup(fields, name)
  {
    hide SkipBlanks, Lookup, FieldsOf, PassedOn, EqualIgnoreCase, IsPassedOn, IsReserved;
    var first, last := Field("Content-Type", ContentTypeLine(fields).value), Field("Server", " filemanager-httpd");
    ReservedNames(name);
    NotContentType(name);
    AllLinesFields(fields);
    LookupPassedOn(fields, name);
    LookupCons(first, FieldsOf(PassedOn(fields)), name);
    LookupSnoc([first] + FieldsOf(PassedOn(fields)), last, name);
  }

  lemma NotContentType(name: Bytes)
    requires IsPassedOn(name)
    ensures !EqualIgnoreCase("Content-Type", name)
  {
    SameBack("Content-Type", name);
  }

  /** The Content-Type is that of the program, or text/plain. */
  lemma ContentTypePassedOn(fields: seq<Field>)
    ensures Lookup(FieldsOf(AllLines(fields)), "Content-Type")
         == Some(Lookup(fields, "Content-Type").GetOr("text/plain"))
  {
    var value := Lookup(fields, "Content-Type").GetOr("text/plain");
    AllLinesFields(fields);
    var rest := FieldsOf(PassedOn(fields)) + [Field("Server", " filemanager-httpd")];
    var first := Field("Content-Type", ContentTypeLine(fields).value);
    Assoc([first], FieldsOf(PassedOn(fields)), [Field("Server", " filemanager-httpd")]);
    LookupCons(first, rest, "Content-Type");
    BlankSkipped(value);
    var i := FirstNamed(fields, "Content-Type");
    if i < |fields| {
      SkipTwice(fields[i].value);
    } else {
      assert SkipBlanks("text/plain") == "text/plain";
    }
  }

  /** The first Status field becomes the status line; without one it says that all is well. */
  lemma StatusPassedOn(r: ResponseSender, h: Head, i: nat, gap: Bytes, status: Bytes)
    requires AnswersCgi(r, h) && h.Head? && i <= |h.fields|
    requires forall j :: 0 <= j < i ==> !SameName(h.fields[j].name, "Status")
    requires i < |h.fields| ==> SameName(h.fields[i].name, "Status") && h.fields[i].value == gap + status
    requires (forall k :: 0 <= k < |gap| ==> gap[k] in " \t") && (status != [] ==> status[0] !in " \t")
    ensures "HTTP/1.1 " + (if i < |h.fields| then status else "200 OK") + "\r\n" <= r.head
  {
    hide SameName, Lookup, PrintLines, AllLines, Announcement;
    if i < |h.fields| {
      LookupWritten(h.fields, "Status", i, gap, status);
    } else {
      NotFound(h.fields, "Status");
    }
    BeginsWith(StatusLine(h.fields) + "\r\n", PrintLines(AllLines(h.fields)), Announcement(r.stream), "\r\n");
  }

  lemma BeginsWith(a: Bytes, b: Bytes, c: Bytes, d: Bytes)
    ensures a <= a + b + c + d
  {
  }

  /** The program sends no Transfer-Encoding itself, or one that says "chunked" as well. */
  predicate LeavesFraming(fields: seq<Field>) {
    var te := Lookup(fields, TE);
    te.None? || HasChunked(te.value)
  }

  lemma FramingAnnounced(fields: seq<Field>, s: Stream)
    requires s.InChunks?
    ensures IsChunked(FieldsOf(WithAnnouncement(AllLines(fields), s))) <==> LeavesFraming(fields)
  {
    hide FieldsOf, AllLines, Lookup, HasChunked;
    var l := AnnouncedLine(s);
    LookupAllLines(fields);
    PrintLinesSnoc(AllLines(fields), l);
    OneField(l);
    LookupSnoc(FieldsOf(AllLines(fields)), Field(l.name, l.value), TE);
    ChunkedIsChunked();
  }

  lemma FixedLinesPlain()
    ensures Plain("Content-Type") && ':' !in "Content-Type" && Plain("Server") && ':' !in "Server"
    ensures Plain("filemanager-httpd") && " " + "filemanager-httpd" == " filemanager-httpd"
  {
  }

  lemma AllLinesValid(fields: seq<Field>)
    requires CleanFields(fields)
    ensures ValidLines(AllLines(fields))
  {
    var value := Lookup(fields, "Content-Type").GetOr("text/plain");
    assert Plain("text/plain");
    LookupPlain(fields, "Content-Type", "text/plain");
    FixedLinesPlain();
    OneValidLine("Content-Type", value);
    OneValidLine("Server", "filemanager-httpd");
    PassedOnValid(fields);
    ValidLinesConcat([ContentTypeLine(fields)], PassedOn(fields));
    ValidLinesConcat(CgiLines(fields), [SERVER_LINE]);
  }

  lemma StatusLineValid(fields: seq<Field>)
    requires CleanFields(fields)
    ensures Plain(StatusLine(fields)) && StatusLine(fields) != []
  {
    var start: Bytes := "HTTP/1.1 ";
    assert Plain("200 OK") && Plain(start);
    LookupPlain(fields, "Status", "200 OK");
    PlainConcat(start, Lookup(fields, "Status").GetOr("200 OK"));
  }

  lemma PlainConcat(a: Bytes, b: Bytes)
    requires Plain(a) && Plain(b)
    ensures Plain(a + b)
  {
  }

  /** The response was made from CGI output that begins with a header of that meaning. */
  ghost predicate AnswersCgi(r: ResponseSender, h: Head)
    reads r
  {
    && r.stream.InChunks? && EndsWith(r.start, h, r.stream.body)
    && r.head == StatusLine(h.fields) + "\r\n" + PrintLines(AllLines(h.fields)) + Announcement(r.stream) + "\r\n"
  }

  /**
   CGI body conservation: however the output of the program was split into reads, what was sent decodes to exactly
   the output behind its first blank line: what the header reads had left over, joined to the rest of the pipe. This
   is so exactly when the program does not send a Transfer-Encoding of its own that says something else.
   */
  lemma CgiBodyConserved(r: ResponseSender, h: Head)
    requires r.Valid() && r.Finished() && AnswersCgi(r, h)
    ensures r.source != null && (r.source.ended || r.source.errored)
    ensures var out := r.source.delivered;
            var e := End(NEW_BLOCK, out);
            e >= 0 && (Decodes(r, h, out[e..]) <==> LeavesFraming(h.fields))
  {
    hide ResponseSender.Valid, ResponseSender.Finished, Framing.Run, HeaderBlock.Run, ValidLines, Announcement;
    hide AllLines, StatusLine, FieldsOf, WithAnnouncement, PrintLines, LeavesFraming, IsChunked;
    var e := End(NEW_BLOCK, r.start);
    RunClean(NEW_BLOCK, r.start[..e]);
    AllLinesValid(h.fields);
    StatusLineValid(h.fields);
    FramingAnnounced(h.fields, r.stream);
    ChunkedResponseIff(r, StatusLine(h.fields), AllLines(h.fields));
    FromPipe(r);
    EndConcat(NEW_BLOCK, r.start, r.stream.taken);
    DropConcat(r.start, r.stream.taken, e);
  }

  lemma DropConcat(a: Bytes, b: Bytes, e: nat)
    requires e <= |a|
    ensures (a + b)[e..] == a[e..] + b
  {
  }

  /** The CGI header that consists of this one field. */
  function OwnCoding(value: Bytes): Head {
    Head(Some([]), [Field(TE, " " + value)], [])
  }

  lemma NamePlain()
    ensures Plain(TE) && ':' !in TE
  {
  }

  /** Output whose header names a coding. */
  lemma OwnCodingEnds(value: Bytes, body: Bytes)
    requires Plain(value)
    ensures EndsWith(PrintLines([Named(TE, " " + value)]) + "\r\n" + body, OwnCoding(value), body)
  {
    hide HeaderBlock.Run, End, ValidLines, FieldsOf, PrintLines, Plain, TE;
    var line := Named(TE, " " + value);
    var text := PrintLines([line]) + "\r\n";
    NamePlain();
    OneValidLine(TE, value);
    BlockRoundTrip(NEW_BLOCK, [line], body);
    OneField(line);
    EmptyConcat(FieldsOf([line]));
    assert (text + body)[..|text|] == text && (text + body)[|text|..] == body;
  }

  lemma LookupOwn(value: Bytes)
    ensures Lookup(OwnCoding(value).fields, TE) == Some(SkipBlanks(value))
  {
    hide SkipBlanks, Lookup;
    var f := Field(TE, " " + value);
    assert EqualIgnoreCase(f.name, TE);
    NothingFound(TE);
    LookupSnoc([], f, TE);
    assert [] + [f] == OwnCoding(value).fields;
    BlankSkipped(value);
  }

  const GZIP_OUTPUT: Bytes := "Transfer-Encoding: gzip\r\n\r\nx"

  lemma GzipText()
    ensures PrintLines([Named(TE, " " + "gzip")]) + "\r\n" + "x" == GZIP_OUTPUT
  {
    var line := Named(TE, " " + "gzip");
    assert [line][1..] == [];
    EmptyConcat(LineText(line) + "\r\n");
    assert LineText(line) == "Transfer-Encoding: gzip";
  }

  lemma GzipOutput()
    ensures EndsWith(GZIP_OUTPUT, OwnCoding("gzip"), "x") && !LeavesFraming(OwnCoding("gzip").fields)
  {
    hide EndsWith, Lookup;
    assert SkipSeparators("gzip") == "gzip" && !HasChunked("gzip") && SkipBlanks("gzip") == "gzip";
    LookupOwn("gzip");
    OwnCodingEnds("gzip", "x");
    GzipText();
  }

  lemma SameHeader(r: ResponseSender, h: Head)
    requires r.Valid() && r.Finished() && AnswersCgi(r, h)
    ensures r.source != null && EndsWith(r.source.delivered, h, BodySent(r.stream))
  {
    hide Payload, WellFormed;
    FromPipe(r);
    EndConcat(NEW_BLOCK, r.start, r.stream.taken);
    var e := End(NEW_BLOCK, r.start);
    DropConcat(r.start, r.stream.taken, e);
    assert r.source.delivered[..e] == r.start[..e];
  }

  lemma OneHeader(out: Bytes, h: Head, body: Bytes, h': Head, body': Bytes)
    requires EndsWith(out, h, body) && EndsWith(out, h', body')
    ensures h == h' && body == body' && out[End(NEW_BLOCK, out)..] == body
  {
  }

  lemma NotDecoded(r: ResponseSender, h: Head, h': Head, body: Bytes)
    requires r.Valid() && r.Finished() && AnswersCgi(r, h) && r.source != null
    requires EndsWith(r.source.delivered, h', body) && !LeavesFraming(h'.fields)
    ensures h == h' && !Decodes(r, h, body)
  {
    hide ResponseSender.Valid, ResponseSender.Finished, LeavesFraming, Decodes, EndsWith, AnswersCgi;
    CgiBodyConserved(r, h);
    SameHeader(r, h);
    OneHeader(r.source.delivered, h, BodySent(r.stream), h', body);
  }

  /** A program that puts out a gzip coding and "x": what is sent does not decode to a response with body "x". */
  lemma GzipNotDecoded(r: ResponseSender, h: Head)
    requires r.Valid() && r.Finished() && AnswersCgi(r, h) && r.source != null && r.source.delivered == GZIP_OUTPUT
    ensures h == OwnCoding("gzip") && !Decodes(r, h, "x")
  {
    hide ResponseSender.Valid, ResponseSender.Finished, LeavesFraming, Decodes, EndsWith, AnswersCgi;
    GzipOutput();
    NotDecoded(r, h, OwnCoding("gzip"), "x");
  }

  /** Everything written is one response with that body, and nothing else. */
  ghost predicate Decodes(r: ResponseSender, h: Head, body: Bytes)
    requires h.Head?
    reads r
  {
    Framing.Run(FRESH_DECODER, r.sent) ==
      var lines := WithAnnouncement(AllLines(h.fields), r.stream);
      Finish([], Untrailed(Head(Some(StatusLine(h.fields)), FieldsOf(lines), []), body))
  }

  lemma FromPipe(r: ResponseSender)
    requires r.Valid() && r.Finished() && r.stream.InChunks?
    ensures r.source != null && r.source.delivered == r.start + r.stream.taken && (r.source.ended || r.source.errored)
  {
    hide Payload, WellFormed;
  }
}
