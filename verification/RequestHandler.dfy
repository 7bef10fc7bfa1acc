/** The handler of one request (src/reqhandler.c): a folder, a CGI program, or an answer that is ready at once. */
module RequestHandlers {
  import opened ByteStrings
  import opened CgiExecutors
  import opened CgiResponses
  import opened Descriptors
  import opened FileManagers
  import opened HeaderBlock
  import opened Numerals
  import opened RequestHeaders
  import opened ResponseSenders
  import opened RespBufs
  import opened StartLines
  import Config

  // What the file system and the configuration have for a path: these are outside the model.
  datatype Target = Folder | Cgi | File | Page(status: Bytes)

  /** reqhdlr_new and doProcessRequest, up to the point where the file system decides. */
  function Dispatch(verb: Bytes, path: Bytes, login: LoginState, servable: bool, found: Target): Target {
    if verb != "GET" && verb != "POST" && verb != "HEAD" then Page("405 Method Not Allowed")
    else if login.LoginFail? || !servable then Page("401 Unauthorized")
    else if !Config.PassesDotDotTest(path) then Page("403 Forbidden")
    else found
  }

  datatype Progress = Finished | Unfinished | Exits

  /** The header text begins with this status line. */
  predicate StatusIs(head: Bytes, status: Bytes) {
    "HTTP/1.1 " + status + "\r\n" <= head
  }

  /** Header lines besides the status line are outside the model. */
  method AddLines(resp: RespBuf)
    requires resp.Valid()
    modifies resp.header, resp`lines
    ensures resp.Valid() && (resp.header.data == old(resp.header.data) || fresh(resp.header.data))
  {
    var lines: seq<(Bytes, Bytes)> := *;
    var i := 0;
    while i < |lines|
      invariant resp.Valid() && (resp.header.data == old(resp.header.data) || fresh(resp.header.data))
    {
      resp.AppendHeader(lines[i].0, lines[i].1);
      i := i + 1;
    }
  }

  /** A response with some page as its body, or with a file behind it. */
  method MakeAnswer(status: Bytes, onlyHead: bool, hasFile: bool) returns (r: ResponseSender)
    ensures fresh(r) && fresh(r.Repr) && r.Valid() && r.sent == []
    ensures StatusIs(r.head, status) && (r.stream.NoBody? <==> onlyHead)
    ensures r.source != null <==> hasFile && !onlyHead
  {
    hide ResponseSender.Valid, PrintLines, Announcement;
    var resp := new RespBuf(status, onlyHead);
    AddLines(resp);
    if !onlyHead {
      var page: Bytes := *;
      if |page| < UINT_RANGE {
        resp.AppendData(page);
        EmptyConcat(page);
      }
      if hasFile {
        var arrives: seq<ReadEvent> := *;
        var fd: int := *;
        resp.file := new Source(fd, arrives);
      }
    }
    var stat: Stat := *;
    ghost var lines := PrintLines(resp.lines + [SERVER_LINE]);
    r := resp.Finish(stat);
    BeginsWith(resp.statusLine + "\r\n", lines, Announcement(r.stream), "\r\n");
  }

  /** cgiexe_getResponse and resp_finish */
  method Ask(cgi: CgiExecutor, dpr: Dpr) returns (s: ResponseSender?, exits: bool, r: Dpr)
    requires cgi.Valid() && cgi.outFd != null
    modifies cgi`outFd, cgi.cgiHeader, cgi.output
    ensures (!exits ==> cgi.Valid()) && (exits ==> s == null) && (cgi.outFd == null <==> s != null)
    ensures exits ==> cgi.Ends()
    ensures if s == null && !exits then AwaitsFile(dpr, r, cgi.output, old(cgi.output.tries)) else r == dpr
    ensures cgi.output.tries > old(cgi.output.tries)
    ensures s != null && s.file != null ==> s.file == cgi.output
    ensures s != null ==> fresh(s) && s.Valid() && s.sent == []
    ensures s != null ==> forall o :: o in s.Repr ==> fresh(o) || o == cgi.output
    ensures s != null && s.source != null && cgi.cgiHeader.h.Head? ==> AnswersCgi(s, cgi.cgiHeader.h)
  {
    hide ResponseSender.Valid, EndsWith, CgiLines, StatusLine, PrintLines;
    var outcome;
    outcome, r := cgi.GetResponse(dpr);
    s, exits := null, outcome.Fatal?;
    if outcome.Made? {
      s := outcome.resp.Finish(NotRegular);
      s.FileIsSource();
      Assoc(CgiLines(cgi.cgiHeader.lines), [], [SERVER_LINE]);
    }
  }

  /** The folder handler was told the Content-Type of this header. */
  ghost predicate Serves(h: Head, f: FileManager?) {
    f != null && h.Head? ==> f.contentType == Lookup(h.fields, "Content-Type")
  }

  /** The header alone decides that the request is refused: by its method, a failed login, or its path. */
  predicate IsRefused(creds: seq<Bytes>, h: Head) {
    h.Head? && h.start.Some? &&
    var line := Parse(h.start.value);
    || line.verb !in {"GET", "POST", "HEAD"} || LoginOf(creds, line.verb, h.fields).LoginFail?
    || ".." in Config.Components(line.path)[1..]
  }

  /** The status of a refusal. Without the privilege to serve pages, a path with ".." is not looked at. */
  predicate Refuses(creds: seq<Bytes>, h: Head, head: Bytes) {
    IsRefused(creds, h) ==>
      var line := Parse(h.start.value);
      if line.verb !in {"GET", "POST", "HEAD"} then StatusIs(head, "405 Method Not Allowed")
      else if LoginOf(creds, line.verb, h.fields).LoginFail? then StatusIs(head, "401 Unauthorized")
      else StatusIs(head, "401 Unauthorized") || StatusIs(head, "403 Forbidden")
  }

  /** A request that is refused has its answer at once. */
  ghost predicate Answers(creds: seq<Bytes>, h: Head, response: ResponseSender?) {
    IsRefused(creds, h) ==> response != null && Refuses(creds, h, response.head)
  }

  lemma AnswersAny(creds: seq<Bytes>, h: Head, response: ResponseSender?)
    requires Answers(creds, h, null)
    ensures Answers(creds, h, response)
  {
  }

  class RequestHandler {
    var filemgr: FileManager?
    var cgiexe: CgiExecutor?
    var response: ResponseSender?
    ghost var received: Bytes      // body bytes taken so far
    ghost var Repr: set<object>

    ghost predicate Owned()
      reads this, Repr
    {
      && this in Repr
      && (filemgr != null ==>
            filemgr in Repr && filemgr in filemgr.Repr && filemgr.Repr <= Repr && this !in filemgr.Repr)
      && (cgiexe != null ==> cgiexe in Repr && cgiexe.Repr() <= Repr && this !in cgiexe.Repr())
      && (response != null ==> response in Repr && response.Repr <= Repr && this !in response.Repr)
      && (filemgr != null ==> cgiexe == null)
      && (filemgr != null && response != null ==> filemgr.Repr !! response.Repr && response !in filemgr.Repr)
      && (cgiexe != null && response != null ==>
            cgiexe !in response.Repr && cgiexe.cgiHeader !in response.Repr && cgiexe.input !in response.Repr)
    }

    ghost predicate Valid()
      reads this, Repr
      ensures Valid() ==> this in Repr && (filemgr != null ==> cgiexe == null)
    {
      && Owned()
      && (filemgr != null ==> filemgr.Valid() && filemgr.received == received)
      && (cgiexe != null ==> cgiexe.Valid() && cgiexe.received == received)
      && (response != null ==> response.Valid())
      && (cgiexe != null ==> (cgiexe.outFd == null <==> response != null))
      && (response == null ==> filemgr != null || cgiexe != null)
      && (cgiexe != null && response != null && response.source != null && cgiexe.cgiHeader.h.Head? ==>
            AnswersCgi(response, cgiexe.cgiHeader.h))
    }

    /** The bytes of the response written so far. */
    ghost function Sent(): Bytes
      reads this, response
    {
      if response == null then [] else response.sent
    }

    /** The result reports what keeps the response from going on: the socket, its file, or the CGI program. */
    ghost predicate Blocks(dpr: Dpr, r: Dpr, socket: Sink, written: nat, read: nat)
      reads this, response, WaitObjects(), socket
    {
      if response != null then WaitsFor(dpr, r, socket, written, response.file, read)
      else cgiexe != null && AwaitsFile(dpr, r, cgiexe.output, read)
    }

    /** How often the file of the response was read, or the output of the CGI program. */
    ghost function FileTries(): nat
      reads this, response, WaitObjects()
    {
      if response != null then TriesOf(response.file) else if cgiexe != null then cgiexe.output.tries else 0
    }

    ghost function WaitObjects(): set<object>
      reads this, response
    {
      (if response != null && response.file != null then {response.file} else {})
        + if cgiexe != null then {cgiexe.input, cgiexe.output} else {}
    }

    /** The pipe to the CGI program is open, and full. */
    ghost predicate InputFull()
      reads this, cgiexe, if cgiexe == null then {} else {cgiexe.input}
    {
      cgiexe != null && cgiexe.inFd != null && cgiexe.input.full
    }

    /** The output of the CGI program ends this program. */
    ghost predicate OutputFailed()
      reads this, cgiexe, if cgiexe == null then {} else {cgiexe.output, cgiexe.cgiHeader}
    {
      cgiexe != null && cgiexe.Ends()
    }

    /** The open descriptors of the handler that can be waited for. */
    function OpenFds(): set<int>
      reads this, cgiexe, response
    {
      (if cgiexe != null && cgiexe.inFd != null then {cgiexe.inFd.fd} else {})
        + (if cgiexe != null && cgiexe.outFd != null then {cgiexe.outFd.fd} else {})
        + (if response != null && response.file != null then {response.file.fd} else {})
    }

    /** What a response waits for is open. */
    lemma BlocksOnOpen(dpr: Dpr, r: Dpr, socket: Sink)
      requires Valid() && Blocks(dpr, r, socket, 0, 0)
      ensures !r.respState.Ready? && r.respFd in OpenFds() + {socket.fd}
    {
      hide ResponseSender.Valid, FileManager.Valid;
    }

    lemma PipeIsOpen()
      requires Valid() && InputFull()
      ensures cgiexe != null && cgiexe.input.fd in OpenFds()
    {
      hide ResponseSender.Valid, FileManager.Valid;
    }

    /** The answer is ready, with that status: for HEAD without a body, and otherwise with a file if there is one. */
    ghost predicate Ready(status: Bytes, verb: Bytes, hasFile: bool)
      reads this, response
    {
      && response != null && filemgr == null && cgiexe == null && StatusIs(response.head, status)
      && (response.stream.NoBody? <==> verb == "HEAD") && (response.source != null <==> hasFile && verb != "HEAD")
    }

    /** What reqhdlr_new makes of a request. */
    ghost predicate MadeFor(verb: Bytes, path: Bytes, login: LoginState, servable: bool, found: Target)
      reads this, response
    {
      if verb !in {"GET", "POST", "HEAD"} then Ready("405 Method Not Allowed", verb, false)
      else if login.LoginFail? || !servable then Ready("401 Unauthorized", verb, false)
      else if ".." in Config.Components(path)[1..] then Ready("403 Forbidden", verb, false)
      else match found
           case File => Ready("200 OK", verb, true)
           case Page(status) => Ready(status, verb, false)
           case Folder => filemgr != null && response == null
           case Cgi => cgiexe != null && response == null && cgiexe.onlyHead == (verb == "HEAD")
    }

    lemma AnswersHeader(creds: seq<Bytes>, h: Head, servable: bool, found: Target)
      requires h.Head? && h.start.Some?
      requires var line := Parse(h.start.value);
        MadeFor(line.verb, line.path, LoginOf(creds, line.verb, h.fields), servable, found)
      ensures Answers(creds, h, response)
    {
      hide Parse, LoginOf, StatusIs, Config.Components;
    }

    /** reqhdlr_new */
    constructor (header: RequestHeader, servable: bool, found: Target, destDir: Option<Bytes>,
                 inPipe: int, outPipe: int)
      requires header.Valid()
      ensures cgiexe != null ==> cgiexe.input.fd == inPipe && cgiexe.output.fd == outPipe
      ensures Valid() && fresh(Repr) && received == [] && Sent() == []
      ensures MadeFor(header.GetMethod(), header.GetPath(), header.loginState, servable, found)
      ensures (filemgr != null || cgiexe != null ==> response == null) && Serves(header.h, filemgr)
    {
      hide ResponseSender.Valid, FileManager.Valid, Lookup, Boundary, StatusIs, Config.PassesDotDotTest;
      hide Config.Components;
      Config.DotDotTestIff(header.GetPath());
      var target := Dispatch(header.GetMethod(), header.GetPath(), header.loginState, servable, found);
      received := [];
      filemgr, cgiexe, response := null, null, null;
      match target {
        case Folder =>
          var contentType := header.GetHeaderVal("Content-Type");
          var f := new FileManager(contentType, destDir);
          filemgr, Repr := f, {this, f} + f.Repr;
        case Cgi =>
          var c := new CgiExecutor(inPipe, outPipe, header.GetMethod() == "HEAD");
          cgiexe, Repr := c, {this, c} + c.Repr();
        case File =>
          var s := MakeAnswer("200 OK", header.GetMethod() == "HEAD", true);
          response, Repr := s, {this, s} + s.Repr;
        case Page(status) =>
          var s := MakeAnswer(status, header.GetMethod() == "HEAD", false);
          response, Repr := s, {this, s} + s.Repr;
      }
    }

    /** reqhdlr_processData: takes less than everything only when it must wait for the CGI program. */
    method ProcessData(data: Bytes, dpr: Dpr) returns (processed: nat, r: Dpr)
      requires Valid()
      modifies Repr
      ensures Valid() && fresh(Repr - old(Repr)) && Same(old(filemgr), old(cgiexe), old(response))
      ensures processed <= |data| && received == old(received) + data[..processed] && Sent() == old(Sent())
      ensures processed == |data| ==> r == dpr
      ensures processed < |data| ==>
        cgiexe != null && r == dpr.(reqState := AwaitWrite, reqFd := cgiexe.input.fd) && InputFull()
    {
      hide ResponseSender.Valid, FileManager.Valid, CgiExecutor.Valid, AnswersCgi;
      processed, r := |data|, dpr;
      assert data[..|data|] == data;
      if filemgr != null {
        filemgr.ConsumeBodyBytes(data);
        Repr := Repr + filemgr.Repr;
      } else if cgiexe != null {
        processed, r := cgiexe.ProcessData(data, dpr);
      }
      received := received + data[..processed];
    }

    ghost predicate Same(f: FileManager?, c: CgiExecutor?, s: ResponseSender?)
      reads this
    {
      filemgr == f && cgiexe == c && response == s
    }

    /** reqhdlr_requestReadCompleted: from now on there is a response, or a CGI program that will make one. */
    method RequestReadCompleted(header: RequestHeader)
      requires Valid() && header !in Repr
      modifies Repr
      ensures Valid() && fresh(Repr - old(Repr)) && received == old(received) && Sent() == old(Sent())
      ensures filemgr == old(filemgr) && cgiexe == old(cgiexe) && (response != null || cgiexe != null)
      ensures response == old(response) || old(response) == null
      ensures cgiexe != null ==> cgiexe.inFd == null
      ensures old(response) == null && response != null ==> (response.stream.NoBody? <==> header.GetMethod() == "HEAD")
    {
      hide ResponseSender.Valid, FileManager.Valid;
      if cgiexe != null {
        cgiexe.RequestReadCompleted();
      } else if response == null {
        var status: Bytes := *;
        var s := MakeAnswer(status, header.GetMethod() == "HEAD", false);
        response, Repr := s, Repr + {s} + s.Repr;
      }
    }

    /** Asks the CGI program for its response. */
    method AskCgi(dpr: Dpr) returns (o: Progress, r: Dpr)
      requires Valid() && response == null && cgiexe != null
      modifies Repr
      ensures fresh(Repr - old(Repr)) && received == old(received) && filemgr == old(filemgr) && cgiexe == old(cgiexe)
      ensures !o.Exits? ==> Valid() && Sent() == []
      ensures if response == null && !o.Exits? then AwaitsFile(dpr, r, cgiexe.output, old(FileTries())) else r == dpr
      ensures !o.Exits? && response != null && response.file != null ==> TriesOf(response.file) >= old(FileTries())
      ensures (o.Unfinished? || o.Exits?) && (old(InputFull()) ==> InputFull()) && (o.Exits? ==> OutputFailed())
    {
      hide ResponseSender.Valid, FileManager.Valid;
      var s, exits;
      s, exits, r := Ask(cgiexe, dpr);
      o := if exits then Exits else Unfinished;
      if s != null {
        response, Repr := s, Repr + {s} + s.Repr;
      }
    }

    /** reqhdlr_progressResponse */
    method ProgressResponse(socket: Sink, dpr: Dpr) returns (o: Progress, r: Dpr, ghost d: Bytes)
      requires Valid() && socket !in Repr && !dpr.closeConn
      modifies Repr, socket
      ensures fresh(Repr - old(Repr)) && received == old(received) && filemgr == old(filemgr) && cgiexe == old(cgiexe)
      ensures socket.written == old(socket.written) + d
      ensures !o.Exits? ==> Valid() && Sent() == old(Sent()) + d
      ensures o.Unfinished? ==>
        if response == null && cgiexe == null then r == dpr
        else Blocks(dpr, r, socket, old(socket.tries), old(FileTries()))
      ensures socket.tries >= old(socket.tries)
      ensures o.Finished? ==> response != null && r == dpr.(closeConn := r.closeConn)
      ensures o.Finished? && r.closeConn ==> socket.broken
      ensures o.Finished? && !r.closeConn ==> response.Finished()
      ensures o.Finished? ==> old(response != null || cgiexe != null)
      ensures (old(InputFull()) ==> InputFull()) && (o.Exits? ==> OutputFailed())
      ensures response == old(response) || (old(response) == null && cgiexe != null)
    {
      hide ResponseSender.Valid, FileManager.Valid;
      o, r, d := Unfinished, dpr, [];
      EmptyConcat(socket.written);
      EmptyConcat(Sent());
      if response == null && cgiexe != null {
        o, r := AskCgi(dpr);
        if o.Exits? {
          return;
        }
      }
      if response != null {
        o, r, d := SendResponse(socket, r);
      }
    }

    method SendResponse(socket: Sink, dpr: Dpr) returns (o: Progress, r: Dpr, ghost d: Bytes)
      requires Valid() && response != null && socket !in Repr && !dpr.closeConn
      modifies `Repr, response.Repr, socket
      ensures fresh(Repr - old(Repr)) && Valid() && Sent() == old(Sent()) + d
      ensures socket.written == old(socket.written) + d && !o.Exits?
      ensures o.Unfinished? ==> WaitsFor(dpr, r, socket, old(socket.tries), response.file, old(TriesOf(response.file)))
      ensures socket.tries >= old(socket.tries) && response.TriedMore(old(response.file), old(TriesOf(response.file)))
      ensures o.Finished? ==> r == dpr.(closeConn := r.closeConn)
      ensures o.Finished? ==> if r.closeConn then socket.broken else response.Finished()
    {
      hide ResponseSender.Valid, FileManager.Valid;
      var finished;
      finished, r, d := response.Send(socket, dpr);
      Repr := Repr + response.Repr;
      o := if finished then Progress.Finished else Unfinished;
    }
  }
}
