/**
 Responses that are finished before their request is read. The connection then frees the handler, but keeps the state
 in which the rest of the request is given to it.
 */
module EarlyResponses {
  import opened ByteStrings
  import opened Framing
  import opened HeaderBlock
  import opened Numerals
  import opened Pipelines
  import opened ServerConnections
  import RequestHandlers
  import RequestHeaders
  import StartLines

  function HeadText(m: Message): Bytes {
    PrintRequestHead(m.blanks, m.requestLine, m.lines)
  }

  function OwnHead(m: Message): Head {
    Head(Some(m.requestLine), FieldsOf(m.lines), [])
  }

  /** Behind the header and k bytes of a body with a Content-Length. */
  lemma InsideBody(done: seq<Request>, m: Message, k: nat)
    requires ValidMessage(m) && m.coding.Whole? && k < |m.coding.body|
    ensures Framing.Run(Decoder(done, AtNext), HeadText(m) + m.coding.body[..k])
         == Decoder(done, InBody(OwnHead(m), |m.coding.body| - k, None, m.coding.body[..k]))
  {
    hide Framing.Run, IsChunked, ContentLength;
    var text, body := HeadText(m), m.coding.body;
    var start := InBody(OwnHead(m), |body|, None, []);
    RequestHeadRoundTrip(m.blanks, m.requestLine, m.lines, []);
    EmptyConcat(text);
    RunFirst(done, text);
    RunHead(done, NEW_REQUEST, text);
    assert text[..|text|] == text;
    Framing.RunConcat(Decoder(done, AtNext), text, body[..k]);
    if k > 0 {
      RunData(done, start, body[..k]);
      EmptyConcat(body[..k]);
    } else {
      RunNothing(Decoder(done, start));
    }
  }

  /** The connection has taken ms, then the header of m and the first k bytes of its body. */
  ghost predicate Inside(c: ServerConnection, ms: seq<Message>, m: Message, k: nat)
    reads c
  {
    && ValidMessage(m) && (forall i :: 0 <= i < |ms| ==> ValidMessage(ms[i]))
    && m.coding.Whole? && k < |m.coding.body|
    && c.consumed == EncodeAll(ms) + (HeadText(m) + m.coding.body[..k])
  }

  lemma DecodedInside(c: ServerConnection, ms: seq<Message>, m: Message, k: nat)
    requires c.Valid() && Inside(c, ms, m, k)
    ensures c.dec == Framing.Run(FRESH_DECODER, c.consumed)
    ensures c.dec == Decoder(Framing.MeantAll(ms), InBody(OwnHead(m), |m.coding.body| - k, None, m.coding.body[..k]))
    ensures |Framing.MeantAll(ms)| == |ms|
  {
    hide Framing.Run, ServerConnection.Valid, ValidMessage, EncodeAll, HeadText, OwnHead, Framing.MeantAll;
    PipelineRoundTrip([], ms);
    Framing.RunConcat(FRESH_DECODER, EncodeAll(ms), HeadText(m) + m.coding.body[..k]);
    EmptyConcat(Framing.MeantAll(ms));
    InsideBody(Framing.MeantAll(ms), m, k);
    MeantBodies(ms);
    ReadsBody(c);
  }

  /**
   Inside a body, whatever came before: when the client has one complete reply more than complete requests were read,
   the handler is freed, and the next byte, whatever it is, is given to the freed handler.
   */
  lemma EarlyInBody(c: ServerConnection, ms: seq<Message>, m: Message, k: nat, next: char)
    requires c.Valid() && Inside(c, ms, m, k)
    ensures c.rrs.ReadBody? && (c.Early() <==> |c.replies| > |ms|)
    ensures var after := Framing.Run(FRESH_DECODER, c.consumed + [next]); after.Decoder? && !Quiet(c.dec, after)
  {
    hide Framing.Run, ServerConnection.Valid, ServerConnection.Early, Quiet, ValidMessage, EncodeAll, HeadText, OwnHead;
    DecodedInside(c, ms, m, k);
    ReadsBody(c);
    Framing.RunConcat(FRESH_DECODER, c.consumed, [next]);
    RunOne(c.dec, next);
    NotQuiet(c.dec, [next]);
  }

  /** If moreover bytes have arrived that were not taken, there is nothing open to wait for. */
  lemma StrandedInBody(c: ServerConnection, ms: seq<Message>, m: Message, k: nat)
    requires c.Valid() && Inside(c, ms, m, k)
    ensures c.Stranded() <==> |c.replies| > |ms| && c.consumed != c.input.delivered
  {
    hide Framing.Run, ServerConnection.Valid, ValidMessage, EncodeAll, HeadText, OwnHead;
    DecodedInside(c, ms, m, k);
    ReadsBody(c);
    BytesLeft(c);
  }

  lemma BytesLeft(c: ServerConnection)
    requires c.Valid()
    ensures c.readSize > 0 <==> c.consumed != c.input.delivered
  {
    hide Framing.Run, RequestHandlers.RequestHandler.Valid, RequestHeaders.RequestHeader.Valid, Recorded, KeptAlive;
    hide Follows, AllWhole, ReplyBytes;
    assert |c.input.delivered| == |c.consumed| + (c.readSize - c.readOffset);
  }

  /** A request that is to be refused by its header: the answer with the right status is there, or was sent. */
  lemma RefusedInBody(c: ServerConnection, ms: seq<Message>, m: Message, k: nat)
    requires c.Valid() && Inside(c, ms, m, k) && RequestHandlers.IsRefused(c.creds, OwnHead(m))
    ensures if |c.replies| > |ms| then RequestHandlers.Refuses(c.creds, OwnHead(m), c.replies[|c.replies| - 1].head)
            else c.handler != null && RequestHandlers.Answers(c.creds, OwnHead(m), c.handler.response)
  {
    hide Framing.Run, ServerConnection.Valid, ValidMessage, EncodeAll, HeadText, OwnHead, RequestHandlers.IsRefused;
    hide RequestHandlers.Refuses, RequestHandlers.Answers;
    DecodedInside(c, ms, m, k);
    ReadsBody(c);
  }

  lemma ReadsBody(c: ServerConnection)
    requires c.Valid()
    ensures c.dec == Framing.Run(FRESH_DECODER, c.consumed)
    ensures c.dec.Decoder? && c.dec.phase.InBody? ==>
      && c.rrs.ReadBody? && (c.Early() <==> c.handler == null) && (c.Early() <==> |c.replies| > |c.dec.done|)
      && (if c.Early() then RequestHandlers.Refuses(c.creds, c.dec.phase.h, c.replies[|c.replies| - 1].head)
          else RequestHandlers.Answers(c.creds, c.dec.phase.h, c.handler.response))
  {
    hide Framing.Run, RequestHandlers.RequestHandler.Valid, RequestHeaders.RequestHeader.Valid, KeptAlive;
    hide RequestHandlers.Refuses, RequestHandlers.Answers, AllWhole, ReplyBytes, AllRefused;
  }

  lemma RunOne(d: Decoder, b: char)
    requires d.Decoder? && d.phase.InBody?
    ensures Framing.Run(d, [b]).Decoder?
  {
    assert [b][1..] == [];
  }

  // ------------------------------------------------------------------------------------------------------
  // A request whose handler is freed early

  const PUT: Bytes := "PUT / HTTP/1.1\r\nContent-Length: 2\r\n\r\n"

  function PutMessage(body: Bytes): Message {
    Message(0, "PUT / HTTP/1.1", [Named("Content-Length", " 2")], Whole(body))
  }

  lemma PutIsRefused(creds: seq<Bytes>)
    ensures var h := Head(Some("PUT / HTTP/1.1"), [Field("Content-Length", " 2")], []);
      && RequestHandlers.IsRefused(creds, h)
      && forall head :: RequestHandlers.Refuses(creds, h, head) ==>
           RequestHandlers.StatusIs(head, "405 Method Not Allowed")
  {
    hide StartLines.DecodePath, StartLines.QueryEnd, StartLines.VersionAt, CStr, RequestHandlers.StatusIs;
    var line: Bytes := "PUT / HTTP/1.1";
    assert line[3] == ' ' && Index(line, ' ') == 3 && line[..3] == "PUT";
  }

  lemma PutIsValid(body: Bytes)
    requires |body| == 2
    ensures ValidMessage(PutMessage(body))
  {
    hide IsChunked, ContentLength, FieldsOf, Plain, ValidLine;
    PutLength();
    PutPlain();
  }

  lemma PutPlain()
    ensures Plain("PUT / HTTP/1.1") && ValidLine(Named("Content-Length", " 2"))
  {
    assert ':' !in "Content-Length";
    assert Plain("Content-Length: 2");
    assert LineText(Named("Content-Length", " 2")) == "Content-Length: 2";
  }

  lemma OneLineHead(requestLine: Bytes, l: Line, text: Bytes)
    requires LineText(l) == text
    ensures PrintRequestHead(0, requestLine, [l]) == requestLine + "\r\n" + (text + "\r\n" + "\r\n")
  {
    assert [l][1..] == [];
    EmptyConcat(LineText(l) + "\r\n");
    assert PrintLines([l]) == LineText(l) + "\r\n" + PrintLines([]);
    assert PrintLines([l]) == LineText(l) + "\r\n";
  }

  lemma PutJoined(requestLine: Bytes, line: Bytes, end: Bytes)
    requires requestLine == "PUT / HTTP/1.1" && line == "Content-Length: 2" && end == "\r\n"
    ensures requestLine + end + (line + end + end) == PUT
  {
    assert line + end == "Content-Length: 2\r\n";
    assert line + end + end == "Content-Length: 2\r\n\r\n";
    assert requestLine + end == "PUT / HTTP/1.1\r\n";
  }

  lemma PutText(body: Bytes)
    ensures HeadText(PutMessage(body)) == PUT
  {
    hide PrintRequestHead;
    var l := Named("Content-Length", " 2");
    assert LineText(l) == "Content-Length: 2";
    OneLineHead("PUT / HTTP/1.1", l, "Content-Length: 2");
    PutJoined("PUT / HTTP/1.1", "Content-Length: 2", "\r\n");
  }

  lemma PutLength()
    ensures FieldsOf([Named("Content-Length", " 2")]) == [Field("Content-Length", " 2")]
    ensures ContentLength([Field("Content-Length", " 2")]) == 2 && !IsChunked([Field("Content-Length", " 2")])
  {
    hide StrToUL;
    EmptyConcat([Field("Content-Length", " 2")]);
    assert [Named("Content-Length", " 2")][1..] == [];
    var f := Field("Content-Length", " 2");
    assert EqualIgnoreCase(f.name, "Content-Length") && !EqualIgnoreCase(f.name, "Transfer-Encoding");
    assert [f][1..] == [] && " 2"[1..] == "2";
    PrintRoundTrip(2, 10, []);
    EmptyConcat(Decimal(2));
  }

  /**
   A PUT request with a Content-Length, of which the header was read: the answer, with status 405, is there at once.
   When the client has got it, the handler is freed, and the next byte is given to the freed handler.
   */
  lemma PutThenBody(c: ServerConnection, next: char)
    requires c.Valid() && c.consumed == PUT
    ensures c.replies != [] <==> c.Early()
    ensures c.replies != [] ==>
      RequestHandlers.StatusIs(c.replies[|c.replies| - 1].head, "405 Method Not Allowed")
    ensures c.replies == [] ==>
      && c.handler != null && c.handler.response != null
      && RequestHandlers.StatusIs(c.handler.response.head, "405 Method Not Allowed")
    ensures var after := Framing.Run(FRESH_DECODER, PUT + [next]); after.Decoder? && !Quiet(c.dec, after)
  {
    hide Framing.Run, ServerConnection.Valid, ServerConnection.Early, Quiet, ValidMessage, EncodeAll, HeadText, PUT;
    hide RequestHandlers.IsRefused, RequestHandlers.Refuses, RequestHandlers.StatusIs;
    var m := PutMessage("ab");
    PutIsValid("ab");
    PutText("ab");
    PutLength();
    EmptyPipeline();
    EmptyConcat(PUT);
    assert m.coding.body[..0] == [];
    EarlyInBody(c, [], m, 0, next);
    PutIsRefused(c.creds);
    RefusedInBody(c, [], m, 0);
  }

  lemma EmptyPipeline()
    ensures EncodeAll([]) == []
  {
  }

  // ------------------------------------------------------------------------------------------------------
  // A request that strands its connection

  function PostMessage(body: Bytes): Message {
    Message(0, "POST /form.cgi HTTP/1.1", [Named("Content-Length", " 2")], Whole(body))
  }

  lemma PostIsValid(body: Bytes)
    requires |body| == 2
    ensures ValidMessage(PostMessage(body))
  {
    hide IsChunked, ContentLength, FieldsOf, Plain, ValidLine;
    PutLength();
    PutPlain();
    PostPlain();
  }

  lemma PostPlain()
    ensures Plain("POST /form.cgi HTTP/1.1")
  {
  }

  /**
   A POST request to a CGI program whose pipe takes nothing, while its output ends: the header is read, the answer is
   complete, and the body has arrived but is not taken. Then there is nothing open to wait for.
   */
  lemma PostIsStranded(c: ServerConnection)
    requires c.Valid() && c.consumed == HeadText(PostMessage("ab"))
    requires c.input.delivered == c.consumed + "ab"
    ensures c.Stranded() <==> c.replies != []
  {
    hide Framing.Run, ServerConnection.Valid, ValidMessage, EncodeAll, HeadText;
    var m := PostMessage("ab");
    PostIsValid("ab");
    EmptyPipeline();
    EmptyConcat(HeadText(m));
    assert m.coding.body[..0] == [];
    assert |c.input.delivered| == |c.consumed| + 2;
    StrandedInBody(c, [], m, 0);
  }
}
