/**
 What a response means to its receiver. The server's own decoder of headers, Content-Length and chunked bodies, run
 over everything a sender has written, gives back the body that was to be sent, and finishes at the last byte.
 */
module ResponseRoundTrip {
  import opened ByteStrings
  import opened Framing
  import opened HeaderBlock
  import opened MemBufs
  import opened Numerals
  import opened ResponseSenders

  /** The body of the response: buffered bytes, then what the file delivered, then zeros if it delivered too little. */
  function BodySent(s: Stream): Bytes {
    match s
    case NoBody => []
    case Sized(body, _, taken, zeros) => body + taken + Zeros(zeros)
    case InChunks(body, _, taken, _) => body + taken
  }

  /** Exactness: what was produced and what is still to come make up the announced Content-Length. */
  lemma SizedExact(s: Stream)
    requires s.Sized? && WellFormed(s)
    ensures |Payload(s)| + Left(s) == |s.body| + s.size
    ensures Complete(s) <==> |Payload(s)| == |s.body| + s.size
    ensures s.body + s.taken <= Payload(s)
    ensures forall i :: |s.body + s.taken| <= i < |Payload(s)| ==> Payload(s)[i] == '\0'
  {
    assert |Payload(s)| == |s.body| + |s.taken| + s.zeros;
  }

  /** At every moment of every run, what was written is a prefix of the header and the body produced so far. */
  lemma SentIsPrefix(r: ResponseSender)
    requires r.Valid()
    ensures r.sent <= r.head + Payload(r.stream)
    ensures r.stream.Sized? ==> |r.sent| <= |r.head| + |r.stream.body| + r.stream.size
    ensures r.Finished() && r.stream.Sized? ==> |r.sent| == |r.head| + |r.stream.body| + r.stream.size
  {
    assert r.sent <= r.sent + r.Pending();
    if r.stream.Sized? {
      SizedExact(r.stream);
    }
  }

  /** Chunked output is undone by the chunk decoder: it yields the body and ends exactly behind the last byte. */
  lemma ChunksDecode(done: seq<Request>, h: Head, s: Stream)
    requires s.InChunks? && WellFormed(s)
    requires h.Head? && h.cur == [] && h.start.Some?
    ensures Framing.Run(Decoder(done, AtChunkLine(h, [])), Payload(s)) ==
      if s.closed then Finish(done, Untrailed(h, BodySent(s))) else Decoder(done, AtChunkLine(h, BodySent(s)))
  {
    EmptyConcat(BodySent(s));
    EmptyConcat(PrintChunks(s.chunks));
    RunChunks(done, h, [], s.chunks);
    if s.closed {
      LastIsEnd();
      ChunkedRoundTrip(done, h, s.chunks, "0\r", []);
      EmptyConcat(h.fields);
    }
  }

  lemma LastIsEnd()
    ensures LAST_CHUNK == PrintEnd("0\r", []) && StrToUL("0\r", 16) == 0 && '\n' !in "0\r"
  {
    assert Print(0, 16) == "0";
    PrintRoundTrip(0, 16, "\r");
    assert "0" + "\r" == "0\r";
    EmptyConcat("\r\n");
    assert "0\r" + "\n" + "\r\n" == LAST_CHUNK;
  }

  /** The header line that announces the body. */
  function AnnouncedLine(s: Stream): Line
    requires !s.NoBody?
  {
    if s.Sized? then Named("Content-Length", " " + Decimal(|s.body| + s.size))
    else Named("Transfer-Encoding", " chunked")
  }

  function WithAnnouncement(lines: seq<Line>, s: Stream): seq<Line> {
    if s.NoBody? then lines else lines + [AnnouncedLine(s)]
  }

  lemma DecimalIsPlain(n: nat)
    ensures Harmless(Decimal(n))
    ensures SkipBlanks(" " + Decimal(n)) == Decimal(n)
  {
    PrintedDigits(n, 10);
    var d := Decimal(n);
    assert forall i :: 0 <= i < |d| ==> DigitVal(d[i], 10) >= 0;
    assert (" " + d)[1..] == d;
  }

  /** A text that is nowhere hostile to header lines. */
  predicate Harmless(text: Bytes) {
    '\n' !in text && '\0' !in text && '\r' !in text
  }

  lemma NamedIsLine(name: Bytes, value: Bytes)
    requires Harmless(name) && Harmless(value) && ':' !in name
    ensures ValidLine(Named(name, value))
  {
  }

  lemma SizedLine(d: Bytes)
    requires Harmless(d)
    ensures ValidLine(Named("Content-Length", " " + d))
    ensures LineText(Named("Content-Length", " " + d)) == "Content-Length: " + d
  {
    var name: Bytes := "Content-Length";
    assert Harmless(name) && ':' !in name;
    assert Harmless(" " + d);
    NamedIsLine(name, " " + d);
    assert name + ":" + " " == "Content-Length: ";
    Assoc(name + ":", " ", d);
  }

  lemma ChunkedLine()
    ensures ValidLine(Named("Transfer-Encoding", " chunked"))
    ensures LineText(Named("Transfer-Encoding", " chunked")) == "Transfer-Encoding: chunked"
  {
    var name: Bytes, value: Bytes := "Transfer-Encoding", " chunked";
    assert Harmless(name) && ':' !in name && Harmless(value);
    NamedIsLine(name, value);
    assert name + ":" + value == "Transfer-Encoding: chunked";
  }

  lemma AnnouncementIsLine(s: Stream)
    requires !s.NoBody?
    ensures ValidLine(AnnouncedLine(s)) && LineText(AnnouncedLine(s)) + "\r\n" == Announcement(s)
  {
    if s.Sized? {
      DecimalIsPlain(|s.body| + s.size);
      SizedLine(Decimal(|s.body| + s.size));
    } else {
      ChunkedLine();
      assert "Transfer-Encoding: chunked" + "\r\n" == Announcement(s);
    }
  }

  /** The other lines do not announce a body themselves; where the body is chunked, a length would be ignored. */
  predicate Unannounced(lines: seq<Line>, s: Stream) {
    && Lookup(FieldsOf(lines), "Transfer-Encoding").None?
    && (s.InChunks? || Lookup(FieldsOf(lines), "Content-Length").None?)
  }

  /** The receiver understands from the header how the body is sent. */
  predicate Announces(lines: seq<Line>, s: Stream) {
    var fields := FieldsOf(WithAnnouncement(lines, s));
    if s.InChunks? then IsChunked(fields)
    else !IsChunked(fields) && ContentLength(fields) == if s.Sized? then |s.body| + s.size else 0
  }

  lemma OneField(l: Line)
    requires l.Named?
    ensures FieldsOf([l]) == [Field(l.name, l.value)]
  {
    assert [l][1..] == [];
    EmptyConcat([Field(l.name, l.value)]);
  }

  lemma AnnouncedCoding(lines: seq<Line>, s: Stream)
    requires Unannounced(lines, s) && (s.Sized? ==> |s.body| + s.size <= ULONG_MAX)
    ensures Announces(lines, s)
  {
    if !s.NoBody? {
      var l := AnnouncedLine(s);
      PrintLinesSnoc(lines, l);
      OneField(l);
      FirstNamedSnoc(FieldsOf(lines), Field(l.name, l.value), "Transfer-Encoding");
      FirstNamedSnoc(FieldsOf(lines), Field(l.name, l.value), "Content-Length");
      if s.Sized? {
        DecimalIsPlain(|s.body| + s.size);
        PrintRoundTrip(|s.body| + s.size, 10, []);
        EmptyConcat(Decimal(|s.body| + s.size));
      } else {
        ChunkedIsChunked();
      }
    }
  }

  lemma ChunkedIsChunked()
    ensures SkipBlanks(" chunked") == "chunked" && HasChunked("chunked")
  {
    assert " chunked"[1..] == "chunked";
    assert SkipSeparators("chunked") == "chunked";
    assert "chunked"[..|"chunked"|] == "chunked";
  }

  /** The message a complete response amounts to. */
  function AsMessage(statusLine: Bytes, lines: seq<Line>, s: Stream): Message {
    Message(0, statusLine, WithAnnouncement(lines, s),
            if s.InChunks? then Chunked(s.chunks, "0\r", []) else Whole(Payload(s)))
  }

  lemma PrintedHead(statusLine: Bytes, lines: seq<Line>, s: Stream)
    ensures statusLine + "\r\n" + PrintLines(lines) + Announcement(s) + "\r\n"
         == PrintRequestHead(0, statusLine, WithAnnouncement(lines, s))
  {
    var start, text := statusLine + "\r\n", PrintLines(lines);
    if s.NoBody? {
      EmptyConcat(start + text);
      Assoc(start, text, "\r\n");
    } else {
      PrintLinesSnoc(lines, AnnouncedLine(s));
      AnnouncementIsLine(s);
      Assoc(start, text, Announcement(s));
      Assoc(start, text + Announcement(s), "\r\n");
    }
  }

  lemma ValidAnnounced(lines: seq<Line>, s: Stream)
    requires ValidLines(lines)
    ensures ValidLines(WithAnnouncement(lines, s))
  {
    if !s.NoBody? {
      AnnouncementIsLine(s);
    }
  }

  lemma ValidResponse(statusLine: Bytes, lines: seq<Line>, s: Stream)
    requires WellFormed(s) && Complete(s)
    requires Plain(statusLine) && statusLine != [] && ValidLines(lines) && Announces(lines, s)
    ensures ValidMessage(AsMessage(statusLine, lines, s))
    ensures BodyText(AsMessage(statusLine, lines, s).coding) == Payload(s)
  {
    ValidAnnounced(lines, s);
    if s.Sized? {
      SizedExact(s);
    } else if s.InChunks? {
      LastIsEnd();
    }
  }

  /**
   Every finished response decodes to its body, whatever short reads, blocking and short writes there were, when the
   header announces how it is sent; it does so if the other lines leave that to the sender (AnnouncedCoding).
   */
  lemma ResponseDecodes(r: ResponseSender, statusLine: Bytes, lines: seq<Line>)
    requires r.Valid() && r.Finished()
    requires Plain(statusLine) && statusLine != [] && ValidLines(lines) && Announces(lines, r.stream)
    requires r.head == statusLine + "\r\n" + PrintLines(lines) + Announcement(r.stream) + "\r\n"
    ensures Framing.Run(FRESH_DECODER, r.sent) ==
      Finish([], Untrailed(Head(Some(statusLine), FieldsOf(WithAnnouncement(lines, r.stream)), []), BodySent(r.stream)))
    ensures r.stream.InChunks? ==>
      r.source != null && r.source.delivered == r.start + r.stream.taken && (r.source.ended || r.source.errored)
    ensures r.stream.Sized? && r.source != null ==>
      r.source.delivered == r.start + r.stream.taken && (r.stream.zeros > 0 ==> r.source.ended || r.source.errored)
  {
    ValidResponse(statusLine, lines, r.stream);
    PrintedHead(statusLine, lines, r.stream);
    MessageRoundTrip([], AsMessage(statusLine, lines, r.stream));
    EmptyConcat(FieldsOf(WithAnnouncement(lines, r.stream)));
  }

  // ------------------------------------------------------------------------------------------------------
  // What a response is made from

  /** The buffered bytes, then what the file delivered, up to n bytes; zeros make up for what it did not. */
  predicate IsFileBody(body: Bytes, buffered: Bytes, n: nat, delivered: Bytes) {
    && |body| == |buffered| + n && buffered <= body
    && var rest := body[|buffered|..];
       forall i :: 0 <= i < n ==> rest[i] == if i < |delivered| then delivered[i] else '\0'
  }

  lemma SizedBody(b: Bytes, n: nat, taken: Bytes, zeros: nat)
    requires |taken| + zeros == n
    ensures IsFileBody(b + taken + Zeros(zeros), b, n, taken)
  {
    Assoc(b, taken, Zeros(zeros));
    assert (b + (taken + Zeros(zeros)))[|b|..] == taken + Zeros(zeros);
  }

  lemma OneLengthField(lines: seq<Line>, n: nat)
    ensures FieldsOf(lines + [Named("Content-Length", " " + Decimal(n))])
         == FieldsOf(lines) + [Field("Content-Length", " " + Decimal(n))]
  {
    var l := Named("Content-Length", " " + Decimal(n));
    PrintLinesSnoc(lines, l);
    OneField(l);
  }

  /** The receiver gets one response with these header fields and this body, and nothing else. */
  ghost predicate Receives(r: ResponseSender, statusLine: Bytes, fields: seq<Field>, body: Bytes)
    reads r
  {
    Framing.Run(FRESH_DECODER, r.sent) == Finish([], Untrailed(Head(Some(statusLine), fields, []), body))
  }

  /** The header lines name neither a length nor a coding. */
  predicate NoFraming(lines: seq<Line>) {
    Lookup(FieldsOf(lines), "Transfer-Encoding").None? && Lookup(FieldsOf(lines), "Content-Length").None?
  }

  /**
   A response made from buffered bytes and a regular file of n bytes is received as these bytes and the file, cut or
   filled up with zeros to n bytes; zeros are sent only when the file has ended early or failed.
   */
  lemma RegularFileReceived(r: ResponseSender, statusLine: Bytes, lines: seq<Line>, b: Bytes, n: nat)
    requires r.Valid() && r.Finished() && r.buffered == Some(b) && r.source != null && r.stat == Regular(n)
    requires Plain(statusLine) && statusLine != [] && ValidLines(lines) && NoFraming(lines) && |b| + n <= ULONG_MAX
    requires r.head == statusLine + "\r\n" + PrintLines(lines) + Announcement(r.stream) + "\r\n"
    ensures r.start <= r.source.delivered
    ensures var d := r.source.delivered[|r.start|..];
      && |d| <= n && (|d| < n ==> r.source.ended || r.source.errored)
      && exists body ::
           && IsFileBody(body, b, n, d)
           && Receives(r, statusLine, FieldsOf(lines) + [Field("Content-Length", " " + Decimal(|b| + n))], body)
  {
    hide *;
    SizedFromFile(r);
    SizedReceived(r, statusLine, lines);
    SizedBody(b, n, r.stream.taken, r.stream.zeros);
    FromStart(r.source.delivered, r.start, r.stream.taken);
    assert IsFileBody(b + r.stream.taken + Zeros(r.stream.zeros), b, n, r.source.delivered[|r.start|..]);
  }

  lemma FromStart(delivered: Bytes, start: Bytes, taken: Bytes)
    requires delivered == start + taken
    ensures start <= delivered && delivered[|start|..] == taken
  {
  }

  lemma SizedReceived(r: ResponseSender, statusLine: Bytes, lines: seq<Line>)
    requires r.Valid() && r.Finished() && r.stream.Sized?
    requires Plain(statusLine) && statusLine != [] && ValidLines(lines) && NoFraming(lines)
    requires |r.stream.body| + r.stream.size <= ULONG_MAX
    requires r.head == statusLine + "\r\n" + PrintLines(lines) + Announcement(r.stream) + "\r\n"
    ensures var n := |r.stream.body| + r.stream.size;
      Receives(r, statusLine, FieldsOf(lines) + [Field("Content-Length", " " + Decimal(n))],
               r.stream.body + r.stream.taken + Zeros(r.stream.zeros))
  {
    hide ResponseSender.Valid, ResponseSender.Finished, Framing.Run, Announces, Announcement, PrintLines, Lookup;
    AnnouncedCoding(lines, r.stream);
    ResponseDecodes(r, statusLine, lines);
    OneLengthField(lines, |r.stream.body| + r.stream.size);
  }

  lemma SizedFromFile(r: ResponseSender)
    requires r.Valid() && r.Finished() && r.buffered.Some? && r.source != null && r.stat.Regular?
    ensures r.stream.Sized? && r.stream.body == r.buffered.value && r.stream.size == r.stat.size
    ensures |r.stream.taken| + r.stream.zeros == r.stream.size
    ensures r.source.delivered == r.start + r.stream.taken
    ensures r.stream.zeros > 0 ==> r.source.ended || r.source.errored
  {
    hide Payload;
  }

  /** Without a file, or without its size, the response is received as the buffered bytes; for HEAD only the header. */
  lemma BufferReceived(r: ResponseSender, statusLine: Bytes, lines: seq<Line>)
    requires r.Valid() && r.Finished() && (r.source == null || r.stat.StatFails?)
    requires Plain(statusLine) && statusLine != [] && ValidLines(lines) && NoFraming(lines)
    requires r.buffered.Some? ==> |r.buffered.value| <= ULONG_MAX
    requires r.head == statusLine + "\r\n" + PrintLines(lines) + Announcement(r.stream) + "\r\n"
    ensures match r.buffered
      case None => r.sent == statusLine + "\r\n" + PrintLines(lines) + "\r\n"
      case Some(b) => Receives(r, statusLine, FieldsOf(lines) + [Field("Content-Length", " " + Decimal(|b|))], b)
  {
    hide ResponseSender.Valid, ResponseSender.Finished;
    WithoutFile(r);
    match r.buffered {
      case None =>
        SentWhole(r);
      case Some(b) =>
        AnnouncedCoding(lines, r.stream);
        ResponseDecodes(r, statusLine, lines);
        OneLengthField(lines, |b|);
        assert Zeros(0) == [];
        EmptyConcat(b);
    }
  }

  /** What is no regular file, such as a pipe, is received behind the buffered bytes up to its end. */
  lemma PipeReceived(r: ResponseSender, statusLine: Bytes, lines: seq<Line>, b: Bytes)
    requires r.Valid() && r.Finished() && r.buffered == Some(b) && r.source != null && r.stat == NotRegular
    requires Plain(statusLine) && statusLine != [] && ValidLines(lines) && NoFraming(lines)
    requires r.head == statusLine + "\r\n" + PrintLines(lines) + Announcement(r.stream) + "\r\n"
    ensures r.start <= r.source.delivered && (r.source.ended || r.source.errored)
    ensures Receives(r, statusLine, FieldsOf(lines) + [Field("Transfer-Encoding", " chunked")],
                     b + r.source.delivered[|r.start|..])
  {
    hide ResponseSender.Valid, ResponseSender.Finished, Framing.Run, Announces, Announcement, PrintLines, Lookup;
    PipeStream(r);
    AnnouncedCoding(lines, r.stream);
    ResponseDecodes(r, statusLine, lines);
    FromStart(r.source.delivered, r.start, r.stream.taken);
    var l := Named("Transfer-Encoding", " chunked");
    PrintLinesSnoc(lines, l);
    OneField(l);
  }

  lemma PipeStream(r: ResponseSender)
    requires r.Valid() && r.Finished() && r.buffered.Some? && r.source != null && r.stat.NotRegular?
    ensures r.stream.InChunks? && r.stream.body == r.buffered.value
    ensures r.source.delivered == r.start + r.stream.taken && (r.source.ended || r.source.errored)
  {
    hide Payload;
  }

  lemma SentWhole(r: ResponseSender)
    requires r.Valid() && r.Finished() && r.stream.NoBody?
    ensures r.sent == r.head && r.head + Announcement(r.stream) == r.head
  {
    EmptyConcat(r.head);
    EmptyConcat(r.sent);
  }

  lemma WithoutFile(r: ResponseSender)
    requires r.Valid() && r.Finished() && (r.source == null || r.stat.StatFails?)
    ensures match r.buffered case None => r.stream.NoBody? case Some(b) => r.stream == Sized(b, 0, [], 0)
  {
    hide Payload;
  }

  // ------------------------------------------------------------------------------------------------------
  // Chunks that are not announced are not understood

  lemma {:induction false} PrintedIsLonger(chunks: seq<Chunk>)
    ensures |PrintChunks(chunks)| >= |ChunkData(chunks)|
    decreases |chunks|
  {
    if chunks != [] {
      PrintedIsLonger(chunks[1..]);
    }
  }

  /** Bytes behind a response make it another one, or more than one. */
  lemma SomethingLeft(d: Decoder, rest: Bytes, r: Request)
    requires d.Decoder? && |d.done| == 1 && rest != []
    ensures Framing.Run(d, rest) != Finish([], r)
  {
    JustFinished(d, rest);
  }

  lemma FinishInjective(r: Request, r': Request)
    ensures Finish([], r) == Finish([], r') ==> r == r'
  {
    assert Finish([], r).done[0] == r && Finish([], r').done[0] == r';
  }

  lemma LongerThanBody(s: Stream)
    requires s.InChunks? && s.closed && WellFormed(s)
    ensures |Payload(s)| > |BodySent(s)|
  {
    PrintedIsLonger(s.chunks);
  }

  /** Read with some other framing, the chunks do not give one request with this body. */
  lemma ChunksMisread(h: Head, length: nat, s: Stream)
    requires s.InChunks? && s.closed && WellFormed(s)
    ensures var d := if length == 0 then Finish([], Untrailed(h, [])) else Decoder([], InBody(h, length, None, []));
            Framing.Run(d, Payload(s)) != Finish([], Untrailed(h, BodySent(s)))
  {
    hide Framing.Run, Framing.Step;
    var text, wanted := Payload(s), Untrailed(h, BodySent(s));
    if length == 0 {
      SomethingLeft(Finish([], Untrailed(h, [])), text, wanted);
    } else if length >= |text| {
      RunData([], InBody(h, length, None, []), text);
      EmptyConcat(text);
      LongerThanBody(s);
      FinishInjective(Untrailed(h, text), wanted);
    } else {
      RunData([], InBody(h, length, None, []), text[..length]);
      EmptyConcat(text[..length]);
      SplitAt(text, length);
      Framing.RunConcat(Decoder([], InBody(h, length, None, [])), text[..length], text[length..]);
      SomethingLeft(Finish([], Untrailed(h, text[..length])), text[length..], wanted);
    }
  }

  /** A chunked response decodes to its body exactly when its header fields say that it is chunked. */
  lemma ChunkedResponseIff(r: ResponseSender, statusLine: Bytes, lines: seq<Line>)
    requires r.Valid() && r.Finished() && r.stream.InChunks?
    requires Plain(statusLine) && statusLine != [] && ValidLines(lines)
    requires r.head == statusLine + "\r\n" + PrintLines(lines) + Announcement(r.stream) + "\r\n"
    ensures Framing.Run(FRESH_DECODER, r.sent) ==
        Finish([], Untrailed(Head(Some(statusLine), FieldsOf(WithAnnouncement(lines, r.stream)), []),
                             BodySent(r.stream)))
      <==> IsChunked(FieldsOf(WithAnnouncement(lines, r.stream)))
  {
    hide Framing.Run, IsChunked, Payload, BodySent, WellFormed;
    var all := WithAnnouncement(lines, r.stream);
    if IsChunked(FieldsOf(all)) {
      ResponseDecodes(r, statusLine, lines);
    } else {
      var h := Head(Some(statusLine), FieldsOf(all), []);
      var head := PrintRequestHead(0, statusLine, all);
      ValidAnnounced(lines, r.stream);
      PrintedHead(statusLine, lines, r.stream);
      RequestHeadRoundTrip(0, statusLine, all, []);
      EmptyConcat(head);
      RunFirst([], head);
      RunHead([], NEW_REQUEST, head);
      assert head[..|head|] == head;
      ChunksMisread(h, ContentLength(FieldsOf(all)), r.stream);
      Framing.RunConcat(FRESH_DECODER, head, Payload(r.stream));
    }
  }
}
