/**
 What a byte stream of pipelined requests means: a byte-at-a-time decoder of headers, Content-Length and chunked
 bodies and trailers, and its round trips. Class ServerConnection is proved to follow it.
 */
module Framing {
  import opened ByteStrings
  import opened HeaderBlock
  import opened Numerals

  // own: the header itself; head: with the fields of a trailer added.
  datatype Request = Request(own: Head, head: Head, body: Bytes)

  // AtNext: nothing of the next request was read. InBody: `left` bytes of the current chunk (or of the whole body) are
  // still to come. `chunk` is None for a Content-Length body; otherwise what was collected of the line that announces
  // the next chunk, behind the two bytes that end the previous one.
  datatype Phase =
    | AtNext
    | InHead(h: Head)
    | InBody(h: Head, left: nat, chunk: Option<Bytes>, body: Bytes)
    | InTrailer(own: Head, h: Head, body: Bytes)

  // done: the requests read completely so far. Lost: a header or trailer contained a NUL byte.
  datatype Decoder = Decoder(done: seq<Request>, phase: Phase) | Lost

  const FRESH_DECODER := Decoder([], AtNext)

  function Finish(done: seq<Request>, r: Request): Decoder {
    Decoder(done + [r], AtNext)
  }

  /** A request without a trailer. */
  function Untrailed(h: Head, body: Bytes): Request {
    Request(h, h, body)
  }

  /** The announced body length; 0 without a Content-Length. */
  function ContentLength(fields: seq<Field>): nat {
    var val := Lookup(fields, "Content-Length");
    if val.Some? then StrToUL(val.value, 10) else 0
  }

  /** The header is complete: chunked wins over Content-Length, and no body means the request is complete. */
  function AfterHead(done: seq<Request>, h: Head): Decoder
    requires h.Head?
  {
    if IsChunked(h.fields) then Decoder(done, InBody(h, 0, Some("\r\n"), []))
    else if ContentLength(h.fields) > 0 then Decoder(done, InBody(h, ContentLength(h.fields), None, []))
    else Finish(done, Untrailed(h, []))
  }

  /** The size announced by a chunk line, kept behind two bytes; the size is stored in 32 bits. */
  function ChunkSize(line: Bytes): nat
    requires |line| >= 2
  {
    StrToUL(line[2..], 16) % UINT_RANGE
  }

  function BodyByte(done: seq<Request>, p: Phase, b: char): Decoder
    requires p.InBody?
  {
    if p.left > 0 then
      if p.left == 1 && p.chunk.None? then Finish(done, Untrailed(p.h, p.body + [b]))
      else Decoder(done, p.(left := p.left - 1, body := p.body + [b],
                            chunk := if p.left == 1 then Some([]) else p.chunk))
    else if p.chunk.None? then Decoder(done, p)
    else if |p.chunk.value| < 2 || b != '\n' then Decoder(done, p.(chunk := Some(p.chunk.value + [b])))
    else if ChunkSize(p.chunk.value) == 0 then Decoder(done, InTrailer(p.h, p.h, p.body))
    else Decoder(done, p.(left := ChunkSize(p.chunk.value), chunk := Some([])))
  }

  /** Inside a header, which is incomplete. */
  function Reading(done: seq<Request>, h: Head): Decoder {
    if h.Garbled? then Lost else Decoder(done, InHead(h))
  }

  /** Inside the trailer behind this header and body. */
  function Trailing(done: seq<Request>, own: Head, h: Head, body: Bytes): Decoder {
    if h.Garbled? then Lost else Decoder(done, InTrailer(own, h, body))
  }

  function HeadByte(done: seq<Request>, h: Head, b: char): Decoder {
    var h' := HeaderBlock.Step(h, b);
    if Ends(h, b) then AfterHead(done, h') else Reading(done, h')
  }

  function Step(d: Decoder, b: char): Decoder {
    if d.Lost? then d
    else match d.phase
      case AtNext => HeadByte(d.done, NEW_REQUEST, b)
      case InHead(h) => HeadByte(d.done, h, b)
      case InBody(_, _, _, _) => BodyByte(d.done, d.phase, b)
      case InTrailer(own, h, body) =>
        var h' := HeaderBlock.Step(h, b);
        if Ends(h, b) then Finish(d.done, Request(own, h', body)) else Trailing(d.done, own, h', body)
  }

  function Run(d: Decoder, data: Bytes): Decoder
    decreases |data|
  {
    if data == [] then d else Run(Step(d, data[0]), data[1..])
  }

  lemma {:induction false} RunConcat(d: Decoder, a: Bytes, b: Bytes)
    ensures Run(d, a + b) == Run(Run(d, a), b)
    decreases |a|
  {
    if a == [] {
      assert a + b == b;
    } else {
      ConsConcat(a, b);
      RunConcat(Step(d, a[0]), a[1..], b);
    }
  }

  /** Completed requests stay as they are. */
  lemma {:induction false} DoneGrows(d: Decoder, data: Bytes)
    ensures Run(d, data).Decoder? ==> d.Decoder? && d.done <= Run(d, data).done
    decreases |data|
  {
    if data != [] {
      DoneGrows(Step(d, data[0]), data[1..]);
    }
  }

  lemma {:induction false} RunLost(data: Bytes)
    ensures Run(Lost, data) == Lost
  {
    if data != [] {
      RunLost(data[1..]);
    }
  }

  lemma RunLast(d: Decoder, data: Bytes)
    requires data != []
    ensures Run(d, data) == Step(Run(d, data[..|data| - 1]), data[|data| - 1])
  {
    var n := |data| - 1;
    assert data[..n] + [data[n]] == data;
    assert [data[n]][1..] == [];
    RunConcat(d, data[..n], [data[n]]);
    assert Run(Run(d, data[..n]), [data[n]]) == Run(Step(Run(d, data[..n]), data[n]), []);
  }

  /** The decoder is behind a request, with nothing read since, only when the last byte completed that request. */
  lemma JustFinished(d: Decoder, data: Bytes)
    requires data != []
    ensures Run(d, data).Decoder? && Run(d, data).phase.AtNext? ==> d.Decoder? && |Run(d, data).done| > |d.done|
  {
    RunLast(d, data);
    DoneGrows(d, data[..|data| - 1]);
  }

  /** The first byte of a request begins its header. */
  lemma RunFirst(done: seq<Request>, data: Bytes)
    requires data != []
    ensures Run(Decoder(done, AtNext), data) == Run(Decoder(done, InHead(NEW_REQUEST)), data)
  {
  }

  /** The body bytes of the request that is being read. */
  function BodySoFar(p: Phase): Bytes {
    match p
    case InBody(_, _, _, body) => body
    case InTrailer(_, _, body) => body
    case _ => []
  }

  /** In between, neither was a body byte taken nor a request completed. */
  predicate Quiet(before: Decoder, after: Decoder) {
    after.Decoder? ==>
      before.Decoder? && after.done == before.done && BodySoFar(after.phase) == BodySoFar(before.phase)
  }

  /** Bodies only grow until their request is complete. */
  lemma {:induction false} BodyGrows(d: Decoder, data: Bytes)
    ensures var e := Run(d, data);
      e.Decoder? ==> d.Decoder? && (|e.done| > |d.done| || BodySoFar(d.phase) <= BodySoFar(e.phase))
    decreases |data|
  {
    if data != [] {
      DoneGrows(Step(d, data[0]), data[1..]);
      BodyGrows(Step(d, data[0]), data[1..]);
    }
  }

  /** Inside a body the next byte is a body byte. */
  lemma NotQuiet(d: Decoder, data: Bytes)
    requires d.Decoder? && d.phase.InBody? && d.phase.left > 0 && data != []
    ensures Run(d, data).Decoder? ==> !Quiet(d, Run(d, data))
  {
    DoneGrows(Step(d, data[0]), data[1..]);
    BodyGrows(Step(d, data[0]), data[1..]);
  }

  // ------------------------------------------------------------------------------------------------------
  // What whole stretches of bytes do

  /** Header bytes up to the end of the header, or all of them. */
  lemma {:induction false} RunHead(done: seq<Request>, h: Head, data: Bytes)
    requires h.Head?
    ensures End(h, data) < 0 ==>
      Run(Decoder(done, InHead(h)), data) == Reading(done, HeaderBlock.Run(h, data))
    ensures End(h, data) >= 0 ==>
      HeaderBlock.Run(h, data[..End(h, data)]).Head? &&
      Run(Decoder(done, InHead(h)), data[..End(h, data)]) == AfterHead(done, HeaderBlock.Run(h, data[..End(h, data)]))
    decreases |data|
  {
    if data != [] {
      var h' := HeaderBlock.Step(h, data[0]);
      var e := End(h, data);
      if Ends(h, data[0]) {
        OneByte(data);
        assert HeaderBlock.Run(h, [data[0]]) == HeaderBlock.Run(h', []);
        assert Run(Decoder(done, InHead(h)), [data[0]]) == Run(AfterHead(done, h'), []);
      } else if h'.Garbled? {
        RunLost(data[1..]);
        HeaderBlock.RunGarbled(data[1..]);
      } else {
        RunHead(done, h', data[1..]);
        if e >= 0 {
          TakeTail(data, e);
        }
      }
    }
  }

  lemma {:induction false} RunTrailer(done: seq<Request>, own: Head, h: Head, body: Bytes, data: Bytes)
    requires h.Head?
    ensures End(h, data) < 0 ==>
      Run(Decoder(done, InTrailer(own, h, body)), data) == Trailing(done, own, HeaderBlock.Run(h, data), body)
    ensures End(h, data) >= 0 ==>
      HeaderBlock.Run(h, data[..End(h, data)]).Head? &&
      Run(Decoder(done, InTrailer(own, h, body)), data[..End(h, data)])
        == Finish(done, Request(own, HeaderBlock.Run(h, data[..End(h, data)]), body))
    decreases |data|
  {
    if data != [] {
      var h' := HeaderBlock.Step(h, data[0]);
      var e := End(h, data);
      if Ends(h, data[0]) {
        OneByte(data);
        assert HeaderBlock.Run(h, [data[0]]) == HeaderBlock.Run(h', []);
        assert Run(Decoder(done, InTrailer(own, h, body)), [data[0]]) == Run(Finish(done, Request(own, h', body)), []);
      } else if h'.Garbled? {
        RunLost(data[1..]);
        HeaderBlock.RunGarbled(data[1..]);
      } else {
        RunTrailer(done, own, h', body, data[1..]);
        if e >= 0 {
          TakeTail(data, e);
        }
      }
    }
  }

  lemma OneByte(data: Bytes)
    requires data != []
    ensures data[..1] == [data[0]] && [data[0]][1..] == []
  {
  }

  lemma TakeTail(data: Bytes, e: nat)
    requires 0 < e <= |data|
    ensures data[..e] != [] && data[..e][0] == data[0] && data[..e][1..] == data[1..][..e - 1]
  {
  }

  /** What a header object of that meaning took of the data (all of it when the header is still incomplete). */
  function Taken(data: Bytes, used: int): Bytes
    requires used <= |data|
  {
    if used < 0 then data else data[..used]
  }

  /** The header object and the decoder agree on a request header, complete or not. */
  lemma TakenHead(done: seq<Request>, h: Head, data: Bytes, used: int, h': Head)
    requires h.Head? && -1 <= used <= |data| && h' == HeaderBlock.Run(h, Taken(data, used))
    requires End(h, data) == if h'.Head? then used else -1
    ensures Run(Decoder(done, InHead(h)), Taken(data, used)) ==
      if used >= 0 && h'.Head? then AfterHead(done, h') else Reading(done, h')
  {
    if used >= 0 {
      SplitAt(data, used);
      EndConcat(h, data[..used], data[used..]);
      RunHead(done, h, data[..used]);
      assert data[..used][..used] == data[..used];
    }
    RunHead(done, h, data);
  }

  lemma TakenTrailer(done: seq<Request>, own: Head, h: Head, body: Bytes, data: Bytes, used: int, h': Head)
    requires h.Head? && -1 <= used <= |data| && h' == HeaderBlock.Run(h, Taken(data, used))
    requires End(h, data) == if h'.Head? then used else -1
    ensures Run(Decoder(done, InTrailer(own, h, body)), Taken(data, used)) ==
      if used >= 0 && h'.Head? then Finish(done, Request(own, h', body)) else Trailing(done, own, h', body)
  {
    if used >= 0 {
      SplitAt(data, used);
      EndConcat(h, data[..used], data[used..]);
      RunTrailer(done, own, h, body, data[..used]);
      assert data[..used][..used] == data[..used];
    }
    RunTrailer(done, own, h, body, data);
  }

  /** Body bytes within the current chunk. */
  function AfterData(done: seq<Request>, p: Phase, data: Bytes): Decoder
    requires p.InBody? && |data| <= p.left
  {
    if |data| < p.left then Decoder(done, p.(left := p.left - |data|, body := p.body + data))
    else if p.chunk.None? then Finish(done, Untrailed(p.h, p.body + data))
    else Decoder(done, p.(left := 0, body := p.body + data, chunk := Some([])))
  }

  lemma {:induction false} RunData(done: seq<Request>, p: Phase, data: Bytes)
    requires p.InBody? && 0 < |data| <= p.left
    ensures Run(Decoder(done, p), data) == AfterData(done, p, data)
    decreases |data|
  {
    var first := [data[0]];
    OneByte(data);
    if |data| == 1 {
      assert data == first && data[1..] == [];
    } else {
      var q := p.(left := p.left - 1, body := p.body + first);
      RunData(done, q, data[1..]);
      SplitFirst(p.body, data);
    }
  }

  lemma SplitFirst(a: Bytes, data: Bytes)
    requires data != []
    ensures a + [data[0]] + data[1..] == a + data
  {
  }

  /** Bytes of a chunk line before its LF: the first two are taken whatever they are. */
  lemma {:induction false} RunChunkLine(done: seq<Request>, p: Phase, data: Bytes)
    requires p.InBody? && p.left == 0 && p.chunk.Some?
    requires forall i :: 0 <= i < |data| && |p.chunk.value| + i >= 2 ==> data[i] != '\n'
    ensures Run(Decoder(done, p), data) == Decoder(done, p.(chunk := Some(p.chunk.value + data)))
    decreases |data|
  {
    if data == [] {
      EmptyConcat(p.chunk.value);
    } else {
      RunChunkLine(done, p.(chunk := Some(p.chunk.value + [data[0]])), data[1..]);
      SplitFirst(p.chunk.value, data);
    }
  }

  // ------------------------------------------------------------------------------------------------------
  // Round trip (sections 3 and 4.1 of RFC 7230)

  // sizeLine: the size in hex and whatever follows it up to the LF, such as an extension and a CR
  datatype Chunk = Chunk(sizeLine: Bytes, data: Bytes)

  predicate ValidChunk(c: Chunk) {
    '\n' !in c.sizeLine && c.data != [] && StrToUL(c.sizeLine, 16) == |c.data| < UINT_RANGE
  }

  /** A chunk size may be written with digits of any case, leading zeros, and an extension behind it. */
  lemma AnySizeLine(digits: Bytes, rest: Bytes, data: Bytes)
    requires Spelled(digits, |data|, 16) && EndsNumeral(rest) && '\n' !in rest && 0 < |data| < UINT_RANGE
    ensures ValidChunk(Chunk(digits + rest, data))
  {
    SpelledRoundTrip(digits, |data|, 16, rest);
    ReadSpelled(digits, |data|, 16);
    assert forall i :: 0 <= i < |digits| ==> digits[i] != '\n';
  }

  /** The announced size is stored in 32 bits. */
  lemma SizeWraps(digits: Bytes, n: nat, rest: Bytes)
    requires Spelled(digits, n, 16) && EndsNumeral(rest) && n < 0x1_0000_0000_0000_0000
    ensures ChunkSize("\r\n" + (digits + rest)) == n % 0x1_0000_0000
  {
    SpelledRoundTrip(digits, n, 16, rest);
    assert ("\r\n" + (digits + rest))[2..] == digits + rest;
  }

  /** A length is announced by any numeral in the first field of that name, in any case. */
  lemma AnyLength(fields: seq<Field>, i: nat, gap: Bytes, digits: Bytes, n: nat)
    requires i < |fields| && SameName(fields[i].name, "Content-Length")
    requires forall j :: 0 <= j < i ==> !SameName(fields[j].name, "Content-Length")
    requires Spelled(digits, n, 10) && n <= ULONG_MAX
    requires fields[i].value == gap + digits && forall k :: 0 <= k < |gap| ==> gap[k] in " \t"
    ensures ContentLength(fields) == n
  {
    hide SameName, Lookup, StrToUL;
    ReadSpelled(digits, n, 10);
    LookupWritten(fields, "Content-Length", i, gap, digits);
    SpelledRoundTrip(digits, n, 10, []);
    EmptyConcat(digits);
  }

  predicate ValidChunks(chunks: seq<Chunk>) {
    forall i :: 0 <= i < |chunks| ==> ValidChunk(chunks[i])
  }

  function PrintChunk(c: Chunk): Bytes {
    c.sizeLine + "\n" + c.data + "\r\n"
  }

  function PrintChunks(chunks: seq<Chunk>): Bytes {
    if chunks == [] then [] else PrintChunk(chunks[0]) + PrintChunks(chunks[1..])
  }

  function ChunkData(chunks: seq<Chunk>): Bytes {
    if chunks == [] then [] else chunks[0].data + ChunkData(chunks[1..])
  }

  /** Between two chunks. */
  function AtChunkLine(h: Head, body: Bytes): Phase {
    InBody(h, 0, Some("\r\n"), body)
  }

  /** The rest of a chunk line with its LF. */
  lemma RunLineEnd(done: seq<Request>, p: Phase, text: Bytes)
    requires p.InBody? && p.left == 0 && p.chunk.Some? && |p.chunk.value + text| >= 2
    requires forall i :: 0 <= i < |text| && |p.chunk.value| + i >= 2 ==> text[i] != '\n'
    ensures var size := ChunkSize(p.chunk.value + text);
      Run(Decoder(done, p), text + "\n") ==
        Decoder(done, if size == 0 then InTrailer(p.h, p.h, p.body) else InBody(p.h, size, Some([]), p.body))
  {
    RunChunkLine(done, p, text);
    RunLast(Decoder(done, p), text + "\n");
    assert (text + "\n")[..|text|] == text;
  }

  lemma RunSizeLine(done: seq<Request>, h: Head, body: Bytes, sizeLine: Bytes)
    requires '\n' !in sizeLine
    ensures var size := StrToUL(sizeLine, 16) % UINT_RANGE;
      Run(Decoder(done, AtChunkLine(h, body)), sizeLine + "\n") ==
        Decoder(done, if size == 0 then InTrailer(h, h, body) else InBody(h, size, Some([]), body))
  {
    RunLineEnd(done, AtChunkLine(h, body), sizeLine);
    assert ("\r\n" + sizeLine)[2..] == sizeLine;
  }

  /** One chunk adds its data to the body. */
  lemma RunChunk(done: seq<Request>, h: Head, body: Bytes, c: Chunk)
    requires ValidChunk(c)
    ensures Run(Decoder(done, AtChunkLine(h, body)), PrintChunk(c)) == Decoder(done, AtChunkLine(h, body + c.data))
  {
    hide Run, Step, StrToUL;
    var start := Decoder(done, AtChunkLine(h, body));
    RunSizeLine(done, h, body, c.sizeLine);
    var p := InBody(h, |c.data|, Some([]), body);
    RunData(done, p, c.data);
    RunConcat(start, c.sizeLine + "\n", c.data);
    RunChunkLine(done, p.(left := 0, body := body + c.data), "\r\n");
    EmptyConcat("\r\n");
    RunConcat(start, c.sizeLine + "\n" + c.data, "\r\n");
  }

  lemma {:induction false} RunChunks(done: seq<Request>, h: Head, body: Bytes, chunks: seq<Chunk>)
    requires ValidChunks(chunks)
    ensures Run(Decoder(done, AtChunkLine(h, body)), PrintChunks(chunks))
         == Decoder(done, AtChunkLine(h, body + ChunkData(chunks)))
    decreases |chunks|
  {
    if chunks == [] {
      EmptyConcat(body);
    } else {
      RunChunk(done, h, body, chunks[0]);
      RunChunks(done, h, body + chunks[0].data, chunks[1..]);
      RunConcat(Decoder(done, AtChunkLine(h, body)), PrintChunk(chunks[0]), PrintChunks(chunks[1..]));
      Assoc(body, chunks[0].data, ChunkData(chunks[1..]));
    }
  }

  /** The last chunk line, announcing size 0, and the trailer. */
  function PrintEnd(lastLine: Bytes, trailer: seq<Line>): Bytes {
    lastLine + "\n" + (PrintLines(trailer) + "\r\n")
  }

  lemma RunEnd(done: seq<Request>, h: Head, body: Bytes, lastLine: Bytes, trailer: seq<Line>)
    requires '\n' !in lastLine && StrToUL(lastLine, 16) == 0
    requires h.Head? && h.cur == [] && h.start.Some? && ValidLines(trailer)
    ensures Run(Decoder(done, AtChunkLine(h, body)), PrintEnd(lastLine, trailer))
         == Finish(done, Request(h, h.(fields := h.fields + FieldsOf(trailer)), body))
  {
    var text := PrintLines(trailer) + "\r\n";
    RunSizeLine(done, h, body, lastLine);
    BlockRoundTrip(h, trailer, []);
    EmptyConcat(text);
    RunTrailer(done, h, h, body, text);
    assert text[..|text|] == text;
    RunConcat(Decoder(done, AtChunkLine(h, body)), lastLine + "\n", text);
  }

  /** A chunked body is decoded to its data, finishing exactly at its last byte. */
  lemma ChunkedRoundTrip(done: seq<Request>, h: Head, chunks: seq<Chunk>, lastLine: Bytes, trailer: seq<Line>)
    requires ValidChunks(chunks) && '\n' !in lastLine && StrToUL(lastLine, 16) == 0
    requires h.Head? && h.cur == [] && h.start.Some? && ValidLines(trailer)
    ensures Run(Decoder(done, AtChunkLine(h, [])), PrintChunks(chunks) + PrintEnd(lastLine, trailer))
         == Finish(done, Request(h, h.(fields := h.fields + FieldsOf(trailer)), ChunkData(chunks)))
  {
    RunChunks(done, h, [], chunks);
    EmptyConcat(ChunkData(chunks));
    RunEnd(done, h, ChunkData(chunks), lastLine, trailer);
    RunConcat(Decoder(done, AtChunkLine(h, [])), PrintChunks(chunks), PrintEnd(lastLine, trailer));
  }

  datatype Coding = Whole(body: Bytes) | Chunked(chunks: seq<Chunk>, lastLine: Bytes, trailer: seq<Line>)

  // A request as a client writes it.
  datatype Message = Message(blanks: nat, requestLine: Bytes, lines: seq<Line>, coding: Coding)

  function BodyText(c: Coding): Bytes {
    match c
    case Whole(body) => body
    case Chunked(chunks, lastLine, trailer) => PrintChunks(chunks) + PrintEnd(lastLine, trailer)
  }

  function Encode(m: Message): Bytes {
    PrintRequestHead(m.blanks, m.requestLine, m.lines) + BodyText(m.coding)
  }

  /** The body a message carries, however it is coded. */
  function Carried(c: Coding): Bytes {
    match c
    case Whole(body) => body
    case Chunked(chunks, _, _) => ChunkData(chunks)
  }

  function TrailerFields(c: Coding): seq<Field> {
    if c.Chunked? then FieldsOf(c.trailer) else []
  }

  /** Well formed, and the header fields announce the coding that is used. */
  predicate ValidMessage(m: Message) {
    && Plain(m.requestLine) && m.requestLine != [] && ValidLines(m.lines)
    && match m.coding
       case Whole(body) => !IsChunked(FieldsOf(m.lines)) && ContentLength(FieldsOf(m.lines)) == |body|
       case Chunked(chunks, lastLine, trailer) =>
         && IsChunked(FieldsOf(m.lines)) && ValidChunks(chunks) && ValidLines(trailer)
         && '\n' !in lastLine && StrToUL(lastLine, 16) == 0
  }

  function Meant(m: Message): Request {
    var own := Head(Some(m.requestLine), FieldsOf(m.lines), []);
    Request(own, own.(fields := own.fields + TrailerFields(m.coding)), Carried(m.coding))
  }

  lemma RunCoding(done: seq<Request>, m: Message)
    requires ValidMessage(m)
    ensures var h := Head(Some(m.requestLine), FieldsOf(m.lines), []);
            Run(AfterHead(done, h), BodyText(m.coding)) == Finish(done, Meant(m))
  {
    var h := Head(Some(m.requestLine), FieldsOf(m.lines), []);
    EmptyConcat(h.fields);
    match m.coding
    case Whole(body) =>
      if body != [] {
        RunData(done, InBody(h, |body|, None, []), body);
        EmptyConcat(body);
      }
    case Chunked(chunks, lastLine, trailer) =>
      ChunkedRoundTrip(done, h, chunks, lastLine, trailer);
  }

  /** Decoding one encoded request gives that request, and stops exactly behind it. */
  lemma MessageRoundTrip(done: seq<Request>, m: Message)
    requires ValidMessage(m)
    ensures Run(Decoder(done, AtNext), Encode(m)) == Finish(done, Meant(m))
  {
    var text := PrintRequestHead(m.blanks, m.requestLine, m.lines);
    RequestHeadRoundTrip(m.blanks, m.requestLine, m.lines, []);
    EmptyConcat(text);
    RunFirst(done, text);
    RunHead(done, NEW_REQUEST, text);
    assert text[..|text|] == text;
    RunCoding(done, m);
    RunConcat(Decoder(done, AtNext), text, BodyText(m.coding));
  }

  function EncodeAll(ms: seq<Message>): Bytes {
    if ms == [] then [] else Encode(ms[0]) + EncodeAll(ms[1..])
  }

  function MeantAll(ms: seq<Message>): seq<Request> {
    if ms == [] then [] else [Meant(ms[0])] + MeantAll(ms[1..])
  }

  /** Decoding a stream of pipelined requests gives exactly those requests, in order. */
  lemma {:induction false} PipelineRoundTrip(done: seq<Request>, ms: seq<Message>)
    requires forall i :: 0 <= i < |ms| ==> ValidMessage(ms[i])
    ensures Run(Decoder(done, AtNext), EncodeAll(ms)) == Decoder(done + MeantAll(ms), AtNext)
    decreases |ms|
  {
    if ms == [] {
      EmptyConcat(done);
    } else {
      MessageRoundTrip(done, ms[0]);
      PipelineRoundTrip(done + [Meant(ms[0])], ms[1..]);
      RunConcat(Decoder(done, AtNext), Encode(ms[0]), EncodeAll(ms[1..]));
      Assoc(done, [Meant(ms[0])], MeantAll(ms[1..]));
    }
  }
}
