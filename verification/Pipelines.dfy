/** What a connection has done with a stream of well-formed pipelined requests, at every moment. */
module Pipelines {
  import opened ByteStrings
  import opened Framing
  import opened HeaderBlock
  import opened ServerConnections
  import Numerals
  import RequestHandlers
  import RequestHeaders

  // ------------------------------------------------------------------------------------------------------
  // A request is complete exactly with its last byte

  lemma RunSplit(d: Decoder, data: Bytes, k: nat)
    requires k <= |data|
    ensures Framing.Run(d, data) == Framing.Run(Framing.Run(d, data[..k]), data[k..])
  {
    SplitAt(data, k);
    Framing.RunConcat(d, data[..k], data[k..]);
  }

  function ButLast(s: Bytes): Bytes
    requires s != []
  {
    s[..|s| - 1]
  }

  lemma ButLastConcat(a: Bytes, b: Bytes)
    requires b != []
    ensures a + b != [] && ButLast(a + b) == a + ButLast(b)
  {
  }

  /** A header that ends with its last byte has not ended, and is not garbled, before it. */
  lemma BlockNotYet(h: Head, text: Bytes)
    requires text != [] && End(h, text) == |text|
    ensures End(h, ButLast(text)) == -1 && HeaderBlock.Run(h, ButLast(text)).Head?
  {
    var n := |text| - 1;
    SplitAt(text, n);
    EndConcat(h, text[..n], text[n..]);
    HeaderBlock.RunConcat(h, text[..n], text[n..]);
    HeaderBlock.RunGarbled(text[n..]);
    EndIsClean(h, text);
    assert text[..|text|] == text;
  }

  predicate StillDone(d: Decoder, done: seq<Request>) {
    d.Decoder? && d.done == done
  }

  lemma HeadNotYet(done: seq<Request>, head: Bytes)
    requires head != [] && End(NEW_REQUEST, head) == |head|
    ensures StillDone(Framing.Run(Decoder(done, AtNext), ButLast(head)), done)
  {
    BlockNotYet(NEW_REQUEST, head);
    if ButLast(head) != [] {
      RunFirst(done, ButLast(head));
    }
    RunHead(done, NEW_REQUEST, ButLast(head));
  }

  lemma WholeNotYet(done: seq<Request>, h: Head, body: Bytes)
    requires body != []
    ensures StillDone(Framing.Run(Decoder(done, InBody(h, |body|, None, [])), ButLast(body)), done)
  {
    if |body| > 1 {
      RunData(done, InBody(h, |body|, None, []), ButLast(body));
    }
  }

  lemma ChunkedNotYet(done: seq<Request>, h: Head, chunks: seq<Chunk>, lastLine: Bytes, trailer: seq<Line>)
    requires ValidChunks(chunks) && '\n' !in lastLine && Numerals.StrToUL(lastLine, 16) == 0
    requires h.Head? && h.cur == [] && h.start.Some? && ValidLines(trailer)
    ensures PrintChunks(chunks) + PrintEnd(lastLine, trailer) != []
    ensures StillDone(Framing.Run(Decoder(done, AtChunkLine(h, [])),
                                  ButLast(PrintChunks(chunks) + PrintEnd(lastLine, trailer))), done)
  {
    hide Framing.Run, Framing.Step;
    var start := Decoder(done, AtChunkLine(h, []));
    var first, line, text := PrintChunks(chunks), lastLine + "\n", PrintLines(trailer) + "\r\n";
    RunChunks(done, h, [], chunks);
    EmptyConcat(ChunkData(chunks));
    RunSizeLine(done, h, ChunkData(chunks), lastLine);
    BlockRoundTrip(h, trailer, []);
    EmptyConcat(text);
    BlockNotYet(h, text);
    RunTrailer(done, h, h, ChunkData(chunks), ButLast(text));
    ButLastConcat(line, text);
    ButLastConcat(first, line + text);
    Framing.RunConcat(start, first, line + ButLast(text));
    Framing.RunConcat(Decoder(done, AtChunkLine(h, ChunkData(chunks))), line, ButLast(text));
  }

  lemma BodyNotYet(done: seq<Request>, m: Message)
    requires ValidMessage(m) && BodyText(m.coding) != []
    ensures var h := Head(Some(m.requestLine), FieldsOf(m.lines), []);
            StillDone(Framing.Run(AfterHead(done, h), ButLast(BodyText(m.coding))), done)
  {
    var h := Head(Some(m.requestLine), FieldsOf(m.lines), []);
    match m.coding
    case Whole(body) => WholeNotYet(done, h, body);
    case Chunked(chunks, lastLine, trailer) => ChunkedNotYet(done, h, chunks, lastLine, trailer);
  }

  lemma NotYet(done: seq<Request>, m: Message)
    requires ValidMessage(m)
    ensures Encode(m) != []
    ensures StillDone(Framing.Run(Decoder(done, AtNext), ButLast(Encode(m))), done)
  {
    hide Framing.Run, AfterHead, BodyText;
    var start, head := Decoder(done, AtNext), PrintRequestHead(m.blanks, m.requestLine, m.lines);
    var body := BodyText(m.coding);
    RequestHeadRoundTrip(m.blanks, m.requestLine, m.lines, []);
    EmptyConcat(head);
    if body == [] {
      HeadNotYet(done, head);
    } else {
      assert head[..|head|] == head;
      RunFirst(done, head);
      RunHead(done, NEW_REQUEST, head);
      BodyNotYet(done, m);
      ButLastConcat(head, body);
      Framing.RunConcat(start, head, ButLast(body));
    }
  }

  /** A proper prefix of an encoded request completes nothing. */
  lemma PrefixNotYet(done: seq<Request>, m: Message, k: nat)
    requires ValidMessage(m) && k < |Encode(m)|
    ensures StillDone(Framing.Run(Decoder(done, AtNext), Encode(m)[..k]), done)
  {
    var start, text := Decoder(done, AtNext), Encode(m);
    NotYet(done, m);
    assert ButLast(text)[..k] == text[..k];
    RunSplit(start, ButLast(text), k);
    DoneGrows(start, text[..k]);
    DoneGrows(Framing.Run(start, text[..k]), ButLast(text)[k..]);
  }

  // ------------------------------------------------------------------------------------------------------
  // Prefixes of a stream of requests

  /** The first n requests have been read, and not all of the next one. */
  predicate Between(k: nat, ms: seq<Message>, n: nat) {
    n <= |ms| && |EncodeAll(ms[..n])| <= k && (n < |ms| ==> k < |EncodeAll(ms[..n + 1])|)
  }

  lemma EncodeCons(ms: seq<Message>, n: nat)
    requires 0 < n <= |ms|
    ensures EncodeAll(ms[..n]) == Encode(ms[0]) + EncodeAll(ms[1..][..n - 1])
    ensures MeantAll(ms[..n]) == [Meant(ms[0])] + MeantAll(ms[1..][..n - 1])
  {
    assert ms[..n][1..] == ms[1..][..n - 1];
  }

  lemma {:induction false} EncodePrefix(ms: seq<Message>, n: nat)
    requires n <= |ms|
    ensures EncodeAll(ms[..n]) <= EncodeAll(ms)
    decreases n
  {
    if n > 0 {
      EncodeCons(ms, n);
      EncodePrefix(ms[1..], n - 1);
    }
  }

  lemma CutBehind(a: Bytes, b: Bytes, k: nat)
    requires |a| <= k <= |a + b|
    ensures (a + b)[..k] == a + b[..k - |a|]
  {
  }

  /** What the first k bytes of the stream complete: as many requests as are there as a whole. */
  lemma {:induction false} RunPrefix(done: seq<Request>, ms: seq<Message>, k: nat) returns (n: nat)
    requires forall i :: 0 <= i < |ms| ==> ValidMessage(ms[i])
    requires k <= |EncodeAll(ms)|
    ensures Between(k, ms, n)
    ensures StillDone(Framing.Run(Decoder(done, AtNext), EncodeAll(ms)[..k]), done + MeantAll(ms[..n]))
    decreases |ms|
  {
    hide Framing.Run, Encode, Meant, ValidMessage;
    var start := Decoder(done, AtNext);
    n := 0;
    EmptyConcat(done);
    if ms == [] {
      assert EncodeAll(ms)[..k] == [];
      RunNothing(start);
    } else if k < |Encode(ms[0])| {
      EncodeCons(ms, 1);
      assert ms[1..][..0] == [];
      EmptyConcat(Encode(ms[0]));
      assert EncodeAll(ms)[..k] == Encode(ms[0])[..k];
      PrefixNotYet(done, ms[0], k);
    } else {
      var first, rest := Encode(ms[0]), EncodeAll(ms[1..]);
      var n' := RunPrefix(done + [Meant(ms[0])], ms[1..], k - |first|);
      n := n' + 1;
      OneMore(done, ms, k, n');
    }
  }

  lemma RunNothing(d: Decoder)
    ensures Framing.Run(d, []) == d
  {
  }

  lemma OneMore(done: seq<Request>, ms: seq<Message>, k: nat, n: nat)
    requires ms != [] && ValidMessage(ms[0]) && |Encode(ms[0])| <= k <= |EncodeAll(ms)|
    requires Between(k - |Encode(ms[0])|, ms[1..], n)
    requires StillDone(Framing.Run(Decoder(done + [Meant(ms[0])], AtNext),
                                   EncodeAll(ms[1..])[..k - |Encode(ms[0])|]),
                       done + [Meant(ms[0])] + MeantAll(ms[1..][..n]))
    ensures Between(k, ms, n + 1)
    ensures StillDone(Framing.Run(Decoder(done, AtNext), EncodeAll(ms)[..k]), done + MeantAll(ms[..n + 1]))
  {
    hide Framing.Run, Encode, Meant, ValidMessage;
    var first, rest := Encode(ms[0]), EncodeAll(ms[1..]);
    EncodeCons(ms, n + 1);
    if n + 1 < |ms| {
      EncodeCons(ms, n + 2);
    }
    MessageRoundTrip(done, ms[0]);
    CutBehind(first, rest, k);
    Framing.RunConcat(Decoder(done, AtNext), first, rest[..k - |first|]);
    Assoc(done, [Meant(ms[0])], MeantAll(ms[1..][..n]));
  }

  /** Whether the decoder is at the beginning of a request tells whether the bytes end with a request. */
  lemma StopsExactly(ms: seq<Message>, n: nat, k: nat)
    requires forall i :: 0 <= i < |ms| ==> ValidMessage(ms[i])
    requires n <= |ms| && |EncodeAll(ms[..n])| <= k <= |EncodeAll(ms)|
    requires StillDone(Framing.Run(FRESH_DECODER, EncodeAll(ms)[..k]), MeantAll(ms[..n]))
    ensures Framing.Run(FRESH_DECODER, EncodeAll(ms)[..k]).phase.AtNext? <==> k == |EncodeAll(ms[..n])|
  {
    hide Framing.Run, Encode, Meant, ValidMessage, EncodeAll, MeantAll;
    var first, data := EncodeAll(ms[..n]), EncodeAll(ms)[..k];
    EncodePrefix(ms, n);
    assert data[..|first|] == first;
    PipelineRoundTrip([], ms[..n]);
    EmptyConcat(MeantAll(ms[..n]));
    RunSplit(FRESH_DECODER, data, |first|);
    if k == |first| {
      assert data == first;
    } else {
      JustFinished(Decoder(MeantAll(ms[..n]), AtNext), data[|first|..]);
    }
  }

  function Bodies(ms: seq<Message>): seq<Bytes> {
    seq(|ms|, i requires 0 <= i < |ms| => Carried(ms[i].coding))
  }

  lemma {:induction false} MeantBodies(ms: seq<Message>)
    ensures |MeantAll(ms)| == |ms|
    ensures forall i :: 0 <= i < |ms| ==> MeantAll(ms)[i].body == Carried(ms[i].coding)
    decreases |ms|
  {
    if ms != [] {
      MeantBodies(ms[1..]);
    }
  }

  lemma PrefixServed(consumed: Bytes, served: seq<Bytes>, ms: seq<Message>)
    requires consumed <= EncodeAll(ms) && Recorded(Framing.Run(FRESH_DECODER, consumed), served)
    requires forall i :: 0 <= i < |ms| ==> ValidMessage(ms[i])
    ensures |served| <= |ms| && served == Bodies(ms[..|served|]) && Between(|consumed|, ms, |served|)
    ensures StillDone(Framing.Run(FRESH_DECODER, consumed), MeantAll(ms[..|served|]))
    ensures Framing.Run(FRESH_DECODER, consumed).phase.AtNext? <==> consumed == EncodeAll(ms[..|served|])
  {
    hide Framing.Run, Encode, Meant, ValidMessage;
    var n := RunPrefix([], ms, |consumed|);
    EmptyConcat(MeantAll(ms[..n]));
    assert EncodeAll(ms)[..|consumed|] == consumed;
    MeantBodies(ms[..n]);
    assert served == Bodies(ms[..n]);
    StopsExactly(ms, n, |consumed|);
    EncodePrefix(ms, n);
    SamePrefix(consumed, EncodeAll(ms[..n]), EncodeAll(ms));
  }

  lemma SamePrefix(a: Bytes, b: Bytes, whole: Bytes)
    requires a <= whole && b <= whole
    ensures |a| == |b| <==> a == b
  {
  }

  /**
   Conservation: while a client sends well-formed requests, however they are cut by reads and by handlers that take
   few bytes per call, the handlers have received exactly the bodies of the completed requests, in order. What was
   taken out of the buffer does not reach to the end of the next request. When no request is being read, it ends
   exactly with the last completed one: the unread buffer and the unread stream begin precisely at the next request.
   */
  lemma BodiesConserved(c: ServerConnection, ms: seq<Message>)
    requires c.Valid() && c.consumed <= EncodeAll(ms)
    requires forall i :: 0 <= i < |ms| ==> ValidMessage(ms[i])
    ensures |c.served| <= |ms| && c.served == Bodies(ms[..|c.served|])
    ensures Between(|c.consumed|, ms, |c.served|)
    ensures c.dec.Decoder? && c.dec.done == MeantAll(ms[..|c.served|])
    ensures c.dec.phase.AtNext? <==> c.consumed == EncodeAll(ms[..|c.served|])
    ensures c.rrs.Idle? || c.rrs.ReadFinished? ==> c.consumed == EncodeAll(ms[..|c.served|])
    ensures c.input.delivered == c.consumed + c.readBuffer[c.readOffset..c.readSize]
  {
    hide Framing.Run, Encode, RequestHandlers.RequestHandler.Valid, RequestHeaders.RequestHeader.Valid, Recorded;
    PrefixServed(c.consumed, c.served, ms);
  }
}
