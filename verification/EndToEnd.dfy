/** Framing independence of a whole upload, from the socket to the named parts. */
module EndToEnd {
  import opened ByteStrings
  import opened FileManagers
  import opened Framing
  import opened HeaderBlock
  import opened Multipart
  import opened MultipartFeeding
  import opened ParamLists
  import opened Pipelines
  import opened RequestHandlers
  import opened ServerConnections
  import opened Uploads

  lemma LastOf(ms: seq<Message>)
    requires ms != []
    ensures |Bodies(ms)| == |ms| == |MeantAll(ms)| && Bodies(ms)[|ms| - 1] == Carried(ms[|ms| - 1].coding)
    ensures MeantAll(ms)[|ms| - 1] == Meant(ms[|ms| - 1])
  {
    MeantAt(ms, |ms| - 1);
  }

  lemma {:induction false} MeantAt(ms: seq<Message>, i: nat)
    requires i < |ms|
    ensures |MeantAll(ms)| == |ms| && MeantAll(ms)[i] == Meant(ms[i])
    decreases |ms|
  {
    MeantBodies(ms);
    if i > 0 {
      MeantAt(ms[1..], i - 1);
    }
  }

  /**
   Whenever a request has been read, its handler has received the body which that request carries, and a folder
   handler has the Content-Type of its header. Any other requests may come before it, and behind it.
   */
  lemma LastBodyReceived(c: ServerConnection, ms: seq<Message>)
    requires c.Valid() && c.rrs.ReadFinished? && c.consumed <= EncodeAll(ms)
    requires forall i :: 0 <= i < |ms| ==> ValidMessage(ms[i])
    ensures 0 < |c.served| <= |ms| && c.consumed == EncodeAll(ms[..|c.served|])
    ensures c.handler != null && c.handler.Valid() && Took(c.handler, ms[|c.served| - 1])
  {
    hide ServerConnection.Valid, RequestHandler.Valid, ValidMessage, EncodeAll, Framing.MeantAll, Bodies, Carried;
    hide Meant, Serves, Between;
    BodiesConserved(c, ms);
    c.LatestServed();
    TookLast(c.handler, c.dec.done, c.served, ms);
  }

  /** The handler has received the body of this request, and was told the Content-Type of its header. */
  ghost predicate Took(h: RequestHandler, m: Message)
    reads h
  {
    h.received == Carried(m.coding) && Serves(Meant(m).own, h.filemgr)
  }

  lemma TookLast(h: RequestHandler, done: seq<Request>, served: seq<Bytes>, ms: seq<Message>)
    requires 0 < |served| <= |ms| && served == Bodies(ms[..|served|]) && done == Framing.MeantAll(ms[..|served|])
    requires done != [] && h.received == served[|served| - 1] && Serves(done[|done| - 1].own, h.filemgr)
    ensures Took(h, ms[|served| - 1])
  {
    hide Bodies, Framing.MeantAll, Carried, Serves, Meant;
    LastServed(done, served, ms);
  }

  lemma LastServed(done: seq<Request>, served: seq<Bytes>, ms: seq<Message>)
    requires 0 < |served| <= |ms| && served == Bodies(ms[..|served|]) && done == Framing.MeantAll(ms[..|served|])
    ensures var m := ms[|served| - 1];
            |done| == |served| && done[|done| - 1] == Meant(m) && served[|served| - 1] == Carried(m.coding)
  {
    hide *;
    LastOf(ms[..|served|]);
  }

  /** The folder handler has passed on all it received. */
  lemma PassedOn(h: RequestHandler, m: Message)
    requires h.Valid() && h.filemgr != null && Took(h, m)
    ensures h.filemgr.Valid() && h.filemgr.received == Carried(m.coding) && Serves(Meant(m).own, h.filemgr)
  {
    hide FileManager.Valid, Serves, Carried, Meant;
  }

  /**
   A form uploaded in a request arrives as exactly its parts: with a Content-Length or in any chunks, before and behind
   any other pipelined requests, for all cuts of the stream into reads and all cuts of what reaches the multipart
   parser. The boundary is the one the request's Content-Type announces.
   */
  lemma UploadArrives(c: ServerConnection, ms: seq<Message>, ws: seq<Written>, gap: Bytes, boundary: Bytes,
                      preamble: Option<Bytes>, form: seq<FormPart>, epilogue: Bytes)
    requires c.Valid() && c.rrs.ReadFinished? && c.consumed <= EncodeAll(ms)
    requires forall i :: 0 <= i < |ms| ==> ValidMessage(ms[i])
    requires c.handler != null && c.handler.filemgr != null
    requires 0 < |c.served| <= |ms| && IsUpload(ms[|c.served| - 1], ws, gap, boundary, preamble, form, epilogue)
    ensures c.handler.filemgr.body != null && c.handler.filemgr.body.boundaryDelimiter.None?
    ensures NonEmpty(c.handler.filemgr.body.list.fed) == PartTexts(form)
  {
    hide *;
    LastBodyReceived(c, ms);
    PassedOn(c.handler, ms[|c.served| - 1]);
    UploadParsed(c.handler.filemgr, ms[|c.served| - 1], ws, gap, boundary, preamble, form, epilogue);
  }

  /** The request has a Content-Type of multipart/form-data with that boundary, and the encoded form as its body. */
  predicate IsUpload(m: Message, ws: seq<Written>, gap: Bytes, boundary: Bytes, preamble: Option<Bytes>,
                     form: seq<FormPart>, epilogue: Bytes) {
    && Lookup(FieldsOf(m.lines), "Content-Type") == Some(FormType(ws, gap))
    && ws != [] && ws[0].name != [] && AllWs(gap) && (forall i :: 0 <= i < |ws| ==> ValidParam(ws[i], ';'))
    && (exists i: nat :: i < |ws| && IsBoundary(ws, i) && ws[i].value == boundary)
    && '\r' !in boundary && ValidForm(form, Delimiter(boundary))
    && (preamble.Some? ==> Free(Delimiter(boundary), "\r\n" + preamble.value))
    && Carried(m.coding) == Print(Delimiter(boundary), preamble, PartTexts(form), epilogue)
  }

  /** A folder handler that was told the request's Content-Type, and received its body. */
  lemma UploadParsed(f: FileManager, m: Message, ws: seq<Written>, gap: Bytes, boundary: Bytes,
                     preamble: Option<Bytes>, form: seq<FormPart>, epilogue: Bytes)
    requires f.Valid() && f.received == Carried(m.coding) && Serves(Meant(m).own, f)
    requires IsUpload(m, ws, gap, boundary, preamble, form, epilogue)
    ensures f.body != null && f.body.boundaryDelimiter.None? && NonEmpty(f.body.list.fed) == PartTexts(form)
  {
    hide FileManager.Valid, Print, Free, ValidForm, Boundary, IsBoundary, FormType, ValidParam, Lookup, FieldsOf;
    hide ParamsOf, Carried, PartTexts, NonEmpty;
    var i: nat :| i < |ws| && IsBoundary(ws, i) && ws[i].value == boundary;
    BoundaryRoundTrip(ws, gap, i);
    ParsesBody(f, boundary);
    UploadRoundTrip(f, boundary, preamble, form, epilogue);
  }

  lemma ParsesBody(f: FileManager, boundary: Bytes)
    requires f.Valid() && Boundary(f.contentType) == Some(boundary) && '\r' !in boundary
    ensures f.body != null && f.body.delim == Delimiter(boundary)
  {
  }
}
