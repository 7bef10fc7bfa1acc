/** A response under construction (src/respbuf.c): status line and header lines, buffered body, file to follow. */
module RespBufs {
  import opened ByteStrings
  import opened Descriptors
  import opened HeaderBlock
  import opened MemBufs
  import opened Numerals
  import opened ResponseSenders

  const SERVER_LINE := Named("Server", " filemanager-httpd")

  class RespBuf {
    const header: MemBuf
    const body: MemBuf?          // null when only the header is wanted
    var file: Source?
    ghost var statusLine: Bytes
    ghost var lines: seq<Line>

    ghost function Repr(): set<object>
      reads this, header, body
    {
      {this} + BufferObjects(header) + BufferObjects(body)
    }

    ghost predicate Valid()
      reads this, header, header.data, body, BufferObjects(body)
    {
      && header.Valid() && (body != null ==> body.Valid() && body != header && body.data != header.data)
      && header.Contents() == statusLine + "\r\n" + PrintLines(lines)
    }

    constructor (status: Bytes, onlyHead: bool)
      ensures Valid() && statusLine == "HTTP/1.1 " + status && lines == [] && file == null
      ensures if onlyHead then body == null else body != null && body.Contents() == []
      ensures AllNew(this)
    {
      header := new MemBuf.WithStr("HTTP/1.1 " + status + "\r\n");
      if onlyHead {
        body := null;
      } else {
        body := new MemBuf();
      }
      file, statusLine, lines := null, "HTTP/1.1 " + status, [];
      new;
      EmptyConcat("HTTP/1.1 " + status + "\r\n");
    }

    /** resp_appendHeader */
    method AppendHeader(name: Bytes, value: Bytes)
      requires Valid()
      modifies header, `lines
      ensures Valid() && fresh(header.data) && lines == old(lines) + [Named(name, " " + value)]
    {
      var l := Named(name, " " + value);
      HeaderLineText(name, value);
      PrintLinesSnoc(lines, l);
      Assoc(statusLine + "\r\n", PrintLines(lines), LineText(l) + "\r\n");
      header.AppendData(name + ": " + value + "\r\n");
      lines := lines + [l];
    }

    /** resp_appendData */
    method AppendData(data: Bytes)
      requires Valid() && body != null
      modifies body
      ensures Valid() && fresh(body.data) && body.Contents() == old(body.Contents()) + data
    {
      body.AppendData(data);
    }

    /** resp_finish: the sender takes over the buffers and the file. */
    method Finish(stat: Stat) returns (r: ResponseSender)
      requires Valid() && (body != null ==> body.dataLen < UINT_RANGE)
      modifies `lines, header, body
      ensures fresh(r) && r.Valid() && r.sent == []
      ensures r.source == file && (file != null ==> r.start == file.delivered) && r.stat == stat
      ensures r.buffered == if body == null then None else Some(old(body.Contents()))
      ensures r.stream == InitialStream(if body == null then None else Some(old(body.Contents())), file != null, stat)
      ensures r.head == statusLine + "\r\n" + PrintLines(old(lines) + [SERVER_LINE]) + Announcement(r.stream) + "\r\n"
      ensures forall o :: o in r.Repr ==>
        o == r || o == header || o == header.data || o == file || (body != null && (o == body || o == body.data))
      ensures fresh(header.data) && (body != null ==> body.data == old(body.data) || fresh(body.data))
    {
      hide ResponseSender.Valid, InitialStream, Announcement, PrintLines, LineText;
      AppendHeader("Server", "filemanager-httpd");
      assert " " + "filemanager-httpd" == " filemanager-httpd";
      r := new ResponseSender(header, body, file, stat);
      OnlyThese(header, body, file);
    }
  }

  /** The response and its buffers were made since. */
  twostate predicate AllNew(new r: RespBuf)
    reads r, r.header, r.body
  {
    fresh(r) && fresh(r.header) && fresh(r.header.data) && (r.body != null ==> fresh(r.body) && fresh(r.body.data))
  }

  lemma HeaderLineText(name: Bytes, value: Bytes)
    ensures LineText(Named(name, " " + value)) + "\r\n" == name + ": " + value + "\r\n"
  {
    assert name + ":" + (" " + value) == name + ": " + value;
  }
}
