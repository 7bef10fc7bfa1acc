/**
 The resumable sender of a response (src/responsesender.c): an exact Content-Length body or a chunked one, whatever
 short reads, short writes and blocking happen on the way.
 */
module ResponseSenders {
  import opened ByteStrings
  import opened Descriptors
  import opened Framing
  import opened MemBufs
  import opened Numerals

  // What fstat says about the file.
  datatype Stat = Regular(size: nat) | NotRegular | StatFails

  // What follows the header: nothing; the buffered body, file bytes and zeros up to an announced size; or chunks.
  datatype Stream =
    | NoBody
    | Sized(body: Bytes, size: nat, taken: Bytes, zeros: nat)
    | InChunks(body: Bytes, chunks: seq<Chunk>, taken: Bytes, closed: bool)

  const LAST_CHUNK: Bytes := "0\r\n\r\n"

  function Payload(s: Stream): Bytes {
    match s
    case NoBody => []
    case Sized(body, _, taken, zeros) => body + taken + Zeros(zeros)
    case InChunks(_, chunks, _, closed) => PrintChunks(chunks) + (if closed then LAST_CHUNK else [])
  }

  predicate WellFormed(s: Stream) {
    match s
    case NoBody => true
    case Sized(_, size, taken, zeros) => |taken| + zeros <= size
    case InChunks(body, chunks, taken, _) => ValidChunks(chunks) && ChunkData(chunks) == body + taken
  }

  predicate Complete(s: Stream) {
    match s
    case NoBody => true
    case Sized(_, size, taken, zeros) => |taken| + zeros == size
    case InChunks(_, _, _, closed) => closed
  }

  /** nbytes: how much of the file is still to send; -1 while chunks are to come. */
  function Left(s: Stream): int {
    match s
    case NoBody => 0
    case Sized(_, size, taken, zeros) => size - |taken| - zeros
    case InChunks(_, _, _, closed) => if closed then 0 else -1
  }

  /** A chunk as the sender prints it: the size in hex without leading zeros. */
  function HexChunk(data: Bytes): Chunk {
    Chunk(Hex(|data|) + "\r", data)
  }

  lemma HexChunkValid(data: Bytes)
    requires data != [] && |data| < UINT_RANGE
    ensures ValidChunk(HexChunk(data)) && PrintChunk(HexChunk(data)) == Hex(|data|) + "\r\n" + data + "\r\n"
  {
    var n := |data|;
    PrintRoundTrip(n, 16, "\r");
    PrintedDigits(n, 16);
    forall i | 0 <= i < |Hex(n)| ensures Hex(n)[i] != '\n' {
      assert DigitVal('\n', 16) == -1;
    }
    Assoc(Hex(n), "\r", "\n");
  }

  lemma {:induction false} ChunksSnoc(chunks: seq<Chunk>, c: Chunk)
    ensures PrintChunks(chunks + [c]) == PrintChunks(chunks) + PrintChunk(c)
    ensures ChunkData(chunks + [c]) == ChunkData(chunks) + c.data
  {
    if chunks == [] {
      assert [] + [c] == [c] && [c][1..] == [];
      EmptyConcat(PrintChunk(c));
      EmptyConcat(c.data);
    } else {
      assert (chunks + [c])[1..] == chunks[1..] + [c];
      ChunksSnoc(chunks[1..], c);
      Assoc(PrintChunk(chunks[0]), PrintChunks(chunks[1..]), PrintChunk(c));
      Assoc(chunks[0].data, ChunkData(chunks[1..]), c.data);
    }
  }

  /** Adding one chunk to a stream that is not closed. */
  function AddChunk(s: Stream, data: Bytes): (r: Stream)
    requires s.InChunks?
    ensures r.InChunks?
  {
    s.(chunks := s.chunks + [HexChunk(data)], taken := s.taken + data)
  }

  lemma AddChunkWellFormed(s: Stream, data: Bytes)
    requires s.InChunks? && !s.closed && WellFormed(s) && data != [] && |data| < UINT_RANGE
    ensures WellFormed(AddChunk(s, data))
    ensures Payload(AddChunk(s, data)) == Payload(s) + (Hex(|data|) + "\r\n" + data + "\r\n")
  {
    HexChunkValid(data);
    ChunksSnoc(s.chunks, HexChunk(data));
    Assoc(s.body, s.taken, data);
    EmptyConcat(PrintChunks(s.chunks));
    EmptyConcat(PrintChunks(s.chunks + [HexChunk(data)]));
  }

  // ------------------------------------------------------------------------------------------------------
  // Writing to the socket

  datatype Outcome = Written | Blocked | Broken

  /** The write loop: writes from `from` to the end until the socket stops accepting. */
  method WriteOut(socket: Sink, data: Bytes, from: nat) returns (offset: nat, o: Outcome)
    requires from <= |data|
    modifies socket
    ensures from <= offset <= |data| && socket.written == old(socket.written) + data[from..offset]
    ensures (o.Written? <==> offset == |data|) && socket.broken == (old(socket.broken) || o.Broken?)
    ensures socket.tries >= old(socket.tries) && (o.Blocked? ==> socket.full && socket.tries > old(socket.tries))
  {
    offset, o := from, Written;
    assert data[from..from] == [];
    while offset < |data|
      invariant from <= offset <= |data|
      invariant socket.written == old(socket.written) + data[from..offset] && socket.broken == old(socket.broken)
      invariant socket.tries >= old(socket.tries)
    {
      var wr := socket.Write(data[offset..]);
      if wr.Full? {
        return offset, Blocked;
      }
      if wr.WriteError? {
        return offset, Broken;
      }
      JoinRanges(data, from, offset, wr.count);
      Assoc(old(socket.written), data[from..offset], data[offset..][..wr.count]);
      offset := offset + wr.count;
    }
  }

  lemma JoinRanges<T>(s: seq<T>, from: nat, offset: nat, n: nat)
    requires from <= offset && offset + n <= |s|
    ensures s[from..offset] + s[offset..][..n] == s[from..offset + n]
  {
  }

  // ------------------------------------------------------------------------------------------------------
  // Filling the buffer

  /** The read loop: fills buf[from..limit] as far as the file delivers. */
  method ReadInto(buf: MemBuf, file: Source, from: nat, limit: nat) returns (filled: nat, r: ReadResult)
    requires buf.Valid() && from < limit <= buf.dataLen && buf as object != file && buf.data as object != file
    modifies buf.data, file
    ensures buf.Valid() && from <= filled <= limit && (filled < limit ==> !r.Got?)
    ensures file.delivered == old(file.delivered) + buf.Contents()[from..filled]
    ensures filled > from ==> Fuel(file.script) < old(Fuel(file.script))
    ensures file.ended == (old(file.ended) || r.Eof?) && (r.Eof? || r.ReadError? ==> filled < limit)
    ensures file.errored == (old(file.errored) || r.ReadError?) && (filled < limit && r.WouldBlock? ==> file.dry)
    ensures file.tries > old(file.tries)
  {
    filled, r := from, WouldBlock;
    ghost var start := file.delivered;
    assert buf.Contents()[from..from] == [];
    EmptyConcat(start);
    while filled < limit
      invariant buf.Valid() && from <= filled <= limit && !r.Eof? && !r.ReadError?
      invariant file.delivered == start + buf.Contents()[from..filled]
      invariant file.ended == old(file.ended) && file.errored == old(file.errored)
      invariant file.tries >= old(file.tries) && (filled > from ==> file.tries > old(file.tries))
      invariant filled > from ==> Fuel(file.script) < old(Fuel(file.script))
      invariant Fuel(file.script) <= old(Fuel(file.script))
    {
      ghost var before := buf.Contents();
      r := buf.ReadFile(file, filled, limit - filled);
      ReadMore(before, from, filled, if r.Got? then r.bytes else []);
      if !r.Got? {
        EmptyConcat(before[from..filled]);
        return;
      }
      Assoc(start, before[from..filled], r.bytes);
      filled := filled + |r.bytes|;
    }
  }

  lemma ReadMore(buf: Bytes, from: nat, filled: nat, bytes: Bytes)
    requires from <= filled && filled + |bytes| <= |buf|
    ensures Overwrite(buf, filled, bytes)[from..filled + |bytes|] == buf[from..filled] + bytes
  {
  }

  const CHUNK_START: nat := 10        // bytes reserved for the size line of a chunk
  const CHUNK_LIMIT: nat := 65546     // end of the chunk data in the buffer
  const CHUNK_BUFFER: nat := 65553    // with CR LF and the last chunk behind it

  function ChunkText(data: Bytes): Bytes {
    if data == [] then [] else Hex(|data|) + "\r\n" + data + "\r\n"
  }

  /** Writes the size line right-aligned before the data and CR LF behind it. */
  method FrameChunk(buf: MemBuf, filled: nat) returns (offset: nat)
    requires buf.Valid() && CHUNK_START < filled <= CHUNK_LIMIT && CHUNK_BUFFER <= buf.dataLen
    modifies buf.data
    ensures buf.Valid() && offset <= CHUNK_START
    ensures buf.Contents()[offset..filled + 2] == ChunkText(old(buf.Contents())[CHUNK_START..filled])
  {
    ghost var before := buf.Contents();
    var n := filled - CHUNK_START;
    HexWidth(n);
    var line := Hex(n) + "\r\n";
    offset := CHUNK_START - |line|;
    buf.SetData(offset, line);
    ghost var mid := buf.Contents();
    buf.SetData(filled, "\r\n");
    FramedText(before, offset, line, filled);
  }

  lemma FramedText(buf: Bytes, offset: nat, line: Bytes, filled: nat)
    requires offset + |line| <= filled && filled + 2 <= |buf|
    ensures Overwrite(Overwrite(buf, offset, line), filled, "\r\n")[offset..filled + 2]
         == line + buf[offset + |line|..filled] + "\r\n"
  {
  }

  /** Puts the last chunk and an empty trailer behind what the buffer holds. */
  method AppendLast(buf: MemBuf, offset: nat, end: nat)
    requires buf.Valid() && offset <= end && end + 5 <= buf.dataLen
    modifies buf.data
    ensures buf.Valid() && buf.Contents()[offset..end + 5] == old(buf.Contents())[offset..end] + LAST_CHUNK
  {
    ghost var before := buf.Contents();
    buf.SetData(end, LAST_CHUNK);
    ReadMore(before, offset, end, LAST_CHUNK);
  }

  // ------------------------------------------------------------------------------------------------------
  // The start of a response

  function InitialStream(body: Option<Bytes>, hasFile: bool, stat: Stat): Stream {
    if body.None? then NoBody
    else if hasFile && stat.NotRegular? then
      InChunks(body.value, if body.value == [] then [] else [HexChunk(body.value)], [], false)
    else Sized(body.value, if hasFile && stat.Regular? then stat.size else 0, [], 0)
  }

  /** The header line by which the receiver knows where the body ends. */
  function Announcement(s: Stream): Bytes {
    match s
    case NoBody => []
    case Sized(body, size, _, _) => "Content-Length: " + Decimal(|body| + size) + "\r\n"
    case InChunks(_, _, _, _) => "Transfer-Encoding: chunked\r\n"
  }

  /** Appends that line and the blank line. */
  method Announce(header: MemBuf, body: MemBuf?, nbytes: int, ghost s: Stream)
    requires header.Valid() && (body != null ==> body.Valid() && body != header && body.data != header.data)
    requires body == null <==> s.NoBody?
    requires s.InChunks? <==> nbytes < 0
    requires s.Sized? ==> nbytes == s.size && s.body == body.Contents()
    modifies header
    ensures header.Valid() && fresh(header.data)
    ensures header.Contents() == old(header.Contents()) + Announcement(s) + "\r\n"
  {
    EmptyConcat(header.Contents());
    if body != null {
      if nbytes >= 0 {
        header.AppendData("Content-Length: " + Decimal(body.dataLen + nbytes) + "\r\n");
      } else {
        header.AppendData("Transfer-Encoding: chunked\r\n");
      }
    }
    header.AppendData("\r\n");
  }

  /** A buffered body becomes the first chunk: its size line goes behind the header, its CR LF into the buffer. */
  method PrepareFirstChunk(header: MemBuf, body: MemBuf?, nbytes: int)
    requires header.Valid() && (body != null ==> body.Valid() && body != header && body.data != header.data)
    requires nbytes < 0 ==> body != null
    modifies header, body
    ensures header.Valid() && (body != null ==> body.Valid() && body.data != header.data)
    ensures body == null ==> header.Contents() == old(header.Contents())
    ensures body != null ==>
      header.Contents() + body.Contents() ==
        old(header.Contents()) + (if nbytes < 0 then ChunkText(old(body.Contents())) else old(body.Contents()))
    ensures header.data == old(header.data) || fresh(header.data)
    ensures body != null ==> body.data == old(body.data) || fresh(body.data)
  {
    if nbytes < 0 && body.dataLen > 0 {
      ghost var h, b := header.Contents(), body.Contents();
      header.AppendData(Hex(body.dataLen) + "\r\n");
      body.AppendData("\r\n");
      assert h + (Hex(|b|) + "\r\n") + (b + "\r\n") == h + (Hex(|b|) + "\r\n" + b + "\r\n");
    }
  }

  lemma FirstPayload(s: Stream, text: Bytes)
    requires s.Sized? ==> s.taken == [] && s.zeros == 0
    requires s.InChunks? ==> !s.closed && |s.body| < UINT_RANGE && s.taken == []
    requires s.InChunks? ==> s.chunks == if s.body == [] then [] else [HexChunk(s.body)]
    ensures WellFormed(s)
    ensures Payload(s) ==
      match s case NoBody => [] case Sized(b, _, _, _) => b case InChunks(b, _, _, _) => ChunkText(b)
  {
    match s
    case NoBody =>
    case Sized(b, _, _, _) =>
      EmptyConcat(b);
      assert Zeros(0) == [];
    case InChunks(b, chunks, _, _) =>
      EmptyConcat(b);
      EmptyConcat(PrintChunks(chunks));
      if b != [] {
        HexChunkValid(b);
        ChunksSnoc([], HexChunk(b));
        EmptyConcat(chunks);
        EmptyConcat(PrintChunk(HexChunk(b)));
      }
  }

  /** Everything rsndr_new writes, and the number of file bytes to come (-1: unknown). */
  method Prepare(header: MemBuf, body: MemBuf?, hasFile: bool, stat: Stat)
    returns (n: int, ghost s: Stream, ghost text: Bytes)
    requires header.Valid() && (body != null ==> body.Valid() && body.dataLen < UINT_RANGE)
    requires body != null ==> body != header && body.data != header.data
    modifies header, body
    ensures header.Valid() && (body != null ==> body.Valid() && body.data != header.data)
    ensures fresh(header.data) && (body != null ==> body.data == old(body.data) || fresh(body.data))
    ensures s == InitialStream(if body == null then None else Some(old(body.Contents())), hasFile, stat)
    ensures text == old(header.Contents()) + Announcement(s) + "\r\n"
    ensures WellFormed(s) && n == Left(s) && (s.NoBody? <==> body == null)
    ensures header.Contents()[0..] + (if body == null then [] else body.Contents()[..body.dataLen]) == text + Payload(s)
  {
    s := InitialStream(if body == null then None else Some(body.Contents()), hasFile, stat);
    n := if body == null || !hasFile then 0 else match stat
         case Regular(size) => size
         case NotRegular => -1
         case StatFails => 0;
    Announce(header, body, n, s);
    text := header.Contents();
    PrepareFirstChunk(header, body, n);
    FirstPayload(s, text);
    WholeBuffer(header.Contents());
    if body == null {
      EmptyConcat(text);
    } else {
      WholeBuffer(body.Contents());
    }
  }

  lemma WholeBuffer(a: Bytes)
    ensures a[0..] == a && a[..|a|] == a
  {
  }

  ghost function BufferObjects(buf: MemBuf?): set<object>
    reads buf
  {
    if buf == null then {} else {buf as object, buf.data}
  }

  ghost function Objects(header: MemBuf, body: MemBuf?, file: Source?): (s: set<object>)
    reads header, body
    ensures header in s && header.data in s && (file != null ==> file in s)
    ensures body != null ==> body in s && body.data in s
  {
    BufferObjects(header) + BufferObjects(body) + if file == null then {} else {file as object}
  }

  lemma OnlyThese(header: MemBuf, body: MemBuf?, file: Source?)
    ensures forall o :: o in Objects(header, body, file) ==>
      o == header || o == header.data || o == file || (body != null && (o == body || o == body.data))
  {
  }

  /**
   The result reports exactly what blocked: writing to the socket, or reading from the file. That was tried: it had
   been written or read less often before.
   */
  ghost predicate WaitsFor(dpr: Dpr, r: Dpr, socket: Sink, written: nat, file: Source?, read: nat)
    reads socket, file
  {
    AwaitsSocket(dpr, r, socket, written) || AwaitsFile(dpr, r, file, read)
  }

  ghost predicate AwaitsSocket(dpr: Dpr, r: Dpr, socket: Sink, written: nat)
    reads socket
  {
    r == dpr.(respState := AwaitWrite, respFd := socket.fd) && socket.full && socket.tries > written
  }

  ghost predicate AwaitsFile(dpr: Dpr, r: Dpr, file: Source?, read: nat)
    reads file
  {
    file != null && r == dpr.(respState := AwaitRead, respFd := file.fd) && file.dry && file.tries > read
  }

  ghost function TriesOf(file: Source?): nat
    reads file
  {
    if file == null then 0 else file.tries
  }

  class ResponseSender {
    var header: MemBuf?
    var body: MemBuf?
    var file: Source?
    var dataSize: nat
    var dataOffset: nat            // first unwritten byte of the header, then of the body buffer
    var nbytes: int
    ghost const source: Source?    // the file passed in; it stays known after it is closed
    ghost const buffered: Option<Bytes>   // the body that was passed in
    ghost const stat: Stat         // what fstat said about the file
    ghost const head: Bytes        // the header text up to its blank line
    ghost const start: Bytes       // what the file had delivered before
    ghost var stream: Stream
    ghost var sent: Bytes          // everything written to the socket
    ghost var Repr: set<object>

    ghost predicate Owned()
      reads this, Repr
    {
      && this in Repr
      && (header != null ==> header in Repr && header.data in Repr && header.Valid())
      && (body != null ==> body in Repr && body.data in Repr && body.Valid())
      && (header != null && body != null ==> header != body && header.data != body.data)
      && (source != null ==> source in Repr) && (file != null ==> file == source)
    }

    /** What is still to be written of what was produced. */
    ghost function Pending(): Bytes
      requires Owned() && Offsets()
      reads this, Repr
    {
      if header != null then
        header.Contents()[dataOffset..] + (if body == null then [] else body.Contents()[..dataSize])
      else if body == null then []
      else body.Contents()[dataOffset..dataSize]
    }

    ghost predicate Offsets()
      requires Owned()
      reads this, Repr
    {
      && (header != null ==> dataOffset <= header.dataLen)
      && (header == null && body != null ==> dataOffset <= dataSize)
      && (body != null ==> dataSize <= body.dataLen)
    }

    /** The file's part of the stream is what the file has delivered, and the stream ends early only when it did. */
    ghost predicate FromFile()
      reads this, source
    {
      match stream
      case NoBody => file == null
      case Sized(_, _, taken, zeros) =>
        && (source != null ==> source.delivered == start + taken)
        && (zeros > 0 ==> file == null)
        && (file == null && stream.size > 0 ==> source != null && (source.ended || source.errored))
      case InChunks(_, _, taken, closed) =>
        && source != null && source.delivered == start + taken
        && (file == null <==> closed) && (closed ==> source.ended || source.errored)
    }

    ghost predicate Inner()
      reads this, Repr
    {
      && Owned() && Offsets() && FromFile()
      && WellFormed(stream) && nbytes == Left(stream) && (body == null <==> stream.NoBody?)
      && Fits()
    }

    /** The stream is one for what was passed in. */
    ghost predicate Fits()
      reads `stream
    {
      SameKind(InitialStream(buffered, source != null, stat), stream)
    }

    ghost predicate Valid()
      reads this, Repr
    {
      Inner() && sent + Pending() == head + Payload(stream)
    }

    /** rsndr_new: announces the body in the header, and decides how it will be sent. */
    constructor (header: MemBuf, body: MemBuf?, file: Source?, stat: Stat)
      requires header.Valid() && (body != null ==> body.Valid() && body.dataLen < UINT_RANGE)
      requires body != null ==> body != header && body.data != header.data
      modifies header, body
      ensures Valid() && sent == [] && source == file
      ensures stream == InitialStream(if body == null then None else Some(old(body.Contents())), file != null, stat)
      ensures head == old(header.Contents()) + Announcement(stream) + "\r\n"
      ensures buffered == (if body == null then None else Some(old(body.Contents()))) && this.stat == stat
      ensures file != null ==> start == file.delivered
      ensures Repr == {this} + Objects(header, body, file)
      ensures fresh(header.data) && (body != null ==> body.data == old(body.data) || fresh(body.data))
    {
      hide Payload, WellFormed, Announcement, Left, Valid;
      var n;
      ghost var s, text;
      n, s, text := Prepare(header, body, file != null, stat);
      this.header, this.body, dataOffset, nbytes := header, body, 0, n;
      dataSize := if body == null then 0 else body.dataLen;
      this.file := if n == 0 then null else file;
      source := file;
      buffered, this.stat := if body == null then None else Some(old(body.Contents())), stat;
      head, stream, sent := text, s, [];
      start := if file == null then [] else file.delivered;
      Repr := {this} + Objects(header, body, file);
      new;
      StartsValid();
    }

    lemma StartsValid()
      requires header != null && Repr == {this} + Objects(header, body, source)
      requires header.Valid() && (body != null ==> body.Valid() && body != header && body.data != header.data)
      requires dataSize == (if body == null then 0 else body.dataLen) && dataOffset == 0
      requires file == (if nbytes == 0 then null else source) && sent == []
      requires start == if source == null then [] else source.delivered
      requires stream == InitialStream(buffered, source != null, stat)
      requires WellFormed(stream) && nbytes == Left(stream) && (body == null <==> stream.NoBody?)
      requires header.Contents()[0..] + (if body == null then [] else body.Contents()[..body.dataLen])
            == head + Payload(stream)
      ensures Valid()
    {
      hide Payload, WellFormed;
      EmptyConcat(start);
    }

    /** Writes what is left of the header. */
    method SendHeader(socket: Sink) returns (o: Outcome, ghost d: Bytes)
      requires Valid() && header != null && socket !in Repr
      modifies `dataOffset, `sent, socket
      ensures Valid() && (o.Written? <==> dataOffset == header.dataLen)
      ensures socket.broken == (old(socket.broken) || o.Broken?) && (o.Blocked? ==> socket.full)
      ensures socket.tries >= old(socket.tries) && (o.Blocked? ==> socket.tries > old(socket.tries))
      ensures socket.written == old(socket.written) + d && sent == old(sent) + d
    {
      ghost var text := header.Contents();
      ghost var rest := if body == null then [] else body.Contents()[..dataSize];
      assert Pending() == text[dataOffset..] + rest;
      var offset;
      offset, o := WriteOut(socket, header.Contents(), dataOffset);
      d := text[dataOffset..offset];
      SendPrefix(sent, text, dataOffset, offset, rest);
      sent := sent + d;
      dataOffset := offset;
    }

    method DropHeader()
      requires Valid() && header != null && dataOffset == header.dataLen
      modifies `header, `dataOffset
      ensures Valid() && header == null
    {
      hide Payload, WellFormed, Left, SameKind, InitialStream;
      EmptyConcat(if body == null then [] else body.Contents()[..dataSize]);
      header, dataOffset := null, 0;
    }

    /** Writes what is left of the body buffer. */
    method SendBuffer(socket: Sink) returns (o: Outcome, ghost d: Bytes)
      requires Valid() && header == null && body != null && socket !in Repr
      modifies `dataOffset, `sent, socket
      ensures Valid() && (o.Written? <==> dataOffset == dataSize)
      ensures socket.broken == (old(socket.broken) || o.Broken?) && (o.Blocked? ==> socket.full)
      ensures socket.tries >= old(socket.tries) && (o.Blocked? ==> socket.tries > old(socket.tries))
      ensures socket.written == old(socket.written) + d && sent == old(sent) + d
    {
      var offset;
      offset, o := WriteOut(socket, body.Contents()[..dataSize], dataOffset);
      d := body.Contents()[..dataSize][dataOffset..offset];
      Advance(offset, d);
    }

    /** The bytes of the buffer up to that offset have been written. */
    method Advance(offset: nat, ghost d: Bytes)
      requires Valid() && header == null && body != null && dataOffset <= offset <= dataSize
      requires d == body.Contents()[..dataSize][dataOffset..offset]
      modifies `dataOffset, `sent
      ensures Valid() && dataOffset == offset && sent == old(sent) + d
    {
      ghost var text := body.Contents()[..dataSize];
      SendPrefix(sent, text, dataOffset, offset, []);
      RangeOfPrefix(body.Contents(), dataSize, dataOffset);
      RangeOfPrefix(body.Contents(), dataSize, offset);
      EmptyConcat(text[dataOffset..]);
      EmptyConcat(text[offset..]);
      sent := sent + d;
      dataOffset := offset;
    }

    /** Reads from the file into the buffer, and closes the file unless it only has nothing yet. */
    method ReadFile(from: nat, limit: nat) returns (filled: nat, blocked: bool)
      requires Owned() && body != null && file != null && from < limit <= body.dataLen
      modifies `file, body.data, file
      ensures Owned() && from <= filled <= limit
      ensures source.delivered == old(source.delivered) + body.Contents()[from..filled]
      ensures (file == null <==> filled < limit && !blocked) && (filled < limit && blocked ==> file.dry)
      ensures source.tries > old(source.tries)
      ensures file == null ==> source.ended || source.errored
      ensures file != null ==> source.ended == old(source.ended) && source.errored == old(source.errored)
      ensures filled > from ==> Fuel(source.script) < old(Fuel(source.script))
    {
      var r;
      filled, r := ReadInto(body, file, from, limit);
      blocked := r.WouldBlock?;
      if filled < limit && !blocked {
        file := null;
      }
    }

    /** The file is the one it was, if it is still open, and was read as often as before at least. */
    ghost predicate TriedMore(before: Source?, tries: nat)
      reads this, file
    {
      file != null ==> file == before && file.tries >= tries
    }

    lemma FileIsSource()
      requires Valid()
      ensures file != null ==> file == source
    {
    }

    /** Everything produced so far has been sent. */
    ghost predicate Drained()
      reads this, Repr
    {
      Inner() && header == null && body != null && dataOffset == dataSize && sent == head + Payload(stream)
    }

    /** The buffer for at least n bytes. */
    method Reserve(n: nat)
      requires Owned() && body != null
      modifies body, `Repr
      ensures Owned() && body.dataLen >= n && fresh(Repr - old(Repr))
      ensures body.dataLen >= old(body.dataLen)
    {
      if body.dataLen < n {
        body.Resize(n);
        Repr := Repr + {body.data};
      }
    }

    /** Reads from the file unless it is closed; waits for it when it delivers nothing yet. */
    method ReadSized(toFill: nat, dpr: Dpr) returns (filled: nat, r: Dpr, ghost data: Bytes)
      requires Owned() && body != null && 0 < toFill <= body.dataLen
      modifies `file, body.data, file
      ensures Owned() && |data| == filled <= toFill && body.Contents()[..filled] == data
      ensures source == null ==> data == []
      ensures source != null ==> source.delivered == old(source.delivered) + data
      ensures old(file) == null ==> file == null && data == []
      ensures old(file) == null && source != null ==>
        source.ended == old(source.ended) && source.errored == old(source.errored)
      ensures old(file) != null && file == null ==> source.ended || source.errored
      ensures if filled == 0 && file != null then AwaitsFile(dpr, r, file, old(TriesOf(file))) else r == dpr
      ensures TriedMore(old(file), old(TriesOf(file)))
    {
      r, filled := dpr, 0;
      EmptyConcat(if source == null then [] else source.delivered);
      if file != null {
        var blocked;
        filled, blocked := ReadFile(0, toFill);
        if filled == 0 && file != null {
          r := dpr.(respState := AwaitRead, respFd := file.fd);
        }
      }
      data := body.Contents()[..filled];
      assert body.Contents()[0..filled] == data;
    }

    /** Reads from the file, and puts zeros where the file no longer can deliver. */
    method BufferSized(toFill: nat, dpr: Dpr) returns (filled: nat, zeros: nat, r: Dpr, ghost data: Bytes)
      requires Owned() && body != null && 0 < toFill <= body.dataLen
      modifies `file, body.data, file
      ensures Owned() && |data| == filled && filled + zeros <= toFill
      ensures body.Contents()[..filled + zeros] == data + Zeros(zeros)
      ensures source == null ==> data == []
      ensures source != null ==> source.delivered == old(source.delivered) + data
      ensures old(file) == null ==> file == null && data == []
      ensures old(file) == null && source != null ==>
        source.ended == old(source.ended) && source.errored == old(source.errored)
      ensures old(file) != null && file == null ==> source.ended || source.errored
      ensures zeros > 0 ==> file == null
      ensures if filled + zeros == 0 then AwaitsFile(dpr, r, file, old(TriesOf(file)))
              else r == dpr
      ensures TriedMore(old(file), old(TriesOf(file)))
    {
      hide Overwrite;
      filled, r, data := ReadSized(toFill, dpr);
      zeros := if file == null then toFill - filled else 0;
      ghost var before := body.Contents();
      body.FillWithZeros(filled, zeros);
      ReadMore(before, 0, filled, Zeros(zeros));
    }

    /** Content-Length mode: the next part of the file, or zeros once the file is gone. */
    method FillSized(dpr: Dpr) returns (r: Dpr)
      requires Drained() && stream.Sized? && nbytes > 0
      modifies Repr
      ensures Valid() && fresh(Repr - old(Repr)) && FillKeeps(old(sent), old(header))
      ensures stream.Sized? && stream.body == old(stream.body) && stream.size == old(stream.size)
      ensures if dataSize == 0 then AwaitsFile(dpr, r, file, old(TriesOf(file))) else r == dpr
      ensures TriedMore(old(file), old(TriesOf(file)))
      ensures dataSize > 0 ==> nbytes < old(nbytes)
    {
      var toFill := if nbytes < 65536 then nbytes else 65536;
      Reserve(toFill);
      var filled, zeros;
      ghost var data;
      filled, zeros, r, data := BufferSized(toFill, dpr);
      CommitSized(filled, zeros, data);
    }

    /** The buffer holds more of the stream, ready to be sent. */
    method CommitSized(filled: nat, zeros: nat, ghost data: Bytes)
      requires Owned() && header == null && body != null && stream.Sized? && WellFormed(stream) && Fits()
      requires nbytes == Left(stream) && sent == head + Payload(stream)
      requires |data| == filled && filled + zeros <= nbytes && filled + zeros <= body.dataLen
      requires body.Contents()[..filled + zeros] == data + Zeros(zeros)
      requires data != [] ==> stream.zeros == 0
      requires source != null ==> source.delivered == start + stream.taken + data
      requires stream.zeros + zeros > 0 ==> file == null
      requires file == null && stream.size > 0 ==> source != null && (source.ended || source.errored)
      modifies `stream, `nbytes, `dataSize, `dataOffset
      ensures Valid() && stream == GrowSized(old(stream), data, zeros) && nbytes == old(nbytes) - filled - zeros
      ensures dataSize == filled + zeros && dataOffset == 0
    {
      SizedGrows(stream, data, zeros);
      hide SameKind, InitialStream;
      KindGrows(InitialStream(buffered, source != null, stat), stream, data, zeros, false);
      Assoc(head, Payload(stream), data + Zeros(zeros));
      Assoc(start, stream.taken, data);
      stream := GrowSized(stream, data, zeros);
      nbytes := nbytes - filled - zeros;
      dataSize, dataOffset := filled + zeros, 0;
      assert body.Contents()[0..dataSize] == body.Contents()[..dataSize];
    }

    /** Builds the next chunk in the buffer, and the last chunk behind it once the file is closed. */
    method BufferChunk(dpr: Dpr) returns (offset: nat, end: nat, r: Dpr, ghost data: Bytes)
      requires Owned() && body != null && file != null && CHUNK_BUFFER <= body.dataLen
      modifies `file, body.data, file
      ensures Owned() && offset <= end <= body.dataLen && |data| <= 65536
      ensures body.Contents()[offset..end] == ChunkText(data) + (if file == null then LAST_CHUNK else [])
      ensures source.delivered == old(source.delivered) + data
      ensures file == null ==> source.ended || source.errored
      ensures data != [] ==> Fuel(source.script) < old(Fuel(source.script))
      ensures data == [] && file != null ==> end == 0 && AwaitsFile(dpr, r, file, old(TriesOf(file)))
      ensures TriedMore(old(file), old(TriesOf(file)))
      ensures data != [] || file == null ==> end > offset && r == dpr
    {
      var filled, blocked := ReadFile(CHUNK_START, CHUNK_LIMIT);
      r, data := dpr, body.Contents()[CHUNK_START..filled];
      offset, end := FrameLoaded(filled);
      if file == null {
        AppendLast(body, offset, end);
        end := end + 5;
      } else if end == 0 {
        r := dpr.(respState := AwaitRead, respFd := file.fd);
      }
    }

    /** What was read becomes a chunk. */
    method FrameLoaded(filled: nat) returns (offset: nat, end: nat)
      requires Owned() && body != null && CHUNK_BUFFER <= body.dataLen && CHUNK_START <= filled <= CHUNK_LIMIT
      modifies body.data
      ensures Owned() && offset <= end && end + 5 <= body.dataLen
      ensures body.Contents()[offset..end] == ChunkText(old(body.Contents())[CHUNK_START..filled])
      ensures body.Contents()[offset..end] + [] == body.Contents()[offset..end]
      ensures if filled == CHUNK_START then offset == end == 0 else end > offset
    {
      offset, end := 0, 0;
      if filled > CHUNK_START {
        offset := FrameChunk(body, filled);
        end := filled + 2;
      } else {
        assert body.Contents()[0..0] == [];
      }
      EmptyConcat(body.Contents()[offset..end]);
    }

    method CommitChunk(offset: nat, end: nat, ghost data: Bytes)
      requires Owned() && header == null && body != null && stream.InChunks? && !stream.closed && WellFormed(stream)
      requires Fits()
      requires sent == head + Payload(stream) && |data| < UINT_RANGE && offset <= end <= body.dataLen
      requires body.Contents()[offset..end] == ChunkText(data) + (if file == null then LAST_CHUNK else [])
      requires source != null && source.delivered == start + stream.taken + data
      requires file == null ==> source.ended || source.errored
      modifies `stream, `nbytes, `dataSize, `dataOffset
      ensures Valid() && stream == GrowChunks(old(stream), data, file == null)
      ensures nbytes == (if file == null then 0 else -1) && dataSize == end && dataOffset == offset
    {
      hide SameKind, InitialStream, Payload, WellFormed, ChunkText;
      ChunksGrow(stream, data, file == null);
      KindGrows(InitialStream(buffered, source != null, stat), stream, data, 0, file == null);
      Assoc(head, Payload(stream), body.Contents()[offset..end]);
      Assoc(start, stream.taken, data);
      stream := GrowChunks(stream, data, file == null);
      nbytes := if file == null then 0 else -1;
      dataSize, dataOffset := end, offset;
    }

    /** Chunked mode: the next chunk. */
    method FillChunked(dpr: Dpr) returns (r: Dpr)
      requires Drained() && stream.InChunks? && nbytes == -1
      modifies Repr
      ensures Valid() && fresh(Repr - old(Repr)) && FillKeeps(old(sent), old(header))
      ensures stream.InChunks? && stream.body == old(stream.body)
      ensures if dataSize == 0 then AwaitsFile(dpr, r, file, old(TriesOf(file))) else r == dpr
      ensures TriedMore(old(file), old(TriesOf(file)))
      ensures dataSize > 0 && nbytes != 0 ==> Fuel(source.script) < old(Fuel(source.script))
    {
      Reserve(CHUNK_BUFFER);
      var offset, end;
      ghost var data;
      offset, end, r, data := BufferChunk(dpr);
      CommitChunk(offset, end, data);
    }

    /** fillBuffer */
    method FillBuffer(dpr: Dpr) returns (r: Dpr)
      requires Drained() && nbytes != 0
      modifies Repr
      ensures Valid() && fresh(Repr - old(Repr)) && FillKeeps(old(sent), old(header))
      ensures SameKind(old(stream), stream)
      ensures if dataSize == 0 then AwaitsFile(dpr, r, file, old(TriesOf(file))) else r == dpr
      ensures TriedMore(old(file), old(TriesOf(file)))
      ensures dataSize > 0 ==> Work() < old(Work())
    {
      if nbytes >= 0 {
        r := FillSized(dpr);
      } else {
        r := FillChunked(dpr);
      }
    }

    /** Bounds the buffer loads still to come. */
    ghost function Work(): nat
      reads this, source
    {
      if nbytes >= 0 then nbytes else 1 + if source == null then 0 else Fuel(source.script)
    }

    /** Everything has been written: the whole stream, which is complete. */
    ghost predicate Finished()
      reads this
    {
      header == null && WellFormed(stream) && Complete(stream) && sent == head + Payload(stream)
    }

    /** The loop over the body: drains the buffer and fills it until nothing is left or something blocks. */
    method SendBody(socket: Sink, dpr: Dpr) returns (finished: bool, r: Dpr, ghost d: Bytes)
      requires Valid() && header == null && body != null && socket !in Repr && !dpr.closeConn
      modifies Repr, socket
      ensures Valid() && fresh(Repr - old(Repr)) && SameKind(old(stream), stream)
      ensures socket.written == old(socket.written) + d && sent == old(sent) + d
      ensures !finished ==> WaitsFor(dpr, r, socket, old(socket.tries), file, old(TriesOf(file)))
      ensures socket.tries >= old(socket.tries) && TriedMore(old(file), old(TriesOf(file)))
      ensures finished ==> r == dpr.(closeConn := r.closeConn) && (!r.closeConn ==> Finished())
      ensures r.closeConn ==> socket.broken
      ensures header == null
    {
      hide Payload, WellFormed, Complete;
      r, d := dpr, [];
      EmptyConcat(sent);
      EmptyConcat(socket.written);
      while true
        invariant Valid() && header == null && body != null && fresh(Repr - old(Repr)) && socket !in Repr
        invariant SameKind(old(stream), stream) && r == dpr
        invariant socket.tries >= old(socket.tries) && TriedMore(old(file), old(TriesOf(file)))
        invariant socket.written == old(socket.written) + d && sent == old(sent) + d
        decreases Work()
      {
        var o;
        ghost var more;
        o, more := SendBuffer(socket);
        Assoc(old(sent), d, more);
        Assoc(old(socket.written), d, more);
        d := d + more;
        if o.Blocked? {
          return false, dpr.(respState := AwaitWrite, respFd := socket.fd), d;
        }
        if o.Broken? {
          return true, dpr.(closeConn := true), d;
        }
        AllSent();
        if nbytes == 0 {
          return true, r, d;
        }
        r := FillBuffer(dpr);
        if dataSize == 0 {
          return false, r, d;
        }
      }
    }

    lemma AllSent()
      requires Valid() && header == null && body != null && dataOffset == dataSize
      ensures Drained() && (nbytes == 0 ==> Complete(stream))
    {
      assert body.Contents()[dataSize..dataSize] == [];
      EmptyConcat(sent);
    }

    /** rsndr_send */
    method Send(socket: Sink, dpr: Dpr) returns (finished: bool, r: Dpr, ghost d: Bytes)
      requires Valid() && socket !in Repr && !dpr.closeConn
      modifies Repr, socket
      ensures Valid() && fresh(Repr - old(Repr)) && SameKind(old(stream), stream)
      ensures socket.written == old(socket.written) + d && sent == old(sent) + d
      ensures !finished ==> WaitsFor(dpr, r, socket, old(socket.tries), file, old(TriesOf(file)))
      ensures socket.tries >= old(socket.tries) && TriedMore(old(file), old(TriesOf(file)))
      ensures finished ==> r == dpr.(closeConn := r.closeConn) && (!r.closeConn ==> Finished())
      ensures r.closeConn ==> socket.broken
    {
      hide Payload, WellFormed, Complete, Pending, FromFile, Left;
      d := [];
      EmptyConcat(sent);
      EmptyConcat(socket.written);
      if header != null {
        var o;
        o, d := SendHeader(socket);
        if o.Blocked? {
          return false, dpr.(respState := AwaitWrite, respFd := socket.fd), d;
        }
        if o.Broken? {
          return true, dpr.(closeConn := true), d;
        }
        DropHeader();
      }
      if body == null {
        NothingLeft();
        return true, dpr, d;
      }
      ghost var more;
      finished, r, more := SendBody(socket, dpr);
      Assoc(old(sent), d, more);
      Assoc(old(socket.written), d, more);
      d := d + more;
    }

    lemma NothingLeft()
      requires Valid() && header == null && body == null
      ensures Finished()
    {
      EmptyConcat(sent);
    }

    ghost predicate FillKeeps(sent0: Bytes, header0: MemBuf?)
      reads this
    {
      sent == sent0 && header == header0
    }
  }

  lemma SendPrefix(sent: Bytes, text: Bytes, from: nat, offset: nat, rest: Bytes)
    requires from <= offset <= |text|
    ensures sent + text[from..offset] + (text[offset..] + rest) == sent + (text[from..] + rest)
  {
    assert text[from..] == text[from..offset] + text[offset..];
  }

  lemma RangeOfPrefix(s: Bytes, n: nat, i: nat)
    requires i <= n <= |s|
    ensures s[..n][i..] == s[i..n]
  {
  }

  predicate SameKind(s: Stream, t: Stream) {
    match s
    case NoBody => t.NoBody?
    case Sized(body, size, _, _) => t.Sized? && t.body == body && t.size == size
    case InChunks(body, _, _, _) => t.InChunks? && t.body == body
  }

  lemma KindGrows(first: Stream, s: Stream, data: Bytes, zeros: nat, closing: bool)
    requires SameKind(first, s)
    ensures s.Sized? ==> SameKind(first, GrowSized(s, data, zeros))
    ensures s.InChunks? ==> SameKind(first, GrowChunks(s, data, closing))
  {
  }

  function GrowChunks(s: Stream, data: Bytes, closing: bool): Stream
    requires s.InChunks?
  {
    var t := if data == [] then s else AddChunk(s, data);
    t.(closed := closing)
  }

  lemma ChunksGrow(s: Stream, data: Bytes, closing: bool)
    requires s.InChunks? && !s.closed && WellFormed(s) && |data| < UINT_RANGE
    ensures WellFormed(GrowChunks(s, data, closing)) && GrowChunks(s, data, closing).taken == s.taken + data
    ensures Payload(GrowChunks(s, data, closing))
         == Payload(s) + (ChunkText(data) + (if closing then LAST_CHUNK else []))
  {
    var last := if closing then LAST_CHUNK else [];
    if data == [] {
      EmptyConcat(s.taken);
      EmptyConcat(last);
      EmptyConcat(PrintChunks(s.chunks));
    } else {
      AddChunkWellFormed(s, data);
      EmptyConcat(PrintChunks(s.chunks));
      EmptyConcat(PrintChunks(AddChunk(s, data).chunks));
      Assoc(PrintChunks(s.chunks), ChunkText(data), last);
    }
  }

  function GrowSized(s: Stream, data: Bytes, zeros: nat): Stream
    requires s.Sized?
  {
    s.(taken := s.taken + data, zeros := s.zeros + zeros)
  }

  /** More file bytes, which only come before any zeros, and then zeros. */
  lemma SizedGrows(s: Stream, data: Bytes, zeros: nat)
    requires s.Sized? && (data == [] || s.zeros == 0)
    ensures Payload(GrowSized(s, data, zeros)) == Payload(s) + (data + Zeros(zeros))
  {
    assert Zeros(s.zeros) + Zeros(zeros) == Zeros(s.zeros + zeros);
    if data == [] {
      EmptyConcat(s.taken);
      EmptyConcat(Zeros(zeros));
      Assoc(s.body + s.taken, Zeros(s.zeros), Zeros(zeros));
    } else {
      assert Zeros(0) == [];
      EmptyConcat(s.body + s.taken);
      Assoc(s.body, s.taken, data);
      Assoc(s.body + s.taken, data, Zeros(zeros));
    }
  }
}
