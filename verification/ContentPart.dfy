/** One part of a multipart body: its header, then its content in memory or in a file (src/contentpart.c). */
module ContentParts {
  import opened ByteStrings
  import opened DataChunks
  import opened DataHeaders
  import opened Descriptors
  import opened HeaderBlock
  import opened MemBufs

  // What the parameters of Content-Disposition say.
  datatype Naming = Naming(name: Option<Bytes>, fileName: Option<Bytes>)

  function PutName(n: Naming, p: Param): Naming {
    if EqualIgnoreCase(p.name, "name") then n.(name := Some(p.value))
    else if EqualIgnoreCase(p.name, "filename") && p.value != [] then n.(fileName := Some(p.value))
    else n
  }

  /** Of repeated parameters the last counts. */
  function CollectNames(n: Naming, params: seq<Param>): Naming
    decreases |params|
  {
    if params == [] then n else CollectNames(PutName(n, params[0]), params[1..])
  }

  predicate NoFileName(params: seq<Param>) {
    forall j :: 0 <= j < |params| && params[j].value != [] ==> !SameName(params[j].name, "filename")
  }

  lemma {:induction false} NamesStay(n: Naming, params: seq<Param>)
    ensures (forall j :: 0 <= j < |params| ==> !SameName(params[j].name, "name")) ==>
      CollectNames(n, params).name == n.name
    ensures NoFileName(params) ==> CollectNames(n, params).fileName == n.fileName
    decreases |params|
  {
    hide EqualIgnoreCase, SameName;
    if params != [] {
      SameNames(params[0].name);
      NamesStay(PutName(n, params[0]), params[1..]);
    }
  }

  lemma SameNames(a: Bytes)
    ensures SameName(a, "name") <==> EqualIgnoreCase(a, "name")
    ensures SameName(a, "filename") <==> EqualIgnoreCase(a, "filename")
    ensures !(SameName(a, "name") && SameName(a, "filename"))
  {
    hide SameLetter, EqualIgnoreCase;
    CaseIgnored(a, "name");
    CaseIgnored(a, "filename");
  }

  /** The last parameter called "name", in any case, gives the name; the last "filename" that is not empty the other. */
  lemma {:induction false} LastNames(n: Naming, params: seq<Param>, i: nat)
    requires i < |params|
    ensures SameName(params[i].name, "name") && (forall j :: i < j < |params| ==> !SameName(params[j].name, "name")) ==>
      CollectNames(n, params).name == Some(params[i].value)
    ensures SameName(params[i].name, "filename") && params[i].value != [] && NoFileName(params[i + 1..]) ==>
      CollectNames(n, params).fileName == Some(params[i].value)
    decreases |params|
  {
    hide EqualIgnoreCase, SameName;
    SameNames(params[0].name);
    if i == 0 {
      NamesStay(PutName(n, params[0]), params[1..]);
    } else {
      LastNames(PutName(n, params[0]), params[1..], i - 1);
    }
  }

  function NamingFrom(disposition: Option<Bytes>): Naming {
    if disposition.None? || ';' !in disposition.value then Naming(None, None)
    else CollectNames(Naming(None, None), ReadParams(After(disposition.value, ';'), ';'))
  }

  function NamingOf(fields: seq<Field>): Naming {
    NamingFrom(Lookup(fields, "Content-Disposition"))
  }

  method ReadNaming(disposition: Option<Bytes>) returns (n: Naming)
    ensures n == NamingFrom(disposition)
  {
    n := Naming(None, None);
    if disposition.Some? {
      var line := new DataChunk(disposition.value);
      var found := line.ShiftAfterChr(';');
      if found {
        n := ReadNames(line);
      }
    }
  }

  method ReadNames(line: DataChunk) returns (n: Naming)
    requires line.Valid()
    modifies line
    ensures n == CollectNames(Naming(None, None), ReadParams(old(line.Text()), ';'))
  {
    var name := new DataChunk.Clear();
    var value := new DataChunk.Clear();
    n := Naming(None, None);
    ghost var rest := line.Text();
    var found := line.ExtractParam(name, value, ';');
    while found
      invariant line.Valid() && name.Valid() && (found ==> value.Valid())
      invariant fresh(name) && fresh(value) && name != value && line != name && line != value
      invariant found == ReadParam(rest, ';').Some?
      invariant found ==> ReadParam(rest, ';').value == (Param(name.Text(), value.Text()), line.Text())
      invariant CollectNames(Naming(None, None), ReadParams(old(line.Text()), ';'))
             == CollectNames(n, ReadParams(rest, ';'))
      decreases |rest|
    {
      var p := Param(name.Text(), value.Text());
      assert ReadParams(rest, ';') == [p] + ReadParams(line.Text(), ';');
      n := PutName(n, p);
      rest := line.Text();
      found := line.ExtractParam(name, value, ';');
    }
  }

  // The meaning of the bytes a part has received.
  datatype Part = InHeader(h: Head) | InBody(naming: Naming, body: Bytes)

  function PartOf(bytes: Bytes): Part {
    var e := End(NEW_BLOCK, bytes);
    if e < 0 then InHeader(Run(NEW_BLOCK, bytes))
    else
      EndIsClean(NEW_BLOCK, bytes);
      InBody(NamingOf(Run(NEW_BLOCK, bytes[..e]).fields), bytes[e..])
  }

  lemma PartInHeader(fed: Bytes, data: Bytes)
    requires PartOf(fed).InHeader?
    ensures var h := PartOf(fed).h;
      && (End(h, data) < 0 ==> PartOf(fed + data) == InHeader(Run(h, data)))
      && (End(h, data) >= 0 ==> Run(h, data[..End(h, data)]).Head?)
      && (End(h, data) >= 0 ==>
            PartOf(fed + data) == InBody(NamingOf(Run(h, data[..End(h, data)]).fields), data[End(h, data)..]))
  {
    hide Run, NamingOf;
    var h := PartOf(fed).h;
    EndConcat(NEW_BLOCK, fed, data);
    RunConcat(NEW_BLOCK, fed, data);
    var n := End(h, data);
    if n >= 0 {
      EndIsClean(h, data);
      assert (fed + data)[..|fed| + n] == fed + data[..n];
      assert (fed + data)[|fed| + n..] == data[n..];
      RunConcat(NEW_BLOCK, fed, data[..n]);
    }
  }

  /** The part after its header object took what it could of the data. */
  lemma PartAfterHeader(fed: Bytes, data: Bytes, used: int, h: Head)
    requires PartOf(fed).InHeader? && -1 <= used <= |data|
    requires h == Run(PartOf(fed).h, if used < 0 then data else data[..used])
    requires End(PartOf(fed).h, data) == if h.Head? then used else -1
    ensures used < 0 ==> PartOf(fed + data) == InHeader(h)
    ensures used >= 0 && h.Head? ==> PartOf(fed + data) == InBody(NamingOf(h.fields), data[used..])
    ensures h.Garbled? ==> IsGarbled(PartOf(fed + data))
  {
    hide Run, End, NamingOf;
    PartInHeader(fed, data);
    if used >= 0 {
      RunOn(PartOf(fed).h, data, used, |data|);
      assert data[..|data|] == data;
    }
  }

  lemma PartInBody(fed: Bytes, data: Bytes)
    requires PartOf(fed).InBody?
    ensures PartOf(fed + data) == PartOf(fed).(body := PartOf(fed).body + data)
  {
    var e := End(NEW_BLOCK, fed);
    EndConcat(NEW_BLOCK, fed, data);
    assert (fed + data)[..e] == fed[..e];
    assert (fed + data)[e..] == fed[e..] + data;
  }

  /** A part whose header contains a NUL byte. */
  predicate IsGarbled(p: Part) {
    p.InHeader? && p.h.Garbled?
  }

  /** The bytes are a part of that name. */
  predicate IsNamed(bytes: Bytes, name: Bytes) {
    PartOf(bytes).InBody? && PartOf(bytes).naming.name == Some(name)
  }

  /** The first part of that name among parts given by their bytes. */
  function FirstPart(parts: seq<Bytes>, name: Bytes): Option<Bytes> {
    if parts == [] then None
    else
      var n := |parts| - 1;
      var r := FirstPart(parts[..n], name);
      if r.Some? then r else if IsNamed(parts[n], name) then Some(parts[n]) else None
  }

  predicate AllClean(parts: seq<Bytes>) {
    forall i :: 0 <= i < |parts| ==> !IsGarbled(PartOf(parts[i]))
  }

  class ContentPart {
    const header: DataHeader
    const destDir: Option<Bytes>
    var name: Option<Bytes>
    var fileName: Option<Bytes>
    var fileDesc: Sink?
    var failed: bool            // sysErrNo is set
    var body: MemBuf?
    ghost var fed: Bytes        // all bytes received
    ghost var Repr: set<object>

    predicate HeaderDone()
      reads this
    {
      fileName.Some? || body != null
    }

    ghost predicate Owned()
      reads this, Repr
    {
      && this in Repr && header in Repr
      && (body != null ==> body in Repr && body.data in Repr && body.Valid())
      && (fileDesc != null ==> fileDesc in Repr)
    }

    ghost predicate Valid()
      reads this, Repr
      ensures Valid() ==> this in Repr
    {
      && Owned() && header.Valid()
      && (body != null ==> fileName.None?)
      && (!HeaderDone() ==> fileDesc == null && name == None && PartOf(fed) == InHeader(header.h))
      && (!IsGarbled(PartOf(fed)) ==> Means(PartOf(fed)))
    }

    /** The fields are what the bytes received so far mean. */
    ghost predicate Means(p: Part)
      requires Owned()
      reads this, Repr
    {
      match p
      case InHeader(h) => !HeaderDone()
      case InBody(naming, content) =>
        && HeaderDone() && naming == Naming(name, fileName)
        && (fileName.None? ==> body.Contents() == content)
        && (fileName.Some? && fileDesc != null ==> fileDesc.written == content)
    }

    constructor (destDir: Option<Bytes>)
      ensures Valid() && fed == [] && fresh(Repr)
    {
      header := new DataHeader();
      this.destDir := destDir;
      name, fileName, fileDesc, failed, body, fed := None, None, null, false, null, [];
      Repr := {this, header};
    }

    /** The header is complete: reads the names, and opens a file or a buffer for the content. */
    method FinishHeader()
      requires header.Valid() && !HeaderDone() && fileDesc == null
      modifies this
      ensures HeaderDone() && fed == old(fed) && Repr == old(Repr)
      ensures header.h.Head? ==> Naming(name, fileName) == NamingOf(header.h.fields)
      ensures fileName.Some? ==> body == null && (fileDesc != null ==> fresh(fileDesc) && fileDesc.written == [])
      ensures fileDesc != null ==> destDir.Some?
      ensures fileName.None? ==>
        fileDesc == null && body != null && fresh(body) && fresh(body.data) && body.Valid() && body.Contents() == []
    {
      hide Lookup, CollectNames, ReadParams;
      var contentDisp := header.GetHeaderVal("Content-Disposition");
      var n := ReadNaming(contentDisp);
      name, fileName := n.name, n.fileName;
      if fileName.Some? {
        if destDir.Some? {
          var granted: bool := *;
          if granted {
            var script: seq<WriteEvent> := *;
            fileDesc := new Sink(0, script);
          } else {
            failed := true;
          }
        }
      } else {
        body := new MemBuf();
      }
    }

    /** Content bytes: to the file, which is removed when a write fails, or to the buffer. */
    method Store(bytes: Bytes)
      requires HeaderDone() && (body != null ==> body.Valid() && fileName.None?)
      modifies this`fileDesc, this`failed, body, fileDesc
      ensures body != null ==>
        body.Valid() && body.Contents() == old(if body == null then [] else body.Contents()) + bytes
        && fresh(body.data)
      ensures fileDesc == old(fileDesc) || (fileDesc == null && failed)
      ensures fileName.Some? && fileDesc != null ==>
        fileDesc.written == old(if fileDesc == null then [] else fileDesc.written) + bytes
    {
      if fileName.Some? {
        var offset := 0;
        ghost var start := if fileDesc == null then [] else fileDesc.written;
        assert bytes[..0] == [];
        while fileDesc != null && offset < |bytes|
          invariant 0 <= offset <= |bytes| && (fileDesc == old(fileDesc) || (fileDesc == null && failed))
          invariant fileDesc != null ==> fileDesc.written == start + bytes[..offset]
          decreases |bytes| - offset, fileDesc != null
        {
          var wr := fileDesc.Write(bytes[offset..]);
          if wr.Wrote? {
            assert bytes[..offset] + bytes[offset..][..wr.count] == bytes[..offset + wr.count];
            Assoc(start, bytes[..offset], bytes[offset..][..wr.count]);
            offset := offset + wr.count;
          } else {
            failed, fileDesc := true, null;
          }
        }
        assert bytes[..|bytes|] == bytes;
      } else {
        body.AppendData(bytes);
      }
    }

    /** cpart_nameEquals */
    predicate NameEquals(n: Bytes)
      reads `name
    {
      name == Some(n)
    }

    lemma NameIsMeant(n: Bytes)
      requires Valid() && !IsGarbled(PartOf(fed))
      ensures NameEquals(n) <==> IsNamed(fed, n)
    {
    }

    /** cpart_appendData */
    method AppendData(data: Bytes)
      requires Valid()
      modifies Repr
      ensures Valid() && fed == old(fed) + data && fresh(Repr - old(Repr))
    {
      if HeaderDone() {
        AppendContent(data);
      } else {
        AppendHeader(data);
      }
    }

    method AppendContent(data: Bytes)
      requires Valid() && HeaderDone()
      modifies Repr
      ensures Valid() && fed == old(fed) + data && fresh(Repr - old(Repr))
    {
      hide Run, End, NamingOf;
      if !IsGarbled(PartOf(fed)) {
        PartInBody(fed, data);
      } else {
        PartInHeader(fed, data);
        RunGarbled(data);
      }
      Store(data);
      fed := fed + data;
      Repr := Repr + (if body == null then {} else {body, body.data}) + (if fileDesc == null then {} else {fileDesc});
    }

    method AppendHeader(data: Bytes)
      requires Valid() && !HeaderDone()
      modifies Repr
      ensures Valid() && fed == old(fed) + data && fresh(Repr - old(Repr))
    {
      hide Run, End, NamingOf;
      var offset := header.AppendData(data);
      PartAfterHeader(fed, data, offset, header.h);
      if offset >= 0 {
        FinishHeader();
        Store(data[offset..]);
      }
      fed := fed + data;
      Repr := Repr + (if body == null then {} else {body, body.data}) + (if fileDesc == null then {} else {fileDesc});
    }
  }
}
