/** The part of the file manager that takes a request body (src/filemanager.c): it is parsed as multipart/form-data. */
module FileManagers {
  import opened ByteStrings
  import opened DataChunks
  import opened MultipartParser
  import Multipart
  import ParamLists

  /** Of repeated boundary parameters the last counts. */
  function LastBoundary(b: Option<Bytes>, params: seq<Param>): Option<Bytes>
    decreases |params|
  {
    if params == [] then b
    else LastBoundary(if EqualIgnoreCase(params[0].name, "boundary") then Some(params[0].value) else b, params[1..])
  }

  /** The boundary that a Content-Type of multipart/form-data announces. */
  function Boundary(contentType: Option<Bytes>): Option<Bytes> {
    if contentType.None? || TrimRight(Till(contentType.value, ';')) != "multipart/form-data" then None
    else LastBoundary(None, ReadParams(TrimLeft(After(contentType.value, ';')), ';'))
  }

  /** A Content-Type of multipart/form-data as a client writes it. */
  function FormType(ws: seq<ParamLists.Written>, gap: Bytes): Bytes {
    "multipart/form-data" + ";" + ParamLists.PrintParams(ws, gap, ';')
  }

  /** Parameter i is the last one named "boundary", in any case. */
  predicate IsBoundary(ws: seq<ParamLists.Written>, i: nat) {
    && i < |ws| && EqualIgnoreCase(ws[i].name, "boundary")
    && forall j :: i < j < |ws| ==> !EqualIgnoreCase(ws[j].name, "boundary")
  }

  lemma {:induction false} NoneLater(b: Option<Bytes>, params: seq<Param>)
    requires forall j :: 0 <= j < |params| ==> !EqualIgnoreCase(params[j].name, "boundary")
    ensures LastBoundary(b, params) == b
    decreases |params|
  {
    if params != [] {
      NoneLater(b, params[1..]);
    }
  }

  lemma {:induction false} LastOfParams(b: Option<Bytes>, params: seq<Param>, i: nat)
    requires i < |params| && EqualIgnoreCase(params[i].name, "boundary")
    requires forall j :: i < j < |params| ==> !EqualIgnoreCase(params[j].name, "boundary")
    ensures LastBoundary(b, params) == Some(params[i].value)
    decreases i
  {
    if i == 0 {
      NoneLater(Some(params[0].value), params[1..]);
    } else {
      var b' := if EqualIgnoreCase(params[0].name, "boundary") then Some(params[0].value) else b;
      LastOfParams(b', params[1..], i - 1);
    }
  }

  /** The last parameter named "boundary" that was written is the boundary; without one there is none. */
  lemma BoundaryRoundTrip(ws: seq<ParamLists.Written>, gap: Bytes, i: nat)
    requires ws != [] && ws[0].name != [] && forall k :: 0 <= k < |ws| ==> ParamLists.ValidParam(ws[k], ';')
    requires ParamLists.AllWs(gap)
    ensures IsBoundary(ws, i) ==> Boundary(Some(FormType(ws, gap))) == Some(ws[i].value)
    ensures (forall k :: 0 <= k < |ws| ==> !EqualIgnoreCase(ws[k].name, "boundary")) ==>
      Boundary(Some(FormType(ws, gap))) == None
  {
    hide EqualIgnoreCase;
    var params := ParamLists.ParamsOf(ws);
    assert forall k :: 0 <= k < |ws| ==> params[k].name == ws[k].name && params[k].value == ws[k].value;
    ScannedBoundary(ws, gap);
    if IsBoundary(ws, i) {
      LastOfParams(None, params, i);
    } else if forall k :: 0 <= k < |ws| ==> !EqualIgnoreCase(ws[k].name, "boundary") {
      NoneLater(None, params);
    }
  }

  /** Any other type announces no boundary. */
  lemma OtherTypes(contentType: Bytes)
    requires !("multipart/form-data" <= contentType)
    ensures Boundary(Some(contentType)) == None
  {
    var name := TrimRight(Till(contentType, ';'));
    assert name <= contentType;
  }

  lemma ScannedBoundary(ws: seq<ParamLists.Written>, gap: Bytes)
    requires ws != [] && ws[0].name != [] && forall i :: 0 <= i < |ws| ==> ParamLists.ValidParam(ws[i], ';')
    requires ParamLists.AllWs(gap)
    ensures Boundary(Some(FormType(ws, gap))) == LastBoundary(None, ParamLists.ParamsOf(ws))
  {
    hide ReadParams, LastBoundary, ParamLists.PrintParams;
    var name: Bytes := "multipart/form-data";
    ParamLists.IndexAfter(name, ';', ParamLists.PrintParams(ws, gap, ';'));
    assert TrimRight(name) == name;
    ParamLists.TrimmedRoundTrip(ws, gap, ';');
  }

  method ReadBoundary(line: DataChunk) returns (b: Option<Bytes>)
    requires line.Valid()
    modifies line
    ensures b == LastBoundary(None, ReadParams(old(line.Text()), ';'))
  {
    var name := new DataChunk.Clear();
    var value := new DataChunk.Clear();
    b := None;
    ghost var rest := line.Text();
    var found := line.ExtractParam(name, value, ';');
    while found
      invariant line.Valid() && name.Valid() && (found ==> value.Valid())
      invariant fresh(name) && fresh(value) && name != value && line != name && line != value
      invariant found == ReadParam(rest, ';').Some?
      invariant found ==> ReadParam(rest, ';').value == (Param(name.Text(), value.Text()), line.Text())
      invariant LastBoundary(None, ReadParams(old(line.Text()), ';')) == LastBoundary(b, ReadParams(rest, ';'))
      decreases |rest|
    {
      assert ReadParams(rest, ';') == [Param(name.Text(), value.Text())] + ReadParams(line.Text(), ';');
      if EqualIgnoreCase(name.Text(), "boundary") {
        b := Some(value.Text());
      }
      rest := line.Text();
      found := line.ExtractParam(name, value, ';');
    }
  }

  method FindBoundary(contentType: Option<Bytes>) returns (b: Option<Bytes>)
    ensures b == Boundary(contentType)
  {
    if contentType.None? {
      return None;
    }
    var line := new DataChunk(contentType.value);
    var name := new DataChunk.Clear();
    var found := line.ExtractTillChr(name, ';');
    if found {
      line.SkipLeadingWS();
      name.TrimTrailingWS();
    }
    b := None;
    if name.Text() == "multipart/form-data" {
      b := ReadBoundary(line);
    }
  }

  class FileManager {
    ghost const contentType: Option<Bytes>   // of the request
    var body: MultipartData?
    ghost var received: Bytes      // all body bytes
    ghost var Repr: set<object>

    ghost predicate Valid()
      reads this, Repr
    {
      && this in Repr
      && (body != null <==> Boundary(contentType).Some? && '\r' !in Boundary(contentType).value)
      && (body != null ==>
            && body.delim == Multipart.Delimiter(Boundary(contentType).value)
            && body in Repr && body.list in Repr && body.Repr() <= Repr && this !in body.Repr()
            && body.Valid() && Flatten(body.pieces) == received)
    }

    /** filemgr_new */
    constructor (contentType: Option<Bytes>, destDir: Option<Bytes>)
      ensures Valid() && received == [] && fresh(Repr) && this.contentType == contentType
    {
      var b := FindBoundary(contentType);
      this.contentType := contentType;
      received := [];
      if b.Some? && '\r' !in b.value {
        var parser := new MultipartData(b.value, destDir);
        body, Repr := parser, {this} + parser.Repr();
      } else {
        body, Repr := null, {this};
      }
    }

    /** filemgr_consumeBodyBytes */
    method ConsumeBodyBytes(data: Bytes)
      requires Valid()
      modifies Repr
      ensures Valid() && fresh(Repr - old(Repr)) && received == old(received) + data && body == old(body)
    {
      if body != null {
        FlattenSnoc(body.pieces, data);
        body.AppendData(data);
        Repr := Repr + body.Repr();
      }
      received := received + data;
    }
  }
}
