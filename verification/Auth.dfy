/** Digest verification of an Authorization value (src/auth.c). */
module Auth {
  import opened ByteStrings
  import opened Config
  import opened DataChunks
  import opened Md5
  import opened MemBufs
  import opened ParamLists

  // The parameters of the value that take part in verification; of repeated ones the last counts.
  datatype Fields = Fields(username: Bytes, nonce: Bytes, uri: Bytes, response: Bytes, nc: Bytes, cnonce: Bytes)

  const NO_FIELDS := Fields([], [], [], [], [], [])

  function Put(f: Fields, p: Param): Fields {
    if p.name == "username" then f.(username := p.value)
    else if p.name == "nonce" then f.(nonce := p.value)
    else if p.name == "uri" then f.(uri := p.value)
    else if p.name == "response" then f.(response := p.value)
    else if p.name == "nc" then f.(nc := p.value)
    else if p.name == "cnonce" then f.(cnonce := p.value)
    else f
  }

  predicate WrongRealm(p: Param) {
    p.name == "realm" && p.value != FM_REALM
  }

  /** The fields of a parameter list; None as soon as a realm is not ours. */
  function Collect(f: Fields, params: seq<Param>): Option<Fields>
    decreases |params|
  {
    if params == [] then Some(f)
    else if WrongRealm(params[0]) then None
    else Collect(Put(f, params[0]), params[1..])
  }

  function RequestHash(f: Fields, requestMethod: Bytes): Bytes {
    ProgramMd5(requestMethod + ":" + f.uri)
  }

  /** The response prescribed by section 3.2.2.1 of RFC 2617 for qop "auth". */
  function Prescribed(a1: Bytes, f: Fields, requestMethod: Bytes): Bytes {
    ProgramMd5(a1 + DigestTail(f, RequestHash(f, requestMethod)))
  }

  function DigestTail(f: Fields, requestHash: Bytes): Bytes {
    ":" + f.nonce + ":" + f.nc + ":" + f.cnonce + ":auth:" + requestHash
  }

  /** The scheme word of the value, and the parameters after it. */
  function Scheme(value: Bytes): Bytes {
    Word(TrimLeft(value))
  }

  function ParamsAfterScheme(value: Bytes): seq<Param> {
    ReadParams(TrimLeft(AfterWord(TrimLeft(value))), ',')
  }

  predicate FieldsAccepted(creds: seq<Bytes>, f: Fields, requestMethod: Bytes) {
    var a1 := Credential(creds, f.username);
    a1.Some? && f.response == Prescribed(a1.value, f, requestMethod)
  }

  predicate Authorized(creds: seq<Bytes>, value: Bytes, requestMethod: Bytes) {
    && EqualIgnoreCase(Scheme(value), "Digest")
    && var f := Collect(NO_FIELDS, ParamsAfterScheme(value));
       f.Some? && FieldsAccepted(creds, f.value, requestMethod)
  }

  method ReadFields(line: DataChunk) returns (f: Option<Fields>)
    requires line.Valid()
    modifies line
    ensures f == Collect(NO_FIELDS, ReadParams(old(line.Text()), ','))
  {
    var name := new DataChunk.Clear();
    var value := new DataChunk.Clear();
    var fields := NO_FIELDS;
    ghost var rest := line.Text();
    var found := line.ExtractParam(name, value, ',');
    while found
      invariant line.Valid() && name.Valid() && (found ==> value.Valid())
      invariant fresh(name) && fresh(value) && name != value && line != name && line != value
      invariant found == ReadParam(rest, ',').Some?
      invariant found ==> ReadParam(rest, ',').value == (Param(name.Text(), value.Text()), line.Text())
      invariant Collect(NO_FIELDS, ReadParams(old(line.Text()), ',')) == Collect(fields, ReadParams(rest, ','))
      decreases |rest|
    {
      var p := Param(name.Text(), value.Text());
      assert ReadParams(rest, ',') == [p] + ReadParams(line.Text(), ',');
      if WrongRealm(p) {
        return None;
      }
      fields := Put(fields, p);
      rest := line.Text();
      found := line.ExtractParam(name, value, ',');
    }
    f := Some(fields);
  }

  /** The buffer to digest: 32 bytes reserved for A1, then the rest. */
  method ReserveThenAppend(tail: Bytes) returns (response: MemBuf)
    ensures response.Valid() && fresh(response) && fresh(response.data)
    ensures response.dataLen == 32 + |tail| && response.Contents()[32..] == tail
  {
    response := new MemBuf();
    response.Resize(32);
    response.AppendData(tail);
  }

  /** Patches A1 into the reserved bytes and digests the whole. */
  method DigestPatched(response: MemBuf, a1: Bytes) returns (md5sum: Bytes)
    requires response.Valid() && response.dataLen >= 32 && |a1| == 32
    modifies response.data
    ensures md5sum == ProgramMd5(a1 + old(response.Contents())[32..])
  {
    ghost var tail := response.Contents()[32..];
    response.SetData(0, a1);
    assert response.Contents() == a1 + tail;
    md5sum := Md5Calculate(response.Contents());
  }

  method CheckResponse(creds: seq<Bytes>, f: Fields, requestMethod: Bytes) returns (res: bool)
    ensures res == FieldsAccepted(creds, f, requestMethod)
  {
    var requestHash := Md5Calculate(requestMethod + ":" + f.uri);
    var response := ReserveThenAppend(DigestTail(f, requestHash));
    var a1 := GetDigestAuthCredential(creds, f.username);
    CredentialLength(creds, f.username);
    res := false;
    if a1.Some? {
      var md5sum := DigestPatched(response, a1.value);
      res := f.response == md5sum;
    }
  }

  lemma {:induction false} CredentialLength(creds: seq<Bytes>, user: Bytes)
    ensures Credential(creds, user).Some? ==> |Credential(creds, user).value| == 32
  {
    if creds != [] && !IsFor(creds[0], user) {
      CredentialLength(creds[1..], user);
    }
  }

  /** auth_isClientAuthorized */
  method IsClientAuthorized(creds: seq<Bytes>, authorization: Bytes, requestMethod: Bytes) returns (res: bool)
    ensures res == Authorized(creds, authorization, requestMethod)
  {
    var line := new DataChunk(authorization);
    var name := new DataChunk.Clear();
    var found := line.ExtractTillWS(name);
    if !found || !EqualIgnoreCase(name.Text(), "Digest") {
      return false;
    }
    var f := ReadFields(line);
    if f.None? {
      return false;
    }
    res := CheckResponse(creds, f.value, requestMethod);
  }

  // ------------------------------------------------------------------------------------------------------
  // Completeness and soundness

  /** The value is that of the last parameter with this name, or the default when there is none. */
  predicate LastSays(params: seq<Param>, name: Bytes, default: Bytes, value: Bytes) {
    || (value == default && forall i :: 0 <= i < |params| ==> params[i].name != name)
    || exists i :: 0 <= i < |params| && params[i] == Param(name, value)
         && forall j :: i < j < |params| ==> params[j].name != name
  }

  // The six parameters by number, so that a statement about all of them is one statement.
  function Name(n: nat): Bytes {
    match n
    case 0 => "username" case 1 => "nonce" case 2 => "uri" case 3 => "response" case 4 => "nc" case _ => "cnonce"
  }

  function Get(f: Fields, n: nat): Bytes {
    match n
    case 0 => f.username case 1 => f.nonce case 2 => f.uri case 3 => f.response case 4 => f.nc case _ => f.cnonce
  }

  lemma GetPut(f: Fields, p: Param, n: nat)
    requires n < 6
    ensures Get(Put(f, p), n) == if p.name == Name(n) then p.value else Get(f, n)
  {
  }

  /**
   A Digest value as a client writes it: parameters in any order, bare or quoted, others in between. Of repeated ones
   the last counts; those missing are empty. No realm but ours is named.
   */
  predicate Writes(ws: seq<Written>, f: Fields) {
    var params := ParamsOf(ws);
    && (forall i :: 0 <= i < |ws| && ws[i].name == "realm" ==> ws[i].value == "File Manager")
    && LastSays(params, "username", "", f.username) && LastSays(params, "nonce", "", f.nonce)
    && LastSays(params, "uri", "", f.uri) && LastSays(params, "response", "", f.response)
    && LastSays(params, "nc", "", f.nc) && LastSays(params, "cnonce", "", f.cnonce)
  }

  /** The fields are f once these parameters were collected as well. */
  predicate Becomes(got: Fields, params: seq<Param>, f: Fields) {
    forall n: nat :: n < 6 ==> LastSays(params, Name(n), Get(got, n), Get(f, n))
  }

  lemma WritesAll(ws: seq<Written>, f: Fields)
    requires Writes(ws, f)
    ensures Becomes(NO_FIELDS, ParamsOf(ws), f)
  {
    hide LastSays;
    forall n: nat | n < 6 ensures LastSays(ParamsOf(ws), Name(n), Get(NO_FIELDS, n), Get(f, n)) {
      assert n == 0 || n == 1 || n == 2 || n == 3 || n == 4 || n == 5;
    }
  }

  lemma LastSaysRest(params: seq<Param>, name: Bytes, default: Bytes, value: Bytes)
    requires params != [] && LastSays(params, name, default, value)
    ensures LastSays(params[1..], name, if params[0].name == name then params[0].value else default, value)
  {
    if i :| 0 <= i < |params| && params[i] == Param(name, value)
              && forall j :: i < j < |params| ==> params[j].name != name {
      if i > 0 {
        assert params[1..][i - 1] == Param(name, value);
      }
    }
  }

  lemma BecomesRest(got: Fields, f: Fields, params: seq<Param>)
    requires params != [] && Becomes(got, params, f)
    ensures Becomes(Put(got, params[0]), params[1..], f)
  {
    hide LastSays;
    forall n: nat | n < 6 ensures LastSays(params[1..], Name(n), Get(Put(got, params[0]), n), Get(f, n)) {
      GetPut(got, params[0], n);
      LastSaysRest(params, Name(n), Get(got, n), Get(f, n));
    }
  }

  lemma EqualFields(a: Fields, b: Fields)
    requires forall n: nat :: n < 6 ==> Get(a, n) == Get(b, n)
    ensures a == b
  {
    assert Get(a, 0) == Get(b, 0) && Get(a, 1) == Get(b, 1) && Get(a, 2) == Get(b, 2);
    assert Get(a, 3) == Get(b, 3) && Get(a, 4) == Get(b, 4) && Get(a, 5) == Get(b, 5);
  }

  lemma {:induction false} CollectAgreeing(got: Fields, f: Fields, params: seq<Param>)
    requires Becomes(got, params, f)
    requires forall i :: 0 <= i < |params| ==> !WrongRealm(params[i])
    ensures Collect(got, params) == Some(f)
    decreases |params|
  {
    if params == [] {
      forall n: nat | n < 6 ensures Get(got, n) == Get(f, n) {
        assert LastSays(params, Name(n), Get(got, n), Get(f, n));
      }
      EqualFields(got, f);
    } else {
      BecomesRest(got, f, params);
      CollectAgreeing(Put(got, params[0]), f, params[1..]);
    }
  }

  /** The fields collected from a printed value are the client's. */
  lemma CollectWritten(ws: seq<Written>, f: Fields)
    requires Writes(ws, f)
    ensures Collect(NO_FIELDS, ParamsOf(ws)) == Some(f)
  {
    hide LastSays;
    WritesAll(ws, f);
    CollectAgreeing(NO_FIELDS, f, ParamsOf(ws));
  }

  /** An Authorization value: the scheme, blanks, and the parameter list. */
  function PrintDigest(scheme: Bytes, ws: seq<Written>, gap: Bytes): Bytes {
    scheme + " " + PrintParams(ws, gap, ',')
  }

  lemma SchemeOfPrinted(scheme: Bytes, list: Bytes)
    requires scheme != [] && forall i :: 0 <= i < |scheme| ==> !IsWs(scheme[i])
    ensures var value := scheme + " " + list;
            Scheme(value) == scheme && TrimLeft(AfterWord(TrimLeft(value))) == TrimLeft(list)
  {
    var value := scheme + " " + list;
    assert TrimLeft(value) == value;
    WordUnique(value, |scheme|);
    assert value[..|scheme|] == scheme;
    assert value[|scheme|..] == " " + list;
    assert (" " + list)[1..] == list;
  }

  /**
   Completeness and soundness: a value written with these fields is accepted exactly when its user has an account
   and its response is the prescribed digest of that account's A1, however the account is stored.
   */
  lemma AcceptedIff(accounts: seq<Account>, i: nat, ws: seq<Written>, gap: Bytes, scheme: Bytes, f: Fields,
                    requestMethod: Bytes)
    requires forall k :: 0 <= k < |accounts| ==> ':' !in accounts[k].user
    requires ':' !in f.username && i <= |accounts|
    requires forall k :: 0 <= k < i ==> accounts[k].user != f.username
    requires i < |accounts| ==> accounts[i].user == f.username
    requires EqualIgnoreCase(scheme, "Digest") && AllWs(gap)
    requires ws != [] && ws[0].name != [] && Writes(ws, f)
    requires forall k :: 0 <= k < |ws| ==> ValidParam(ws[k], ',')
    ensures Authorized(StoredAll(accounts), PrintDigest(scheme, ws, gap), requestMethod)
        <==> i < |accounts|
             && f.response == Prescribed(A1(f.username, accounts[i].password), f, requestMethod)
  {
    SchemeHasNoWs(scheme);
    var list := PrintParams(ws, gap, ',');
    SchemeOfPrinted(scheme, list);
    TrimmedRoundTrip(ws, gap, ',');
    CollectWritten(ws, f);
    CredentialOfAccount(accounts, f.username, i);
  }

  /** White space before the scheme does not matter. */
  lemma LeadingWs(creds: seq<Bytes>, gap: Bytes, value: Bytes, requestMethod: Bytes)
    requires AllWs(gap) && value != [] && value[0] !in " \t\n"
    ensures Authorized(creds, gap + value, requestMethod) <==> Authorized(creds, value, requestMethod)
  {
    hide EqualIgnoreCase, Collect, FieldsAccepted;
    TrimLeftGap(gap, value);
    assert TrimLeft(value) == value;
  }

  lemma {:induction false} CollectForeign(f: Fields, params: seq<Param>, i: nat)
    requires i < |params| && params[i].name == "realm" && params[i].value != "File Manager"
    ensures Collect(f, params) == None
    decreases i
  {
    if i > 0 {
      CollectForeign(Put(f, params[0]), params[1..], i - 1);
    }
  }

  /** A value that names another realm gives no access, whatever else it contains. */
  lemma ForeignRealmRefused(creds: seq<Bytes>, ws: seq<Written>, gap: Bytes, scheme: Bytes, requestMethod: Bytes,
                            i: nat)
    requires EqualIgnoreCase(scheme, "Digest") && AllWs(gap) && ws != [] && ws[0].name != []
    requires forall k :: 0 <= k < |ws| ==> ValidParam(ws[k], ',')
    requires i < |ws| && ws[i].name == "realm" && ws[i].value != "File Manager"
    ensures !Authorized(creds, PrintDigest(scheme, ws, gap), requestMethod)
  {
    SchemeHasNoWs(scheme);
    SchemeOfPrinted(scheme, PrintParams(ws, gap, ','));
    TrimmedRoundTrip(ws, gap, ',');
    CollectForeign(NO_FIELDS, ParamsOf(ws), i);
  }

  /** Another scheme gives no access. */
  lemma OtherSchemeRefused(creds: seq<Bytes>, scheme: Bytes, list: Bytes, requestMethod: Bytes)
    requires scheme != [] && forall i :: 0 <= i < |scheme| ==> scheme[i] !in " \t\n"
    requires !SameName(scheme, "Digest")
    ensures !Authorized(creds, scheme + " " + list, requestMethod)
  {
    hide EqualIgnoreCase, SameLetter, Collect, FieldsAccepted;
    assert forall i :: 0 <= i < |scheme| ==> !IsWs(scheme[i]);
    SchemeOfPrinted(scheme, list);
    CaseIgnored(scheme, "Digest");
  }

  predicate Short(m: Bytes) {
    |m| < 0x2000_0000
  }

  /** The response of section 3.2.2.1 of RFC 2617 for qop "auth", with MD5 as in RFC 1321. */
  function RfcResponse(password: Bytes, f: Fields, requestMethod: Bytes): Bytes {
    var ha1 := Md5Hex(f.username + ":" + "File Manager" + ":" + password);
    var ha2 := Md5Hex(requestMethod + ":" + f.uri);
    Md5Hex(ha1 + ":" + (f.nonce + ":" + (f.nc + ":" + (f.cnonce + ":" + ("auth" + ":" + ha2)))))
  }

  lemma TailOfResponse(ha1: Bytes, f: Fields, ha2: Bytes)
    ensures ha1 + DigestTail(f, ha2)
         == ha1 + ":" + (f.nonce + ":" + (f.nc + ":" + (f.cnonce + ":" + ("auth" + ":" + ha2))))
  {
  }

  predicate AllShort(password: Bytes, f: Fields, requestMethod: Bytes) {
    && Short(f.username + ":" + FM_REALM + ":" + password) && Short(requestMethod + ":" + f.uri)
    && |f.nonce| + |f.nc| + |f.cnonce| < 0x1FFF_FF00
  }

  lemma PrescribedIsRfc(password: Bytes, f: Fields, requestMethod: Bytes)
    requires AllShort(password, f, requestMethod)
    ensures Prescribed(A1(f.username, password), f, requestMethod) == RfcResponse(password, f, requestMethod)
  {
    hide Md5Hex, ProgramMd5;
    var a1, hash := A1(f.username, password), RequestHash(f, requestMethod);
    ProgramIsMd5(f.username + ":" + FM_REALM + ":" + password);
    ProgramIsMd5(requestMethod + ":" + f.uri);
    assert |DigestTail(f, hash)| == |f.nonce| + |f.nc| + |f.cnonce| + 41;
    TailOfResponse(a1, f, hash);
    ProgramIsMd5(a1 + DigestTail(f, hash));
  }

  /** With texts of fewer than 2^29 bytes, the user's account gives access with exactly the response of the RFC. */
  lemma AcceptedIffRfc(accounts: seq<Account>, i: nat, ws: seq<Written>, gap: Bytes, scheme: Bytes, f: Fields,
                       requestMethod: Bytes)
    requires forall k :: 0 <= k < |accounts| ==> ':' !in accounts[k].user
    requires ':' !in f.username && i <= |accounts|
    requires forall k :: 0 <= k < i ==> accounts[k].user != f.username
    requires i < |accounts| ==> accounts[i].user == f.username && AllShort(accounts[i].password, f, requestMethod)
    requires EqualIgnoreCase(scheme, "Digest") && AllWs(gap)
    requires ws != [] && ws[0].name != [] && Writes(ws, f)
    requires forall k :: 0 <= k < |ws| ==> ValidParam(ws[k], ',')
    ensures Authorized(StoredAll(accounts), PrintDigest(scheme, ws, gap), requestMethod)
        <==> i < |accounts| && f.response == RfcResponse(accounts[i].password, f, requestMethod)
  {
    hide Authorized, Writes, Prescribed, RfcResponse, AllShort, ValidParam, EqualIgnoreCase;
    AcceptedIff(accounts, i, ws, gap, scheme, f, requestMethod);
    if i < |accounts| {
      PrescribedIsRfc(accounts[i].password, f, requestMethod);
    }
  }

  lemma SchemeHasNoWs(scheme: Bytes)
    requires EqualIgnoreCase(scheme, "Digest")
    ensures scheme != [] && forall i :: 0 <= i < |scheme| ==> !IsWs(scheme[i])
  {
    forall i | 0 <= i < |scheme| ensures !IsWs(scheme[i]) {
      assert Lower(scheme[i]) == Lower("Digest"[i]);
    }
  }
}
