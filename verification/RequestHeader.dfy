/** The request header, collected in pieces; also takes the trailer of a chunked body (src/requestheader.c). */
module RequestHeaders {
  import opened ByteStrings
  import opened HeaderBlock
  import opened StartLines
  import Auth
  import Config
  import ParamLists

  datatype LoginState = LoggedOut | LoggedIn | LoginFail

  /** The first Authorization field decides. */
  function LoginOf(creds: seq<Bytes>, verb: Bytes, fields: seq<Field>): LoginState {
    var i := FirstNamed(fields, "Authorization");
    if i == |fields| then LoggedOut
    else if Auth.Authorized(creds, fields[i].value, verb) then LoggedIn
    else LoginFail
  }

  /** The login state is what the first Authorization field says: logged in exactly when its value gives access. */
  lemma LoginMeaning(creds: seq<Bytes>, verb: Bytes, fields: seq<Field>, i: nat)
    requires i <= |fields| && forall j :: 0 <= j < i ==> !SameName(fields[j].name, "Authorization")
    requires i < |fields| ==> SameName(fields[i].name, "Authorization")
    ensures i == |fields| ==> LoginOf(creds, verb, fields) == LoggedOut
    ensures i < |fields| ==>
      && (LoginOf(creds, verb, fields) == LoggedIn <==> Auth.Authorized(creds, fields[i].value, verb))
      && (LoginOf(creds, verb, fields) == LoginFail <==> !Auth.Authorized(creds, fields[i].value, verb))
  {
    hide EqualIgnoreCase, SameName, Auth.Authorized;
    forall j | 0 <= j < |fields|
      ensures EqualIgnoreCase(fields[j].name, "Authorization") <==> SameName(fields[j].name, "Authorization")
    {
      SameAsEqual(fields[j].name);
    }
    FirstNamedUnique(fields, "Authorization", i);
  }

  lemma SameAsEqual(name: Bytes)
    ensures EqualIgnoreCase(name, "Authorization") <==> SameName(name, "Authorization")
  {
    hide EqualIgnoreCase, SameLetter;
    CaseIgnored(name, "Authorization");
  }

  /**
   A request whose first Authorization field was written for these credentials is logged in exactly with the response
   that RFC 2617 prescribes for the user's account; else the login has failed.
   */
  lemma LoginIffRfc(accounts: seq<Config.Account>, k: nat, ws: seq<ParamLists.Written>, gap: Bytes, scheme: Bytes,
                    f: Auth.Fields, verb: Bytes, fields: seq<Field>, i: nat)
    requires forall j :: 0 <= j < |accounts| ==> ':' !in accounts[j].user
    requires ':' !in f.username && k <= |accounts|
    requires forall j :: 0 <= j < k ==> accounts[j].user != f.username
    requires k < |accounts| ==> accounts[k].user == f.username && Auth.AllShort(accounts[k].password, f, verb)
    requires EqualIgnoreCase(scheme, "Digest") && ParamLists.AllWs(gap)
    requires ws != [] && ws[0].name != [] && Auth.Writes(ws, f)
    requires forall j :: 0 <= j < |ws| ==> ParamLists.ValidParam(ws[j], ',')
    requires i < |fields| && SameName(fields[i].name, "Authorization")
    requires forall j :: 0 <= j < i ==> !SameName(fields[j].name, "Authorization")
    requires fields[i].value == " " + Auth.PrintDigest(scheme, ws, gap)
    ensures LoginOf(Config.StoredAll(accounts), verb, fields) ==
      if k < |accounts| && f.response == Auth.RfcResponse(accounts[k].password, f, verb) then LoggedIn else LoginFail
  {
    hide Auth.Authorized, Auth.Writes, Auth.RfcResponse, Auth.AllShort, ParamLists.ValidParam, EqualIgnoreCase;
    hide SameName;
    hide LoginOf;
    var creds := Config.StoredAll(accounts);
    Auth.AcceptedIffRfc(accounts, k, ws, gap, scheme, f, verb);
    StartsPlain(scheme, ws, gap);
    Auth.LeadingWs(creds, " ", Auth.PrintDigest(scheme, ws, gap), verb);
    LoginMeaning(creds, verb, fields, i);
  }

  lemma StartsPlain(scheme: Bytes, ws: seq<ParamLists.Written>, gap: Bytes)
    requires EqualIgnoreCase(scheme, "Digest")
    ensures var value := Auth.PrintDigest(scheme, ws, gap); value != [] && value[0] !in " \t\n"
  {
    hide ParamLists.PrintParams;
    assert Lower(scheme[0]) == 'd';
    assert Auth.PrintDigest(scheme, ws, gap)[0] == scheme[0];
  }

  function LoginAfter(creds: seq<Bytes>, verb: Bytes, before: LoginState, f: Field): LoginState {
    if before == LoggedOut && EqualIgnoreCase(f.name, "Authorization")
    then (if Auth.Authorized(creds, f.value, verb) then LoggedIn else LoginFail)
    else before
  }

  lemma LoginSnoc(creds: seq<Bytes>, verb: Bytes, fields: seq<Field>, f: Field)
    ensures LoginOf(creds, verb, fields + [f]) == LoginAfter(creds, verb, LoginOf(creds, verb, fields), f)
  {
    FirstNamedSnoc(fields, f, "Authorization");
  }

  /** The buffer of a split request line and the pointers into it read as the parts of the line. */
  predicate Reads(request: Bytes, path: Ptr, query: Ptr, version: Ptr, line: StartLine) {
    && PtrInside(path, |request|) && PtrInside(query, |request|) && PtrInside(version, |request|)
    && CStr(request) == line.verb && Deref(request, path) == Some(line.path)
    && Deref(request, query) == line.query && Deref(request, version) == Some(line.version)
  }

  class RequestHeader {
    const creds: seq<Bytes>          // the configured credentials
    var request: Bytes               // buffer of the request line, with NULs written between its parts
    var path: Ptr
    var query: Ptr
    var version: Ptr
    var headers: seq<Field>
    var hasRequestLine: bool         // headerCount is no longer -1
    var cur: Bytes                   // buffer of the incomplete line
    var loginState: LoginState
    ghost var h: Head                // what the bytes so far mean

    ghost predicate Valid()
      reads this
    {
      && LineStored()
      && (h.Head? ==>
        && hasRequestLine == h.start.Some? && cur == h.cur && NulFree(cur) && headers == h.fields
        && (h.start.Some? ==>
              && Reads(request, path, query, version, Parse(h.start.value))
              && loginState == LoginOf(creds, CStr(request), headers))
        && (h.start.None? ==> loginState == LoggedOut && headers == []))
    }

    ghost predicate LineStored()
      reads `request, `path, `version
    {
      PtrInside(path, |request|) && PtrInside(version, |request|)
    }

    constructor (credentials: seq<Bytes>)
      ensures Valid() && h == NEW_REQUEST && creds == credentials && headers == [] && !hasRequestLine
    {
      creds := credentials;
      request, path, query, version := [], Null, Null, Literal("");
      headers, hasRequestLine, cur, loginState, h := [], false, [], LoggedOut, NEW_REQUEST;
    }

    function GetMethod(): Bytes
      reads `request
    {
      CStr(request)
    }

    function GetPath(): Bytes
      reads `request, `path
      requires PtrInside(path, |request|)
    {
      Deref(request, path).GetOr("")
    }

    function GetVersion(): Bytes
      reads `request, `version
      requires PtrInside(version, |request|)
    {
      Deref(request, version).GetOr("")
    }

    /** Splits a complete request line in its buffer. */
    method StoreRequestLine(text: Bytes)
      modifies this`request, this`path, this`query, this`version
      ensures Reads(request, path, query, version, Parse(CStr(text)))
    {
      ghost var line := CStr(text);
      var n := |CStr(text)|;
      var buf := new char[n + 1](i requires 0 <= i <= n => if i < n then text[i] else '\0');
      assert buf[..] == line + "\0";
      path, query, version := DecodeRequestStartLine(buf, line);
      request := buf[..];
    }

    /** The login state after one more field, given the login state of the fields before it. */
    method CheckAuthorization(f: Field, verb: Bytes)
      modifies this`loginState
      ensures loginState == LoginAfter(creds, verb, old(loginState), f)
    {
      if loginState == LoggedOut && EqualIgnoreCase(f.name, "Authorization") {
        var ok := Auth.IsClientAuthorized(creds, f.value, verb);
        loginState := if ok then LoggedIn else LoginFail;
      }
    }

    /** A complete, non-blank line: the request line or a header line. */
    method AddText(text: Bytes)
      requires Valid() && text != [] && (h.Head? ==> NulFree(text) && h.cur == [])
      modifies this`request, this`path, this`query, this`version, this`headers, this`hasRequestLine,
               this`loginState, this`h
      ensures old(hasRequestLine) ==> hasRequestLine
      ensures Valid()
      ensures h == if old(h).Garbled? then Garbled
                   else if old(h).start.None? then old(h).(start := Some(text))
                   else old(h).(fields := AddLine(old(h).fields, text))
    {
      if !hasRequestLine {
        StoreRequestLine(text);
        hasRequestLine := true;
        if h.Head? {
          h := h.(start := Some(text));
        }
      } else {
        AddHeaderLine(text);
      }
    }

    method AddHeaderLine(text: Bytes)
      requires Valid() && hasRequestLine && (h.Head? ==> NulFree(text))
      modifies this`headers, this`loginState, this`h
      ensures Valid()
      ensures h == if old(h).Garbled? then Garbled else old(h).(fields := AddLine(old(h).fields, text))
    {
      hide LoginOf, Reads;
      var colon := Index(CStr(text), ':');
      if colon < |CStr(text)| {
        AddField(Field(text[..colon], CStr(text[colon + 1..])));
      }
    }

    method AddField(f: Field)
      requires Valid() && hasRequestLine
      modifies this`headers, this`loginState, this`h
      ensures Valid()
      ensures h == if old(h).Garbled? then Garbled else old(h).(fields := old(h).fields + [f])
    {
      hide LoginOf, LoginAfter, Reads;
      CheckAuthorization(f, GetMethod());
      headers := headers + [f];
      if h.Head? {
        LoginSnoc(creds, GetMethod(), h.fields, f);
        h := h.(fields := h.fields + [f]);
      }
    }

    /** The current line is complete: strips its CR, then stores it or notices that it is blank. */
    method CompleteLine() returns (ends: bool)
      requires Valid()
      modifies this
      ensures old(hasRequestLine) ==> hasRequestLine
      ensures Valid() && h == Step(old(h), '\n') && (ends ==> hasRequestLine)
      ensures h.Head? ==> ends == Ends(old(h), '\n')
    {
      hide LoginOf, Reads;
      var text := cur;
      if text != [] && text[|text| - 1] == '\r' {
        text := text[..|text| - 1];
      }
      assert text == StripCr(cur);
      if h.Head? {
        h := h.(cur := []);
      }
      cur := [];
      ends := CStr(text) == [] && hasRequestLine;
      if CStr(text) != [] {
        AddText(text);
      }
    }

    method FinishLine(chunk: Bytes) returns (ends: bool)
      requires Valid() && '\n' !in chunk
      modifies this
      ensures old(hasRequestLine) ==> hasRequestLine
      ensures Valid() && h == Run(old(h), chunk + "\n") && (ends ==> hasRequestLine)
      ensures End(old(h), chunk + "\n") == if ends && h.Head? then |chunk| + 1 else -1
    {
      RunSnoc(h, chunk, '\n');
      Collect(chunk);
      ends := CompleteLine();
    }

    /** The next line of the data, with its line end at eol. */
    method TakeLine(data: Bytes, bol: nat, eol: nat, ghost start: Head) returns (isFinish: bool)
      requires bol <= eol < |data| && data[eol] == '\n' && '\n' !in data[bol..eol]
      requires Valid() && h == Run(start, data[..bol]) && End(start, data[..bol]) == -1
      modifies this
      ensures old(hasRequestLine) ==> hasRequestLine
      ensures Valid() && (isFinish ==> hasRequestLine)
      ensures h == Run(start, data[..eol + 1])
      ensures End(start, data[..eol + 1]) == if isFinish && h.Head? then eol + 1 else -1
    {
      RunOnLine(start, data, bol, eol);
      isFinish := FinishLine(data[bol..eol]);
    }

    /** The rest of the data, without a line end. */
    method TakeRest(data: Bytes, bol: nat, ghost start: Head)
      requires bol <= |data| && '\n' !in data[bol..]
      requires Valid() && h == Run(start, data[..bol]) && End(start, data[..bol]) == -1
      modifies this`cur, this`h
      ensures Valid() && h == Run(start, data) && End(start, data) == -1
    {
      RunOn(start, data, bol, |data|);
      assert data[..|data|] == data && data[bol..|data|] == data[bol..];
      Collect(data[bol..]);
    }

    /** Takes header bytes; returns how many were used when the header is complete, -1 when it is not. */
    method AppendData(data: Bytes) returns (used: int)
      requires Valid()
      modifies this
      ensures old(hasRequestLine) ==> hasRequestLine
      ensures Valid() && -1 <= used <= |data| && used != 0 && (used >= 0 ==> hasRequestLine)
      ensures h == Run(old(h), if used < 0 then data else data[..used])
      ensures End(old(h), data) == if h.Head? then used else -1
    {
      hide Valid;
      var bol, isFinish := 0, false;
      assert data[..0] == [];
      while !isFinish && bol < |data|
        invariant 0 <= bol <= |data| && Valid() && (isFinish ==> bol > 0) && (isFinish ==> hasRequestLine)
        invariant old(hasRequestLine) ==> hasRequestLine
        invariant h == Run(old(h), data[..bol])
        invariant End(old(h), data[..bol]) == if isFinish && h.Head? then bol else -1
        decreases |data| - bol
      {
        var eol := IndexFrom(data, '\n', bol);
        if eol < |data| {
          isFinish := TakeLine(data, bol, eol, old(h));
          bol := eol + 1;
        } else {
          TakeRest(data, bol, old(h));
          bol := |data|;
          assert data[..bol] == data;
        }
      }
      used := if isFinish then bol else -1;
      assert data[..|data|] == data;
      RunOn(old(h), data, bol, |data|);
    }

    /** Bytes without a line end are appended to the current line. */
    method Collect(chunk: Bytes)
      requires Valid() && '\n' !in chunk
      modifies this`cur, this`h
      ensures Valid() && h == Run(old(h), chunk) && End(old(h), chunk) == -1
    {
      RunInLine(h, chunk);
      cur := CStr(cur) + chunk;
      h := Run(h, chunk);
    }

    /** The value of the first header of that name; None when there is none. */
    method GetHeaderVal(headerName: Bytes) returns (val: Option<Bytes>)
      ensures val == Lookup(headers, headerName)
    {
      var i := 0;
      while i < |headers|
        invariant 0 <= i <= |headers|
        invariant forall j :: 0 <= j < i ==> !EqualIgnoreCase(headers[j].name, headerName)
      {
        if EqualIgnoreCase(headers[i].name, headerName) {
          FirstNamedUnique(headers, headerName, i);
          return Some(SkipBlanks(headers[i].value));
        }
        i := i + 1;
      }
      FirstNamedUnique(headers, headerName, i);
      return None;
    }

    method IsChunkedTransferEncoding() returns (isChunked: bool)
      ensures isChunked == IsChunked(headers)
    {
      var val := GetHeaderVal("Transfer-Encoding");
      isChunked := false;
      if val.Some? {
        var rest, more := val.value, true;
        while !isChunked && more
          invariant (isChunked || (more && HasChunked(rest))) == HasChunked(val.value)
          decreases if more then |rest| + 1 else 0, !isChunked
        {
          rest := SkipSeparators(rest);
          isChunked := StartsIgnoreCase(rest, "chunked");
          more := Index(rest, ',') < |rest|;
          if !isChunked {
            rest := rest[Index(rest, ',')..];
          }
        }
      }
    }
  }

  /**
   Split invariance: whatever pieces two header objects were given, when the bytes mean the same header they agree on
   method, path, query, version, fields and login state.
   */
  lemma SameHeadSameRequest(a: RequestHeader, b: RequestHeader)
    requires a.Valid() && b.Valid() && a.h == b.h && a.h.Head? && a.h.start.Some? && a.creds == b.creds
    ensures a.GetMethod() == b.GetMethod() == Parse(a.h.start.value).verb
    ensures a.GetPath() == b.GetPath() == Parse(a.h.start.value).path
    ensures a.GetVersion() == b.GetVersion() == Parse(a.h.start.value).version
    ensures Deref(a.request, a.query) == Deref(b.request, b.query) == Parse(a.h.start.value).query
    ensures a.headers == b.headers && a.loginState == b.loginState
  {
    hide Parse, LoginOf, Deref, CStr;
    assert Some(Parse(a.h.start.value).path).GetOr("") == Parse(a.h.start.value).path;
  }
}
