/** Whole uploads: a form that a browser encodes arrives with the same named parts, however it travels. */
module Uploads {
  import opened ByteStrings
  import opened ContentParts
  import opened DataChunks
  import opened FileManagers
  import opened HeaderBlock
  import opened Multipart
  import opened MultipartFeeding
  import opened MultipartParser
  import opened ParamLists

  // A field of a form: its name, the file name for a file, and header lines besides Content-Disposition.
  datatype FormPart = FormPart(name: Bytes, fileName: Option<Bytes>, extra: seq<Line>, content: Bytes)

  function WrittenParams(p: FormPart): seq<Written> {
    [Quoted("name", p.name)] + if p.fileName.Some? then [Quoted("filename", p.fileName.value)] else []
  }

  function DispositionValue(p: FormPart): Bytes {
    "form-data;" + PrintParams(WrittenParams(p), " ", ';')
  }

  function Lines(p: FormPart): seq<Line> {
    [Named("Content-Disposition", " " + DispositionValue(p))] + p.extra
  }

  /** A part as it is written between boundary lines (section 4.2 of RFC 7578). */
  function PartText(p: FormPart): Bytes {
    PrintLines(Lines(p)) + "\r\n" + p.content
  }

  predicate Quotable(s: Bytes) {
    Plain(s) && '"' !in s
  }

  predicate ValidFormPart(p: FormPart) {
    && Quotable(p.name) && ValidLines(p.extra)
    && (p.fileName.Some? ==> Quotable(p.fileName.value))
  }

  /** An empty file name, sent when no file was chosen, is none. */
  function FileNameOf(p: FormPart): Option<Bytes> {
    if p.fileName == Some([]) then None else p.fileName
  }

  // ------------------------------------------------------------------------------------------------------
  // One part

  lemma ParamsRead(p: FormPart)
    requires ValidFormPart(p)
    ensures ReadParams(PrintParams(WrittenParams(p), " ", ';'), ';') ==
      [Param("name", p.name)] + if p.fileName.Some? then [Param("filename", p.fileName.value)] else []
  {
    hide ReadParams, PrintParams;
    assert ValidParam(Quoted("name", p.name), ';');
    if p.fileName.Some? {
      assert ValidParam(Quoted("filename", p.fileName.value), ';');
    }
    ParamsRoundTrip(WrittenParams(p), " ", ';');
  }

  lemma NamesCollected(p: FormPart)
    ensures var params := [Param("name", p.name)] +
                            if p.fileName.Some? then [Param("filename", p.fileName.value)] else [];
            CollectNames(Naming(None, None), params) == Naming(Some(p.name), FileNameOf(p))
  {
    var first := Param("name", p.name);
    if p.fileName.Some? {
      var second := Param("filename", p.fileName.value);
      assert [first, second][1..] == [second] && [second][1..] == [];
      assert CollectNames(Naming(Some(p.name), None), [second])
          == CollectNames(Naming(Some(p.name), FileNameOf(p)), []);
    } else {
      assert [first][1..] == [];
      EmptyConcat([first]);
    }
  }

  /** Any way to write the parameters of Content-Disposition: the last "name" and the last "filename" count. */
  lemma AnyDisposition(kind: Bytes, ws: seq<Written>, gap: Bytes, i: nat)
    requires ';' !in kind && i < |ws| && AllWs(gap) && forall k :: 0 <= k < |ws| ==> ValidParam(ws[k], ';')
    ensures var n := NamingFrom(Some(kind + ";" + PrintParams(ws, gap, ';')));
      && (SameName(ws[i].name, "name") && (forall j :: i < j < |ws| ==> !SameName(ws[j].name, "name")) ==>
            n.name == Some(ws[i].value))
      && (SameName(ws[i].name, "filename") && ws[i].value != [] && NoFileName(ParamsOf(ws)[i + 1..]) ==>
            n.fileName == Some(ws[i].value))
  {
    hide ReadParams, CollectNames, PrintParams, ValidParam, SameName;
    var value := kind + ";" + PrintParams(ws, gap, ';');
    IndexAfter(kind, ';', PrintParams(ws, gap, ';'));
    assert value[|kind|] == ';';
    ParamsRoundTrip(ws, gap, ';');
    LastNames(Naming(None, None), ParamsOf(ws), i);
  }

  lemma PlainConcat(a: Bytes, b: Bytes)
    requires Plain(a) && Plain(b)
    ensures Plain(a + b)
  {
  }

  lemma ParamIsPlain(name: Bytes, value: Bytes)
    requires Plain(name) && Plain(value)
    ensures Plain(PrintParam(Quoted(name, value)))
  {
    assert Plain("\"") && Plain("=");
    PlainConcat("\"", value);
    PlainConcat("\"" + value, "\"");
    PlainConcat(name, "=");
    PlainConcat(name + "=", "\"" + value + "\"");
  }

  lemma TextOfParams(p: FormPart)
    ensures var ws := WrittenParams(p);
      PrintParams(ws, " ", ';') ==
        if p.fileName.None? then " " + PrintParam(ws[0])
        else " " + PrintParam(ws[0]) + [';'] + (" " + PrintParam(ws[1]))
  {
    hide PrintParam;
    var ws := WrittenParams(p);
    if p.fileName.Some? {
      assert ws[1..] == [ws[1]];
      assert PrintParams([ws[1]], " ", ';') == " " + PrintParam(ws[1]);
    }
  }

  lemma DispositionIsPlain(p: FormPart)
    requires ValidFormPart(p)
    ensures Plain(DispositionValue(p))
  {
    var ws := WrittenParams(p);
    assert Plain("name") && Plain("filename") && Plain(" ") && Plain("form-data;") && Plain([';']);
    ParamIsPlain("name", p.name);
    PlainConcat(" ", PrintParam(ws[0]));
    if p.fileName.Some? {
      ParamIsPlain("filename", p.fileName.value);
      PlainConcat(" ", PrintParam(ws[1]));
      PlainConcat(" " + PrintParam(ws[0]), [';']);
      PlainConcat(" " + PrintParam(ws[0]) + [';'], " " + PrintParam(ws[1]));
    }
    TextOfParams(p);
    PlainConcat("form-data;", PrintParams(ws, " ", ';'));
  }

  lemma LinesAreValid(p: FormPart)
    requires ValidFormPart(p)
    ensures ValidLines(Lines(p))
  {
    var name: Bytes := "Content-Disposition";
    DispositionIsPlain(p);
    assert Plain(name) && Plain(":") && Plain(" ") && ':' !in name;
    PlainConcat(name, ":");
    PlainConcat(" ", DispositionValue(p));
    PlainConcat(name + ":", " " + DispositionValue(p));
  }

  lemma DispositionFound(p: FormPart)
    ensures Lookup(FieldsOf(Lines(p)), "Content-Disposition") == Some(DispositionValue(p))
  {
    var first := Lines(p)[0];
    FieldsCons(Lines(p));
    assert FieldsOf([first])[0] == Field("Content-Disposition", " " + DispositionValue(p)) by {
      assert [first][1..] == [];
    }
    var value := DispositionValue(p);
    assert (" " + value)[1..] == value && value[0] == 'f';
    assert SkipBlanks(" " + value) == SkipBlanks(value) == value;
    FirstNamedUnique(FieldsOf(Lines(p)), "Content-Disposition", 0);
  }

  lemma NamingRead(p: FormPart)
    requires ValidFormPart(p)
    ensures NamingOf(FieldsOf(Lines(p))) == Naming(Some(p.name), FileNameOf(p))
  {
    hide ReadParams, CollectNames, Lookup, FieldsOf;
    DispositionFound(p);
    assert ';' !in "form-data" && "form-data" + [';'] == "form-data;";
    IndexAfter("form-data", ';', PrintParams(WrittenParams(p), " ", ';'));
    assert DispositionValue(p)[9] == ';';
    ParamsRead(p);
    NamesCollected(p);
  }

  /** A written part is read back: its name, its file name and its content. */
  lemma PartRoundTrip(p: FormPart)
    requires ValidFormPart(p)
    ensures PartText(p) != [] && PartOf(PartText(p)) == InBody(Naming(Some(p.name), FileNameOf(p)), p.content)
  {
    hide HeaderBlock.Run, NamingOf, FieldsOf;
    var text := PrintLines(Lines(p)) + "\r\n";
    LinesAreValid(p);
    BlockRoundTrip(NEW_BLOCK, Lines(p), p.content);
    NamingRead(p);
    EmptyConcat(FieldsOf(Lines(p)));
    assert (text + p.content)[..|text|] == text && (text + p.content)[|text|..] == p.content;
  }

  // ------------------------------------------------------------------------------------------------------
  // All parts

  function PartTexts(form: seq<FormPart>): seq<Bytes> {
    seq(|form|, i requires 0 <= i < |form| => PartText(form[i]))
  }

  predicate ValidForm(form: seq<FormPart>, delim: Bytes) {
    forall i :: 0 <= i < |form| ==> ValidFormPart(form[i]) && Free(delim, PartText(form[i]))
  }

  lemma {:induction false} AllNonEmpty(parts: seq<Bytes>)
    requires forall i :: 0 <= i < |parts| ==> parts[i] != []
    ensures NonEmpty(parts) == parts
    decreases |parts|
  {
    if parts != [] {
      var n := |parts| - 1;
      AllNonEmpty(parts[..n]);
      assert parts == parts[..n] + [parts[n]];
    }
  }

  lemma FormTextsNonEmpty(form: seq<FormPart>, delim: Bytes)
    requires ValidForm(form, delim)
    ensures NonEmpty(PartTexts(form)) == PartTexts(form)
  {
    forall i | 0 <= i < |form| ensures PartTexts(form)[i] != [] {
      PartRoundTrip(form[i]);
    }
    AllNonEmpty(PartTexts(form));
  }

  /**
   A whole upload: once the folder handler has received the encoded form, in whatever pieces, its parser is in the
   epilogue, and the parts that received bytes are exactly the parts of the form, in order.
   */
  lemma UploadRoundTrip(f: FileManager, boundary: Bytes, preamble: Option<Bytes>, form: seq<FormPart>, epilogue: Bytes)
    requires f.Valid() && f.body != null && '\r' !in boundary && f.body.delim == Delimiter(boundary)
    requires preamble.Some? ==> Free(Delimiter(boundary), "\r\n" + preamble.value)
    requires ValidForm(form, Delimiter(boundary))
    requires f.received == Print(Delimiter(boundary), preamble, PartTexts(form), epilogue)
    ensures f.body.boundaryDelimiter.None?
    ensures NonEmpty(f.body.list.fed) == PartTexts(form)
  {
    hide Free, PartText, Print;
    FormTextsNonEmpty(form, Delimiter(boundary));
    RoundTrip(boundary, preamble, PartTexts(form), epilogue, f.body.pieces);
  }

  // ------------------------------------------------------------------------------------------------------
  // Parts by name

  function FormNamed(form: seq<FormPart>, name: Bytes): Option<FormPart> {
    if form == [] then None
    else
      var n := |form| - 1;
      var r := FormNamed(form[..n], name);
      if r.Some? then r else if form[n].name == name then Some(form[n]) else None
  }

  lemma EmptyHasNoName(name: Bytes)
    ensures !IsNamed([], name) && !IsGarbled(PartOf([]))
  {
  }

  /** Abandoned empty parts are never found. */
  lemma {:induction false} FirstOfNonEmpty(parts: seq<Bytes>, name: Bytes)
    ensures FirstPart(NonEmpty(parts), name) == FirstPart(parts, name)
    decreases |parts|
  {
    hide IsNamed;
    if parts != [] {
      var n := |parts| - 1;
      var before := NonEmpty(parts[..n]);
      FirstOfNonEmpty(parts[..n], name);
      EmptyHasNoName(name);
      if parts[n] == [] {
        EmptyConcat(before);
      } else {
        assert (before + [parts[n]])[..|before|] == before;
      }
    }
  }

  lemma {:induction false} FirstOfForm(form: seq<FormPart>, name: Bytes)
    requires forall i :: 0 <= i < |form| ==> ValidFormPart(form[i])
    ensures FirstPart(PartTexts(form), name) ==
      if FormNamed(form, name).None? then None else Some(PartText(FormNamed(form, name).value))
    decreases |form|
  {
    hide PartText, PartOf, ValidFormPart;
    if form != [] {
      var n := |form| - 1;
      FirstOfForm(form[..n], name);
      assert PartTexts(form)[..n] == PartTexts(form[..n]);
      PartRoundTrip(form[n]);
    }
  }

  lemma {:induction false} CleanOfNonEmpty(parts: seq<Bytes>)
    requires AllClean(NonEmpty(parts))
    ensures AllClean(parts)
    decreases |parts|
  {
    hide PartOf;
    if parts != [] {
      var n := |parts| - 1;
      var before, last := NonEmpty(parts[..n]), if parts[n] == [] then [] else [parts[n]];
      assert forall i :: 0 <= i < |before| ==> (before + last)[i] == before[i];
      CleanOfNonEmpty(parts[..n]);
      EmptyHasNoName([]);
      assert parts[n] != [] ==> (before + last)[|before|] == parts[n];
      assert forall i :: 0 <= i < n ==> parts[..n][i] == parts[i];
    }
  }

  lemma FormIsClean(form: seq<FormPart>)
    requires forall i :: 0 <= i < |form| ==> ValidFormPart(form[i])
    ensures AllClean(PartTexts(form))
  {
    hide PartText, PartOf, ValidFormPart;
    forall i | 0 <= i < |form| ensures !IsGarbled(PartOf(PartTexts(form)[i])) {
      PartRoundTrip(form[i]);
    }
  }

  /** Looking a part up by name gives the first part of the form that has that name, with its content. */
  method FindUploaded(m: MultipartData, ghost form: seq<FormPart>, name: Bytes) returns (part: ContentPart?)
    requires m.Valid() && NonEmpty(m.list.fed) == PartTexts(form)
    requires forall i :: 0 <= i < |form| ==> ValidFormPart(form[i])
    ensures part == null <==> FormNamed(form, name).None?
    ensures part != null ==>
      var p := FormNamed(form, name).value;
      && part.Valid() && part.name == Some(p.name) && part.fileName == FileNameOf(p)
      && (FileNameOf(p).None? ==> part.body != null && part.body.Contents() == p.content)
      && (FileNameOf(p).Some? && part.fileDesc != null ==> part.fileDesc.written == p.content)
  {
    hide PartText, PartOf, ValidFormPart, IsNamed;
    part := m.GetPartByName(name);
    FormIsClean(form);
    CleanOfNonEmpty(m.list.fed);
    FirstOfNonEmpty(m.list.fed, name);
    FirstOfForm(form, name);
    if part != null {
      NamedIsValid(form, name);
      PartRoundTrip(FormNamed(form, name).value);
    }
  }

  lemma {:induction false} NamedIsValid(form: seq<FormPart>, name: Bytes)
    requires forall i :: 0 <= i < |form| ==> ValidFormPart(form[i])
    ensures FormNamed(form, name).Some? ==>
      ValidFormPart(FormNamed(form, name).value) && FormNamed(form, name).value.name == name
    decreases |form|
  {
    hide ValidFormPart;
    if form != [] {
      NamedIsValid(form[..|form| - 1], name);
    }
  }
}
