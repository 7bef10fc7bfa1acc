/** The header of a content part or of a CGI response, collected in pieces (src/dataheader.c). */
module DataHeaders {
  import opened ByteStrings
  import opened HeaderBlock

  class DataHeader {
    var lines: seq<Field>   // complete lines, split at their colon
    var cur: Bytes          // buffer of the incomplete line
    ghost var h: Head       // what the bytes so far mean

    ghost predicate Valid()
      reads this
    {
      h.Head? ==> h.start == Some([]) && lines == h.fields && cur == h.cur && NulFree(cur)
    }

    constructor ()
      ensures Valid() && h == NEW_BLOCK && lines == []
    {
      lines, cur, h := [], [], NEW_BLOCK;
    }

    /** The current line is complete: strips its CR, then splits it or notices that it is blank. */
    method CompleteLine() returns (isBlank: bool)
      requires Valid()
      modifies this
      ensures Valid() && h == Step(old(h), '\n')
      ensures h.Head? ==> isBlank == Ends(old(h), '\n')
    {
      var text := cur;
      if text != [] && text[|text| - 1] == '\r' {
        text := text[..|text| - 1];
      }
      assert text == StripCr(cur);
      isBlank := CStr(text) == [];
      if !isBlank {
        AddText(text);
      }
      h := Step(h, '\n');
      cur := [];
    }

    method FinishLine(chunk: Bytes) returns (isBlank: bool)
      requires Valid() && '\n' !in chunk
      modifies this
      ensures Valid() && h == Run(old(h), chunk + "\n")
      ensures End(old(h), chunk + "\n") == if isBlank && h.Head? then |chunk| + 1 else -1
    {
      RunSnoc(h, chunk, '\n');
      Collect(chunk);
      isBlank := CompleteLine();
    }

    method AddText(text: Bytes)
      modifies this`lines
      ensures NulFree(text) ==> lines == AddLine(old(lines), text)
    {
      var colon := Index(CStr(text), ':');
      if colon < |CStr(text)| {
        lines := lines + [Field(text[..colon], CStr(text[colon + 1..]))];
      }
    }

    /** The next line of the data, or what there is of it. */
    method TakeLine(data: Bytes, bol: nat, ghost start: Head) returns (next: nat, isFinish: bool)
      requires Valid() && bol < |data| && h == Run(start, data[..bol]) && End(start, data[..bol]) == -1
      modifies this
      ensures Valid() && bol < next <= |data|
      ensures h == Run(start, data[..next])
      ensures End(start, data[..next]) == if isFinish && h.Head? then next else -1
    {
      var eol := IndexFrom(data, '\n', bol);
      if eol < |data| {
        RunOnLine(start, data, bol, eol);
        isFinish := FinishLine(data[bol..eol]);
        next := eol + 1;
      } else {
        RunOn(start, data, bol, eol);
        Collect(data[bol..eol]);
        next, isFinish := |data|, false;
      }
    }

    /** Takes header bytes; returns how many were used when the header is complete, -1 when it is not. */
    method AppendData(data: Bytes) returns (used: int)
      requires Valid()
      modifies this
      ensures Valid() && -1 <= used <= |data| && used != 0
      ensures h == Run(old(h), if used < 0 then data else data[..used])
      ensures End(old(h), data) == if h.Head? then used else -1
    {
      var bol, isFinish := 0, false;
      assert data[..0] == [];
      while !isFinish && bol < |data|
        invariant 0 <= bol <= |data| && Valid() && (isFinish ==> bol > 0)
        invariant h == Run(old(h), data[..bol])
        invariant End(old(h), data[..bol]) == if isFinish && h.Head? then bol else -1
        decreases |data| - bol
      {
        bol, isFinish := TakeLine(data, bol, old(h));
      }
      used := if isFinish then bol else -1;
      assert data[..|data|] == data;
      RunOn(old(h), data, bol, |data|);
    }

    /** The rest of the data, without a line end. */
    method Collect(chunk: Bytes)
      requires Valid() && '\n' !in chunk
      modifies this`cur, this`h
      ensures Valid() && h == Run(old(h), chunk) && End(old(h), chunk) == -1
    {
      RunInLine(h, chunk);
      cur := CStr(cur) + chunk;
      h := Run(h, chunk);
    }

    /** The value of the first line of that name; None when there is none. */
    method GetHeaderVal(headerName: Bytes) returns (val: Option<Bytes>)
      ensures val == Lookup(lines, headerName)
    {
      var i := 0;
      while i < |lines|
        invariant i <= |lines|
        invariant forall j :: 0 <= j < i ==> !EqualIgnoreCase(lines[j].name, headerName)
      {
        if EqualIgnoreCase(lines[i].name, headerName) {
          FirstNamedUnique(lines, headerName, i);
          return Some(SkipBlanks(lines[i].value));
        }
        i := i + 1;
      }
      FirstNamedUnique(lines, headerName, i);
      return None;
    }
  }
}
