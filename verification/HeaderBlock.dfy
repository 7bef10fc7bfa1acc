/**
 The meaning of a header block: lines up to the first blank one, of which those with a colon become fields. A request
 header has a request line in front, and blank lines before that line are skipped.
 */
module HeaderBlock {
  import opened ByteStrings

  datatype Field = Field(name: Bytes, value: Bytes)

  // start: the request line once complete; Some("") from the outset for a block without one.
  // cur: the current, still incomplete line.
  // Garbled: a NUL byte was met. The accumulating code uses strlen, so what it does next depends on the cuts.
  datatype Head = Head(start: Option<Bytes>, fields: seq<Field>, cur: Bytes) | Garbled

  const NEW_REQUEST := Head(None, [], [])
  const NEW_BLOCK := Head(Some([]), [], [])

  function StripCr(line: Bytes): Bytes {
    if line != [] && line[|line| - 1] == '\r' then line[..|line| - 1] else line
  }

  function AddLine(fields: seq<Field>, line: Bytes): seq<Field> {
    var colon := Index(line, ':');
    if colon < |line| then fields + [Field(line[..colon], line[colon + 1..])] else fields
  }

  function Step(h: Head, b: char): Head {
    if h.Garbled? || b == '\0' then Garbled
    else if b != '\n' then h.(cur := h.cur + [b])
    else
      var line := StripCr(h.cur);
      if line == [] then h.(cur := [])
      else if h.start.None? then Head(Some(line), h.fields, [])
      else Head(h.start, AddLine(h.fields, line), [])
  }

  /** The byte completes the blank line that ends the block. */
  predicate Ends(h: Head, b: char) {
    h.Head? && b == '\n' && StripCr(h.cur) == [] && h.start.Some?
  }

  function Run(h: Head, data: Bytes): Head
    decreases |data|
  {
    if data == [] then h else Run(Step(h, data[0]), data[1..])
  }

  /** Number of bytes up to and including the first blank line that ends the block, or -1. */
  function End(h: Head, data: Bytes): (n: int)
    ensures -1 <= n <= |data| && n != 0
    decreases |data|
  {
    if data == [] then -1
    else if Ends(h, data[0]) then 1
    else
      var n := End(Step(h, data[0]), data[1..]);
      if n < 0 then -1 else n + 1
  }

  lemma {:induction false} RunConcat(h: Head, a: Bytes, b: Bytes)
    ensures Run(h, a + b) == Run(Run(h, a), b)
    decreases |a|
  {
    if a == [] {
      assert a + b == b;
    } else {
      assert (a + b)[1..] == a[1..] + b;
      RunConcat(Step(h, a[0]), a[1..], b);
    }
  }

  lemma {:induction false} EndConcat(h: Head, a: Bytes, b: Bytes)
    ensures End(h, a) >= 0 ==> End(h, a + b) == End(h, a)
    ensures End(h, a) < 0 ==>
      End(h, a + b) == var n := End(Run(h, a), b); if n < 0 then -1 else |a| + n
    decreases |a|
  {
    if a == [] {
      assert a + b == b;
    } else {
      assert (a + b)[1..] == a[1..] + b;
      EndConcat(Step(h, a[0]), a[1..], b);
    }
  }

  lemma RunSnoc(h: Head, a: Bytes, c: char)
    ensures Run(h, a + [c]) == Step(Run(h, a), c)
    ensures End(h, a) < 0 ==> End(h, a + [c]) == if Ends(Run(h, a), c) then |a| + 1 else -1
  {
    RunConcat(h, a, [c]);
    EndConcat(h, a, [c]);
    assert [c][1..] == [];
    assert Run(Run(h, a), [c]) == Run(Step(Run(h, a), c), []);
    assert End(Step(Run(h, a), c), []) == -1;
  }

  lemma {:induction false} RunGarbled(data: Bytes)
    ensures Run(Garbled, data) == Garbled && End(Garbled, data) == -1
  {
    if data != [] {
      RunGarbled(data[1..]);
    }
  }

  /** Bytes without a line end are collected. */
  lemma {:induction false} RunInLine(h: Head, chunk: Bytes)
    requires '\n' !in chunk
    ensures Run(h, chunk) == if h.Garbled? || !NulFree(chunk) then Garbled else h.(cur := h.cur + chunk)
    ensures End(h, chunk) == -1
    decreases |chunk|
  {
    if chunk == [] {
      assert h.Head? ==> h.cur + chunk == h.cur;
    } else if h.Garbled? || chunk[0] == '\0' {
      RunGarbled(chunk[1..]);
    } else {
      RunInLine(Step(h, chunk[0]), chunk[1..]);
      assert chunk == [chunk[0]] + chunk[1..];
      assert h.cur + [chunk[0]] + chunk[1..] == h.cur + chunk;
    }
  }

  /** A whole line, or the rest of one. */
  lemma RunLine(h: Head, chunk: Bytes)
    requires '\n' !in chunk
    ensures h.Garbled? || !NulFree(chunk) ==> Run(h, chunk + "\n") == Garbled
    ensures h.Head? && NulFree(chunk) ==>
      Run(h, chunk + "\n") == Step(h.(cur := h.cur + chunk), '\n')
      && End(h, chunk + "\n") == if Ends(h.(cur := h.cur + chunk), '\n') then |chunk| + 1 else -1
  {
    RunInLine(h, chunk);
    RunSnoc(h, chunk, '\n');
  }

  /** Going on from index `from` of the data to index `to`. */
  lemma RunOn(h: Head, data: Bytes, from: nat, to: nat)
    requires from <= to <= |data|
    ensures var mid := Run(h, data[..from]);
      && Run(h, data[..to]) == Run(mid, data[from..to])
      && (mid.Garbled? ==> Run(h, data[..to]).Garbled? && End(mid, data[from..to]) == -1)
      && (End(h, data[..from]) >= 0 ==> End(h, data[..to]) == End(h, data[..from]))
      && (End(h, data[..from]) < 0 ==>
            End(h, data[..to]) == if End(mid, data[from..to]) < 0 then -1 else from + End(mid, data[from..to]))
  {
    SplitRange(data, from, to);
    RunConcat(h, data[..from], data[from..to]);
    EndConcat(h, data[..from], data[from..to]);
    RunGarbled(data[from..to]);
  }

  /** Going on by the line whose line end is at eol. */
  lemma RunOnLine(h: Head, data: Bytes, bol: nat, eol: nat)
    requires bol <= eol < |data| && data[eol] == '\n' && End(h, data[..bol]) == -1
    ensures var mid, line := Run(h, data[..bol]), data[bol..eol] + "\n";
      && Run(h, data[..eol + 1]) == Run(mid, line)
      && End(h, data[..eol + 1]) == if End(mid, line) < 0 then -1 else bol + End(mid, line)
  {
    RunOn(h, data, bol, eol + 1);
    assert data[bol..eol + 1] == data[bol..eol] + "\n";
  }

  /** A block that ends has met no NUL byte. */
  lemma {:induction false} EndIsClean(h: Head, data: Bytes)
    requires End(h, data) >= 0
    ensures Run(h, data[..End(h, data)]).Head?
    decreases |data|
  {
    var n := End(h, data);
    if Ends(h, data[0]) {
      assert data[..1] == [data[0]] && [data[0]][1..] == [];
      assert Run(h, [data[0]]) == Run(Step(h, data[0]), []);
    } else {
      EndIsClean(Step(h, data[0]), data[1..]);
      assert data[..n][1..] == data[1..][..n - 1];
    }
  }

  /** Feeding pieces until the block ends: the state, and how many bytes were used, or -1. */
  function Feed(h: Head, pieces: seq<Bytes>): (Head, int)
    decreases |pieces|
  {
    if pieces == [] then (h, -1)
    else
      var n := End(h, pieces[0]);
      if n >= 0 then (Run(h, pieces[0][..n]), n)
      else
        var r := Feed(Run(h, pieces[0]), pieces[1..]);
        (r.0, if r.1 < 0 then -1 else |pieces[0]| + r.1)
  }

  /** Split invariance: pieces give the state and the end that one call on all the data gives. */
  lemma {:induction false} HeadSplitInvariance(h: Head, pieces: seq<Bytes>)
    ensures var data := Flatten(pieces);
      Feed(h, pieces) == (Run(h, if End(h, data) < 0 then data else data[..End(h, data)]), End(h, data))
    decreases |pieces|
  {
    hide Step, Ends;
    if pieces != [] {
      var p, rest := pieces[0], Flatten(pieces[1..]);
      HeadSplitInvariance(Run(h, p), pieces[1..]);
      EndConcat(h, p, rest);
      RunConcat(h, p, rest);
      if End(h, p) >= 0 {
        assert (p + rest)[..End(h, p)] == p[..End(h, p)];
      } else if End(Run(h, p), rest) >= 0 {
        var n := End(Run(h, p), rest);
        assert (p + rest)[..|p| + n] == p + rest[..n];
        RunConcat(h, p, rest[..n]);
      }
    }
  }

  // ------------------------------------------------------------------------------------------------------
  // Round trip: a printed block is read back field by field

  // A line of a block: a field, or a line without a colon, which is ignored.
  datatype Line = Named(name: Bytes, value: Bytes) | Ignored(text: Bytes)

  function LineText(l: Line): Bytes {
    match l
    case Named(name, value) => name + ":" + value
    case Ignored(text) => text
  }

  /** Text that fits into one line. */
  predicate Plain(text: Bytes) {
    '\n' !in text && NulFree(text)
  }

  predicate ValidLine(l: Line) {
    Plain(LineText(l)) && LineText(l) != [] &&
    match l
    case Named(name, _) => ':' !in name
    case Ignored(text) => ':' !in text
  }

  predicate ValidLines(lines: seq<Line>) {
    forall i :: 0 <= i < |lines| ==> ValidLine(lines[i])
  }

  function PrintLines(lines: seq<Line>): Bytes {
    if lines == [] then [] else LineText(lines[0]) + "\r\n" + PrintLines(lines[1..])
  }

  /** The fields of a block, in order; lines without a colon vanish. */
  function FieldsOf(lines: seq<Line>): seq<Field> {
    if lines == [] then []
    else (if lines[0].Named? then [Field(lines[0].name, lines[0].value)] else []) + FieldsOf(lines[1..])
  }

  lemma {:induction false} PrintLinesSnoc(lines: seq<Line>, l: Line)
    ensures PrintLines(lines + [l]) == PrintLines(lines) + (LineText(l) + "\r\n")
    ensures FieldsOf(lines + [l]) == FieldsOf(lines) + FieldsOf([l])
    decreases |lines|
  {
    if lines == [] {
      assert [] + [l] == [l] && [l][1..] == [];
      EmptyConcat(LineText(l) + "\r\n");
      EmptyConcat(FieldsOf([l]));
    } else {
      assert (lines + [l])[1..] == lines[1..] + [l];
      PrintLinesSnoc(lines[1..], l);
      Assoc(LineText(lines[0]) + "\r\n", PrintLines(lines[1..]), LineText(l) + "\r\n");
      FieldsCons(lines);
      FieldsCons(lines + [l]);
      Assoc(FieldsOf([lines[0]]), FieldsOf(lines[1..]), FieldsOf([l]));
    }
  }

  lemma AddPrintedLine(fields: seq<Field>, l: Line)
    requires ValidLine(l)
    ensures AddLine(fields, LineText(l)) == fields + FieldsOf([l])
  {
    var text := LineText(l);
    if l.Named? {
      assert text[|l.name|] == ':';
      assert forall j :: 0 <= j < |l.name| ==> text[j] == l.name[j];
      assert Index(text, ':') == |l.name|;
      assert text[..|l.name|] == l.name && text[|l.name| + 1..] == l.value;
    }
    assert [l][1..] == [];
    assert FieldsOf([l]) == (if l.Named? then [Field(l.name, l.value)] else []) + [];
  }

  lemma RunPrintedLine(h: Head, text: Bytes)
    requires h.Head? && h.cur == [] && Plain(text) && text != []
    ensures Run(h, text + "\r\n")
         == if h.start.None? then Head(Some(text), h.fields, []) else Head(h.start, AddLine(h.fields, text), [])
    ensures End(h, text + "\r\n") == -1
  {
    assert text + "\r\n" == (text + "\r") + "\n";
    RunLine(h, text + "\r");
    assert [] + (text + "\r") == text + "\r";
    assert StripCr(text + "\r") == text;
  }

  lemma {:induction false} RunPrintedLines(h: Head, lines: seq<Line>)
    requires h.Head? && h.cur == [] && h.start.Some?
    requires ValidLines(lines)
    ensures Run(h, PrintLines(lines)) == h.(fields := h.fields + FieldsOf(lines))
    ensures End(h, PrintLines(lines)) == -1
    decreases |lines|
  {
    if lines == [] {
      assert h.fields + [] == h.fields;
    } else {
      var text, rest := LineText(lines[0]) + "\r\n", PrintLines(lines[1..]);
      RunPrintedLine(h, LineText(lines[0]));
      AddPrintedLine(h.fields, lines[0]);
      RunPrintedLines(Run(h, text), lines[1..]);
      RunConcat(h, text, rest);
      EndConcat(h, text, rest);
      FieldsCons(lines);
      Assoc(h.fields, FieldsOf([lines[0]]), FieldsOf(lines[1..]));
    }
  }

  lemma FieldsCons(lines: seq<Line>)
    requires lines != []
    ensures FieldsOf(lines) == FieldsOf([lines[0]]) + FieldsOf(lines[1..])
  {
    assert [lines[0]][1..] == [];
    var one: seq<Field> := if lines[0].Named? then [Field(lines[0].name, lines[0].value)] else [];
    assert one + [] == one;
  }

  /** A block ends exactly after its blank line, whatever follows, with exactly its fields. */
  lemma BlockRoundTrip(h: Head, lines: seq<Line>, rest: Bytes)
    requires h.Head? && h.cur == [] && h.start.Some?
    requires ValidLines(lines)
    ensures var text := PrintLines(lines) + "\r\n";
            End(h, text + rest) == |text| && Run(h, text) == h.(fields := h.fields + FieldsOf(lines))
  {
    var text, after := PrintLines(lines), h.(fields := h.fields + FieldsOf(lines));
    RunPrintedLines(h, lines);
    RunLine(after, "\r");
    assert "\r" + "\n" == "\r\n" && [] + "\r" == "\r";
    assert StripCr("\r") == [];
    RunConcat(h, text, "\r\n");
    EndConcat(h, text, "\r\n");
    EndConcat(h, text + "\r\n", rest);
  }

  function LineEnd(bare: bool): Bytes {
    if bare then "\n" else "\r\n"
  }

  /** Lines that end in CR LF or in a bare LF. */
  function PrintMixed(lines: seq<Line>, bare: seq<bool>): Bytes
    requires |lines| == |bare|
  {
    if lines == [] then [] else LineText(lines[0]) + LineEnd(bare[0]) + PrintMixed(lines[1..], bare[1..])
  }

  /** Text whose last byte cannot be taken for a part of the line end. */
  predicate NoCr(text: Bytes) {
    text != [] && text[|text| - 1] != '\r'
  }

  lemma RunBareLine(h: Head, text: Bytes)
    requires h.Head? && h.cur == [] && Plain(text) && NoCr(text)
    ensures Run(h, text + "\n")
         == if h.start.None? then Head(Some(text), h.fields, []) else Head(h.start, AddLine(h.fields, text), [])
    ensures End(h, text + "\n") == -1
  {
    RunLine(h, text);
    assert [] + text == text && StripCr(text) == text;
  }

  lemma {:induction false} RunMixedLines(h: Head, lines: seq<Line>, bare: seq<bool>)
    requires h.Head? && h.cur == [] && h.start.Some? && |lines| == |bare|
    requires ValidLines(lines) && forall i :: 0 <= i < |lines| && bare[i] ==> NoCr(LineText(lines[i]))
    ensures Run(h, PrintMixed(lines, bare)) == h.(fields := h.fields + FieldsOf(lines))
    ensures End(h, PrintMixed(lines, bare)) == -1
    decreases |lines|
  {
    if lines == [] {
      assert h.fields + [] == h.fields;
    } else {
      var text, rest := LineText(lines[0]) + LineEnd(bare[0]), PrintMixed(lines[1..], bare[1..]);
      if bare[0] {
        RunBareLine(h, LineText(lines[0]));
      } else {
        RunPrintedLine(h, LineText(lines[0]));
      }
      AddPrintedLine(h.fields, lines[0]);
      RunMixedLines(Run(h, text), lines[1..], bare[1..]);
      RunConcat(h, text, rest);
      EndConcat(h, text, rest);
      FieldsCons(lines);
      Assoc(h.fields, FieldsOf([lines[0]]), FieldsOf(lines[1..]));
    }
  }

  /** Every line may end in CR LF or in a bare LF, and so may the blank line. */
  lemma MixedRoundTrip(h: Head, lines: seq<Line>, bare: seq<bool>, lastBare: bool, rest: Bytes)
    requires h.Head? && h.cur == [] && h.start.Some? && |lines| == |bare|
    requires ValidLines(lines) && forall i :: 0 <= i < |lines| && bare[i] ==> NoCr(LineText(lines[i]))
    ensures var text := PrintMixed(lines, bare) + LineEnd(lastBare);
            End(h, text + rest) == |text| && Run(h, text) == h.(fields := h.fields + FieldsOf(lines))
  {
    var text, after := PrintMixed(lines, bare), h.(fields := h.fields + FieldsOf(lines));
    RunMixedLines(h, lines, bare);
    BlankLine(after, lastBare);
    RunConcat(h, text, LineEnd(lastBare));
    EndConcat(h, text, LineEnd(lastBare));
    EndConcat(h, text + LineEnd(lastBare), rest);
  }

  lemma BlankLine(h: Head, bare: bool)
    requires h.Head? && h.cur == [] && h.start.Some?
    ensures Run(h, LineEnd(bare)) == h && End(h, LineEnd(bare)) == |LineEnd(bare)|
  {
    if bare {
      RunLine(h, []);
      EmptyConcat("\n");
      assert StripCr([]) == [];
    } else {
      RunLine(h, "\r");
      assert "\r" + "\n" == "\r\n" && [] + "\r" == "\r";
      assert StripCr("\r") == [];
    }
  }

  /** The same for a whole request header. */
  lemma MixedRequestHead(requestLine: Bytes, bareFirst: bool, lines: seq<Line>, bare: seq<bool>, lastBare: bool,
                         rest: Bytes)
    requires Plain(requestLine) && requestLine != [] && (bareFirst ==> NoCr(requestLine)) && |lines| == |bare|
    requires ValidLines(lines) && forall i :: 0 <= i < |lines| && bare[i] ==> NoCr(LineText(lines[i]))
    ensures var text := requestLine + LineEnd(bareFirst) + (PrintMixed(lines, bare) + LineEnd(lastBare));
            End(NEW_REQUEST, text + rest) == |text|
            && Run(NEW_REQUEST, text) == Head(Some(requestLine), FieldsOf(lines), [])
  {
    if bareFirst {
      RunBareLine(NEW_REQUEST, requestLine);
    } else {
      RunPrintedLine(NEW_REQUEST, requestLine);
    }
    MixedRoundTrip(Head(Some(requestLine), [], []), lines, bare, lastBare, rest);
    assert [] + FieldsOf(lines) == FieldsOf(lines);
    RunAfterPrefix(NEW_REQUEST, requestLine + LineEnd(bareFirst), PrintMixed(lines, bare) + LineEnd(lastBare), rest);
  }

  /** Blank lines, then a request line, then a block. */
  function PrintRequestHead(blanks: nat, requestLine: Bytes, lines: seq<Line>): Bytes {
    if blanks > 0 then "\r\n" + PrintRequestHead(blanks - 1, requestLine, lines)
    else requestLine + "\r\n" + (PrintLines(lines) + "\r\n")
  }

  lemma RunBlankBeforeRequest(data: Bytes)
    ensures Run(NEW_REQUEST, "\r\n" + data) == Run(NEW_REQUEST, data)
    ensures End(NEW_REQUEST, "\r\n" + data) == var n := End(NEW_REQUEST, data); if n < 0 then -1 else n + 2
  {
    RunLine(NEW_REQUEST, "\r");
    assert "\r" + "\n" == "\r\n";
    assert StripCr([] + "\r") == [];
    RunConcat(NEW_REQUEST, "\r\n", data);
    EndConcat(NEW_REQUEST, "\r\n", data);
  }

  lemma RunAfterPrefix(h: Head, prefix: Bytes, block: Bytes, rest: Bytes)
    requires End(h, prefix) == -1 && End(Run(h, prefix), block + rest) == |block|
    ensures End(h, prefix + block + rest) == |prefix + block|
    ensures Run(h, prefix + block) == Run(Run(h, prefix), block)
  {
    Assoc(prefix, block, rest);
    RunConcat(h, prefix, block);
    EndConcat(h, prefix, block + rest);
  }

  /** Blank lines before the request line are skipped (section 3.5 of RFC 7230). */
  lemma {:induction false} RequestHeadRoundTrip(blanks: nat, requestLine: Bytes, lines: seq<Line>, rest: Bytes)
    requires Plain(requestLine) && requestLine != []
    requires ValidLines(lines)
    ensures var text := PrintRequestHead(blanks, requestLine, lines);
            End(NEW_REQUEST, text + rest) == |text|
            && Run(NEW_REQUEST, text) == Head(Some(requestLine), FieldsOf(lines), [])
    decreases blanks
  {
    if blanks > 0 {
      var more := PrintRequestHead(blanks - 1, requestLine, lines);
      RequestHeadRoundTrip(blanks - 1, requestLine, lines, rest);
      RunBlankBeforeRequest(more);
      RunBlankBeforeRequest(more + rest);
      assert "\r\n" + more + rest == "\r\n" + (more + rest);
    } else {
      RunPrintedLine(NEW_REQUEST, requestLine);
      BlockRoundTrip(Head(Some(requestLine), [], []), lines, rest);
      assert [] + FieldsOf(lines) == FieldsOf(lines);
      RunAfterPrefix(NEW_REQUEST, requestLine + "\r\n", PrintLines(lines) + "\r\n", rest);
    }
  }

  // ------------------------------------------------------------------------------------------------------
  // Looking a field up

  /** Index of the first field of that name, compared without case, or the number of fields. */
  function FirstNamed(fields: seq<Field>, name: Bytes): (i: nat)
    ensures i <= |fields|
    ensures forall j :: 0 <= j < i ==> !EqualIgnoreCase(fields[j].name, name)
    ensures i < |fields| ==> EqualIgnoreCase(fields[i].name, name)
  {
    if fields == [] || EqualIgnoreCase(fields[0].name, name) then 0 else 1 + FirstNamed(fields[1..], name)
  }

  lemma {:induction false} FirstNamedUnique(fields: seq<Field>, name: Bytes, i: nat)
    requires i <= |fields|
    requires forall j :: 0 <= j < i ==> !EqualIgnoreCase(fields[j].name, name)
    requires i < |fields| ==> EqualIgnoreCase(fields[i].name, name)
    ensures FirstNamed(fields, name) == i
    decreases i
  {
    if i > 0 {
      FirstNamedUnique(fields[1..], name, i - 1);
    }
  }

  lemma FirstNamedSnoc(fields: seq<Field>, f: Field, name: Bytes)
    ensures FirstNamed(fields + [f], name) ==
      if FirstNamed(fields, name) < |fields| || EqualIgnoreCase(f.name, name) then FirstNamed(fields, name)
      else |fields| + 1
  {
    var i := FirstNamed(fields, name);
    var all := fields + [f];
    assert forall j :: 0 <= j < |fields| ==> all[j] == fields[j];
    FirstNamedUnique(all, name, if i < |fields| || EqualIgnoreCase(f.name, name) then i else |fields| + 1);
  }

  /** The value of the first field of that name, without leading blanks. */
  function Lookup(fields: seq<Field>, name: Bytes): Option<Bytes> {
    var i := FirstNamed(fields, name);
    if i < |fields| then Some(SkipBlanks(fields[i].value)) else None
  }

  function StartsIgnoreCase(s: Bytes, prefix: Bytes): bool {
    |s| >= |prefix| && EqualIgnoreCase(s[..|prefix|], prefix)
  }

  function SkipSeparators(s: Bytes): (r: Bytes)
    ensures |r| <= |s| && (r != [] ==> r[0] != ',')
  {
    if s != [] && (s[0] == ',' || IsBlank(s[0])) then SkipSeparators(s[1..]) else s
  }

  /** Some item of the comma-separated list starts with "chunked". */
  predicate HasChunked(list: Bytes)
    decreases |list|
  {
    var item := SkipSeparators(list);
    StartsIgnoreCase(item, "chunked") ||
    (Index(item, ',') < |item| && HasChunked(item[Index(item, ',')..]))
  }

  predicate IsChunked(fields: seq<Field>) {
    var val := Lookup(fields, "Transfer-Encoding");
    val.Some? && HasChunked(val.value)
  }


  lemma {:induction false} SkipWritten(gap: Bytes, v: Bytes)
    requires (forall i :: 0 <= i < |gap| ==> gap[i] in " \t") && (v != [] ==> v[0] !in " \t")
    ensures SkipBlanks(gap + v) == v
    decreases |gap|
  {
    if gap == [] {
      EmptyConcat(v);
    } else {
      ConsConcat(gap, v);
      SkipWritten(gap[1..], v);
    }
  }

  /** The first field of that name, in any case, gives the value, without the blanks and tabs before it. */
  lemma LookupWritten(fields: seq<Field>, name: Bytes, i: nat, gap: Bytes, v: Bytes)
    requires i < |fields| && SameName(fields[i].name, name)
    requires forall j :: 0 <= j < i ==> !SameName(fields[j].name, name)
    requires fields[i].value == gap + v
    requires (forall k :: 0 <= k < |gap| ==> gap[k] in " \t") && (v != [] ==> v[0] !in " \t")
    ensures Lookup(fields, name) == Some(v)
  {
    hide EqualIgnoreCase, SameLetter;
    forall j | 0 <= j <= i ensures EqualIgnoreCase(fields[j].name, name) <==> SameName(fields[j].name, name) {
      CaseIgnored(fields[j].name, name);
    }
    FirstNamedUnique(fields, name, i);
    SkipWritten(gap, v);
  }

  lemma NotFound(fields: seq<Field>, name: Bytes)
    requires forall j :: 0 <= j < |fields| ==> !SameName(fields[j].name, name)
    ensures Lookup(fields, name) == None
  {
    hide EqualIgnoreCase, SameLetter;
    forall j | 0 <= j < |fields| ensures !EqualIgnoreCase(fields[j].name, name) {
      CaseIgnored(fields[j].name, name);
    }
    FirstNamedUnique(fields, name, |fields|);
  }

  // ------------------------------------------------------------------------------------------------------
  // Lists of codings

  /** Items of a list, each after a separator of commas, blanks and tabs with at least one comma but the first. */
  function PrintItems(gaps: seq<Bytes>, items: seq<Bytes>): Bytes
    requires |gaps| == |items|
  {
    if items == [] then [] else gaps[0] + items[0] + PrintItems(gaps[1..], items[1..])
  }

  predicate IsGap(gap: Bytes, first: bool) {
    && (forall i :: 0 <= i < |gap| ==> gap[i] in ", \t")
    && (first || (gap != [] && gap[0] == ','))
  }

  predicate IsItem(item: Bytes) {
    item != [] && ',' !in item && item[0] !in " \t"
  }

  predicate ValidItems(gaps: seq<Bytes>, items: seq<Bytes>, first: bool)
    requires |gaps| == |items|
  {
    && (forall i :: 0 <= i < |items| ==> IsItem(items[i]))
    && (forall i :: 0 <= i < |gaps| ==> IsGap(gaps[i], first && i == 0))
  }

  lemma {:induction false} SkipGap(gap: Bytes, s: Bytes)
    requires (forall i :: 0 <= i < |gap| ==> gap[i] in ", \t") && s != [] && s[0] !in ", \t"
    ensures SkipSeparators(gap + s) == s
    decreases |gap|
  {
    if gap == [] {
      EmptyConcat(s);
    } else {
      ConsConcat(gap, s);
      SkipGap(gap[1..], s);
    }
  }

  lemma StartsWithItem(item: Bytes, rest: Bytes)
    requires ',' !in item && (rest != [] ==> rest[0] == ',')
    ensures StartsIgnoreCase(item + rest, "chunked") <==> StartsIgnoreCase(item, "chunked")
    ensures Index(item + rest, ',') == |item|
  {
    var s := item + rest;
    assert forall j :: 0 <= j < |item| ==> s[j] == item[j];
    assert rest != [] ==> s[|item|] == ',';
    if |item| >= 7 {
      assert s[..7] == item[..7];
    } else if |s| >= 7 {
      assert s[..7][|item|] == ',';
      assert Lower(',') != Lower("chunked"[|item|]);
    }
  }

  /** A list is chunked exactly when one of its items begins with "chunked", in any case. */
  lemma {:induction false} ChunkedIff(gaps: seq<Bytes>, items: seq<Bytes>, first: bool)
    requires |gaps| == |items| && ValidItems(gaps, items, first)
    ensures HasChunked(PrintItems(gaps, items)) <==>
      exists i :: 0 <= i < |items| && StartsIgnoreCase(items[i], "chunked")
    decreases |items|
  {
    hide StartsIgnoreCase;
    if items == [] {
      NothingChunked();
    } else {
      var rest := PrintItems(gaps[1..], items[1..]);
      ChunkedIff(gaps[1..], items[1..], false);
      assert rest != [] ==> rest[0] == gaps[1][0] == ',';
      SkipGap(gaps[0], items[0] + rest);
      Assoc(gaps[0], items[0], rest);
      StartsWithItem(items[0], rest);
      assert (items[0] + rest)[|items[0]|..] == rest;
      OneMoreItem(items);
    }
  }

  lemma OneMoreItem(items: seq<Bytes>)
    requires items != []
    ensures (exists i :: 0 <= i < |items| && StartsIgnoreCase(items[i], "chunked"))
        <==> StartsIgnoreCase(items[0], "chunked")
             || exists i :: 0 <= i < |items[1..]| && StartsIgnoreCase(items[1..][i], "chunked")
  {
    hide StartsIgnoreCase;
    forall i | 0 <= i < |items| && StartsIgnoreCase(items[i], "chunked")
      ensures i == 0 || StartsIgnoreCase(items[1..][i - 1], "chunked")
    {
    }
    forall i | 0 <= i < |items[1..]| && StartsIgnoreCase(items[1..][i], "chunked")
      ensures StartsIgnoreCase(items[i + 1], "chunked")
    {
    }
  }

  lemma NothingChunked()
    ensures !HasChunked([])
  {
  }
}
