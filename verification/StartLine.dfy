/** Decoding the request line, in place (decodeRequestStartLine in src/requestheader.c). */
module StartLines {
  import opened ByteStrings
  import opened Numerals

  datatype StartLine = StartLine(verb: Bytes, path: Bytes, query: Option<Bytes>, version: Bytes)

  /** What a percent sign stands for, given the at most two characters after it. */
  function Unescape(digits: Bytes): char {
    (StrToUL(digits, 16) % 256) as char
  }

  predicate EndsPath(c: char) {
    c == ' ' || c == '?'
  }

  /** One character or escape at k. */
  function UnitLength(text: Bytes, k: nat): (n: nat)
    requires k < |text|
    ensures 0 < n && k + n <= |text|
  {
    if text[k] != '%' then 1 else if k + 3 <= |text| then 3 else |text| - k
  }

  function UnitChar(text: Bytes, k: nat): char
    requires k < |text|
  {
    if text[k] == '%' then Unescape(text[k + 1..k + UnitLength(text, k)]) else text[k]
  }

  /** The decoded path that starts at k, and the index of the blank or question mark that ends it. */
  function DecodePath(text: Bytes, k: nat): (r: (Bytes, nat))
    requires k <= |text|
    ensures k + |r.0| <= r.1 <= |text|
    ensures r.1 < |text| ==> EndsPath(text[r.1])
    decreases |text| - k
  {
    if k == |text| || EndsPath(text[k]) then ([], k)
    else
      var r := DecodePath(text, k + UnitLength(text, k));
      ([UnitChar(text, k)] + r.0, r.1)
  }

  /** The query that starts after a question mark at k, up to the next blank. */
  function QueryEnd(line: Bytes, k: nat): (e: nat)
    requires k <= |line|
    ensures k <= e <= |line|
  {
    if k < |line| && line[k] == '?' then IndexFrom(line, ' ', k + 1) else k
  }

  /** What follows " HTTP/" at k, or nothing. */
  function VersionAt(line: Bytes, k: nat): Bytes
    requires k <= |line|
  {
    if k + 6 <= |line| && line[k..k + 6] == " HTTP/" then line[k + 6..] else []
  }

  function Parse(line: Bytes): StartLine {
    var i := Index(line, ' ');
    if i == |line| then StartLine(line, "/", None, [])
    else
      var d := DecodePath(line, i + 1);
      var e := QueryEnd(line, d.1);
      StartLine(line[..i], CStr(d.0), if e > d.1 then Some(line[d.1 + 1..e]) else None, VersionAt(line, e))
  }

  // ------------------------------------------------------------------------------------------------------
  // The in-place decoder

  /** The decoding loop: reads at src, writes at dest, and never writes past what it has read. */
  method DecodePathInPlace(buf: array<char>, start: nat, ghost line: Bytes) returns (src: nat, dest: nat)
    requires start < buf.Length && buf[..] == line + "\0" && NulFree(line)
    modifies buf
    ensures start <= dest <= src < buf.Length
    ensures buf[start..dest] == DecodePath(line, start).0 && src == DecodePath(line, start).1
    ensures forall k :: 0 <= k < start || src <= k < buf.Length ==> buf[k] == old(buf[k])
  {
    hide UnitChar, UnitLength;
    src, dest := start, start;
    ghost var out := [];
    EmptyConcat(DecodePath(line, start).0);
    while buf[src] != '\0' && !EndsPath(buf[src])
      invariant start <= dest <= src < buf.Length && dest == start + |out|
      invariant forall k :: 0 <= k < start || src <= k < buf.Length ==> buf[k] == old(buf[k])
      invariant buf[start..dest] == out
      invariant DecodePath(line, start) == (out + DecodePath(line, src).0, DecodePath(line, src).1)
      decreases buf.Length - src
    {
      assert buf[src] == line[src];
      var n, c := DecodeOne(buf, src, line);
      Assoc(out, [c], DecodePath(line, src + n).0);
      buf[dest] := c;
      assert buf[start..dest + 1] == out + [c];
      out := out + [c];
      src, dest := src + n, dest + 1;
    }
    assert src < |line| ==> buf[src] == line[src];
    EmptyConcat(out);
  }

  /** Reads one character or escape. */
  method DecodeOne(buf: array<char>, src: nat, ghost line: Bytes) returns (n: nat, c: char)
    requires src < |line| && |line| + 1 == buf.Length
    requires forall j :: src <= j < |line| ==> buf[j] == line[j]
    ensures n == UnitLength(line, src) && c == UnitChar(line, src)
  {
    n, c := 1, buf[src];
    if c == '%' {
      n := if src + 3 <= buf.Length - 1 then 3 else buf.Length - 1 - src;
      assert buf[src + 1..src + n] == line[src + 1..src + n];
      c := Unescape(buf[src + 1..src + n]);
    }
  }

  // A char pointer of RequestHeader: into its buffer, to a literal, or NULL.
  datatype Ptr = Null | At(offset: nat) | Literal(text: Bytes)

  /** The C string a pointer refers to. */
  function Deref(buf: Bytes, p: Ptr): Option<Bytes>
    requires p.At? ==> p.offset <= |buf|
  {
    match p
    case Null => None
    case At(offset) => Some(CStr(buf[offset..]))
    case Literal(text) => Some(text)
  }

  predicate PtrInside(p: Ptr, length: nat) {
    p.At? ==> p.offset < length
  }

  lemma CStringUpTo(buf: Bytes, at: nat, end: nat)
    requires at <= end < |buf| && buf[end] == '\0'
    ensures CStr(buf[at..]) == CStr(buf[at..end])
  {
    var s, t := buf[at..], buf[at..end];
    var i, j := Index(s, '\0'), Index(t, '\0');
    assert s[end - at] == '\0';
    assert forall k :: 0 <= k < |t| ==> t[k] == s[k];
    assert i == j;
    assert s[..i] == t[..j];
  }

  /** Text of the line that is still in place, ended by a NUL. */
  lemma KeptText(buf: Bytes, line: Bytes, at: nat, end: nat)
    requires at <= end <= |line| < |buf| && buf[end] == '\0' && NulFree(line)
    requires forall k :: at <= k < end ==> buf[k] == line[k]
    ensures CStr(buf[at..]) == line[at..end]
  {
    assert buf[at..end] == line[at..end];
    CStringUpTo(buf, at, end);
  }

  /** Splits "GET /path?query HTTP/1.1" in its buffer, writing NULs between the parts. */
  method DecodeRequestStartLine(buf: array<char>, ghost line: Bytes) returns (path: Ptr, query: Ptr, version: Ptr)
    requires buf.Length > 0 && buf[..] == line + "\0" && NulFree(line)
    modifies buf
    ensures PtrInside(path, buf.Length) && PtrInside(query, buf.Length) && PtrInside(version, buf.Length)
    ensures CStr(buf[..]) == Parse(line).verb && Deref(buf[..], path) == Some(Parse(line).path)
    ensures Deref(buf[..], query) == Parse(line).query && Deref(buf[..], version) == Some(Parse(line).version)
  {
    hide DecodePath, VersionAt, QueryEnd, CStr;
    var i := Index(buf[..buf.Length - 1], ' ');
    assert buf[..buf.Length - 1] == line;
    if i == buf.Length - 1 {
      KeptText(buf[..], line, 0, i);
      assert buf[..][0..] == buf[..] && line[0..i] == line;
      path, query, version := Literal("/"), Null, Literal("");
    } else {
      query, version := SplitParts(buf, i, line);
      path := At(i + 1);
    }
  }

  method SplitParts(buf: array<char>, i: nat, ghost line: Bytes) returns (query: Ptr, version: Ptr)
    requires buf[..] == line + "\0" && NulFree(line) && i == Index(line, ' ') < |line|
    modifies buf
    ensures |line| + 1 == buf.Length && PtrInside(query, buf.Length) && PtrInside(version, buf.Length)
    ensures CStr(buf[..]) == line[..i] && CStr(buf[..][i + 1..]) == CStr(DecodePath(line, i + 1).0)
    ensures var d := DecodePath(line, i + 1).1;
            var e := QueryEnd(line, d);
            && Deref(buf[..], query) == (if e > d then Some(line[d + 1..e]) else None)
            && Deref(buf[..], version) == Some(VersionAt(line, e))
  {
    hide DecodePath, CStr, QueryEnd, VersionAt, NulFree;
    var d, c := SplitPath(buf, i, line);
    ghost var before := buf[..];
    var src, csrc;
    query, src, csrc := SplitQuery(buf, d, c, line);
    SamePrefix(before, buf[..], i, d);
    version := ReadVersion(buf, src, csrc, line);
  }

  /** Decodes the path and ends the verb and the path with NULs; csrc is the character that ended the path. */
  method SplitPath(buf: array<char>, i: nat, ghost line: Bytes) returns (src: nat, csrc: char)
    requires buf[..] == line + "\0" && NulFree(line) && i == Index(line, ' ') < |line|
    modifies buf
    ensures |line| + 1 == buf.Length && src == DecodePath(line, i + 1).1
    ensures csrc == if src < |line| then line[src] else '\0'
    ensures CStr(buf[..]) == line[..i] && CStr(buf[..][i + 1..]) == CStr(DecodePath(line, i + 1).0)
    ensures buf[i] == '\0' && exists e :: i < e <= src && buf[e] == '\0'
    ensures forall k :: src < k < |line| ==> buf[k] == line[k]
    ensures buf[|line|] == '\0'
  {
    hide DecodePath, CStr;
    var d, dest := DecodePathInPlace(buf, i + 1, line);
    ghost var decoded := DecodePath(line, i + 1).0;
    assert forall k :: d <= k < |line| ==> buf[k] == line[k];
    assert buf[|line|] == '\0';
    src, csrc := d, buf[d];
    buf[i] := '\0';
    buf[dest] := '\0';
    assert buf[..][i + 1..dest] == decoded;
    CStringUpTo(buf[..], i + 1, dest);
    KeptText(buf[..], line, 0, i);
    assert buf[..][0..] == buf[..] && line[0..i] == line[..i];
  }

  /** Ends the query, when there is one, with a NUL. */
  method SplitQuery(buf: array<char>, from: nat, c: char, ghost line: Bytes) returns (query: Ptr, src: nat, csrc: char)
    requires |line| + 1 == buf.Length && from <= |line| && NulFree(line) && buf[|line|] == '\0'
    requires c == if from < |line| then line[from] else '\0'
    requires forall k :: from < k < |line| ==> buf[k] == line[k]
    modifies buf
    ensures src == QueryEnd(line, from) && csrc == (if src < |line| then line[src] else '\0')
    ensures query == if src > from then At(from + 1) else Null
    ensures src > from ==> CStr(buf[..][from + 1..]) == line[from + 1..src]
    ensures forall k :: 0 <= k <= from ==> buf[k] == old(buf[k])
    ensures buf[|line|] == '\0' && forall k :: src < k < |line| ==> buf[k] == line[k]
  {
    query, src, csrc := Null, from, c;
    if c == '?' {
      query := At(from + 1);
      src := FindBlank(buf, from + 1, line);
      csrc := buf[src];
      buf[src] := '\0';
      KeptText(buf[..], line, from + 1, src);
    }
  }

  /** Two C strings behind one another are not affected by changes behind their NULs. */
  lemma SamePrefix(a: Bytes, b: Bytes, i: nat, end: nat)
    requires i < end < |a| == |b| && (forall k :: 0 <= k <= end ==> a[k] == b[k])
    requires a[i] == '\0' && exists e :: i < e <= end && a[e] == '\0'
    ensures CStr(a) == CStr(b) && CStr(a[i + 1..]) == CStr(b[i + 1..])
  {
    SameString(a, b, 0, i);
    assert a[0..] == a && b[0..] == b;
    var e :| i < e <= end && a[e] == '\0';
    SameString(a, b, i + 1, e);
  }

  lemma SameString(a: Bytes, b: Bytes, at: nat, end: nat)
    requires at <= end < |a| == |b| && a[end] == '\0' && (forall k :: at <= k <= end ==> a[k] == b[k])
    ensures CStr(a[at..]) == CStr(b[at..])
  {
    CStringUpTo(a, at, end);
    CStringUpTo(b, at, end);
    assert a[at..end] == b[at..end];
  }

  method ReadVersion(buf: array<char>, src: nat, csrc: char, ghost line: Bytes) returns (version: Ptr)
    requires |line| + 1 == buf.Length && src <= |line| && csrc == (if src < |line| then line[src] else '\0')
    requires NulFree(line)
    requires buf[|line|] == '\0' && forall k :: src < k < |line| ==> buf[k] == line[k]
    ensures PtrInside(version, buf.Length) && Deref(buf[..], version) == Some(VersionAt(line, src))
  {
    version := Literal("");
    if csrc == ' ' && src + 6 < buf.Length {
      assert buf[src + 1..src + 6] == line[src + 1..src + 6];
      assert line[src..src + 6] == " " + line[src + 1..src + 6];
      assert line[src..src + 6][1..] == line[src + 1..src + 6];
      if buf[src + 1..src + 6] == "HTTP/" {
        version := At(src + 6);
        KeptText(buf[..], line, src + 6, |line|);
        assert line[src + 6..|line|] == line[src + 6..];
      }
    }
  }

  /** strcspn(src, " ") */
  method FindBlank(buf: array<char>, from: nat, ghost line: Bytes) returns (src: nat)
    requires from <= |line| && |line| + 1 == buf.Length && buf[|line|] == '\0' && NulFree(line)
    requires forall j :: from <= j < |line| ==> buf[j] == line[j]
    ensures src == IndexFrom(line, ' ', from)
  {
    src := from;
    while buf[src] != '\0' && buf[src] != ' '
      invariant from <= src <= |line| && IndexFrom(line, ' ', from) == IndexFrom(line, ' ', src)
      decreases buf.Length - src
    {
      src := src + 1;
    }
    assert src < |line| ==> buf[src] == line[src];
  }

  // ------------------------------------------------------------------------------------------------------
  // Round trip with percent-encoding (section 2.1 of RFC 3986)

  // One character of a path as it is written in the request line.
  datatype Unit = Verbatim(c: char) | Escaped(high: char, low: char)

  function Text(u: Unit): Bytes {
    match u
    case Verbatim(c) => [c]
    case Escaped(high, low) => ['%', high, low]
  }

  function Value(u: Unit): int {
    match u
    case Verbatim(c) => c as int
    case Escaped(high, low) => DigitVal(high, 16) * 16 + DigitVal(low, 16)
  }

  predicate ValidUnit(u: Unit) {
    match u
    case Verbatim(c) => c != ' ' && c != '?' && c != '%' && c != '\0'
    case Escaped(high, low) => DigitVal(high, 16) >= 0 && DigitVal(low, 16) >= 0
  }

  predicate ValidUnits(us: seq<Unit>) {
    forall i :: 0 <= i < |us| ==> ValidUnit(us[i])
  }

  function PrintPath(us: seq<Unit>): Bytes {
    if us == [] then [] else Text(us[0]) + PrintPath(us[1..])
  }

  function CharOf(u: Unit): char
    requires ValidUnit(u)
  {
    Value(u) as char
  }

  function Meaning(us: seq<Unit>): Bytes
    requires ValidUnits(us)
  {
    if us == [] then [] else [CharOf(us[0])] + Meaning(us[1..])
  }

  lemma TwoHexDigits(high: char, low: char)
    requires DigitVal(high, 16) >= 0 && DigitVal(low, 16) >= 0
    ensures Unescape([high, low]) as int == DigitVal(high, 16) * 16 + DigitVal(low, 16)
  {
    var s := [high, low];
    assert s[1..] == [low] && [low][1..] == [];
    assert SkipSpace(s) == s;
    assert ReadDigits(s, 16, 0) == ReadDigits([low], 16, DigitVal(high, 16));
    assert ReadDigits([low], 16, DigitVal(high, 16))
        == ReadDigits([], 16, DigitVal(high, 16) * 16 + DigitVal(low, 16));
  }

  /** One written unit is decoded to its value. */
  lemma DecodePrintedUnit(line: Bytes, k: nat, u: Unit)
    requires ValidUnit(u) && k + |Text(u)| <= |line| && line[k..k + |Text(u)|] == Text(u)
    ensures !EndsPath(line[k]) && UnitLength(line, k) == |Text(u)| && UnitChar(line, k) == CharOf(u)
  {
    var t := line[k..k + |Text(u)|];
    assert line[k] == t[0];
    if u.Escaped? {
      assert line[k + 1..k + 3] == t[1..] == [u.high, u.low];
      TwoHexDigits(u.high, u.low);
    }
  }

  lemma {:induction false} DecodePrinted(line: Bytes, k: nat, us: seq<Unit>)
    requires ValidUnits(us) && k + |PrintPath(us)| <= |line| && line[k..k + |PrintPath(us)|] == PrintPath(us)
    requires var e := k + |PrintPath(us)|; e < |line| ==> EndsPath(line[e])
    ensures DecodePath(line, k) == (Meaning(us), k + |PrintPath(us)|)
    decreases |us|
  {
    hide CharOf, UnitChar, UnitLength, ValidUnit, EndsPath, Text;
    if us != [] {
      var t, rest := Text(us[0]), PrintPath(us[1..]);
      RangeOfConcat(line, k, t, rest);
      DecodePrintedUnit(line, k, us[0]);
      DecodePrinted(line, k + |t|, us[1..]);
    }
  }

  function QueryText(query: Option<Bytes>): Bytes {
    if query.Some? then "?" + query.value else ""
  }

  /** "VERB path?query HTTP/version" */
  function PrintStartLine(verb: Bytes, us: seq<Unit>, query: Option<Bytes>, version: Bytes): Bytes {
    verb + " " + PrintPath(us) + QueryText(query) + " HTTP/" + version
  }

  /** A written request line is parsed into its parts, the path decoded; an escaped NUL ends the path. */
  lemma StartLineRoundTrip(verb: Bytes, us: seq<Unit>, query: Option<Bytes>, version: Bytes)
    requires ' ' !in verb && ValidUnits(us) && (query.Some? ==> ' ' !in query.value)
    ensures Parse(PrintStartLine(verb, us, query, version)) == StartLine(verb, CStr(Meaning(us)), query, version)
  {
    var tail := " HTTP/" + version;
    var line := PrintStartLine(verb, us, query, version);
    Assoc(verb + " " + PrintPath(us) + QueryText(query), " HTTP/", version);
    LineLayout(verb, PrintPath(us), QueryText(query), tail);
    ParseLayout(line, |verb|, us, query, version);
    assert line[..|verb|] == verb;
  }

  /** The parts of a line whose layout is known. */
  lemma ParseLayout(line: Bytes, i: nat, us: seq<Unit>, query: Option<Bytes>, version: Bytes)
    requires ValidUnits(us) && (query.Some? ==> ' ' !in query.value)
    requires i < |line| && i == Index(line, ' ')
    requires var d := i + 1 + |PrintPath(us)|;
      d <= |line| && line[i + 1..d] == PrintPath(us) && line[d..] == QueryText(query) + (" HTTP/" + version)
    ensures Parse(line) == StartLine(line[..i], CStr(Meaning(us)), query, version)
  {
    var d := i + 1 + |PrintPath(us)|;
    PathEnds(line, d, query, version);
    DecodePrinted(line, i + 1, us);
    QueryAndVersion(line, d, query, version);
    ParseParts(line, i, Meaning(us), d, query, version);
  }

  lemma ParseParts(line: Bytes, i: nat, path: Bytes, d: nat, query: Option<Bytes>, version: Bytes)
    requires i < |line| && i == Index(line, ' ') && DecodePath(line, i + 1) == (path, d)
    requires var e := QueryEnd(line, d); query == (if e > d then Some(line[d + 1..e]) else None)
    requires VersionAt(line, QueryEnd(line, d)) == version
    ensures Parse(line) == StartLine(line[..i], CStr(path), query, version)
  {
  }

  lemma PathEnds(line: Bytes, d: nat, query: Option<Bytes>, version: Bytes)
    requires d <= |line| && line[d..] == QueryText(query) + (" HTTP/" + version)
    ensures d < |line| && EndsPath(line[d])
  {
    assert line[d] == line[d..][0];
  }

  lemma LineLayout(a: Bytes, b: Bytes, c: Bytes, d: Bytes)
    requires ' ' !in a
    ensures var line := a + " " + b + c + d;
            line[|a| + 1..|a| + 1 + |b|] == b && line[|a| + 1 + |b|..] == c + d
            && line[..|a|] == a && Index(line, ' ') == |a|
  {
    var line := a + " " + b + c + d;
    assert forall j :: 0 <= j < |a| ==> line[j] == a[j];
    assert line[|a|] == ' ';
    Assoc(a + " " + b, c, d);
  }

  lemma QueryAndVersion(line: Bytes, d: nat, query: Option<Bytes>, version: Bytes)
    requires query.Some? ==> ' ' !in query.value
    requires d <= |line| && line[d..] == QueryText(query) + (" HTTP/" + version)
    ensures var e := QueryEnd(line, d);
            && query == (if e > d then Some(line[d + 1..e]) else None)
            && VersionAt(line, e) == version
  {
    var s, tail := line[d..], " HTTP/" + version;
    assert line[d] == s[0];
    var e := d + if query.Some? then 1 + |query.value| else 0;
    if query.Some? {
      assert line[d + 1..e] == s[1..e - d] == query.value;
      BlankAt(line, d + 1, e, s[e - d]);
    }
    assert line[e..] == s[e - d..] == tail;
    assert line[e..e + 6] == tail[..6] && line[e + 6..] == tail[6..];
  }

  lemma BlankAt(line: Bytes, from: nat, e: nat, c: char)
    requires from <= e < |line| && line[e] == ' ' && ' ' !in line[from..e]
    ensures IndexFrom(line, ' ', from) == e
  {
    var i := IndexFrom(line, ' ', from);
    assert forall j :: from <= j < e ==> line[j] == line[from..e][j - from];
  }

  predicate Unreserved(c: char) {
    'a' <= c <= 'z' || 'A' <= c <= 'Z' || '0' <= c <= '9' || c == '-' || c == '.' || c == '_' || c == '~' || c == '/'
  }

  function Escape(c: char): Unit {
    Escaped(DigitChar(c as int / 16 % 16), DigitChar(c as int % 16))
  }

  function UnitFor(c: char): Unit {
    if Unreserved(c) then Verbatim(c) else Escape(c)
  }

  lemma EscapedMeans(high: char, low: char, v: nat)
    requires v < 256 && DigitVal(high, 16) >= 0 && DigitVal(low, 16) >= 0
    requires DigitVal(high, 16) * 16 + DigitVal(low, 16) == v
    ensures ValidUnit(Escaped(high, low)) && CharOf(Escaped(high, low)) == v as char
  {
  }

  lemma VerbatimMeans(c: char)
    requires Unreserved(c)
    ensures ValidUnit(Verbatim(c)) && CharOf(Verbatim(c)) == c
  {
  }

  lemma EscapeMeans(c: char)
    requires '\0' < c < 256 as char
    ensures ValidUnit(Escape(c)) && CharOf(Escape(c)) == c
  {
    hide DigitVal, DigitChar, ValidUnit, CharOf;
    var v := c as int;
    TwoPlaces(v);
    DigitRoundTrip(v / 16 % 16, 16);
    DigitRoundTrip(v % 16, 16);
    EscapedMeans(DigitChar(v / 16 % 16), DigitChar(v % 16), v);
  }

  lemma TwoPlaces(v: nat)
    requires v < 256
    ensures v / 16 % 16 < 16 && v / 16 % 16 * 16 + v % 16 == v
  {
  }

  lemma UnitForMeans(c: char)
    requires '\0' < c < 256 as char
    ensures ValidUnit(UnitFor(c)) && CharOf(UnitFor(c)) == c
  {
    if Unreserved(c) {
      VerbatimMeans(c);
    } else {
      EscapeMeans(c);
    }
  }

  /** Percent-encoding of a path: everything but unreserved characters and slashes is escaped. */
  function Encode(path: Bytes): seq<Unit> {
    if path == [] then [] else [UnitFor(path[0])] + Encode(path[1..])
  }

  lemma {:induction false} EncodeMeans(path: Bytes)
    requires forall i :: 0 <= i < |path| ==> '\0' < path[i] < 256 as char
    ensures ValidUnits(Encode(path)) && Meaning(Encode(path)) == path
    decreases |path|
  {
    if path != [] {
      UnitForMeans(path[0]);
      EncodeMeans(path[1..]);
      assert Encode(path)[1..] == Encode(path[1..]);
    }
  }

  /** Decoding a request line with the percent-encoding of any NUL-free path of bytes returns that path. */
  lemma EncodeRoundTrip(verb: Bytes, path: Bytes, query: Option<Bytes>, version: Bytes)
    requires forall i :: 0 <= i < |path| ==> '\0' < path[i] < 256 as char
    requires ' ' !in verb && (query.Some? ==> ' ' !in query.value)
    ensures Parse(PrintStartLine(verb, Encode(path), query, version)) == StartLine(verb, path, query, version)
  {
    EncodeMeans(path);
    StartLineRoundTrip(verb, Encode(path), query, version);
  }

  /** A way to write c in a path: as it is, or by two hex digits in any case. */
  predicate Spells(u: Unit, c: char) {
    match u
    case Verbatim(v) => v == c && c !in " ?%\0"
    case Escaped(high, low) =>
      c as int < 256 && IsHexDigit(high, c as int / 16) && IsHexDigit(low, c as int % 16)
  }

  lemma SpelledUnit(u: Unit, c: char)
    requires Spells(u, c)
    ensures ValidUnit(u) && CharOf(u) == c
  {
    if u.Escaped? {
      HexDigitValue(u.high, c as int / 16, 16);
      HexDigitValue(u.low, c as int % 16, 16);
      EscapedMeans(u.high, u.low, c as int);
    }
  }

  lemma {:induction false} SpelledPath(us: seq<Unit>, path: Bytes)
    requires |us| == |path| && forall i :: 0 <= i < |us| ==> Spells(us[i], path[i])
    ensures ValidUnits(us) && Meaning(us) == path
    decreases |us|
  {
    hide Spells, CharOf, ValidUnit;
    if us != [] {
      SpelledUnit(us[0], path[0]);
      SpelledPath(us[1..], path[1..]);
      assert us == [us[0]] + us[1..];
    }
  }

  /** A path is decoded from every way to write it, with digits of escapes in any case; an escaped NUL ends it. */
  lemma AnySpelling(verb: Bytes, us: seq<Unit>, path: Bytes, query: Option<Bytes>, version: Bytes)
    requires ' ' !in verb && (query.Some? ==> ' ' !in query.value)
    requires |us| == |path| && forall i :: 0 <= i < |us| ==> Spells(us[i], path[i])
    ensures Parse(PrintStartLine(verb, us, query, version)) == StartLine(verb, CStr(path), query, version)
  {
    SpelledPath(us, path);
    StartLineRoundTrip(verb, us, query, version);
  }

  /** What is written behind an escaped NUL is not in the path. */
  lemma NulEndsPath(verb: Bytes, us: seq<Unit>, before: Bytes, behind: Bytes, query: Option<Bytes>, version: Bytes)
    requires ' ' !in verb && (query.Some? ==> ' ' !in query.value) && '\0' !in before
    requires var path := before + "\0" + behind;
      |us| == |path| && forall i :: 0 <= i < |us| ==> Spells(us[i], path[i])
    ensures Parse(PrintStartLine(verb, us, query, version)) == StartLine(verb, before, query, version)
  {
    hide Spells, Parse, PrintStartLine;
    var path := before + "\0" + behind;
    AnySpelling(verb, us, path, query, version);
    assert path[|before|] == '\0' && forall j :: 0 <= j < |before| ==> path[j] == before[j];
    assert CStr(path) == before;
  }

  /** A request line without a version, as in HTTP/0.9. */
  lemma WithoutVersion(verb: Bytes, us: seq<Unit>, path: Bytes, query: Option<Bytes>)
    requires ' ' !in verb && (query.Some? ==> ' ' !in query.value)
    requires |us| == |path| && forall i :: 0 <= i < |us| ==> Spells(us[i], path[i])
    ensures Parse(verb + " " + PrintPath(us) + QueryText(query)) == StartLine(verb, CStr(path), query, [])
  {
    hide Spells, ValidUnits, Meaning, Parse;
    var line := verb + " " + PrintPath(us) + QueryText(query);
    EmptyConcat(line);
    LineLayout(verb, PrintPath(us), QueryText(query), []);
    EmptyConcat(QueryText(query));
    SpelledPath(us, path);
    LayoutWithoutVersion(line, |verb|, us, query);
  }

  lemma LayoutWithoutVersion(line: Bytes, i: nat, us: seq<Unit>, query: Option<Bytes>)
    requires ValidUnits(us) && (query.Some? ==> ' ' !in query.value)
    requires i < |line| && i == Index(line, ' ')
    requires var d := i + 1 + |PrintPath(us)|;
      d <= |line| && line[i + 1..d] == PrintPath(us) && line[d..] == QueryText(query)
    ensures Parse(line) == StartLine(line[..i], CStr(Meaning(us)), query, [])
  {
    hide ValidUnits, Meaning, DecodePath, QueryEnd, VersionAt, Parse, Index;
    var d := i + 1 + |PrintPath(us)|;
    assert d < |line| ==> line[d] == line[d..][0];
    DecodePrinted(line, i + 1, us);
    QueryAtEnd(line, d, query);
    ParseParts(line, i, Meaning(us), d, query, []);
  }

  lemma QueryAtEnd(line: Bytes, d: nat, query: Option<Bytes>)
    requires query.Some? ==> ' ' !in query.value
    requires d <= |line| && line[d..] == QueryText(query)
    ensures var e := QueryEnd(line, d);
            && query == (if e > d then Some(line[d + 1..e]) else None)
            && VersionAt(line, e) == []
  {
    if query.Some? {
      assert line[d] == line[d..][0];
      assert line[d + 1..|line|] == line[d..][1..] == query.value;
    }
  }

  /** A line without a blank is a method; the path is "/". */
  lemma OnlyMethod(line: Bytes)
    requires ' ' !in line
    ensures Parse(line) == StartLine(line, "/", None, "")
  {
  }

  /** A percent sign that no hex digit follows stands for NUL, which ends the path. */
  lemma BadEscape(digits: Bytes)
    requires |digits| <= 2 && EndsNumeral(digits) && (digits != [] ==> !IsSpace(digits[0]) && digits[0] !in "+-")
    ensures Unescape(digits) == '\0'
  {
    NoNumeral(digits);
  }
}
