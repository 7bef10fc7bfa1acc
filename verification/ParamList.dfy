/** Printed parameter lists are read back exactly by the scanner of DataChunk.dfy. */
module ParamLists {
  import opened ByteStrings
  import opened DataChunks

  // A parameter as it is written: with its value in double quotes, or bare.
  datatype Written = Quoted(name: Bytes, value: Bytes) | Bare(name: Bytes, value: Bytes)

  function ParamOf(w: Written): Param {
    Param(w.name, w.value)
  }

  predicate NoEdgeWs(s: Bytes) {
    s != [] ==> s[0] !in " \t\n" && s[|s| - 1] !in " \t\n"
  }

  predicate ValidParam(w: Written, delim: char) {
    && '=' !in w.name && NoEdgeWs(w.name)
    && match w
       case Quoted(_, value) => '"' !in value
       case Bare(_, value) => delim !in value && NoEdgeWs(value) && (value != [] ==> value[0] != '"')
  }

  predicate AllWs(gap: Bytes) {
    forall i :: 0 <= i < |gap| ==> gap[i] in " \t\n"
  }

  function Body(w: Written): Bytes {
    match w
    case Quoted(_, value) => "\"" + value + "\""
    case Bare(_, value) => value
  }

  function PrintParam(w: Written): Bytes {
    w.name + "=" + Body(w)
  }

  /** Parameters separated by the delimiter, each after the given white space. */
  function PrintParams(ws: seq<Written>, gap: Bytes, delim: char): Bytes {
    if ws == [] then []
    else if |ws| == 1 then gap + PrintParam(ws[0])
    else gap + PrintParam(ws[0]) + [delim] + PrintParams(ws[1..], gap, delim)
  }

  function ParamsOf(ws: seq<Written>): seq<Param> {
    seq(|ws|, i requires 0 <= i < |ws| => ParamOf(ws[i]))
  }

  lemma IndexAfter(a: Bytes, c: char, b: Bytes)
    requires c !in a
    ensures Index(a + [c] + b, c) == |a|
    ensures Till(a + [c] + b, c) == a && After(a + [c] + b, c) == b
  {
    var s := a + [c] + b;
    assert forall j :: 0 <= j < |a| ==> s[j] == a[j];
    assert s[|a|] == c;
  }

  lemma IndexNone(a: Bytes, c: char)
    requires c !in a
    ensures Index(a, c) == |a| && Till(a, c) == a && After(a, c) == []
  {
  }

  lemma {:induction false} TrimLeftGap(gap: Bytes, s: Bytes)
    requires AllWs(gap) && (s != [] ==> !IsWs(s[0]))
    ensures TrimLeft(gap + s) == s
    decreases |gap|
  {
    if gap == [] {
      EmptyConcat(s);
    } else {
      ConsConcat(gap, s);
      TrimLeftGap(gap[1..], s);
    }
  }

  lemma ReadQuoted(value: Bytes, tail: Bytes, delim: char)
    requires '"' !in value
    ensures ReadValue("\"" + value + "\"" + tail, delim)
         == (value, if delim in tail then After(tail, delim) else tail)
  {
    var s := "\"" + value + "\"" + tail;
    assert s[1..] == value + ['"'] + tail;
    IndexAfter(value, '"', tail);
    assert TrimLeft(s) == s;
  }

  lemma ReadBare(value: Bytes, tail: Bytes, delim: char)
    requires delim !in value && NoEdgeWs(value) && (value != [] ==> value[0] != '"')
    requires tail == [] || tail[0] == delim
    requires value == [] && tail != [] ==> !IsWs(delim) && delim != '"'
    ensures ReadValue(value + tail, delim) == (value, if tail == [] then [] else tail[1..])
  {
    var s := value + tail;
    assert TrimLeft(s) == s;
    if tail == [] {
      EmptyConcat(value);
      IndexNone(value, delim);
    } else {
      assert s == value + [delim] + tail[1..];
      IndexAfter(value, delim, tail[1..]);
    }
    assert TrimRight(value) == value;
  }

  lemma ReadBody(w: Written, tail: Bytes, delim: char)
    requires ValidParam(w, delim) && !IsWs(delim) && delim != '"'
    requires tail == [] || tail[0] == delim
    ensures ReadValue(Body(w) + tail, delim) == (w.value, if tail == [] then [] else tail[1..])
  {
    hide ReadValue, After;
    if w.Quoted? {
      ReadQuoted(w.value, tail, delim);
      if tail != [] {
        assert tail == [] + [delim] + tail[1..];
        IndexAfter([], delim, tail[1..]);
      }
    } else {
      ReadBare(w.value, tail, delim);
    }
  }

  lemma ReadName(name: Bytes, gap: Bytes, rest: Bytes, delim: char)
    requires '=' !in name && NoEdgeWs(name) && AllWs(gap)
    ensures var v := ReadValue(rest, delim);
            ReadParam(gap + name + ['='] + rest, delim) == Some((Param(name, v.0), v.1))
  {
    IndexAfter(gap + name, '=', rest);
    TrimLeftGap(gap, name);
    assert TrimRight(name) == name;
  }

  /** The scanner reads one printed parameter and stops after its delimiter. */
  lemma ReadPrinted(w: Written, gap: Bytes, tail: Bytes, delim: char)
    requires ValidParam(w, delim) && AllWs(gap) && !IsWs(delim) && delim != '"'
    requires tail == [] || tail[0] == delim
    ensures ReadParam(gap + PrintParam(w) + tail, delim)
         == Some((ParamOf(w), if tail == [] then [] else tail[1..]))
  {
    ReadName(w.name, gap, Body(w) + tail, delim);
    ReadBody(w, tail, delim);
    Assoc(w.name, ['='], Body(w));
    Assoc(gap, w.name, ['='] + Body(w));
    Assoc(gap + w.name, ['='], Body(w));
    Assoc(gap + w.name + ['='], Body(w), tail);
  }

  /** Round trip: scanning a printed list returns the list. */
  lemma {:induction false} ParamsRoundTrip(ws: seq<Written>, gap: Bytes, delim: char)
    requires forall i :: 0 <= i < |ws| ==> ValidParam(ws[i], delim)
    requires AllWs(gap) && !IsWs(delim) && delim != '"'
    ensures ReadParams(PrintParams(ws, gap, delim), delim) == ParamsOf(ws)
    decreases |ws|
  {
    if ws != [] {
      var rest := PrintParams(ws[1..], gap, delim);
      var tail := if |ws| == 1 then [] else [delim] + rest;
      ParamsRoundTrip(ws[1..], gap, delim);
      ReadPrinted(ws[0], gap, tail, delim);
      Assoc(gap + PrintParam(ws[0]), [delim], rest);
      EmptyConcat(gap + PrintParam(ws[0]));
      ParamsCons(ws);
    }
  }

  /** Leading white space of the list does not matter to the scanner. */
  lemma TrimmedRoundTrip(ws: seq<Written>, gap: Bytes, delim: char)
    requires ws != [] && ws[0].name != [] && forall i :: 0 <= i < |ws| ==> ValidParam(ws[i], delim)
    requires AllWs(gap) && !IsWs(delim) && delim != '"'
    ensures ReadParams(TrimLeft(PrintParams(ws, gap, delim)), delim) == ParamsOf(ws)
  {
    var rest := PrintParams(ws[1..], gap, delim);
    var tail := if |ws| == 1 then [] else [delim] + rest;
    var list := PrintParam(ws[0]) + tail;
    EmptyConcat(PrintParam(ws[0]));
    Assoc(gap, PrintParam(ws[0]), tail);
    Assoc(gap + PrintParam(ws[0]), [delim], rest);
    EmptyConcat(gap + PrintParam(ws[0]));
    assert list[0] == ws[0].name[0];
    TrimLeftGap(gap, list);
    ReadPrinted(ws[0], [], tail, delim);
    EmptyConcat(list);
    ParamsRoundTrip(ws[1..], gap, delim);
    ParamsCons(ws);
  }

  lemma ParamsCons(ws: seq<Written>)
    requires ws != []
    ensures ParamsOf(ws) == [ParamOf(ws[0])] + ParamsOf(ws[1..])
  {
  }

  // ------------------------------------------------------------------------------------------------------
  // Parameters that are written less strictly

  lemma {:induction false} TrimRightGap(s: Bytes, gap: Bytes)
    requires AllWs(gap) && (s != [] ==> !IsWs(s[|s| - 1]))
    ensures TrimRight(s + gap) == s
    decreases |gap|
  {
    if gap == [] {
      EmptyConcat(s);
    } else {
      var n := |gap| - 1;
      assert (s + gap)[..|s + gap| - 1] == s + gap[..n];
      TrimRightGap(s, gap[..n]);
    }
  }

  lemma TrimBoth(before: Bytes, s: Bytes, behind: Bytes)
    requires AllWs(before) && AllWs(behind) && NoEdgeWs(s)
    ensures Trim(before + s + behind) == s
  {
    if s == [] {
      EmptyConcat(before);
      TrimLeftGap(before + behind, []);
      EmptyConcat(before + behind);
    } else {
      Assoc(before, s, behind);
      TrimLeftGap(before, s + behind);
      TrimRightGap(s, behind);
    }
  }

  lemma ReadSpacedName(before: Bytes, name: Bytes, behind: Bytes, rest: Bytes, delim: char)
    requires '=' !in name && NoEdgeWs(name) && AllWs(before) && AllWs(behind)
    ensures var v := ReadValue(rest, delim);
      ReadParam(before + name + behind + ['='] + rest, delim) == Some((Param(name, v.0), v.1))
  {
    hide ReadValue, Trim;
    assert '=' !in before + name + behind;
    IndexAfter(before + name + behind, '=', rest);
    TrimBoth(before, name, behind);
  }

  /** White space around the name and before the value does not matter. */
  lemma SpacedName(before: Bytes, name: Bytes, behind: Bytes, gap: Bytes, rest: Bytes, delim: char)
    requires '=' !in name && NoEdgeWs(name) && AllWs(before) && AllWs(behind) && AllWs(gap)
    ensures ReadParam(before + name + behind + ['='] + (gap + rest), delim) == ReadParam(name + ['='] + rest, delim)
  {
    hide ReadParam;
    ReadSpacedName(before, name, behind, gap + rest, delim);
    ReadSpacedName([], name, [], rest, delim);
    EmptyConcat(name);
    ValueAfterGap(gap, rest, delim);
  }

  lemma {:induction false} ValueAfterGap(gap: Bytes, rest: Bytes, delim: char)
    requires AllWs(gap)
    ensures ReadValue(gap + rest, delim) == ReadValue(rest, delim)
    decreases |gap|
  {
    if gap == [] {
      EmptyConcat(rest);
    } else {
      ConsConcat(gap, rest);
      ValueAfterGap(gap[1..], rest, delim);
    }
  }

  /** Between the closing quote and the delimiter anything may stand. */
  lemma QuotedThenAny(name: Bytes, value: Bytes, noise: Bytes, rest: Bytes, delim: char)
    requires '=' !in name && NoEdgeWs(name) && '"' !in value && delim !in noise
    ensures ReadParam(name + ['='] + ("\"" + value + "\"" + (noise + [delim] + rest)), delim)
         == Some((Param(name, value), rest))
  {
    hide ReadParam, ReadValue;
    ReadSpacedName([], name, [], "\"" + value + "\"" + (noise + [delim] + rest), delim);
    EmptyConcat(name);
    ReadQuoted(value, noise + [delim] + rest, delim);
    IndexAfter(noise, delim, rest);
    assert (noise + [delim] + rest)[|noise|] == delim;
  }

  /** White space behind a bare value is not part of it. */
  lemma BareThenWs(name: Bytes, value: Bytes, gap: Bytes, rest: Bytes, delim: char)
    requires '=' !in name && NoEdgeWs(name) && AllWs(gap) && !IsWs(delim) && delim != '"'
    requires delim !in value && NoEdgeWs(value) && value != [] && value[0] != '"'
    ensures ReadParam(name + ['='] + (value + gap + [delim] + rest), delim) == Some((Param(name, value), rest))
  {
    hide ReadParam;
    var text := value + gap + [delim] + rest;
    ReadSpacedName([], name, [], text, delim);
    EmptyConcat(name);
    assert text[0] == value[0] && TrimLeft(text) == text;
    assert delim !in value + gap;
    IndexAfter(value + gap, delim, rest);
    TrimRightGap(value, gap);
  }

  /** A quote that is not closed takes the rest of the line, delimiters and white space included. */
  lemma OpenQuote(name: Bytes, value: Bytes, delim: char)
    requires '=' !in name && NoEdgeWs(name) && '"' !in value
    ensures ReadParam(name + ['='] + ("\"" + value), delim) == Some((Param(name, value), []))
  {
    hide ReadParam;
    var text := "\"" + value;
    ReadSpacedName([], name, [], text, delim);
    EmptyConcat(name);
    assert text[1..] == value && TrimLeft(text) == text;
    IndexNone(value, '"');
  }
}
