/** Slices of a byte buffer and the name=value scanner built on them (src/datachunk.c). */
module DataChunks {
  import opened ByteStrings

  predicate IsWs(c: char) {
    c == ' ' || c == '\t' || c == '\n'
  }

  function TrimLeft(s: Bytes): (r: Bytes)
    ensures |r| <= |s|
  {
    if s != [] && IsWs(s[0]) then TrimLeft(s[1..]) else s
  }

  function TrimRight(s: Bytes): (r: Bytes)
    ensures |r| <= |s| && r == s[..|r|]
  {
    if s != [] && IsWs(s[|s| - 1]) then TrimRight(s[..|s| - 1]) else s
  }

  function Trim(s: Bytes): Bytes {
    TrimRight(TrimLeft(s))
  }

  /** The text up to the first c, or all of it; and what follows that c. */
  function Till(s: Bytes, c: char): Bytes {
    s[..Index(s, c)]
  }

  function After(s: Bytes, c: char): Bytes {
    if Index(s, c) < |s| then s[Index(s, c) + 1..] else []
  }

  datatype Param = Param(name: Bytes, value: Bytes)

  /** What dch_extractParam reads after the equals sign: the value and the rest of the line. */
  function ReadValue(s: Bytes, delim: char): (r: (Bytes, Bytes))
    ensures |r.1| <= |s|
  {
    var t := TrimLeft(s);
    if t != [] && t[0] == '"' then
      var rest := After(t[1..], '"');
      (Till(t[1..], '"'), if Index(rest, delim) < |rest| then After(rest, delim) else rest)
    else
      (TrimRight(Till(t, delim)), After(t, delim))
  }

  /** One step of the scanner: a parameter and the shorter rest of the line, or nothing. */
  function ReadParam(s: Bytes, delim: char): (r: Option<(Param, Bytes)>)
    ensures r.Some? ==> |r.value.1| < |s|
    ensures r.Some? <==> '=' in s
  {
    if Index(s, '=') == |s| then None
    else
      var v := ReadValue(After(s, '='), delim);
      Some((Param(Trim(Till(s, '=')), v.0), v.1))
  }

  /** Everything the scanner finds by repeated calls. */
  function ReadParams(s: Bytes, delim: char): seq<Param>
    decreases |s|
  {
    match ReadParam(s, delim)
    case None => []
    case Some((p, rest)) => [p] + ReadParams(rest, delim)
  }

  lemma TrimLeftStep(s: Bytes)
    ensures TrimLeft(s) == if s != [] && IsWs(s[0]) then TrimLeft(s[1..]) else s
  {
  }

  lemma CutAt(text: Bytes, delimiter: char)
    ensures var i := Index(text, delimiter);
      && (delimiter in text <==> i < |text|) && Till(text, delimiter) == text[..i]
      && After(text, delimiter) == if i < |text| then text[i + 1..] else []
  {
  }

  /** A slice of a slice. */
  lemma SliceOfSlice(buf: Bytes, data: nat, len: nat, i: nat, j: nat)
    requires data + len <= |buf| && i <= j <= len
    ensures buf[data..data + len][i..j] == buf[data + i..data + j]
  {
    var t := buf[data..data + len];
    assert |t[i..j]| == j - i && forall k :: 0 <= k < j - i ==> t[i..j][k] == buf[data + i..data + j][k];
  }

  lemma SliceTail(buf: Bytes, data: nat, len: nat, i: nat)
    requires data + len <= |buf| && i <= len
    ensures buf[data..data + len][i..] == buf[data + i..data + len]
  {
  }

  class DataChunk {
    var buf: Bytes   // the buffer the chunk points into
    var data: nat    // start of the chunk in it
    var len: nat

    predicate Valid()
      reads this
    {
      data + len <= |buf|
    }

    function Text(): Bytes
      reads this
      requires Valid()
    {
      buf[data..data + len]
    }

    /** dch_initWithStr */
    constructor (str: Bytes)
      ensures Valid() && Text() == str
    {
      buf, data, len := str, 0, |str|;
    }

    constructor Clear()
      ensures Valid() && Text() == []
    {
      buf, data, len := [], 0, 0;
    }

    /** Copying the struct copies the reference, not the bytes. */
    method Assign(from: DataChunk)
      requires from.Valid()
      modifies this
      ensures Valid() && buf == from.buf && data == from.data && len == from.len
    {
      buf, data, len := from.buf, from.data, from.len;
    }

    /** The chunk lies inside the part of the buffer that (start, length) named. */
    predicate Within(b: Bytes, start: nat, length: nat)
      reads this
    {
      len == 0 || (buf == b && start <= data && data + len <= start + length)
    }

    method Shift(size: nat) returns (ok: bool)
      requires Valid()
      modifies this
      ensures Valid() && ok == (size <= |old(Text())|)
      ensures Text() == if ok then old(Text())[size..] else old(Text())
      ensures buf == old(buf) && data + len == old(data + len)
    {
      ok := len >= size;
      if ok {
        SliceTail(buf, data, len, size);
        data, len := data + size, len - size;
      }
    }

    method ShiftAfterChr(c: char) returns (ok: bool)
      requires Valid()
      modifies this
      ensures Valid() && ok == (c in old(Text()))
      ensures Text() == if ok then After(old(Text()), c) else old(Text())
      ensures buf == old(buf) && data + len == old(data + len) && len <= old(len)
    {
      hide Index, After;
      CutAt(Text(), c);
      var i := Index(Text(), c);
      ok := i < len;
      if ok {
        SliceTail(buf, data, len, i + 1);
        data, len := data + i + 1, len - (i + 1);
      }
    }

    method SkipLeadingWS()
      requires Valid()
      modifies this
      ensures Valid() && Text() == TrimLeft(old(Text()))
      ensures buf == old(buf) && data + len == old(data + len)
    {
      hide TrimLeft;
      while len > 0 && IsWs(buf[data])
        invariant Valid() && TrimLeft(Text()) == TrimLeft(old(Text()))
        invariant buf == old(buf) && data + len == old(data + len)
        decreases len
      {
        TrimLeftStep(Text());
        SliceTail(buf, data, len, 1);
        data, len := data + 1, len - 1;
      }
      TrimLeftStep(Text());
    }

    method TrimTrailingWS()
      requires Valid()
      modifies this
      ensures Valid() && Text() == TrimRight(old(Text()))
      ensures buf == old(buf) && data == old(data) && len <= old(len)
    {
      while len > 0 && IsWs(buf[data + len - 1])
        invariant Valid() && TrimRight(Text()) == TrimRight(old(Text()))
        invariant buf == old(buf) && data == old(data) && len <= old(len)
        decreases len
      {
        SliceOfSlice(buf, data, len, 0, len - 1);
        len := len - 1;
      }
    }

    method TrimWS()
      requires Valid()
      modifies this
      ensures Valid() && Text() == Trim(old(Text()))
      ensures buf == old(buf) && old(data) <= data && data + len <= old(data + len)
    {
      SkipLeadingWS();
      TrimTrailingWS();
    }

    /** Moves the text before the first delimiter into sub; without one, everything. */
    method ExtractTillChr(sub: DataChunk, delimiter: char) returns (found: bool)
      requires Valid() && sub != this
      modifies this, sub
      ensures Valid() && sub.Valid() && found == (delimiter in old(Text()))
      ensures sub.Text() == Till(old(Text()), delimiter) && Text() == After(old(Text()), delimiter)
      ensures sub.Within(old(buf), old(data), old(len)) && Within(old(buf), old(data), old(len))
      ensures found ==> len < old(len)
    {
      hide Index, Till, After;
      CutAt(Text(), delimiter);
      var i := Index(Text(), delimiter);
      found := i < len;
      if found {
        SliceOfSlice(buf, data, len, 0, i);
        SliceTail(buf, data, len, i + 1);
        sub.buf, sub.data, sub.len := buf, data, i;
        data, len := data + i + 1, len - (i + 1);
      } else {
        sub.Assign(this);
        buf, data, len := [], 0, 0;
      }
    }

    method ExtractTillWS(sub: DataChunk) returns (found: bool)
      requires Valid() && sub != this
      modifies this, sub
      ensures Valid() && sub.Valid() && found == (TrimLeft(old(Text())) != [])
      ensures sub.Text() == Word(TrimLeft(old(Text())))
      ensures Text() == TrimLeft(AfterWord(TrimLeft(old(Text()))))
    {
      SkipLeadingWS();
      found := len > 0;
      sub.Assign(this);
      SliceOfSlice(buf, data, len, 0, |Word(Text())|);
      SkipWord();
      sub.len := if found then data - sub.data else 0;
      SkipLeadingWS();
    }

    method SkipWord()
      requires Valid()
      modifies this
      ensures Valid() && buf == old(buf) && data + len == old(data + len)
      ensures data == old(data) + |Word(old(Text()))| && Text() == AfterWord(old(Text()))
    {
      ghost var all, from := Text(), data;
      while len > 0 && !IsWs(buf[data])
        invariant Valid() && buf == old(buf) && old(data) <= data && data + len == old(data + len)
        invariant forall i :: old(data) <= i < data ==> !IsWs(buf[i])
        decreases len
      {
        data, len := data + 1, len - 1;
      }
      SliceTail(buf, from, |all|, data - from);
      WordUnique(all, data - from);
    }

    /** Reads the next parameter and advances past its delimiter. */
    method ExtractParam(name: DataChunk, value: DataChunk, delimiter: char) returns (found: bool)
      requires Valid() && name != this && value != this && name != value
      modifies this, name, value
      ensures Valid() && name.Valid() && (found ==> value.Valid())
      ensures found == ReadParam(old(Text()), delimiter).Some?
      ensures found ==>
        ReadParam(old(Text()), delimiter).value == (Param(name.Text(), value.Text()), Text())
      ensures found ==> len < old(len)
      ensures found ==>
        && name.Within(old(buf), old(data), old(len))
        && value.Within(old(buf), old(data), old(len))
        && Within(old(buf), old(data), old(len))
    {
      found := ExtractTillChr(name, '=');
      if found {
        name.TrimWS();
        ExtractValue(value, delimiter);
      }
    }

    method ExtractValue(value: DataChunk, delimiter: char)
      requires Valid() && value != this
      modifies this, value
      ensures Valid() && value.Valid()
      ensures (value.Text(), Text()) == ReadValue(old(Text()), delimiter)
      ensures value.Within(old(buf), old(data), old(len)) && Within(old(buf), old(data), old(len))
      ensures len <= old(len)
    {
      hide TrimLeft, TrimRight, Till, After;
      SkipLeadingWS();
      if len > 0 && buf[data] == '"' {
        ExtractQuoted(value, delimiter);
      } else {
        var more := ExtractTillChr(value, delimiter);
        value.TrimTrailingWS();
      }
    }

    method ExtractQuoted(value: DataChunk, delimiter: char)
      requires Valid() && value != this && len > 0 && buf[data] == '"'
      modifies this, value
      ensures Valid() && value.Valid()
      ensures var rest := old(Text())[1..];
              var tail := After(rest, '"');
              value.Text() == Till(rest, '"') && Text() == if delimiter in tail then After(tail, delimiter) else tail
      ensures value.Within(old(buf), old(data), old(len)) && Within(old(buf), old(data), old(len))
      ensures len <= old(len)
    {
      hide Till, After;
      var shifted := Shift(1);
      var closed := ExtractTillChr(value, '"');
      var more := ShiftAfterChr(delimiter);
    }
  }

  /** The text up to the first white space. */
  function Word(s: Bytes): (w: Bytes)
    ensures |w| <= |s| && w == s[..|w|]
  {
    if s != [] && !IsWs(s[0]) then [s[0]] + Word(s[1..]) else []
  }

  function AfterWord(s: Bytes): Bytes {
    s[|Word(s)|..]
  }

  lemma {:induction false} WordUnique(s: Bytes, n: nat)
    requires n <= |s| && (forall i :: 0 <= i < n ==> !IsWs(s[i])) && (n < |s| ==> IsWs(s[n]))
    ensures Word(s) == s[..n] && AfterWord(s) == s[n..]
    decreases n
  {
    if n > 0 {
      WordUnique(s[1..], n - 1);
      assert s[..n] == [s[0]] + s[1..][..n - 1];
    }
  }
}
