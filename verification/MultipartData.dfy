/** The streaming multipart parser (src/multipartdata.c), proved to refine the automaton of Multipart.dfy. */
module MultipartParser {
  import opened ByteStrings
  import opened ContentParts
  import opened Multipart
  import opened MultipartFeeding

  // PP_GOT_WS exists in the program but is never stored.
  datatype ParsePos = PPBody | PPGotBoundary

  lemma OnlyCrMayStart(delim: Bytes, s: Bytes, i: nat)
    requires Borderless(delim) && i < |s| && s[i] != '\r'
    ensures !MayStart(delim, s, i)
  {
    var n := Min(|delim|, |s| - i);
    assert s[i..i + n][0] == s[i] && delim[..n][0] == delim[0];
  }

  /** The memchr / memcmp loop: the first place a delimiter may start, or the end. */
  method FindStop(delim: Bytes, s: Bytes) returns (q: nat)
    requires Borderless(delim)
    ensures ScanStop(delim, s, q)
  {
    q := IndexFrom(s, '\r', 0);
    forall i | 0 <= i < q ensures !MayStart(delim, s, i) {
      OnlyCrMayStart(delim, s, i);
    }
    while q < |s| && !MayStart(delim, s, q)
      invariant q <= |s| && forall i :: 0 <= i < q ==> !MayStart(delim, s, i)
      decreases |s| - q
    {
      var next := IndexFrom(s, '\r', q + 1);
      forall i | q < i < next ensures !MayStart(delim, s, i) {
        OnlyCrMayStart(delim, s, i);
      }
      q := next;
    }
  }

  /** A boundary line that does not close the body: opens a part and ends at its LF. */
  lemma RunBoundaryLine(delim: Bytes, parts: seq<Bytes>, s: Bytes)
    requires Borderless(delim) && s != [] && s[0] != '-'
    ensures var e, grown := Index(s, '\n'), parts + [[]];
      && (e == |s| ==> Run(delim, State(AtBoundary, parts), s) == State(BoundaryLine, grown))
      && (e < |s| ==> Run(delim, State(AtBoundary, parts), s) == Run(delim, State(Matching(0), grown), s[e + 1..]))
  {
    var e := Index(s, '\n');
    if s[0] != '\n' {
      assert Index(s[1..], '\n') == e - 1 by {
        LineIndex(s);
      }
      RunLineTail(delim, parts + [[]], s[1..]);
      assert e < |s| ==> s[1..][e..] == s[e + 1..];
    }
  }

  lemma LineIndex(s: Bytes)
    requires s != [] && s[0] != '\n'
    ensures Index(s[1..], '\n') == Index(s, '\n') - 1
  {
    var e, f := Index(s, '\n'), Index(s[1..], '\n');
    assert forall j :: 0 <= j < |s| - 1 ==> s[1..][j] == s[j + 1];
    assert e >= 1;
    assert f < |s| - 1 ==> s[f + 1] == '\n';
  }

  lemma {:induction false} RunLineTail(delim: Bytes, parts: seq<Bytes>, s: Bytes)
    requires Borderless(delim)
    ensures var e, st := Index(s, '\n'), State(BoundaryLine, parts);
      && (e == |s| ==> Run(delim, st, s) == st)
      && (e < |s| ==> Run(delim, st, s) == Run(delim, State(Matching(0), parts), s[e + 1..]))
    decreases |s|
  {
    if s != [] && s[0] != '\n' {
      LineIndex(s);
      RunLineTail(delim, parts, s[1..]);
      var e := Index(s, '\n');
      assert e < |s| ==> s[1..][e..] == s[e + 1..];
    }
  }

  /** The remaining delimiter bytes complete the match. */
  lemma RunResumed(delim: Bytes, parts: seq<Bytes>, k: nat, data: Bytes)
    requires Borderless(delim) && 0 < k < |delim|
    requires var n := Min(|delim| - k, |data|); data[..n] == delim[k..k + n]
    ensures |data| < |delim| - k ==>
      Run(delim, State(Matching(k), parts), data) == State(Matching(k + |data|), parts)
    ensures |data| >= |delim| - k ==>
      Run(delim, State(Matching(k), parts), data) == Run(delim, State(AtBoundary, parts), data[|delim| - k..])
  {
    hide Run;
    var n := Min(|delim| - k, |data|);
    RunMatch(delim, parts, k, n);
    SplitAt(data, n);
    RunConcat(delim, State(Matching(k), parts), data[..n], data[n..]);
    if n == |data| {
      assert data[..n] == data;
    }
  }

  /** The scan up to a stop, and what it leaves. */
  lemma RunScanned(delim: Bytes, parts: seq<Bytes>, s: Bytes, q: nat)
    requires Borderless(delim) && ScanStop(delim, s, q)
    ensures |s| - q < |delim| ==>
      Run(delim, State(Matching(0), parts), s) == State(Matching(|s| - q), Emit(parts, s[..q]))
    ensures |s| - q >= |delim| ==>
      Run(delim, State(Matching(0), parts), s) == Run(delim, State(AtBoundary, Emit(parts, s[..q])), s[q + |delim|..])
  {
    RunToStop(delim, parts, s, q);
    if |s| - q >= |delim| {
      SplitAt(s, q + |delim|);
      RunConcat(delim, State(Matching(0), parts), s[..q + |delim|], s[q + |delim|..]);
    }
  }

  /** The fields parts and partCount. */
  class PartList {
    const destDir: Option<Bytes>
    var parts: seq<ContentPart>
    ghost var fed: seq<Bytes>      // the bytes each part received
    ghost var Repr: set<object>

    ghost predicate Valid()
      reads this, Repr
    {
      && this in Repr && |fed| == |parts|
      && (forall i :: 0 <= i < |parts| ==> parts[i] in Repr && parts[i].Repr <= Repr && this !in parts[i].Repr)
      && (forall i :: 0 <= i < |parts| ==> parts[i].Valid() && parts[i].fed == fed[i])
      && (forall i, j :: 0 <= i < j < |parts| ==> parts[i].Repr !! parts[j].Repr)
    }

    constructor (destDir: Option<Bytes>)
      ensures Valid() && fed == [] && fresh(Repr)
    {
      this.destDir := destDir;
      parts, fed := [], [];
      Repr := {this};
    }

    /** Opens the next part. */
    method OpenPart()
      requires Valid()
      modifies this
      ensures Valid() && fresh(Repr - old(Repr)) && fed == old(fed) + [[]]
    {
      var part := new ContentPart(destDir);
      parts := parts + [part];
      fed := fed + [[]];
      Repr := Repr + part.Repr;
    }

    /** Content bytes go to the last part; the preamble has none. */
    method EmitToLast(bytes: Bytes)
      requires Valid()
      modifies Repr
      ensures Valid() && fresh(Repr - old(Repr)) && fed == Emit(old(fed), bytes)
    {
      hide ContentPart.Valid;
      if |parts| > 0 {
        var last := parts[|parts| - 1];
        last.AppendData(bytes);
        fed := fed[..|parts| - 1] + [last.fed];
        Repr := Repr + last.Repr;
      }
    }
  }

  class MultipartData {
    ghost const delim: Bytes
    var boundaryDelimiter: Option<Bytes>   // None once the epilogue is reached
    var parsePos: ParsePos
    var delimMatchPart: nat                // bytes of the previous data that match the delimiter
    const list: PartList
    ghost var pieces: seq<Bytes>           // the data of every call so far

    ghost function Repr(): set<object>
      reads this, list
    {
      {this} + list.Repr
    }

    /** The automaton state outside the parts. */
    ghost function ScanOf(): Scan
      reads this
    {
      if boundaryDelimiter.None? then Epilogue
      else if parsePos.PPGotBoundary? then AtBoundary
      else Matching(delimMatchPart)
    }

    /** The automaton state the fields stand for. */
    ghost function Abs(): State
      reads this, list
    {
      State(ScanOf(), list.fed)
    }

    /** Everything but the history. */
    ghost predicate Inner()
      reads this, list, list.Repr
    {
      && Borderless(delim) && delimMatchPart < |delim|
      && (boundaryDelimiter.Some? ==> boundaryDelimiter.value == delim)
      && (parsePos.PPGotBoundary? ==> delimMatchPart == 0)
      && this !in list.Repr && list.Valid()
    }

    ghost predicate Valid()
      reads this, list, list.Repr
    {
      Inner() && Abs() == Feed(delim, FRESH_PARSER, pieces)
    }

    constructor (boundary: Bytes, destDir: Option<Bytes>)
      requires '\r' !in boundary
      ensures Valid() && pieces == [] && fresh(Repr()) && delim == Delimiter(boundary)
    {
      delim := Delimiter(boundary);
      boundaryDelimiter := Some(Delimiter(boundary));
      parsePos, delimMatchPart := PPBody, 2;
      list := new PartList(destDir);
      pieces := [];
    }

    /** Continues a match that earlier data left unfinished; returns how much of the data it took. */
    method ResumeMatch(data: Bytes) returns (pos: nat)
      requires Inner() && boundaryDelimiter.Some? && delimMatchPart > 0
      modifies `delimMatchPart, `parsePos, list.Repr
      ensures Inner() && fresh(list.Repr - old(list.Repr))
      ensures delimMatchPart == 0 || pos == |data|
      ensures pos <= |data| && Run(delim, old(Abs()), data) == Run(delim, Abs(), data[pos..])
    {
      hide PartList.Valid, Step;
      var k := delimMatchPart;
      var n := Min(|boundaryDelimiter.value| - k, |data|);
      pos := 0;
      if data[..n] != boundaryDelimiter.value[k..k + n] {
        FalseStart(delim, list.fed, k, data);
        list.EmitToLast(boundaryDelimiter.value[..k]);
        delimMatchPart := 0;
        assert data[0..] == data;
      } else {
        RunResumed(delim, list.fed, k, data);
        if |data| < |boundaryDelimiter.value| - k {
          delimMatchPart := delimMatchPart + |data|;
          pos := |data|;
        } else {
          delimMatchPart, parsePos := 0, PPGotBoundary;
          pos := |boundaryDelimiter.value| - k;
        }
      }
    }

    /** After the boundary string: the epilogue, or a new part whose boundary line is skipped. */
    method BoundaryLine(data: Bytes, pos: nat) returns (next: nat, suspended: bool)
      requires Inner() && boundaryDelimiter.Some? && parsePos.PPGotBoundary? && pos < |data|
      modifies `boundaryDelimiter, `parsePos, list
      ensures Inner() && fresh(list.Repr - old(list.Repr)) && pos < next <= |data|
      ensures suspended ==> Abs() == Suspend(Run(delim, old(Abs()), data[pos..]))
      ensures !suspended ==>
        boundaryDelimiter.Some? && parsePos.PPBody? && delimMatchPart == 0
        && Run(delim, old(Abs()), data[pos..]) == Run(delim, Abs(), data[next..])
    {
      hide PartList.Valid;
      ghost var s := data[pos..];
      if data[pos] == '-' {
        RunEpilogue(delim, State(Epilogue, list.fed), s[1..]);
        boundaryDelimiter := None;
        return |data|, true;
      }
      RunBoundaryLine(delim, list.fed, s);
      list.OpenPart();
      next := IndexFrom(data, '\n', pos);
      LineEndAt(data, pos, next);
      if next == |data| {
        return |data|, true;
      }
      parsePos := PPBody;
      next := next + 1;
      suspended := false;
    }

    /** Content up to the next delimiter, or to the end of the data. */
    method ScanBody(data: Bytes, pos: nat) returns (next: nat)
      requires Inner() && boundaryDelimiter.Some? && parsePos.PPBody? && delimMatchPart == 0 && pos < |data|
      modifies `delimMatchPart, `parsePos, list.Repr
      ensures Inner() && fresh(list.Repr - old(list.Repr)) && pos < next <= |data|
      ensures delimMatchPart == 0 || next == |data|
      ensures Run(delim, old(Abs()), data[pos..]) == Run(delim, Abs(), data[next..])
    {
      hide PartList.Valid;
      var s := data[pos..];
      var q := FindStop(boundaryDelimiter.value, s);
      RunScanned(delim, list.fed, s, q);
      list.EmitToLast(s[..q]);
      if |s| - q < |boundaryDelimiter.value| {
        delimMatchPart := |s| - q;
        next := |data|;
      } else {
        next := pos + q + |boundaryDelimiter.value|;
        parsePos := PPGotBoundary;
        DropDrop(data, pos, q + |delim|);
      }
    }

    /** One turn of the loop over the data. */
    method Turn(data: Bytes, pos: nat) returns (next: nat, suspended: bool)
      requires Inner() && boundaryDelimiter.Some? && delimMatchPart == 0 && pos < |data|
      modifies `boundaryDelimiter, `parsePos, `delimMatchPart, list, list.Repr
      ensures Inner() && fresh(list.Repr - old(list.Repr)) && pos < next <= |data|
      ensures suspended ==> Abs() == Suspend(Run(delim, old(Abs()), data[pos..]))
      ensures !suspended ==>
        boundaryDelimiter.Some? && (delimMatchPart == 0 || next == |data|)
        && Run(delim, old(Abs()), data[pos..]) == Run(delim, Abs(), data[next..])
    {
      next, suspended := pos, false;
      if parsePos.PPGotBoundary? {
        next, suspended := BoundaryLine(data, pos);
      }
      if !suspended && next < |data| {
        next := ScanBody(data, next);
      }
    }

    /** mpdata_appendData: one call runs the automaton over the data and suspends it. */
    method AppendData(data: Bytes)
      requires Valid()
      modifies this, list, list.Repr
      ensures Valid() && fresh(list.Repr - old(list.Repr))
      ensures pieces == old(pieces) + [data] && Abs() == Append(delim, old(Abs()), data)
    {
      FeedSnoc(delim, FRESH_PARSER, pieces, data);
      pieces := pieces + [data];
      if boundaryDelimiter.None? {
        RunEpilogue(delim, Abs(), data);
      } else {
        Parse(data);
      }
    }

    /** None of the first n parts has that name. */
    ghost predicate NoneBefore(name: Bytes, n: nat)
      reads list, list.parts
    {
      forall i :: 0 <= i < n && i < |list.parts| ==> !list.parts[i].NameEquals(name)
    }

    /** mpdata_getPartByName: the first part of that name. */
    method GetPartByName(name: Bytes) returns (part: ContentPart?)
      requires Valid()
      ensures part == null ==> NoneBefore(name, |list.parts|)
      ensures part != null ==> part.Valid() && part.NameEquals(name)
      ensures part != null ==> exists i :: 0 <= i < |list.parts| && list.parts[i] == part && NoneBefore(name, i)
      ensures AllClean(list.fed) ==> FirstPart(list.fed, name) == if part == null then None else Some(part.fed)
    {
      hide ContentPart.Valid, PartOf, IsNamed, Feed, Borderless;
      var i := 0;
      assert list.fed[..0] == [];
      while i < |list.parts|
        invariant 0 <= i <= |list.parts| && NoneBefore(name, i)
        invariant AllClean(list.fed) ==> FirstPart(list.fed[..i], name) == None
      {
        assert list.fed[..i + 1][..i] == list.fed[..i];
        if AllClean(list.fed) {
          list.parts[i].NameIsMeant(name);
        }
        if list.parts[i].NameEquals(name) {
          if AllClean(list.fed) {
            FirstPartStays(list.fed, name, i + 1);
          }
          return list.parts[i];
        }
        i := i + 1;
      }
      assert list.fed[..i] == list.fed;
      part := null;
    }

    method Parse(data: Bytes)
      requires Inner() && boundaryDelimiter.Some?
      modifies `boundaryDelimiter, `parsePos, `delimMatchPart, list, list.Repr
      ensures Inner() && fresh(list.Repr - old(list.Repr)) && Abs() == Append(delim, old(Abs()), data)
    {
      var pos, suspended := 0, false;
      assert data[0..] == data;
      if delimMatchPart > 0 {
        pos := ResumeMatch(data);
      }
      while !suspended && pos < |data|
        invariant Inner() && fresh(list.Repr - old(list.Repr)) && 0 <= pos <= |data|
        invariant !suspended ==>
          boundaryDelimiter.Some? && (delimMatchPart == 0 || pos == |data|)
          && Run(delim, old(Abs()), data) == Run(delim, Abs(), data[pos..])
        invariant suspended ==> Abs() == Append(delim, old(Abs()), data)
        decreases |data| - pos, !suspended
      {
        pos, suspended := Turn(data, pos);
      }
    }
  }

  /** A part that was found first stays the first one when more parts follow. */
  lemma {:induction false} FirstPartStays(parts: seq<Bytes>, name: Bytes, i: nat)
    requires i <= |parts| && FirstPart(parts[..i], name).Some?
    ensures FirstPart(parts, name) == FirstPart(parts[..i], name)
    decreases |parts|
  {
    hide IsNamed;
    if i < |parts| {
      var n := |parts| - 1;
      assert parts[..n][..i] == parts[..i];
      FirstPartStays(parts[..n], name, i);
    } else {
      assert parts[..i] == parts;
    }
  }

  lemma DropDrop<T>(s: seq<T>, i: nat, j: nat)
    requires i + j <= |s|
    ensures s[i..][j..] == s[i + j..]
  {
  }

  lemma LineEndAt(data: Bytes, pos: nat, next: nat)
    requires pos <= |data| && next == IndexFrom(data, '\n', pos)
    ensures Index(data[pos..], '\n') == next - pos
    ensures next < |data| ==> data[pos..][next - pos + 1..] == data[next + 1..]
  {
    var s := data[pos..];
    var e := Index(s, '\n');
    assert forall j :: 0 <= j < |s| ==> s[j] == data[pos + j];
    assert e < |s| ==> data[pos + e] == '\n';
    assert next < |data| ==> s[next - pos] == '\n';
  }
}
