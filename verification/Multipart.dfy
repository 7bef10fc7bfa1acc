/**
 The meaning of a multipart body: a byte-at-a-time automaton over the delimiter CR LF "--" boundary, and the
 theorems about feeding it in pieces. Class MultipartData (MultipartData.dfy) is proved to refine it.
 */
module Multipart {
  import opened ByteStrings

  // Matching(k): outside a boundary line, the last k bytes are the first k of the delimiter and are withheld.
  // AtBoundary: the next byte is the first one after the boundary string.
  // BoundaryLine: later in the boundary line, waiting for its LF.
  datatype Scan = Matching(held: nat) | AtBoundary | BoundaryLine | Epilogue

  // parts: the bytes each part has received so far
  datatype State = State(scan: Scan, parts: seq<Bytes>)

  /** The delimiter has CR at index 0 and nowhere else: no proper prefix of it is also a suffix. */
  predicate Borderless(delim: Bytes) {
    |delim| >= 4 && delim[0] == '\r' && '\r' !in delim[1..]
  }

  /** The comment in mpdata_appendData relies on this: only the CR that starts it occurs in the delimiter. */
  function Delimiter(boundary: Bytes): (delim: Bytes)
    ensures Borderless(delim) <==> '\r' !in boundary
  {
    assert ("\r\n--" + boundary)[1..] == "\n--" + boundary;
    assert forall c :: c in "\n--" + boundary <==> c in "\n--" || c in boundary;
    "\r\n--" + boundary
  }

  /** Bytes outside boundary lines go to the last part, or nowhere while in the preamble. */
  function Emit(parts: seq<Bytes>, bytes: Bytes): (r: seq<Bytes>)
    ensures |r| == |parts|
  {
    if parts == [] then [] else parts[..|parts| - 1] + [parts[|parts| - 1] + bytes]
  }

  lemma EmitTwice(parts: seq<Bytes>, a: Bytes, b: Bytes)
    ensures Emit(Emit(parts, a), b) == Emit(parts, a + b)
    ensures Emit(parts, []) == parts
  {
    if parts != [] {
      var last := parts[|parts| - 1];
      assert last + (a + b) == last + a + b;
      assert last + [] == last;
    }
  }

  predicate Proper(delim: Bytes, st: State) {
    st.scan.Matching? ==> st.scan.held < |delim|
  }

  function Step(delim: Bytes, st: State, b: char): (r: State)
    requires Borderless(delim) && Proper(delim, st)
    ensures Proper(delim, r)
  {
    match st.scan
    case Matching(k) =>
      if b == delim[k] then State(if k + 1 == |delim| then AtBoundary else Matching(k + 1), st.parts)
      else if b == '\r' then State(Matching(1), Emit(st.parts, delim[..k]))
      else State(Matching(0), Emit(st.parts, delim[..k] + [b]))
    case AtBoundary =>
      if b == '-' then State(Epilogue, st.parts)
      else State(if b == '\n' then Matching(0) else BoundaryLine, st.parts + [[]])
    case BoundaryLine =>
      if b == '\n' then State(Matching(0), st.parts) else st
    case Epilogue => st
  }

  function Run(delim: Bytes, st: State, data: Bytes): (r: State)
    requires Borderless(delim) && Proper(delim, st)
    ensures Proper(delim, r)
    decreases |data|
  {
    if data == [] then st else Run(delim, Step(delim, st, data[0]), data[1..])
  }

  lemma {:induction false} RunConcat(delim: Bytes, st: State, a: Bytes, b: Bytes)
    requires Borderless(delim) && Proper(delim, st)
    ensures Run(delim, st, a + b) == Run(delim, Run(delim, st, a), b)
    decreases |a|
  {
    if a == [] {
      assert a + b == b;
    } else {
      RunConcat(delim, Step(delim, st, a[0]), a[1..], b);
      assert (a + b)[1..] == a[1..] + b;
    }
  }

  lemma RunSnoc(delim: Bytes, st: State, a: Bytes, c: char)
    requires Borderless(delim) && Proper(delim, st)
    ensures Run(delim, st, a + [c]) == Step(delim, Run(delim, st, a), c)
  {
    RunConcat(delim, st, a, [c]);
    var mid := Run(delim, st, a);
    assert [c][1..] == [];
    assert Run(delim, mid, [c]) == Run(delim, Step(delim, mid, c), []);
  }

  lemma {:induction false} RunEpilogue(delim: Bytes, st: State, data: Bytes)
    requires Borderless(delim) && st.scan.Epilogue?
    ensures Run(delim, st, data) == st
    decreases |data|
  {
    if data != [] {
      RunEpilogue(delim, st, data[1..]);
    }
  }

  // ------------------------------------------------------------------------------------------------------
  // The block-wise scan agrees with the automaton

  function Min(a: nat, b: nat): nat {
    if a < b then a else b
  }

  /** memcmp over the shorter of `delim` and `data[q..]`: a delimiter may start at q. */
  predicate MayStart(delim: Bytes, data: Bytes, q: nat)
    requires q <= |data|
  {
    var n := Min(|delim|, |data| - q);
    data[q..q + n] == delim[..n]
  }

  /** q is where the scan stops: the first place a delimiter may start, or the end of the data. */
  predicate ScanStop(delim: Bytes, data: Bytes, q: nat) {
    q <= |data| && (q < |data| ==> MayStart(delim, data, q))
    && forall i :: 0 <= i < q ==> !MayStart(delim, data, i)
  }

  predicate OccursAt(delim: Bytes, data: Bytes, j: nat) {
    j + |delim| <= |data| && data[j..j + |delim|] == delim
  }

  predicate Free(delim: Bytes, data: Bytes) {
    forall j :: 0 <= j < |data| ==> !OccursAt(delim, data, j)
  }

  /** One byte after `kept` was emitted and delim[..k] held back. */
  lemma StepScanning(delim: Bytes, parts: seq<Bytes>, kept: Bytes, k: nat, b: char)
    requires Borderless(delim) && k < |delim| && b != delim[k]
    ensures Step(delim, State(Matching(k), Emit(parts, kept)), b)
         == if b == '\r' then State(Matching(1), Emit(parts, kept + delim[..k]))
            else State(Matching(0), Emit(parts, kept + delim[..k] + [b]))
  {
    EmitTwice(parts, kept, delim[..k]);
    EmitTwice(parts, kept, delim[..k] + [b]);
    assert kept + (delim[..k] + [b]) == kept + delim[..k] + [b];
  }

  /** Until the delimiter completes, the automaton has emitted everything but some held-back delim[..k]. */
  lemma {:induction false} RunScanning(delim: Bytes, parts: seq<Bytes>, seen: Bytes) returns (kept: Bytes, k: nat)
    requires Borderless(delim) && Free(delim, seen)
    ensures k < |delim| && seen == kept + delim[..k]
    ensures Run(delim, State(Matching(0), parts), seen) == State(Matching(k), Emit(parts, kept))
    decreases |seen|
  {
    if seen == [] {
      kept, k := [], 0;
      EmitTwice(parts, [], []);
    } else {
      var before, b := seen[..|seen| - 1], seen[|seen| - 1];
      assert seen == before + [b];
      forall j | 0 <= j < |before| ensures !OccursAt(delim, before, j) {
        assert !OccursAt(delim, seen, j);
        assert j + |delim| <= |before| ==> seen[j..j + |delim|] == before[j..j + |delim|];
      }
      kept, k := RunScanning(delim, parts, before);
      RunSnoc(delim, State(Matching(0), parts), before, b);
      if b == delim[k] {
        assert delim[..k + 1] == delim[..k] + [b];
        assert seen == kept + delim[..k + 1];
        assert k + 1 == |delim| ==> OccursAt(delim, seen, |kept|);
        k := k + 1;
      } else {
        StepScanning(delim, parts, kept, k, b);
        if b == '\r' {
          kept, k := kept + delim[..k], 1;
          assert delim[..1] == [b];
        } else {
          kept, k := kept + delim[..k] + [b], 0;
        }
      }
    }
  }

  /** Once at Matching(k), the rest of the delimiter leads to the boundary line. */
  lemma {:induction false} RunMatch(delim: Bytes, parts: seq<Bytes>, k: nat, n: nat)
    requires Borderless(delim) && k < |delim| && k + n <= |delim|
    ensures Run(delim, State(Matching(k), parts), delim[k..k + n])
         == State(if k + n == |delim| then AtBoundary else Matching(k + n), parts)
    decreases n
  {
    if n > 0 {
      var d := delim[k..k + n];
      assert d[1..] == delim[k + 1..k + n];
      if k + 1 < |delim| {
        RunMatch(delim, parts, k + 1, n - 1);
      } else {
        assert d[1..] == [];
      }
    }
  }

  /** At a stop, what the automaton still held back before it is flushed by the CR that starts the match. */
  lemma RunUpToCr(delim: Bytes, parts: seq<Bytes>, seen: Bytes)
    requires Borderless(delim) && Free(delim, seen)
    ensures Run(delim, State(Matching(0), parts), seen + ['\r']) == State(Matching(1), Emit(parts, seen))
  {
    var kept, k := RunScanning(delim, parts, seen);
    RunSnoc(delim, State(Matching(0), parts), seen, '\r');
    if k > 0 {
      assert delim[1..][k - 1] == delim[k];
      StepScanning(delim, parts, kept, k, '\r');
    } else {
      assert seen == kept;
    }
  }

  /** Content without a delimiter, then the first n bytes of one. */
  lemma RunIntoDelimiter(delim: Bytes, parts: seq<Bytes>, content: Bytes, n: nat)
    requires Borderless(delim) && 0 < n <= |delim| && Free(delim, content)
    ensures Run(delim, State(Matching(0), parts), content + delim[..n])
         == State(if n == |delim| then AtBoundary else Matching(n), Emit(parts, content))
  {
    RunUpToCr(delim, parts, content);
    var more := delim[1..1 + (n - 1)];
    assert content + delim[..n] == (content + ['\r']) + more;
    RunConcat(delim, State(Matching(0), parts), content + ['\r'], more);
    RunMatch(delim, Emit(parts, content), 1, n - 1);
  }

  /** No delimiter starts before a stop, so none completes in the data before it. */
  lemma FreeBeforeStop(delim: Bytes, data: Bytes, q: nat)
    requires Borderless(delim) && ScanStop(delim, data, q)
    ensures Free(delim, data[..q])
  {
    forall j | 0 <= j < q ensures !OccursAt(delim, data[..q], j) {
      assert j + |delim| <= q ==> data[..q][j..j + |delim|] == data[j..j + |delim|];
      assert !MayStart(delim, data, j);
    }
  }

  lemma RunWithoutStop(delim: Bytes, parts: seq<Bytes>, data: Bytes)
    requires Borderless(delim) && ScanStop(delim, data, |data|)
    ensures Run(delim, State(Matching(0), parts), data) == State(Matching(0), Emit(parts, data))
  {
    FreeBeforeStop(delim, data, |data|);
    assert data[..|data|] == data;
    var kept, k := RunScanning(delim, parts, data);
    assert data[|kept|..|kept| + k] == delim[..k];
    assert k > 0 ==> MayStart(delim, data, |kept|);
    assert data == kept;
  }

  /** One turn of the scan: emit up to the stop, then hold back or cross the delimiter. */
  lemma RunToStop(delim: Bytes, parts: seq<Bytes>, data: Bytes, q: nat)
    requires Borderless(delim) && ScanStop(delim, data, q)
    ensures |data| - q < |delim| ==>
      Run(delim, State(Matching(0), parts), data) == State(Matching(|data| - q), Emit(parts, data[..q]))
    ensures |data| - q >= |delim| ==>
      Run(delim, State(Matching(0), parts), data[..q + |delim|]) == State(AtBoundary, Emit(parts, data[..q]))
  {
    FreeBeforeStop(delim, data, q);
    if q == |data| {
      RunWithoutStop(delim, parts, data);
      assert data[..q] == data;
    } else {
      var n := if |data| - q < |delim| then |data| - q else |delim|;
      RunIntoDelimiter(delim, parts, data[..q], n);
      assert data[..q + n] == data[..q] + delim[..n];
      assert n == |data| - q ==> data[..q + n] == data;
    }
  }

  /** Starting over after a false start takes the same step as the held-back state. */
  lemma RestartStep(delim: Bytes, parts: seq<Bytes>, k: nat, b: char)
    requires Borderless(delim) && 0 < k < |delim|
    ensures var restarted := Step(delim, State(Matching(0), Emit(parts, delim[..k])), b);
            if b != delim[k] then restarted == Step(delim, State(Matching(k), parts), b)
            else restarted == State(Matching(0), Emit(parts, delim[..k + 1]))
  {
    assert delim[1..][k - 1] == delim[k];
    assert [] + delim[..k] == delim[..k] + delim[..0] == delim[..k];
    assert delim[..k] + [delim[k]] == delim[..k + 1];
    EmitTwice(parts, [], []);
    if b != delim[k] {
      StepScanning(delim, parts, [], k, b);
    }
    if b != '\r' {
      StepScanning(delim, parts, delim[..k], 0, b);
    }
  }

  /**
   A held-back prefix that the next data does not continue was ordinary content after all, and no part of that
   content can start another delimiter: the automaton goes on as if it had been emitted at once.
   */
  lemma {:induction false} FalseStart(delim: Bytes, parts: seq<Bytes>, k: nat, data: Bytes)
    requires Borderless(delim) && 0 < k < |delim|
    requires var n := Min(|delim| - k, |data|); data[..n] != delim[k..k + n]
    ensures Run(delim, State(Matching(k), parts), data)
         == Run(delim, State(Matching(0), Emit(parts, delim[..k])), data)
    decreases |data|
  {
    var b, n := data[0], Min(|delim| - k, |data|);
    RestartStep(delim, parts, k, b);
    if b == delim[k] {
      assert data[..n] == [b] + data[1..][..n - 1];
      assert delim[k..k + n] == [b] + delim[k + 1..k + n];
      FalseStart(delim, parts, k + 1, data[1..]);
    }
  }
}
