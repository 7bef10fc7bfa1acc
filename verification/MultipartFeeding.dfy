/**
 Feeding a multipart body in pieces. One call runs the automaton and then forgets how far it is inside a boundary
 line (PP_GOT_WS is never stored), which is exactly what makes some cuts visible and others not.
 */
module MultipartFeeding {
  import opened ByteStrings
  import opened Multipart

  /** What survives the end of a call: inside a boundary line, only that a boundary string was seen. */
  function Suspend(st: State): State {
    if st.scan.BoundaryLine? then st.(scan := AtBoundary) else st
  }

  /** One call of mpdata_appendData. */
  function Append(delim: Bytes, st: State, data: Bytes): (r: State)
    requires Borderless(delim) && Proper(delim, st)
    ensures Proper(delim, r)
  {
    Suspend(Run(delim, st, data))
  }

  function Feed(delim: Bytes, st: State, pieces: seq<Bytes>): (r: State)
    requires Borderless(delim) && Proper(delim, st)
    ensures Proper(delim, r)
    decreases |pieces|
  {
    if pieces == [] then st else Feed(delim, Append(delim, st, pieces[0]), pieces[1..])
  }

  /** A new parser: as if the CR LF before the first boundary had been seen, in the preamble. */
  const FRESH_PARSER := State(Matching(2), [])

  lemma {:induction false} FeedSnoc(delim: Bytes, st: State, pieces: seq<Bytes>, data: Bytes)
    requires Borderless(delim) && Proper(delim, st)
    ensures Feed(delim, st, pieces + [data]) == Append(delim, Feed(delim, st, pieces), data)
    decreases |pieces|
  {
    if pieces == [] {
      assert Feed(delim, Append(delim, st, data), []) == Append(delim, st, data);
      assert ([] + [data])[1..] == [];
    } else {
      assert (pieces + [data])[1..] == pieces[1..] + [data];
      FeedSnoc(delim, Append(delim, st, pieces[0]), pieces[1..], data);
    }
  }

  // ------------------------------------------------------------------------------------------------------
  // Exact split invariance: which cuts can be seen

  /** A cut is invisible to every continuation exactly when it does not fall inside a boundary line. */
  lemma CutInvisibleIff(delim: Bytes, st: State, a: Bytes)
    requires Borderless(delim) && Proper(delim, st)
    ensures (forall b :: Append(delim, Append(delim, st, a), b) == Append(delim, st, a + b))
        <==> !Run(delim, st, a).scan.BoundaryLine?
  {
    forall b ensures !Run(delim, st, a).scan.BoundaryLine? ==>
                     Append(delim, Append(delim, st, a), b) == Append(delim, st, a + b)
    {
      RunConcat(delim, st, a, b);
    }
    if Run(delim, st, a).scan.BoundaryLine? {
      CutInBoundaryLine(delim, st, a, "x");
      assert Append(delim, Append(delim, st, a), "x") != Append(delim, st, a + "x");
    }
  }

  /** A cut inside a boundary line leaves an abandoned empty part behind, unless the line goes on with a hyphen. */
  lemma CutInBoundaryLine(delim: Bytes, st: State, a: Bytes, b: Bytes)
    requires Borderless(delim) && Proper(delim, st)
    requires Run(delim, st, a).scan.BoundaryLine? && b != [] && b[0] != '-'
    ensures |Append(delim, Append(delim, st, a), b).parts| == |Append(delim, st, a + b).parts| + 1
  {
    RunConcat(delim, st, a, b);
    var mid := Run(delim, st, a);
    ExtraPart(delim, Step(delim, Suspend(mid), b[0]), Step(delim, mid, b[0]), b[1..]);
  }

  lemma {:induction false} ExtraPart(delim: Bytes, s: State, t: State, data: Bytes)
    requires Borderless(delim) && Proper(delim, s) && Proper(delim, t)
    requires s.scan == t.scan && |s.parts| == |t.parts| + 1
    ensures |Run(delim, s, data).parts| == |Run(delim, t, data).parts| + 1
    decreases |data|
  {
    if data != [] {
      ExtraPart(delim, Step(delim, s, data[0]), Step(delim, t, data[0]), data[1..]);
    }
  }

  lemma RunBoundaryStart(delim: Bytes)
    requires delim == "\r\n--b" && Borderless(delim)
    ensures Run(delim, FRESH_PARSER, "--b\r") == State(BoundaryLine, [[]])
  {
    assert "--b\r"[1..] == "-b\r" && "-b\r"[1..] == "b\r" && "b\r"[1..] == "\r" && "\r"[1..] == [];
    assert Run(delim, State(AtBoundary, []), "\r") == Run(delim, State(BoundaryLine, [[]]), []);
    assert Run(delim, State(Matching(4), []), "b\r") == Run(delim, State(AtBoundary, []), "\r");
    assert Run(delim, State(Matching(3), []), "-b\r") == Run(delim, State(Matching(4), []), "b\r");
  }

  /** Such a cut is visible: the body "--b CR LF x" has one part, but two when it is cut before its LF. */
  lemma CutExample()
    ensures |Append(Delimiter("b"), FRESH_PARSER, "--b\r\nx").parts| == 1
    ensures |Append(Delimiter("b"), Append(Delimiter("b"), FRESH_PARSER, "--b\r"), "\nx").parts| == 2
  {
    var delim := Delimiter("b");
    var line: State := State(BoundaryLine, [[]]);
    assert delim == "\r\n--b";
    RunBoundaryStart(delim);
    CutInBoundaryLine(delim, FRESH_PARSER, "--b\r", "\nx");
    assert "--b\r" + "\nx" == "--b\r\nx";
    RunConcat(delim, FRESH_PARSER, "--b\r", "\nx");
    var after := Step(delim, line, '\n');
    var last := Step(delim, after, 'x');
    assert "\nx"[1..] == "x" && "x"[1..] == [] && |last.parts| == 1;
    assert Run(delim, after, "x") == Run(delim, last, []);
  }

  /** No piece but the last ends inside a boundary line. */
  predicate CleanCuts(delim: Bytes, st: State, pieces: seq<Bytes>)
    requires Borderless(delim) && Proper(delim, st)
    decreases |pieces|
  {
    |pieces| <= 1 ||
    (!Run(delim, st, pieces[0]).scan.BoundaryLine? && CleanCuts(delim, Run(delim, st, pieces[0]), pieces[1..]))
  }

  lemma {:induction false} FeedIsOneCall(delim: Bytes, st: State, pieces: seq<Bytes>)
    requires Borderless(delim) && Proper(delim, st) && !st.scan.BoundaryLine?
    requires CleanCuts(delim, st, pieces)
    ensures Feed(delim, st, pieces) == Append(delim, st, Flatten(pieces))
    decreases |pieces|
  {
    if |pieces| > 0 {
      RunConcat(delim, st, pieces[0], Flatten(pieces[1..]));
      if |pieces| > 1 {
        FeedIsOneCall(delim, Run(delim, st, pieces[0]), pieces[1..]);
      } else {
        assert Feed(delim, Append(delim, st, pieces[0]), pieces[1..]) == Append(delim, st, pieces[0]);
        assert pieces[0] + Flatten(pieces[1..]) == pieces[0];
      }
    }
  }

  // ------------------------------------------------------------------------------------------------------
  // What every cut preserves: the parts that received data, and whether the epilogue was reached

  /** The parts that received at least one byte, in order. */
  function NonEmpty(parts: seq<Bytes>): seq<Bytes> {
    if parts == [] then [] else
      NonEmpty(parts[..|parts| - 1]) + if parts[|parts| - 1] == [] then [] else [parts[|parts| - 1]]
  }

  /** What follows a boundary string in its line, padding for instance, has no hyphen but as its first byte. */
  predicate DirectByte(scan: Scan, b: char) {
    scan.BoundaryLine? ==> b != '-'
  }

  predicate Direct(delim: Bytes, st: State, data: Bytes)
    requires Borderless(delim) && Proper(delim, st)
    decreases |data|
  {
    data == [] || (DirectByte(st.scan, data[0]) && Direct(delim, Step(delim, st, data[0]), data[1..]))
  }

  /** The cut state s and the uncut state t differ at most by abandoned empty parts before the last one. */
  predicate Alike(s: State, t: State) {
    && (s.scan == t.scan || (s.scan.AtBoundary? && t.scan.BoundaryLine?))
    && (s.parts == [] <==> t.parts == [])
    && (s.parts != [] ==>
          var m, n := |s.parts| - 1, |t.parts| - 1;
          s.parts[m] == t.parts[n] && NonEmpty(s.parts[..m]) == NonEmpty(t.parts[..n]))
    && (t.scan.BoundaryLine? ==> t.parts != [] && t.parts[|t.parts| - 1] == [])
  }

  lemma AlikeStep(delim: Bytes, s: State, t: State, b: char)
    requires Borderless(delim) && Proper(delim, s) && Proper(delim, t)
    requires Alike(s, t) && DirectByte(t.scan, b)
    ensures Alike(Step(delim, s, b), Step(delim, t, b))
  {
    assert NonEmpty(s.parts) == NonEmpty(t.parts);
    assert (s.parts + [[]])[..|s.parts|] == s.parts;
    assert (t.parts + [[]])[..|t.parts|] == t.parts;
  }

  lemma {:induction false} AlikeRun(delim: Bytes, s: State, t: State, data: Bytes)
    requires Borderless(delim) && Proper(delim, s) && Proper(delim, t)
    requires Alike(s, t) && Direct(delim, t, data)
    ensures Alike(Run(delim, s, data), Run(delim, t, data))
    decreases |data|
  {
    if data != [] {
      AlikeStep(delim, s, t, data[0]);
      AlikeRun(delim, Step(delim, s, data[0]), Step(delim, t, data[0]), data[1..]);
    }
  }

  lemma {:induction false} DirectConcat(delim: Bytes, st: State, a: Bytes, b: Bytes)
    requires Borderless(delim) && Proper(delim, st)
    ensures Direct(delim, st, a + b) <==> Direct(delim, st, a) && Direct(delim, Run(delim, st, a), b)
    decreases |a|
  {
    if a == [] {
      assert a + b == b;
    } else {
      assert (a + b)[1..] == a[1..] + b;
      DirectConcat(delim, Step(delim, st, a[0]), a[1..], b);
    }
  }

  lemma {:induction false} AlikeFeed(delim: Bytes, s: State, t: State, pieces: seq<Bytes>)
    requires Borderless(delim) && Proper(delim, s) && Proper(delim, t)
    requires Alike(s, t) && Direct(delim, t, Flatten(pieces))
    ensures Alike(Feed(delim, s, pieces), Run(delim, t, Flatten(pieces)))
    decreases |pieces|
  {
    if pieces != [] {
      var p, rest := pieces[0], Flatten(pieces[1..]);
      DirectConcat(delim, t, p, rest);
      RunConcat(delim, t, p, rest);
      AlikeRun(delim, s, t, p);
      AlikeFeed(delim, Append(delim, s, p), Run(delim, t, p), pieces[1..]);
    }
  }

  /** The same parts received the same bytes, and both or neither are in the epilogue. */
  predicate SameOutcome(s: State, t: State) {
    NonEmpty(s.parts) == NonEmpty(t.parts) && (s.scan.Epilogue? <==> t.scan.Epilogue?)
  }

  /** Split invariance: whatever the pieces, the outcome is that of the whole body in one call. */
  lemma SplitInvariance(delim: Bytes, pieces: seq<Bytes>)
    requires Borderless(delim) && Direct(delim, FRESH_PARSER, Flatten(pieces))
    ensures SameOutcome(Feed(delim, FRESH_PARSER, pieces), Append(delim, FRESH_PARSER, Flatten(pieces)))
  {
    AlikeFeed(delim, FRESH_PARSER, FRESH_PARSER, pieces);
  }

  /** Where a hyphen comes too late in a boundary line. */
  lemma {:induction false} LateHyphen(delim: Bytes, st: State, data: Bytes) returns (i: nat)
    requires Borderless(delim) && Proper(delim, st) && !Direct(delim, st, data)
    ensures i < |data| && Run(delim, st, data[..i]).scan.BoundaryLine? && data[i] == '-'
    decreases |data|
  {
    i := 0;
    if DirectByte(st.scan, data[0]) {
      i := LateHyphen(delim, Step(delim, st, data[0]), data[1..]);
      i := i + 1;
      assert data[..i][1..] == data[1..][..i - 1];
    }
  }

  /** A cut before such a hyphen makes it the end of the body. */
  lemma CutBeforeHyphen(delim: Bytes, st: State, a: Bytes)
    requires Borderless(delim) && Proper(delim, st) && Run(delim, st, a).scan.BoundaryLine?
    ensures Flatten([a, "-"]) == a + "-"
    ensures !SameOutcome(Feed(delim, st, [a, "-"]), Append(delim, st, a + "-"))
  {
    var cut := Append(delim, st, a);
    RunSnoc(delim, st, a, '-');
    RunSnoc(delim, cut, [], '-');
    assert [] + ['-'] == "-";
    assert [a, "-"][1..] == ["-"] && ["-"][1..] == [];
    assert Flatten(["-"]) == "-" + Flatten([]) == "-";
    assert Feed(delim, st, [a, "-"]) == Feed(delim, cut, ["-"]);
    assert Feed(delim, cut, ["-"]) == Feed(delim, Append(delim, cut, "-"), []);
  }

  /** The outcome never depends on the cuts exactly when no boundary line has a late hyphen. */
  lemma SplitInvarianceIff(delim: Bytes, data: Bytes)
    requires Borderless(delim)
    ensures Direct(delim, FRESH_PARSER, data)
        <==> forall pieces :: Flatten(pieces) <= data ==>
               SameOutcome(Feed(delim, FRESH_PARSER, pieces), Append(delim, FRESH_PARSER, Flatten(pieces)))
  {
    if Direct(delim, FRESH_PARSER, data) {
      forall pieces | Flatten(pieces) <= data
        ensures SameOutcome(Feed(delim, FRESH_PARSER, pieces), Append(delim, FRESH_PARSER, Flatten(pieces)))
      {
        var n := |Flatten(pieces)|;
        SplitAt(data, n);
        assert data[..n] == Flatten(pieces);
        DirectConcat(delim, FRESH_PARSER, data[..n], data[n..]);
        SplitInvariance(delim, pieces);
      }
    } else {
      var i := LateHyphen(delim, FRESH_PARSER, data);
      CutBeforeHyphen(delim, FRESH_PARSER, data[..i]);
      assert data[..i] + "-" == data[..i + 1];
      assert Flatten([data[..i], "-"]) <= data;
    }
  }

  // ------------------------------------------------------------------------------------------------------
  // Round trip (section 5.1.1 of RFC 2046)

  /** What follows a boundary string: CR LF and the first part, or the closing hyphens. */
  function PrintAfterBoundary(delim: Bytes, parts: seq<Bytes>): Bytes {
    if parts == [] then "--" else "\r\n" + parts[0] + delim + PrintAfterBoundary(delim, parts[1..])
  }

  /** A body; without a preamble it starts with "--" boundary. */
  function Print(delim: Bytes, preamble: Option<Bytes>, parts: seq<Bytes>, epilogue: Bytes): Bytes
    requires Borderless(delim)
  {
    (if preamble.Some? then preamble.value + delim else delim[2..]) + PrintAfterBoundary(delim, parts) + epilogue
  }

  lemma DirectScanning(delim: Bytes, st: State, a: Bytes, b: char)
    requires Borderless(delim) && Proper(delim, st) && Direct(delim, st, a)
    requires !Run(delim, st, a).scan.BoundaryLine?
    ensures Direct(delim, st, a + [b])
  {
    DirectConcat(delim, st, a, [b]);
    assert [b][1..] == [];
  }

  /** Content crosses to the next boundary without anything but DirectByte bytes. */
  lemma {:induction false} DirectContent(delim: Bytes, parts: seq<Bytes>, content: Bytes, n: nat)
    requires Borderless(delim) && n <= |delim| && Free(delim, content)
    ensures Direct(delim, State(Matching(0), parts), content + delim[..n])
    decreases |content|, n
  {
    hide Direct, Free;
    var st := State(Matching(0), parts);
    if n > 0 {
      DirectContent(delim, parts, content, n - 1);
      var shorter := content + delim[..n - 1];
      assert content + delim[..n] == shorter + [delim[n - 1]];
      if n > 1 {
        RunIntoDelimiter(delim, parts, content, n - 1);
      } else {
        assert shorter == content;
        var kept, k := RunScanning(delim, parts, content);
      }
      DirectScanning(delim, st, shorter, delim[n - 1]);
    } else if content != [] {
      var m := |content| - 1;
      FreePrefix(delim, content, m);
      DirectContent(delim, parts, content[..m], 0);
      assert content[..m] + delim[..0] == content[..m] && content + delim[..0] == content[..m] + [content[m]];
      var kept, k := RunScanning(delim, parts, content[..m]);
      DirectScanning(delim, st, content[..m], content[m]);
    } else {
      DirectNothing(delim, st);
      EmptyConcat(content);
    }
  }

  lemma DirectNothing(delim: Bytes, st: State)
    requires Borderless(delim) && Proper(delim, st)
    ensures Direct(delim, st, [])
  {
  }

  lemma FreePrefix(delim: Bytes, content: Bytes, n: nat)
    requires Free(delim, content) && n <= |content|
    ensures Free(delim, content[..n])
  {
    forall j | 0 <= j < n ensures !OccursAt(delim, content[..n], j) {
      assert !OccursAt(delim, content, j);
      assert j + |delim| <= n ==> content[..n][j..j + |delim|] == content[j..j + |delim|];
    }
  }

  lemma RunContent(delim: Bytes, parts: seq<Bytes>, content: Bytes, rest: Bytes)
    requires Borderless(delim) && Free(delim, content)
    ensures var st, next := State(Matching(0), parts), State(AtBoundary, Emit(parts, content));
            Run(delim, st, content + delim + rest) == Run(delim, next, rest)
            && (Direct(delim, next, rest) ==> Direct(delim, st, content + delim + rest))
  {
    assert delim[..|delim|] == delim;
    RunIntoDelimiter(delim, parts, content, |delim|);
    DirectContent(delim, parts, content, |delim|);
    RunConcat(delim, State(Matching(0), parts), content + delim, rest);
    DirectConcat(delim, State(Matching(0), parts), content + delim, rest);
  }

  lemma RunOpen(delim: Bytes, parts: seq<Bytes>, rest: Bytes)
    requires Borderless(delim)
    ensures var st, next := State(AtBoundary, parts), State(Matching(0), parts + [[]]);
            Run(delim, st, "\r\n" + rest) == Run(delim, next, rest)
            && (Direct(delim, st, "\r\n" + rest) <==> Direct(delim, next, rest))
  {
    assert ("\r\n" + rest)[1..] == "\n" + rest;
    assert ("\n" + rest)[1..] == rest;
    var st := State(AtBoundary, parts);
    var line := Step(delim, st, '\r');
    assert Run(delim, st, "\r\n" + rest) == Run(delim, line, "\n" + rest);
  }

  lemma {:induction false} RunTail(delim: Bytes, parts: seq<Bytes>, tail: Bytes, rest: Bytes)
    requires Borderless(delim) && '\n' !in tail
    ensures Run(delim, State(BoundaryLine, parts), tail + "\n" + rest) == Run(delim, State(Matching(0), parts), rest)
    decreases |tail|
  {
    var st, text := State(BoundaryLine, parts), tail + "\n" + rest;
    if tail == [] {
      assert text[0] == '\n' && text[1..] == rest;
    } else {
      assert text[0] == tail[0] && text[1..] == tail[1..] + "\n" + rest;
      RunTail(delim, parts, tail[1..], rest);
    }
  }

  /**
   A boundary string opens a part when no hyphen follows it directly; the rest of its line is dropped, and the line may
   end in a bare LF. With a hyphen it ends the body.
   */
  lemma BoundaryOpensOrEnds(delim: Bytes, parts: seq<Bytes>, tail: Bytes, rest: Bytes)
    requires Borderless(delim) && '\n' !in tail
    ensures Run(delim, State(AtBoundary, parts), tail + "\n" + rest) ==
      if tail != [] && tail[0] == '-' then State(Epilogue, parts)
      else Run(delim, State(Matching(0), parts + [[]]), rest)
  {
    var text := tail + "\n" + rest;
    if tail == [] {
      assert text[0] == '\n' && text[1..] == rest;
    } else {
      assert text[0] == tail[0] && text[1..] == tail[1..] + "\n" + rest;
      if tail[0] == '-' {
        RunEpilogue(delim, State(Epilogue, parts), text[1..]);
      } else {
        RunTail(delim, parts + [[]], tail[1..], rest);
      }
    }
  }

  lemma RunClose(delim: Bytes, parts: seq<Bytes>, epilogue: Bytes)
    requires Borderless(delim)
    ensures Run(delim, State(AtBoundary, parts), "--" + epilogue) == State(Epilogue, parts)
    ensures Direct(delim, State(AtBoundary, parts), "--" + epilogue)
  {
    assert ("--" + epilogue)[1..] == "-" + epilogue;
    RunEpilogue(delim, State(Epilogue, parts), "-" + epilogue);
    DirectEpilogue(delim, State(Epilogue, parts), "-" + epilogue);
  }

  lemma RunPart(delim: Bytes, before: seq<Bytes>, part: Bytes, rest: Bytes)
    requires Borderless(delim) && Free(delim, part)
    ensures var st, next := State(AtBoundary, before), State(AtBoundary, before + [part]);
            Run(delim, st, "\r\n" + (part + delim + rest)) == Run(delim, next, rest)
            && (Direct(delim, next, rest) ==> Direct(delim, st, "\r\n" + (part + delim + rest)))
  {
    RunOpen(delim, before, part + delim + rest);
    RunContent(delim, before + [[]], part, rest);
    assert Emit(before + [[]], part) == before + [part] by {
      assert [] + part == part;
    }
  }

  lemma {:induction false} RunAfterBoundary(delim: Bytes, before: seq<Bytes>, parts: seq<Bytes>, epilogue: Bytes)
    requires Borderless(delim)
    requires forall p :: p in parts ==> Free(delim, p)
    ensures var text := PrintAfterBoundary(delim, parts) + epilogue;
            Run(delim, State(AtBoundary, before), text) == State(Epilogue, before + parts)
            && Direct(delim, State(AtBoundary, before), text)
    decreases |parts|
  {
    if parts == [] {
      RunClose(delim, before, epilogue);
      assert before + parts == before;
    } else {
      var rest := PrintAfterBoundary(delim, parts[1..]) + epilogue;
      assert PrintAfterBoundary(delim, parts) + epilogue == "\r\n" + (parts[0] + delim + rest);
      RunPart(delim, before, parts[0], rest);
      RunAfterBoundary(delim, before + [parts[0]], parts[1..], epilogue);
      assert before + parts == before + [parts[0]] + parts[1..];
    }
  }

  lemma {:induction false} DirectEpilogue(delim: Bytes, st: State, data: Bytes)
    requires Borderless(delim) && st.scan.Epilogue?
    ensures Direct(delim, st, data)
    decreases |data|
  {
    if data != [] {
      DirectEpilogue(delim, st, data[1..]);
    }
  }

  /** A new parser behaves as one that has just read CR LF. */
  lemma RunFresh(delim: Bytes, data: Bytes)
    requires Borderless(delim) && delim[..2] == "\r\n"
    ensures Run(delim, FRESH_PARSER, data) == Run(delim, State(Matching(0), []), "\r\n" + data)
    ensures Direct(delim, FRESH_PARSER, data) <==> Direct(delim, State(Matching(0), []), "\r\n" + data)
  {
    var st := State(Matching(0), []);
    assert delim[0..0 + 2] == "\r\n";
    RunMatch(delim, [], 0, 2);
    DirectContent(delim, [], [], 2);
    assert [] + delim[..2] == "\r\n";
    RunConcat(delim, st, "\r\n", data);
    DirectConcat(delim, st, "\r\n", data);
  }

  /**
   Round trip: whatever the pieces, a printed body yields exactly its parts (those with at least one byte), and
   ends in the epilogue. The preamble and the epilogue are dropped; nothing withheld is lost or repeated.
   */
  lemma RoundTrip(boundary: Bytes, preamble: Option<Bytes>, parts: seq<Bytes>, epilogue: Bytes, pieces: seq<Bytes>)
    requires '\r' !in boundary
    requires preamble.Some? ==> Free(Delimiter(boundary), "\r\n" + preamble.value)
    requires forall p :: p in parts ==> Free(Delimiter(boundary), p)
    requires Flatten(pieces) == Print(Delimiter(boundary), preamble, parts, epilogue)
    ensures Feed(Delimiter(boundary), FRESH_PARSER, pieces).scan.Epilogue?
    ensures NonEmpty(Feed(Delimiter(boundary), FRESH_PARSER, pieces).parts) == NonEmpty(parts)
    ensures Append(Delimiter(boundary), FRESH_PARSER, Flatten(pieces)) == State(Epilogue, parts)
  {
    var delim, text := Delimiter(boundary), Flatten(pieces);
    var lead := if preamble.Some? then "\r\n" + preamble.value else [];
    var rest := PrintAfterBoundary(delim, parts) + epilogue;
    assert "\r\n" + text == lead + delim + rest by {
      assert delim == "\r\n" + delim[2..];
    }
    RunFresh(delim, text);
    RunContent(delim, [], lead, rest);
    RunAfterBoundary(delim, [], parts, epilogue);
    assert [] + parts == parts;
    SplitInvariance(delim, pieces);
  }
}
