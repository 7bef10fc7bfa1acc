/**
 The round of the main loop (src/main.c) over the connection objects themselves: what they answer obeys the contract on
 which Mainloop.dfy is built, and none of those that stay in the table is forgotten by the selector.
 */
module MainloopRounds {
  import opened Descriptors
  import opened Mainloop
  import opened ServerConnections

  /** The connections share no objects with one another, nor with the selector. */
  ghost predicate Apart(live: set<ServerConnection>, drs: DataReadySelector)
    reads live
  {
    && (forall c :: c in live ==> c in c.Repr && drs !in c.Repr)
    && (forall c, d :: c in live && d in live && c != d ==> c.Repr !! d.Repr)
  }

  /** What the others do does not reach this connection and its socket. */
  ghost predicate Aside(c: ServerConnection, live: set<ServerConnection>)
    reads live
  {
    forall d :: d in live && d != c ==> c !in d.Repr && c.input !in d.Repr && c.output !in d.Repr
  }

  /** What a connection waits for is selected: at least one descriptor. */
  predicate Selected(r: Dpr, readFds: set<int>, writeFds: set<int>) {
    ReadFds(r) <= readFds && WriteFds(r) <= writeFds && ReadFds(r) + WriteFds(r) != {}
  }

  lemma StaysSelected(r: Dpr, readFds: set<int>, writeFds: set<int>, moreRead: set<int>, moreWrite: set<int>)
    requires Selected(r, readFds, writeFds) && readFds <= moreRead && writeFds <= moreWrite
    ensures Selected(r, moreRead, moreWrite)
  {
  }

  /** One connection of the table; the others do not notice. */
  method PollOne(c: ServerConnection, ghost live: set<ServerConnection>, ghost closed: set<ServerConnection>,
                 drs: DataReadySelector, closeIfIdle: bool) returns (res: ConnResult, ghost r: Dpr)
    requires c in live && Apart(live, drs)
    requires forall e :: e in closed ==> e !in live && Aside(e, live)
    requires forall d :: d in live ==> d.Valid() && (d.rrs.Idle? ==> d.readSize == 0)
    modifies c.Repr, drs
    ensures fresh(c.Repr - old(c.Repr))
    ensures forall d :: d in live && d != c ==> d.Valid() && d.Repr == old(d.Repr) && (d.rrs.Idle? ==> d.readSize == 0)
    ensures forall d, w :: d in live && d != c && old(d.Waiting(w)) ==> d.Waiting(w)
    ensures res.ConnBusy? || res.ConnIdle? ==>
      && c.Valid() && (c.rrs.Idle? ==> c.readSize == 0) && c.Waiting(r) && Selected(r, drs.readFds, drs.writeFds)
      && Apart(live, drs)
    ensures !res.ConnCrash? && !res.ProgramExit? ==>
      old(drs.readFds) <= drs.readFds && old(drs.writeFds) <= drs.writeFds
    ensures Apart(live - {c}, drs)
    ensures res.ConnIdle? ==> !closeIfIdle
    ensures res.ConnToClose? ==> c.MayClose() || closeIfIdle
    ensures Aside(c, live)
    ensures forall e :: e in closed ==> Aside(e, live) && (old(e.MayClose()) ==> e.MayClose())
  {
    hide ServerConnection.Valid, ServerConnection.Waiting, ReadFds, WriteFds, ServerConnection.OpenFds;
    hide ServerConnection.MayClose;
    c.SocketInRepr();
    label Before:
    res, r := c.ProcessDataReady(drs, closeIfIdle);
    forall d | d in live && d != c
      ensures d.Valid() && d.Repr == old(d.Repr) && d.rrs == old(d.rrs) && d.readSize == old(d.readSize)
      ensures forall w :: old(d.Waiting(w)) ==> d.Waiting(w)
    {
      d.Unaffected@Before();
    }
    if res.ConnBusy? || res.ConnIdle? {
      c.InOwnRepr();
    }
  }

  ghost function Footprint(cs: seq<ServerConnection>): set<object>
    reads cs
  {
    set c, o | c in cs && o in c.Repr :: o
  }

  lemma AsideLess(es: set<ServerConnection>, live: set<ServerConnection>, c: ServerConnection)
    ensures forall e :: e in es && Aside(e, live) ==> Aside(e, live - {c})
  {
  }

  lemma ApartLess(live: set<ServerConnection>, less: set<ServerConnection>, drs: DataReadySelector)
    requires Apart(live, drs) && less <= live
    ensures Apart(less, drs)
  {
  }

  lemma AllInFootprint(cs: seq<ServerConnection>)
    ensures forall c, o :: c in cs && o in c.Repr ==> o in Footprint(cs)
  {
  }

  /** What conn_processDataReady answers when the program goes on: a threatened connection is not idle. */
  predicate Answered(rs: seq<ConnResult>, full: bool) {
    forall i :: 0 <= i < |rs| ==>
      && (rs[i].ConnToClose? || rs[i].ConnBusy? || rs[i].ConnIdle?)
      && (full && AllBusy(rs[..i]) ==> !rs[i].ConnIdle?)
  }

  lemma AnsweredSnoc(rs: seq<ConnResult>, r: ConnResult, full: bool)
    requires Answered(rs, full) && (r.ConnToClose? || r.ConnBusy? || r.ConnIdle?)
    requires full && AllBusy(rs) ==> !r.ConnIdle?
    ensures Answered(rs + [r], full) && (AllBusy(rs + [r]) <==> AllBusy(rs) && r.ConnBusy?)
  {
    var more := rs + [r];
    assert more[|rs|] == r;
    forall i | 0 <= i < |rs| ensures more[i] == rs[i] && more[..i] == rs[..i] {
    }
    assert more[..|rs|] == rs;
  }

  /**
   All connections are asked in turn. At the end the selector has at least one descriptor of every connection that is
   not to be closed; all it has of a connection are open, unless that connection is stranded. A connection is closed
   only for a reason of its own, or because the table is full and all asked before were busy.
   */
  method Poll(cs: seq<ServerConnection>, drs: DataReadySelector, full: bool)
    returns (rs: seq<ConnResult>, ghost ws: seq<Dpr>, ends: bool)
    requires forall i, j :: 0 <= i < j < |cs| ==> cs[i] != cs[j]
    requires Apart((set c | c in cs), drs) && forall c :: c in cs ==> c.Valid() && (c.rrs.Idle? ==> c.readSize == 0)
    modifies Footprint(cs), drs
    ensures ends ==> rs != [] && (rs[|rs| - 1].ConnCrash? || rs[|rs| - 1].ProgramExit?)
    ensures !ends ==> |rs| == |ws| == |cs| && Answered(rs, full)
    ensures !ends ==> forall i :: 0 <= i < |cs| && !rs[i].ConnToClose? ==>
      && cs[i].Valid() && (cs[i].rrs.Idle? ==> cs[i].readSize == 0)
      && cs[i].Waiting(ws[i]) && Selected(ws[i], drs.readFds, drs.writeFds)
    ensures !ends ==> forall i :: 0 <= i < |cs| && rs[i].ConnToClose? ==>
      cs[i].MayClose() || (full && AllBusy(rs[..i]))
    ensures !ends ==> forall i :: 0 <= i < |cs| && !rs[i].ConnToClose? ==>
      (ReadFds(ws[i]) + WriteFds(ws[i]) <= cs[i].OpenFds() <==> !cs[i].Stranded())
    ensures !ends ==> Apart((set i | 0 <= i < |cs| && !rs[i].ConnToClose? :: cs[i]), drs)
  {
    hide ServerConnection.Valid, ServerConnection.Waiting, ServerConnection.Stranded, ServerConnection.OpenFds;
    hide Selected, Answered, AllBusy, Apart, Footprint, ServerConnection.MayClose, Aside;
    AllInFootprint(cs);
    rs, ws, ends := [], [], false;
    ghost var live, foot := (set c | c in cs), Footprint(cs);
    ghost var closed: set<ServerConnection> := {};
    var i, busyConnCount := 0, 0;
    NothingAnswered(full);
    while i < |cs|
      invariant 0 <= busyConnCount <= i <= |cs| && |rs| == |ws| == i
      invariant Answered(rs, full) && (busyConnCount == i <==> AllBusy(rs))
      invariant Apart(live, drs) && forall d :: d in live ==> d.Valid() && (d.rrs.Idle? ==> d.readSize == 0)
      invariant forall d, o :: d in live && o in d.Repr ==> o in foot || fresh(o)
      invariant forall j :: 0 <= j < |cs| && (j < i ==> !rs[j].ConnToClose?) ==> cs[j] in live
      invariant forall j :: 0 <= j < i && rs[j].ConnToClose? ==>
        (cs[j].MayClose() || (full && AllBusy(rs[..j]))) && cs[j] in closed
      invariant forall e :: e in closed ==> e !in live && Aside(e, live)
      invariant forall j :: 0 <= j < i && !rs[j].ConnToClose? ==>
        cs[j].Waiting(ws[j]) && Selected(ws[j], drs.readFds, drs.writeFds)
    {
      var c := cs[i];
      var res;
      ghost var w, readFds, writeFds := *, drs.readFds, drs.writeFds;
      res, w := PollOne(c, live, closed, drs, full && i == busyConnCount);
      if res.ConnCrash? || res.ProgramExit? {
        return rs + [res], ws + [w], true;
      }
      forall j | 0 <= j < i && !rs[j].ConnToClose? ensures Selected(ws[j], drs.readFds, drs.writeFds) {
        StaysSelected(ws[j], readFds, writeFds, drs.readFds, drs.writeFds);
      }
      AnsweredSnoc(rs, res, full);
      assert forall j :: 0 <= j <= i ==> (rs + [res])[..j] == rs[..j];
      rs, ws, i := rs + [res], ws + [w], i + 1;
      if res.ConnBusy? {
        busyConnCount := busyConnCount + 1;
      }
      if res.ConnToClose? {
        AsideLess(closed + {c}, live, c);
        live, closed := live - {c}, closed + {c};
      }
    }
    forall j | 0 <= j < |cs| && !rs[j].ConnToClose?
      ensures ReadFds(ws[j]) + WriteFds(ws[j]) <= cs[j].OpenFds() <==> !cs[j].Stranded()
    {
      cs[j].OpenUnlessStranded(ws[j]);
    }
    ApartLess(live, (set j | 0 <= j < |cs| && !rs[j].ConnToClose? :: cs[j]), drs);
  }

  lemma NothingAnswered(full: bool)
    ensures Answered([], full) && AllBusy([])
  {
  }

  // ------------------------------------------------------------------------------------------------------
  // The link to the table of Mainloop.dfy

  /** Answers that Obeys allows, and that give these results. */
  function OracleOf(rs: seq<ConnResult>, full: bool): (oracle: Oracle)
    ensures |oracle| == |rs|
  {
    seq(|rs|, i requires 0 <= i < |rs| =>
      if full && AllBusy(rs[..i]) then Answer(ConnToClose, rs[i]) else Answer(rs[i], ConnToClose))
  }

  lemma OracleObeys(rs: seq<ConnResult>, full: bool)
    requires Answered(rs, full)
    ensures Obeys(OracleOf(rs, full))
  {
    hide AllBusy;
  }

  lemma {:induction false} AnswersUpTo(s: seq<Conn>, rs: seq<ConnResult>, full: bool, i: nat)
    requires i <= |s| == |rs|
    ensures Answers(s, OracleOf(rs, full), full)[..i] == rs[..i]
    decreases i
  {
    hide AllBusy, Answers;
    if i > 0 {
      var t := Answers(s, OracleOf(rs, full), full);
      AnswersUpTo(s, rs, full, i - 1);
      AnswerAt(s, OracleOf(rs, full), full, i - 1);
      assert t[..i] == t[..i - 1] + [t[i - 1]] && rs[..i] == rs[..i - 1] + [rs[i - 1]];
    }
  }

  /**
   Whatever the connections of a round answer, the table goes through a round as described there: the results of Poll
   are the answers of an oracle that obeys the contract.
   */
  lemma PollIsRound(s: seq<Conn>, rs: seq<ConnResult>, full: bool)
    requires |s| == |rs| && Answered(rs, full)
    ensures exists oracle :: |oracle| == |s| && Obeys(oracle) && Answers(s, oracle, full) == rs
  {
    OracleObeys(rs, full);
    AnswersUpTo(s, rs, full, |s|);
    var t := Answers(s, OracleOf(rs, full), full);
    assert t[..|s|] == t && rs[..|s|] == rs;
  }
}
