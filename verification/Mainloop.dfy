/**
 The main loop (src/main.c): a table of connections kept in order of idle time by an in-place stable partition, from
 which the most idle connection is closed when the table is full.
 */
module Mainloop {
  import opened ByteStrings
  import opened ServerConnections

  type Conn = int   // a connection, by identity

  // What conn_processDataReady returns for one connection in one round, without and with closeIfIdle.
  datatype Answer = Answer(plain: ConnResult, whenThreatened: ConnResult)

  // The answers of one round, by place in the table.
  type Oracle = seq<Answer>

  function Say(a: Answer, closeIfIdle: bool): ConnResult {
    if closeIfIdle then a.whenThreatened else a.plain
  }

  /** The contract of conn_processDataReady: a connection that may be closed when idle is not reported idle. */
  predicate Obeys(oracle: Oracle) {
    forall i :: 0 <= i < |oracle| ==>
      && (oracle[i].plain.ConnToClose? || oracle[i].plain.ConnBusy? || oracle[i].plain.ConnIdle?)
      && (oracle[i].whenThreatened.ConnToClose? || oracle[i].whenThreatened.ConnBusy?)
  }

  predicate AllBusy(rs: seq<ConnResult>) {
    forall i :: 0 <= i < |rs| ==> rs[i].ConnBusy?
  }

  /** The answers of one round, connection by connection: closeIfIdle while the table is full and all were busy. */
  function Answers(s: seq<Conn>, oracle: Oracle, full: bool): (rs: seq<ConnResult>)
    requires |s| <= |oracle|
    ensures |rs| == |s|
  {
    if s == [] then []
    else
      var before := Answers(s[..|s| - 1], oracle, full);
      before + [Say(oracle[|s| - 1], full && AllBusy(before))]
  }

  /** The connections with that answer, in order. */
  function Pick(s: seq<Conn>, rs: seq<ConnResult>, r: ConnResult): (p: seq<Conn>)
    requires |s| == |rs|
    ensures |p| <= |s|
  {
    if s == [] then []
    else
      var n := |s| - 1;
      Pick(s[..n], rs[..n], r) + if rs[n] == r then [s[n]] else []
  }

  /** The table after a round: the idle ones, then the busy ones. */
  function AfterRound(s: seq<Conn>, oracle: Oracle, full: bool): seq<Conn>
    requires |s| <= |oracle|
  {
    Pick(s, Answers(s, oracle, full), ConnIdle) + Pick(s, Answers(s, oracle, full), ConnBusy)
  }

  predicate Distinct(s: seq<Conn>) {
    forall i, j :: 0 <= i < j < |s| ==> s[i] != s[j]
  }

  predicate Known(s: seq<Conn>, lastActive: map<Conn, nat>) {
    forall i :: 0 <= i < |s| ==> s[i] in lastActive
  }

  /** The longer idle, the earlier in the table. */
  predicate Ordered(s: seq<Conn>, lastActive: map<Conn, nat>)
    requires Known(s, lastActive)
  {
    forall i, j :: 0 <= i < j < |s| ==> lastActive[s[i]] <= lastActive[s[j]]
  }

  // ------------------------------------------------------------------------------------------------------
  // The partition

  lemma AnswersSnoc(s: seq<Conn>, oracle: Oracle, full: bool, i: nat)
    requires i < |s| <= |oracle|
    ensures Answers(s[..i + 1], oracle, full)
         == Answers(s[..i], oracle, full) + [Say(oracle[i], full && AllBusy(Answers(s[..i], oracle, full)))]
  {
    assert s[..i + 1][..i] == s[..i];
  }

  lemma {:induction false} AnswerAt(s: seq<Conn>, oracle: Oracle, full: bool, i: nat)
    requires i < |s| <= |oracle|
    ensures Answers(s, oracle, full)[..i] == Answers(s[..i], oracle, full)
    ensures Answers(s, oracle, full)[i] == Say(oracle[i], full && AllBusy(Answers(s[..i], oracle, full)))
    decreases |s|
  {
    var n := |s| - 1;
    if i < n {
      AnswerAt(s[..n], oracle, full, i);
      assert s[..n][..i] == s[..i];
    }
  }

  lemma OneOfThree(s: seq<Conn>, oracle: Oracle, full: bool, i: nat)
    requires Obeys(oracle) && i < |s| <= |oracle|
    ensures var a := Answers(s, oracle, full)[i];
            && (a == ConnToClose || a == ConnBusy || a == ConnIdle)
            && (full && AllBusy(Answers(s, oracle, full)[..i]) ==> a != ConnIdle)
  {
    AnswerAt(s, oracle, full, i);
  }

  lemma PickNothing(oracle: Oracle, full: bool, r: ConnResult)
    ensures Answers([], oracle, full) == [] && Pick([], [], r) == []
  {
  }

  lemma PickSnoc(s: seq<Conn>, rs: seq<ConnResult>, c: Conn, a: ConnResult, r: ConnResult)
    requires |s| == |rs|
    ensures Pick(s + [c], rs + [a], r) == Pick(s, rs, r) + if a == r then [c] else []
  {
    assert (s + [c])[..|s|] == s && (rs + [a])[..|s|] == rs;
  }

  lemma {:induction false} PickCount(s: seq<Conn>, rs: seq<ConnResult>)
    requires |s| == |rs|
    ensures |Pick(s, rs, ConnIdle)| + |Pick(s, rs, ConnBusy)| <= |s|
    ensures |Pick(s, rs, ConnBusy)| == |s| <==> AllBusy(rs)
    decreases |s|
  {
    if s != [] {
      PickCount(s[..|s| - 1], rs[..|s| - 1]);
    }
  }

  lemma {:induction false} PickMembers(s: seq<Conn>, rs: seq<ConnResult>, r: ConnResult, c: Conn)
    requires |s| == |rs|
    ensures c in Pick(s, rs, r) <==> exists i :: 0 <= i < |s| && s[i] == c && rs[i] == r
    decreases |s|
  {
    if s != [] {
      var n := |s| - 1;
      PickMembers(s[..n], rs[..n], r, c);
      if c in Pick(s[..n], rs[..n], r) {
        var i :| 0 <= i < n && s[..n][i] == c && rs[..n][i] == r;
        assert s[i] == c && rs[i] == r;
      } else {
        assert forall i :: 0 <= i < n ==> s[..n][i] == s[i] && rs[..n][i] == rs[i];
      }
    }
  }

  lemma PickFrom(s: seq<Conn>, rs: seq<ConnResult>, r: ConnResult)
    requires |s| == |rs|
    ensures forall k :: 0 <= k < |Pick(s, rs, r)| ==> Pick(s, rs, r)[k] in s
  {
    var p := Pick(s, rs, r);
    forall k | 0 <= k < |p| ensures p[k] in s {
      assert p[k] in p;
      PickMembers(s, rs, r, p[k]);
    }
  }

  /** The partition is stable: picking keeps the order, and adds no duplicates. */
  lemma {:induction false} PickKeepsOrder(s: seq<Conn>, rs: seq<ConnResult>, r: ConnResult, lastActive: map<Conn, nat>)
    requires |s| == |rs| && Distinct(s) && Known(s, lastActive) && Ordered(s, lastActive)
    ensures var p := Pick(s, rs, r); Distinct(p) && Known(p, lastActive) && Ordered(p, lastActive)
    decreases |s|
  {
    if s != [] {
      var n := |s| - 1;
      PickKeepsOrder(s[..n], rs[..n], r, lastActive);
      PickFrom(s[..n], rs[..n], r);
    }
  }

  /** Being busy in a round makes a connection the most recently active one. */
  function Mark(lastActive: map<Conn, nat>, busy: seq<Conn>, round: nat): (m: map<Conn, nat>)
    ensures forall c :: c in m <==> c in lastActive || c in busy
    ensures forall c :: c in m ==> m[c] == if c in busy then round else lastActive[c]
  {
    map c | c in lastActive.Keys + (set x | x in busy) :: if c in busy then round else lastActive[c]
  }

  lemma MarkNothing(lastActive: map<Conn, nat>, round: nat)
    ensures Mark(lastActive, [], round) == lastActive
  {
    var m := Mark(lastActive, [], round);
    assert forall c :: c in m <==> c in lastActive;
  }

  lemma MarkSnoc(lastActive: map<Conn, nat>, busy: seq<Conn>, c: Conn, round: nat)
    ensures Mark(lastActive, busy + [c], round) == Mark(lastActive, busy, round)[c := round]
  {
    var m, n := Mark(lastActive, busy + [c], round), Mark(lastActive, busy, round)[c := round];
    assert forall x :: x in busy + [c] <==> x in busy || x == c;
    assert forall x :: x in m <==> x in n;
  }

  /** No connection is both idle and busy. */
  lemma IdleNotBusy(s: seq<Conn>, rs: seq<ConnResult>, c: Conn)
    requires |s| == |rs| && Distinct(s) && c in Pick(s, rs, ConnIdle)
    ensures c !in Pick(s, rs, ConnBusy)
  {
    PickMembers(s, rs, ConnIdle, c);
    PickMembers(s, rs, ConnBusy, c);
  }

  /** After a round the table is again without duplicates and ordered by the last active round. */
  lemma RoundKeepsOrder(s: seq<Conn>, oracle: Oracle, full: bool, lastActive: map<Conn, nat>, round: nat)
    requires Distinct(s) && Known(s, lastActive) && Ordered(s, lastActive)
    requires NoneAfter(s, lastActive, round) && |s| <= |oracle|
    ensures var t := AfterRound(s, oracle, full);
            var m := Mark(lastActive, Pick(s, Answers(s, oracle, full), ConnBusy), round);
            Distinct(t) && Known(t, m) && Ordered(t, m) && NoneAfter(t, m, round)
  {
    hide Answers, Pick;
    var rs := Answers(s, oracle, full);
    var idle, busy := Pick(s, rs, ConnIdle), Pick(s, rs, ConnBusy);
    PickKeepsOrder(s, rs, ConnIdle, lastActive);
    PickKeepsOrder(s, rs, ConnBusy, lastActive);
    PickFrom(s, rs, ConnIdle);
    forall k | 0 <= k < |idle| ensures idle[k] !in busy {
      IdleNotBusy(s, rs, idle[k]);
    }
  }

  /** A round keeps exactly the connections that were not to be closed. */
  lemma RoundConserves(s: seq<Conn>, oracle: Oracle, full: bool, c: Conn)
    requires Obeys(oracle) && |s| <= |oracle|
    ensures c in AfterRound(s, oracle, full) <==>
      exists i :: 0 <= i < |s| && s[i] == c && !Answers(s, oracle, full)[i].ConnToClose?
  {
    var rs := Answers(s, oracle, full);
    PickMembers(s, rs, ConnIdle, c);
    PickMembers(s, rs, ConnBusy, c);
    forall i | 0 <= i < |s| ensures rs[i].ConnToClose? || rs[i] == ConnIdle || rs[i] == ConnBusy {
      OneOfThree(s, oracle, full, i);
    }
  }

  // ------------------------------------------------------------------------------------------------------
  // Closing the most idle connection

  /** closeIfIdle is passed for connection i. */
  predicate Threatened(s: seq<Conn>, oracle: Oracle, full: bool, i: nat)
    requires i < |s| <= |oracle|
  {
    full && AllBusy(Answers(s, oracle, full)[..i])
  }

  /** Whoever was asked to close when idle before another one, was busy: at most one connection is closed so. */
  lemma AtMostOneVictim(s: seq<Conn>, oracle: Oracle, full: bool, i: nat, j: nat)
    requires i < j < |s| <= |oracle| && Threatened(s, oracle, full, j)
    ensures Threatened(s, oracle, full, i) && Answers(s, oracle, full)[i].ConnBusy?
  {
    var rs := Answers(s, oracle, full);
    assert rs[..j][i] == rs[i];
    assert forall k :: 0 <= k < i ==> rs[..i][k] == rs[..j][k];
  }

  lemma {:induction false} FirstNotBusy(rs: seq<ConnResult>, k: nat) returns (v: nat)
    requires k < |rs| && !rs[k].ConnBusy?
    ensures v <= k && !rs[v].ConnBusy? && AllBusy(rs[..v])
    decreases k
  {
    if i :| 0 <= i < k && !rs[i].ConnBusy? {
      v := FirstNotBusy(rs, i);
    } else {
      v := k;
    }
  }

  /**
   When the table is full and some connection stays idle, another one was closed for being idle, and it had not been
   active more recently.
   */
  lemma ClosesMostIdle(s: seq<Conn>, oracle: Oracle, lastActive: map<Conn, nat>, k: nat)
    requires Obeys(oracle) && Known(s, lastActive) && Ordered(s, lastActive) && |s| <= |oracle|
    requires k < |s| && Answers(s, oracle, true)[k].ConnIdle?
    ensures exists v :: 0 <= v < k && Threatened(s, oracle, true, v) && Answers(s, oracle, true)[v].ConnToClose?
                        && lastActive[s[v]] <= lastActive[s[k]]
  {
    var rs := Answers(s, oracle, true);
    var v := FirstNotBusy(rs, k);
    OneOfThree(s, oracle, true, v);
  }

  // ------------------------------------------------------------------------------------------------------
  // The loop

  predicate NoneAfter(s: seq<Conn>, lastActive: map<Conn, nat>, round: nat)
    requires Known(s, lastActive)
  {
    forall i :: 0 <= i < |s| ==> lastActive[s[i]] <= round
  }

  /** A newly accepted connection goes to the end of the table. */
  lemma AddOne(s: seq<Conn>, c: nat, lastActive: map<Conn, nat>, round: nat)
    requires Distinct(s) && Below(s, c)
    requires Known(s, lastActive) && Ordered(s, lastActive) && NoneAfter(s, lastActive, round)
    ensures var m := lastActive[c := round];
            && Distinct(s + [c]) && Below(s + [c], c + 1)
            && Known(s + [c], m) && Ordered(s + [c], m) && NoneAfter(s + [c], m, round)
  {
  }

  lemma Later(s: seq<Conn>, lastActive: map<Conn, nat>, round: nat)
    requires Known(s, lastActive) && NoneAfter(s, lastActive, round)
    ensures NoneAfter(s, lastActive, round + 1)
  {
  }

  /** n connections made one after another, the first of them with identity `first`. */
  function NewOnes(first: nat, n: nat): (r: seq<Conn>)
    ensures |r| == n
  {
    if n == 0 then [] else NewOnes(first, n - 1) + [first + n - 1]
  }

  /** All identities were handed out before. */
  predicate Below(s: seq<Conn>, next: nat) {
    forall i :: 0 <= i < |s| ==> s[i] < next
  }

  lemma BelowKept(s: seq<Conn>, oracle: Oracle, full: bool, next: nat)
    requires |s| <= |oracle| && Below(s, next)
    ensures Below(AfterRound(s, oracle, full), next)
  {
    var rs := Answers(s, oracle, full);
    PickFrom(s, rs, ConnIdle);
    PickFrom(s, rs, ConnBusy);
  }

  class Table {
    const maxConnCount: nat
    const connections: array<Conn>
    const busyConnections: array<Conn>
    var connCount: nat
    var nextConn: nat              // identity of the connection that conn_new makes next
    ghost var lastActive: map<Conn, nat>
    ghost var round: nat

    ghost predicate Valid()
      reads this, connections
    {
      && connections != busyConnections && connections.Length == busyConnections.Length == maxConnCount
      && connCount <= maxConnCount
      && Distinct(Contents()) && Known(Contents(), lastActive) && Ordered(Contents(), lastActive)
      && NoneAfter(Contents(), lastActive, round) && Below(Contents(), nextConn)
    }

    ghost function Contents(): seq<Conn>
      reads this, connections
    {
      connections[..if connCount <= connections.Length then connCount else 0]
    }

    constructor (maxClients: nat)
      ensures Valid() && connCount == 0 && maxConnCount == maxClients
    {
      maxConnCount := maxClients;
      connections := new Conn[maxClients](_ => 0);
      busyConnections := new Conn[maxClients](_ => 0);
      connCount, nextConn, lastActive, round := 0, 0, map[], 1;
    }

    /** Accepts connections while there is room; they have just become active. */
    method Accept(arrivals: nat) returns (accepted: nat)
      requires Valid()
      modifies `connCount, `nextConn, `lastActive, connections
      ensures var room := maxConnCount - old(connCount); accepted == if arrivals <= room then arrivals else room
      ensures Valid() && Contents() == old(Contents()) + NewOnes(old(nextConn), accepted)
      ensures nextConn == old(nextConn) + accepted
      ensures lastActive == Mark(old(lastActive), NewOnes(old(nextConn), accepted), round)
    {
      hide Distinct, Ordered, Known, NoneAfter, Below, Mark;
      accepted := 0;
      ghost var before := Contents();
      EmptyConcat(before);
      MarkNothing(lastActive, round);
      while connCount < maxConnCount && accepted < arrivals
        invariant 0 <= accepted <= arrivals && connCount == old(connCount) + accepted <= maxConnCount
        invariant nextConn == old(nextConn) + accepted && Contents() == before + NewOnes(old(nextConn), accepted)
        invariant Valid() && lastActive == Mark(old(lastActive), NewOnes(old(nextConn), accepted), round)
      {
        MarkSnoc(old(lastActive), NewOnes(old(nextConn), accepted), nextConn, round);
        AddOne(Contents(), nextConn, lastActive, round);
        Assoc(before, NewOnes(old(nextConn), accepted), [nextConn]);
        lastActive := lastActive[nextConn := round];
        Append(nextConn);
        nextConn, accepted := nextConn + 1, accepted + 1;
      }
    }

    method Append(c: Conn)
      requires connCount < connections.Length
      modifies `connCount, connections
      ensures connCount == old(connCount) + 1 && Contents() == old(Contents()) + [c]
    {
      connections[connCount] := c;
      connCount := connCount + 1;
    }

    /** The partition loop: idle connections are moved to the front, busy ones are copied behind them afterwards. */
    method Partition(oracle: Oracle, ghost s: seq<Conn>)
      requires connections != busyConnections && connections.Length == busyConnections.Length == maxConnCount
      requires connCount <= maxConnCount <= |oracle| && s == Contents()
      modifies `connCount, connections, busyConnections
      ensures connCount <= maxConnCount && Contents() == AfterRound(s, oracle, |s| == maxConnCount)
    {
      hide Pick, Answers, AllBusy;
      ghost var full := connCount == maxConnCount;
      PickNothing(oracle, full, ConnIdle);
      PickNothing(oracle, full, ConnBusy);
      var i: nat, idleConnCount: nat, busyConnCount: nat := 0, 0, 0;
      assert s[..0] == [];
      while i < connCount
        invariant 0 <= i <= connCount == |s| && idleConnCount + busyConnCount <= i
        invariant connections[i..connCount] == s[i..]
        invariant connections[..idleConnCount] == Pick(s[..i], Answers(s[..i], oracle, full), ConnIdle)
        invariant busyConnections[..busyConnCount] == Pick(s[..i], Answers(s[..i], oracle, full), ConnBusy)
      {
        ghost var rs := Answers(s[..i], oracle, full);
        PickCount(s[..i], rs);
        AnswersSnoc(s, oracle, full, i);
        var c := connections[i];
        assert c == s[i] && s[..i + 1] == s[..i] + [c];
        var res := Say(oracle[i], connCount == maxConnCount && i == busyConnCount);
        PickSnoc(s[..i], rs, c, res, ConnIdle);
        PickSnoc(s[..i], rs, c, res, ConnBusy);
        idleConnCount, busyConnCount := Place(i, res, idleConnCount, busyConnCount);
        assert s[i..][1..] == s[i + 1..];
        i := i + 1;
      }
      assert s[..i] == s;
      CopyBack(idleConnCount, busyConnCount);
    }

    /** Puts connection i where its answer says. */
    method Place(i: nat, res: ConnResult, idleConnCount: nat, busyConnCount: nat) returns (idle: nat, busy: nat)
      requires connections != busyConnections && connections.Length == busyConnections.Length
      requires idleConnCount + busyConnCount <= i < connCount <= connections.Length
      modifies connections, busyConnections
      ensures idle + busy <= i + 1
      ensures connections[..idle]
           == old(connections[..idleConnCount]) + if res == ConnIdle then [old(connections[i])] else []
      ensures busyConnections[..busy]
           == old(busyConnections[..busyConnCount]) + if res == ConnBusy then [old(connections[i])] else []
      ensures connections[i + 1..connCount] == old(connections[i..connCount])[1..]
    {
      idle, busy := idleConnCount, busyConnCount;
      if res.ConnBusy? {
        busyConnections[busy] := connections[i];
        busy := busy + 1;
      } else if res.ConnIdle? {
        if i != idle {
          connections[idle] := connections[i];
        }
        idle := idle + 1;
      }
    }

    method CopyBack(idleConnCount: nat, busyConnCount: nat)
      requires connections != busyConnections && connections.Length == busyConnections.Length == maxConnCount
      requires idleConnCount + busyConnCount <= maxConnCount
      modifies `connCount, connections
      ensures connCount == idleConnCount + busyConnCount
      ensures Contents() == old(connections[..idleConnCount]) + busyConnections[..busyConnCount]
    {
      var i := 0;
      while i < busyConnCount
        invariant 0 <= i <= busyConnCount
        invariant connections[..idleConnCount] == old(connections[..idleConnCount])
        invariant connections[idleConnCount..idleConnCount + i] == busyConnections[..i]
      {
        connections[idleConnCount + i] := busyConnections[i];
        i := i + 1;
      }
      connCount := idleConnCount + busyConnCount;
    }

    /** One turn of the main loop. */
    method Round(arrivals: nat, oracle: Oracle) returns (accepted: nat)
      requires Valid() && maxConnCount <= |oracle|
      modifies this, connections, busyConnections
      ensures Valid() && round == old(round) + 1 && nextConn == old(nextConn) + accepted
      ensures var room := maxConnCount - old(connCount); accepted == if arrivals <= room then arrivals else room
      ensures var added := NewOnes(old(nextConn), accepted);
              var s := old(Contents()) + added;
              && |s| <= maxConnCount && Contents() == AfterRound(s, oracle, |s| == maxConnCount)
              && lastActive == Mark(Mark(old(lastActive), added, old(round)),
                                    Pick(s, Answers(s, oracle, |s| == maxConnCount), ConnBusy), old(round))
    {
      hide Pick, Answers, Distinct, Ordered, Known, NoneAfter, AfterRound, Mark, Below;
      accepted := Accept(arrivals);
      ghost var s := Contents();
      Partition(oracle, s);
      ghost var full := |s| == maxConnCount;
      RoundKeepsOrder(s, oracle, full, lastActive, round);
      BelowKept(s, oracle, full, nextConn);
      lastActive := Mark(lastActive, Pick(s, Answers(s, oracle, full), ConnBusy), round);
      Later(Contents(), lastActive, round);
      round := round + 1;
    }

    /** The main loop, for any number of turns: the table is in order at each loop head. */
    method Serve(turns: seq<(nat, Oracle)>)
      requires Valid() && forall i :: 0 <= i < |turns| ==> maxConnCount <= |turns[i].1|
      modifies this, connections, busyConnections
      ensures Valid() && round == old(round) + |turns|
    {
      var i := 0;
      while i < |turns|
        invariant 0 <= i <= |turns| && Valid() && round == old(round) + i
      {
        var accepted := Round(turns[i].0, turns[i].1);
        i := i + 1;
      }
    }
  }
}
