/**
 * The connections of qtripp.c: every accepted socket has a buffer from which each MG_EV_POLL takes
 * one record, an IMEI once a record has reported one, and a pseudo last will when it was the last
 * connection of its IMEI.
 */
module Tracker {
  import opened Bytes
  import opened Qlog

  type Sock = int
  type Imei = string

  const TEST_IMEI: Imei := "123456789012345"

  /** What handle_report finds in a record. */
  type Report = seq<byte> -> Option<Imei>

  // ---------------------------------------------------------------- one step

  /** A connection: its IMEI and buffer, and, for reference, all it was sent and has processed. */
  datatype Conn = Conn(imei: Option<Imei>, mb: seq<byte>, received: seq<byte>, done: seq<seq<byte>>)

  type Conns = map<Sock, Conn>

  datatype Event = Accept(sock: Sock) | Recv(sock: Sock, data: seq<byte>) | Poll(sock: Sock) | Close(sock: Sock)

  function FirstImei(report: Report, rs: seq<seq<byte>>): Option<Imei> {
    if rs == [] then None
    else
      var first := FirstImei(report, rs[..|rs| - 1]);
      if first.Some? then first else report(rs[|rs| - 1])
  }

  /** MG_EV_POLL: at most one record. */
  function PollConn(report: Report, c: Conn): Conn {
    var n := ToDollar(c.mb);
    if n == |c.mb| then c
    else
      var r := c.mb[..n + 1];
      c.(mb := c.mb[n + 1..], done := c.done + [r], imei := if c.imei.Some? then c.imei else report(r))
  }

  /** The sockets on which an IMEI is connected: count_conns counts them. */
  function Live(conns: Conns, imei: Imei): set<Sock> {
    set s | s in conns && conns[s].imei == Some(imei)
  }

  /** The next connections, and the IMEI of the pseudo last will, if one is published. */
  function Step(report: Report, conns: Conns, e: Event): (Conns, Option<Imei>) {
    match e
    case Accept(s) => (if s in conns then conns else conns[s := Conn(None, [], [], [])], None)
    case Recv(s, data) =>
      if s !in conns then (conns, None)
      else (conns[s := conns[s].(mb := conns[s].mb + data, received := conns[s].received + data)], None)
    case Poll(s) => (if s in conns then conns[s := PollConn(report, conns[s])] else conns, None)
    case Close(s) =>
      if s !in conns then (conns, None)
      else
        var imei := conns[s].imei;
        (conns - {s},
         if imei.Some? && imei.value != TEST_IMEI && |Live(conns, imei.value)| < 2 then imei else None)
  }

  // ---------------------------------------------------------------- what every step keeps

  ghost predicate Consistent(report: Report, c: Conn) {
    && Concat(c.done) + c.mb == c.received && AreRecords(c.done)
    && c.imei == FirstImei(report, c.done)
  }

  ghost predicate AllConsistent(report: Report, conns: Conns) {
    forall s :: s in conns ==> Consistent(report, conns[s])
  }

  lemma PollKeeps(report: Report, c: Conn)
    requires Consistent(report, c)
    ensures Consistent(report, PollConn(report, c))
  {
    var n := ToDollar(c.mb);
    if n < |c.mb| {
      var r := c.mb[..n + 1];
      FirstCut(c.mb, n);
      ConcatLast(c.done, r);
      Assoc(Concat(c.done), r, c.mb[n + 1..]);
      assert (c.done + [r])[..|c.done|] == c.done;
    }
    hide ToDollar;
  }

  lemma StepKeeps(report: Report, conns: Conns, e: Event)
    requires AllConsistent(report, conns)
    ensures AllConsistent(report, Step(report, conns, e).0)
  {
    match e
    case Poll(s) =>
      if s in conns { PollKeeps(report, conns[s]); }
      hide PollConn;
    case Recv(s, data) =>
      if s in conns { Assoc(Concat(conns[s].done), conns[s].mb, data); }
    case _ =>
  }

  /** The records still in the buffer, after those done, are all records of what was received. */
  lemma ConsistentRecords(report: Report, c: Conn)
    requires Consistent(report, c)
    ensures Records(c.received) == c.done + Records(c.mb) && Tail(c.received) == Tail(c.mb)
  {
    SplitSound(c.mb);
    ConcatSplits(c.done, Records(c.mb));
    Assoc(Concat(c.done), Concat(Records(c.mb)), Tail(c.mb));
    hide Records, Tail, IsRecord;
    SplitIs(c.done + Records(c.mb), Tail(c.mb));
  }

  function Polls(report: Report, c: Conn, n: nat): Conn
    decreases n
  {
    if n == 0 then c else Polls(report, PollConn(report, c), n - 1)
  }

  /** Enough polls leave what qlog's loop leaves, and have processed what it has written. */
  lemma {:induction false} PollsDrain(report: Report, c: Conn, n: nat)
    requires Consistent(report, c) && n >= |Records(c.mb)|
    ensures var d := Polls(report, c, n);
            d.done == Records(c.received) && d.mb == Tail(c.received) && d.received == c.received
    decreases n
  {
    hide *;
    ConsistentRecords(report, c);
    PollIs(report, c);
    PollKeeps(report, c);
    if n == 0 {
      NoPolls(report, c);
    } else {
      OnePoll(report, c, n);
      PollsDrain(report, PollConn(report, c), n - 1);
    }
    assert Records(c.mb) == [] ==> c.done + Records(c.mb) == c.done;
  }

  /** One poll takes the first record, if there is one. */
  lemma PollIs(report: Report, c: Conn)
    ensures var d := PollConn(report, c);
            && d.received == c.received && (Records(c.mb) == [] ==> d == c && Tail(c.mb) == c.mb)
            && (Records(c.mb) != [] ==> |Records(d.mb)| == |Records(c.mb)| - 1)
  {
    hide ToDollar, Records, Tail;
    var k := ToDollar(c.mb);
    if k < |c.mb| {
      RecordsStep(c.mb, k);
    } else {
      NoMoreRecords(c.mb);
    }
  }

  lemma NoMoreRecords(s: seq<byte>)
    requires ToDollar(s) == |s|
    ensures Records(s) == [] && Tail(s) == s
  {
    hide ToDollar;
  }

  lemma NoPolls(report: Report, c: Conn)
    ensures Polls(report, c, 0) == c
  {
  }

  lemma OnePoll(report: Report, c: Conn, n: nat)
    requires n > 0
    ensures Polls(report, c, n) == Polls(report, PollConn(report, c), n - 1)
  {
    hide PollConn;
  }

  // ---------------------------------------------------------------- the last connection of an IMEI

  lemma LiveAfterClose(conns: Conns, s: Sock, imei: Imei)
    requires s in conns
    ensures Live(conns - {s}, imei) == Live(conns, imei) - {s}
    ensures s in Live(conns, imei) <==> conns[s].imei == Some(imei)
    ensures |Live(conns, imei) - {s}| == |Live(conns, imei)| - (if conns[s].imei == Some(imei) then 1 else 0)
  {
    if s !in Live(conns, imei) {
      assert Live(conns, imei) - {s} == Live(conns, imei);
    }
  }

  /** Without a close no IMEI loses a connection. */
  lemma LiveGrows(report: Report, conns: Conns, e: Event, imei: Imei)
    requires !e.Close?
    ensures Live(conns, imei) <= Live(Step(report, conns, e).0, imei)
  {
    hide ToDollar;
  }

  lemma EmptyLive(conns: Conns, imei: Imei)
    ensures |Live(conns, imei)| == 0 <==> Live(conns, imei) == {}
  {
  }

  /** The pseudo last will of an IMEI is published exactly in the step that takes its last connection. */
  lemma WillExactly(report: Report, conns: Conns, e: Event, imei: Imei)
    requires imei != TEST_IMEI
    ensures var (after, will) := Step(report, conns, e);
            will == Some(imei) <==> Live(conns, imei) != {} && Live(after, imei) == {}
  {
    if e.Close? {
      if e.sock in conns {
        LiveAfterClose(conns, e.sock, imei);
        EmptyLive(conns, imei);
        EmptyLive(conns - {e.sock}, imei);
      }
    } else {
      LiveGrows(report, conns, e, imei);
    }
    hide Live, PollConn;
  }

  lemma NoWillForTests(report: Report, conns: Conns, e: Event)
    ensures Step(report, conns, e).1 != Some("123456789012345")
  {
  }

  // ---------------------------------------------------------------- whole runs

  /** The connections after the events, and the pseudo last wills published. */
  function Run(report: Report, events: seq<Event>): (Conns, seq<Imei>) {
    if events == [] then (map[], [])
    else
      var (conns, wills) := Run(report, events[..|events| - 1]);
      var (after, will) := Step(report, conns, events[|events| - 1]);
      (after, if will.Some? then wills + [will.value] else wills)
  }

  /** What has been published stays published, in the same order. */
  lemma {:induction false} WillsGrow(report: Report, events: seq<Event>, more: seq<Event>)
    ensures Run(report, events).1 <= Run(report, events + more).1
    decreases |more|
  {
    var all := events + more;
    if more == [] {
      assert all == events;
    } else {
      var last := |more| - 1;
      assert all[..|all| - 1] == events + more[..last];
      WillsGrow(report, events, more[..last]);
      hide Step;
    }
  }

  /** The sockets accepted and not yet closed. */
  function Open(events: seq<Event>): set<Sock> {
    if events == [] then {}
    else
      var open := Open(events[..|events| - 1]);
      match events[|events| - 1]
      case Accept(s) => open + {s}
      case Close(s) => open - {s}
      case _ => open
  }

  /** How many steps of the run have taken the last connection of an IMEI. */
  function Drops(report: Report, events: seq<Event>, imei: Imei): nat {
    if events == [] then 0
    else
      var before := events[..|events| - 1];
      Drops(report, before, imei)
        + (if Live(Run(report, before).0, imei) != {} && Live(Run(report, events).0, imei) == {} then 1 else 0)
  }

  /** conns_by_sock holds exactly the open connections, each with what belongs to it. */
  lemma {:induction false} RunHoldsOpen(report: Report, events: seq<Event>)
    ensures Run(report, events).0.Keys == Open(events) && AllConsistent(report, Run(report, events).0)
  {
    if events != [] {
      var before := events[..|events| - 1];
      RunHoldsOpen(report, before);
      StepKeeps(report, Run(report, before).0, events[|events| - 1]);
      StepKeys(report, Run(report, before).0, events[|events| - 1]);
    }
  }

  lemma StepKeys(report: Report, conns: Conns, e: Event)
    ensures Step(report, conns, e).0.Keys
            == match e case Accept(s) => conns.Keys + {s} case Close(s) => conns.Keys - {s} case _ => conns.Keys
  {
    hide PollConn;
  }

  /** Over every run the pseudo last wills of an IMEI are as many as the times its last connection went. */
  lemma {:induction false} WillsAreDrops(report: Report, events: seq<Event>, imei: Imei)
    ensures multiset(Run(report, events).1)[imei] == if imei == TEST_IMEI then 0 else Drops(report, events, imei)
  {
    if events != [] {
      var before, e := events[..|events| - 1], events[|events| - 1];
      WillsAreDrops(report, before, imei);
      NoWillForTests(report, Run(report, before).0, e);
      if imei != TEST_IMEI {
        WillExactly(report, Run(report, before).0, e, imei);
      }
      hide Step, Live;
    }
  }

  /** An IMEI, once there, stays until the connection is closed. */
  lemma ImeiStays(report: Report, conns: Conns, e: Event, s: Sock)
    requires s in conns && conns[s].imei.Some? && e != Close(s)
    ensures var after := Step(report, conns, e).0; s in after && after[s].imei == conns[s].imei
  {
    hide ToDollar;
  }

  // ---------------------------------------------------------------- the hash table and its entries

  /** struct conndata. */
  class ConnData {
    const sock: Sock
    var imei: Option<Imei>
    var mb: seq<byte>
    ghost var received: seq<byte>
    ghost var done: seq<seq<byte>>

    constructor (sock: Sock)
      ensures this.sock == sock && Value() == Conn(None, [], [], [])
    {
      this.sock := sock;
      imei, mb, received, done := None, [], [], [];
    }

    ghost function Value(): Conn
      reads this
    {
      Conn(imei, mb, received, done)
    }

    /** The loop of MG_EV_POLL: the first record is processed and taken off the buffer. */
    method TakeRecord(report: Report)
      modifies this
      ensures Value() == PollConn(report, old(Value()))
    {
      var ml := 0;
      while ml < |mb|
        invariant ml <= |mb| && Value() == old(Value())
        invariant forall k :: 0 <= k < ml ==> mb[k] != DOLLAR
      {
        if mb[ml] == DOLLAR {
          ToDollarIs(mb, ml);
          var nbytes := ml + 1;
          var found := report(mb[..nbytes]);
          if found.Some? {
            if imei == None {
              imei := found;
            }
          }
          done := done + [mb[..nbytes]];
          mb := mb[nbytes..];
          return;
        }
        ml := ml + 1;
      }
      ToDollarIs(mb, |mb|);
    }
  }

  /** The hash table is walked in an order of its own. */
  method NextEntry(left: set<Sock>) returns (s: Sock)
    requires left != {}
    ensures s in left
  {
    HasEntry(left);
    s :| s in left;
  }

  lemma HasEntry(left: set<Sock>)
    ensures left == {} || exists s :: s in left
  {
    if forall s :: s !in left {
      assert left == {};
    }
  }

  lemma CountOne(conns: Conns, imei: Imei, left: set<Sock>, s: Sock)
    requires s in left && s in conns
    ensures |Live(conns, imei) - (left - {s})|
            == |Live(conns, imei) - left| + (if conns[s].imei == Some(imei) then 1 else 0)
  {
    var live := Live(conns, imei);
    if s in live {
      assert live - (left - {s}) == (live - left) + {s};
    } else {
      assert live - (left - {s}) == live - left;
    }
  }

  class Connections {
    var connsBySock: map<Sock, ConnData>
    /** nc->user_data of the open connections. */
    var userData: map<Sock, ConnData>
    /** The IMEIs for which a pseudo last will was published. */
    var wills: seq<Imei>
    const report: Report

    constructor (report: Report)
      ensures Valid() && State() == map[] && wills == [] && this.report == report
    {
      connsBySock, userData, wills := map[], map[], [];
      this.report := report;
    }

    ghost predicate Valid()
      reads this, connsBySock.Values
    {
      userData == connsBySock && forall s :: s in connsBySock ==> connsBySock[s].sock == s
    }

    ghost function State(): Conns
      reads this, connsBySock.Values
    {
      map s | s in connsBySock :: connsBySock[s].Value()
    }

    /** MG_EV_ACCEPT. */
    method AcceptConn(sock: Sock)
      requires Valid()
      modifies this`connsBySock, this`userData
      ensures Valid() && State() == Step(report, old(State()), Accept(sock)).0
      ensures forall s :: s in connsBySock && s !in old(connsBySock) ==> fresh(connsBySock[s])
    {
      if sock !in connsBySock {
        var co := new ConnData(sock);
        connsBySock := connsBySock[sock := co];
      }
      userData := userData[sock := connsBySock[sock]];
    }

    /** MG_EV_RECV: the source asserts that the connection is known. */
    method ReceiveData(sock: Sock, io: seq<byte>)
      requires Valid() && sock in connsBySock
      modifies connsBySock[sock]
      ensures Valid() && State() == Step(report, old(State()), Recv(sock, io)).0
    {
      var co := connsBySock[sock];
      assert forall s :: s in connsBySock && s != sock ==> connsBySock[s] != co;
      co.mb := co.mb + io;
      co.received := co.received + io;
      assert State() == old(State())[sock := co.Value()];
    }

    /** MG_EV_POLL. */
    method PollSocket(sock: Sock)
      requires Valid()
      modifies if sock in connsBySock then {connsBySock[sock]} else {}
      ensures Valid() && State() == Step(report, old(State()), Poll(sock)).0
    {
      if sock in connsBySock {
        hide PollConn;
        var co := connsBySock[sock];
        assert forall s :: s in connsBySock && s != sock ==> connsBySock[s] != co;
        co.TakeRecord(report);
        assert State() == old(State())[sock := co.Value()];
      }
    }

    /** count_conns. */
    method CountConns(imei: Imei) returns (count: nat)
      requires Valid()
      ensures count == |Live(State(), imei)|
    {
      count := 0;
      var left := connsBySock.Keys;
      ghost var conns := State();
      assert Live(conns, imei) - left == {};
      hide Live;
      while left != {}
        invariant left <= connsBySock.Keys && count == |Live(conns, imei) - left|
        decreases |left|
      {
        var s := NextEntry(left);
        CountOne(conns, imei, left, s);
        assert conns[s].imei == connsBySock[s].imei;
        left := left - {s};
        if connsBySock[s].imei == Some(imei) {
          count := count + 1;
        }
      }
      assert Live(conns, imei) - {} == Live(conns, imei);
    }

    /** MG_EV_CLOSE. */
    method CloseConn(sock: Sock)
      requires Valid()
      modifies this`connsBySock, this`userData, this`wills
      ensures Valid() && State() == Step(report, old(State()), Close(sock)).0
      ensures var will := Step(report, old(State()), Close(sock)).1;
              wills == if will.Some? then old(wills) + [will.value] else old(wills)
    {
      if sock in userData {
        var co := userData[sock];
        if co.imei.Some? && co.imei.value != TEST_IMEI {
          var count := CountConns(co.imei.value);
          if count < 2 {
            wills := wills + [co.imei.value];
          }
        }
        connsBySock := connsBySock - {co.sock};
        userData := userData - {sock};
      }
    }
  }
}
