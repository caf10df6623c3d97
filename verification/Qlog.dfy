/**
 * Records of the trackers, "+...$", and qlog.c: the loop that cuts all complete records off the
 * receive buffer and restarts its index after each.
 */
module Qlog {
  import opened Bytes

  const DOLLAR: byte := 36
  const NEWLINE: byte := 10

  // ---------------------------------------------------------------- records

  /** Where the first '$' is, or the length. */
  function ToDollar(s: seq<byte>): (n: nat)
    ensures n <= |s| && DOLLAR !in s[..(n)] && (n < |s| ==> s[n] == DOLLAR)
  {
    if s == [] || s[0] == DOLLAR then 0
    else
      assert s[..1 + ToDollar(s[1..])] == [s[0]] + s[1..][..ToDollar(s[1..])];
      1 + ToDollar(s[1..])
  }

  lemma {:induction false} ToDollarIs(s: seq<byte>, n: nat)
    requires n <= |s| && (n < |s| ==> s[n] == DOLLAR) && forall k :: 0 <= k < n ==> s[k] != DOLLAR
    ensures ToDollar(s) == n
  {
    if n > 0 {
      assert s[0] != DOLLAR;
      ToDollarIs(s[1..], n - 1);
    }
  }

  function Records(s: seq<byte>): seq<seq<byte>>
    decreases |s|
  {
    var n := ToDollar(s);
    if n == |s| then [] else [s[..n + 1]] + Records(s[n + 1..])
  }

  /** What is left behind the last record. */
  function Tail(s: seq<byte>): seq<byte>
    decreases |s|
  {
    var n := ToDollar(s);
    if n == |s| then s else Tail(s[n + 1..])
  }

  /** A record has its only '$' at its end. */
  predicate IsRecord(r: seq<byte>) {
    r != [] && r[|r| - 1] == DOLLAR && forall k :: 0 <= k < |r| - 1 ==> r[k] != DOLLAR
  }

  predicate AreRecords(rs: seq<seq<byte>>) {
    forall i :: 0 <= i < |rs| ==> IsRecord(rs[i])
  }

  /** A stream is its records and what is left, and there is no other way to see it as such. */
  lemma {:induction false} SplitUniquely(s: seq<byte>, rs: seq<seq<byte>>, tail: seq<byte>)
    ensures AreRecords(rs) && DOLLAR !in tail && s == Concat(rs) + tail <==> rs == Records(s) && tail == Tail(s)
    decreases |s|
  {
    SplitSound(s);
    if AreRecords(rs) && DOLLAR !in tail && s == Concat(rs) + tail {
      SplitIs(rs, tail);
    }
  }

  lemma {:induction false} SplitSound(s: seq<byte>)
    ensures AreRecords(Records(s)) && DOLLAR !in Tail(s) && s == Concat(Records(s)) + Tail(s)
    decreases |s|
  {
    var n := ToDollar(s);
    hide ToDollar;
    if n == |s| {
      assert s[..n] == s;
    } else {
      SplitSound(s[n + 1..]);
      FirstCut(s, n);
      RecordsStep(s, n);
      hide Records, Tail, IsRecord, Concat;
      Assoc(s[..n + 1], Concat(Records(s[n + 1..])), Tail(s[n + 1..]));
      ConcatFirst(s[..n + 1], Records(s[n + 1..]));
    }
  }

  lemma FirstCut(s: seq<byte>, n: nat)
    requires n < |s| && DOLLAR !in s[..n] && s[n] == DOLLAR
    ensures IsRecord(s[..n + 1]) && s == s[..n + 1] + s[n + 1..]
  {
    assert forall k :: 0 <= k < n ==> s[k] in s[..n];
  }

  lemma RecordsStep(s: seq<byte>, n: nat)
    requires ToDollar(s) == n < |s|
    ensures Records(s) == [s[..n + 1]] + Records(s[n + 1..]) && Tail(s) == Tail(s[n + 1..])
  {
    hide ToDollar;
  }

  lemma {:induction false} SplitIs(rs: seq<seq<byte>>, tail: seq<byte>)
    requires AreRecords(rs) && DOLLAR !in tail
    ensures Records(Concat(rs) + tail) == rs && Tail(Concat(rs) + tail) == tail
    decreases |rs|
  {
    var s := Concat(rs) + tail;
    if rs == [] {
      assert s == tail;
      ToDollarIs(s, |s|);
    } else {
      var rest := Concat(rs[1..]) + tail;
      assert s == rs[0] + rest;
      FirstRecord(rs[0], rest);
      SplitIs(rs[1..], tail);
    }
  }

  lemma FirstRecord(r: seq<byte>, rest: seq<byte>)
    requires IsRecord(r)
    ensures Records(r + rest) == [r] + Records(rest) && Tail(r + rest) == Tail(rest)
  {
    var s := r + rest;
    ToDollarIs(s, |r| - 1);
    assert s[..|r|] == r && s[|r|..] == rest;
  }

  /** Cutting, then cutting again when more has arrived, is cutting all at once. */
  lemma RecordsResume(s: seq<byte>, t: seq<byte>)
    ensures Records(s + t) == Records(s) + Records(Tail(s) + t) && Tail(s + t) == Tail(Tail(s) + t)
  {
    SplitSound(s);
    SplitSound(Tail(s) + t);
    ResumeIs(s, t, Records(s), Tail(s), Records(Tail(s) + t), Tail(Tail(s) + t));
  }

  lemma ResumeIs(s: seq<byte>, t: seq<byte>, a: seq<seq<byte>>, left: seq<byte>, b: seq<seq<byte>>, tail: seq<byte>)
    requires AreRecords(a) && s == Concat(a) + left
    requires AreRecords(b) && DOLLAR !in tail && left + t == Concat(b) + tail
    ensures Records(s + t) == a + b && Tail(s + t) == tail
  {
    hide Records, Tail, IsRecord, Concat;
    ConcatSplits(a, b);
    Assoc(Concat(a), left, t);
    Assoc(Concat(a), Concat(b), tail);
    SplitIs(a + b, tail);
  }

  // ---------------------------------------------------------------- qlog

  /** Each record and a newline. */
  function Lines(rs: seq<seq<byte>>): seq<byte> {
    if rs == [] then [] else Lines(rs[..|rs| - 1]) + rs[|rs| - 1] + [NEWLINE]
  }

  lemma NoRecord(s: seq<byte>)
    requires forall k :: 0 <= k < |s| ==> s[k] != DOLLAR
    ensures Records(s) == [] && Tail(s) == s
  {
    ToDollarIs(s, |s|);
  }

  class Logger {
    /** nc->recv_mbuf. */
    var io: seq<byte>
    /** What has been written to the file. */
    var file: seq<byte>
    ghost var received: seq<byte>

    constructor ()
      ensures Valid() && received == []
    {
      io, file, received := [], [], [];
    }

    /** However the stream was cut into reads. */
    ghost predicate Valid()
      reads this
    {
      file == Lines(Records(received)) && io == Tail(received)
    }

    /** One cut of the loop, at the first '$'. */
    method CutRecord(ml: nat, ghost done: seq<seq<byte>>) returns (ghost done': seq<seq<byte>>)
      requires ml == ToDollar(io) < |io| && file == Lines(done)
      modifies this`io, this`file
      ensures io == old(io)[ml + 1..] && file == Lines(done')
      ensures done' + Records(io) == done + Records(old(io)) && Tail(io) == Tail(old(io))
    {
      var nbytes := ml + 1;
      RecordsStep(io, ml);
      done' := done + [io[..nbytes]];
      assert done'[..|done|] == done;
      hide Records, Tail;
      file := file + io[..nbytes] + [NEWLINE];
      io := io[nbytes..];
    }

    /** MG_EV_RECV. */
    method Receive(more: seq<byte>)
      requires Valid()
      modifies this
      ensures Valid() && received == old(received) + more
    {
      RecordsResume(received, more);
      ghost var done: seq<seq<byte>> := Records(received);
      hide Records, Tail, Lines;
      received := received + more;
      io := io + more;
      var ml := 0;
      while ml < |io|
        invariant 0 <= ml && file == Lines(done) && received == old(received) + more
        invariant Records(received) == done + Records(io) && Tail(received) == Tail(io)
        invariant forall k :: 0 <= k < ml && k < |io| ==> io[k] != DOLLAR
        decreases |io|, |io| - ml
      {
        if io[ml] == DOLLAR {
          ToDollarIs(io, ml);
          done := CutRecord(ml, done);
          if |io| > 0 {
            ml := -1;
          }
        }
        ml := ml + 1;
      }
      NoRecord(io);
      assert done + [] == done;
    }

    /** MG_EV_CLOSE: what is left goes to the file as it is. */
    method Close()
      requires Valid()
      modifies this`file, this`io
      ensures file == old(Lines(Records(received)) + Tail(received)) && io == []
      ensures old(Concat(Records(received)) + Tail(received)) == old(received) == received
    {
      SplitSound(received);
      file := file + io;
      io := [];
    }
  }

  // ---------------------------------------------------------------- as it is written

  /** A record ends with the only '$' in it, and gets a line of its own. */
  lemma LineOfRecord(rs: seq<seq<byte>>, r: seq<byte>)
    ensures IsRecord(r) <==> r != [] && r[|r| - 1] == 36 && 36 !in r[..|r| - 1]
    ensures Lines([]) == [] && Lines(rs + [r]) == Lines(rs) + r + [10]
  {
    assert (rs + [r])[..|rs|] == rs;
    if r != [] && 36 !in r[..|r| - 1] {
      assert forall k :: 0 <= k < |r| - 1 ==> r[k] in r[..|r| - 1];
    }
  }

  /** Two records and the beginning of a third one. */
  lemma Example()
    ensures Records([43, 65, 36] + [43, 66, 36] + [43]) == [[43, 65, 36], [43, 66, 36]]
    ensures Tail([43, 65, 36] + [43, 66, 36] + [43]) == [43]
    ensures Lines([[43, 65, 36], [43, 66, 36]]) == [43, 65, 36, 10] + [43, 66, 36, 10]
  {
    var a: seq<byte>, b: seq<byte>, tail: seq<byte> := [43, 65, 36], [43, 66, 36], [43];
    var rs := [a, b];
    LineOfRecord([], a);
    LineOfRecord([a], b);
    hide Records, Tail, Lines, Concat;
    assert [] + [a] == [a] && [a] + [b] == rs;
    ConcatOfTwo(a, b);
    SplitUniquely(a + b + tail, rs, tail);
  }

  lemma ConcatOfTwo(a: seq<byte>, b: seq<byte>)
    ensures Concat([a, b]) == a + b
  {
    ConcatFirst(a, [b]);
    ConcatFirst(b, []);
    assert [a] + [b] == [a, b] && [b] + [] == [b] && b + [] == b;
  }
}
