/** The growing string buffer (SB) of json.c; offsets from start stand for its pointers. */
module StringBuffer {
  import opened Bytes

  class SB {
    /** The block at start: end octets for characters and one for the terminator. */
    var mem: array<byte>
    var cur: nat
    var end: nat

    ghost predicate Valid()
      reads this
    {
      0 < end && cur <= end && mem.Length == end + 1
    }

    ghost function Contents(): (s: seq<byte>)
      reads this, mem
      requires Valid()
    {
      mem[..cur]
    }

    /** sb_init. */
    constructor ()
      ensures Valid() && fresh(mem) && Contents() == []
    {
      mem := new byte[17](_ => 0);
      cur, end := 0, 16;
    }

    /** sb_grow: doubling ends with room for need more octets. */
    method Grow(need: nat)
      requires Valid() && end - cur < need
      modifies this
      ensures Valid() && fresh(mem) && end - cur >= need
      ensures cur == old(cur) && Contents() == old(Contents())
    {
      var alloc := 2 * end;
      while alloc < cur + need
        invariant alloc >= 2 * end
        decreases cur + need - alloc
      {
        alloc := 2 * alloc;
      }
      var bigger := new byte[alloc + 1](_ => 0);
      for i := 0 to cur
        invariant bigger[..i] == mem[..i]
        modifies bigger
      {
        bigger[i] := mem[i];
      }
      mem, end := bigger, alloc;
    }

    /** sb_need. */
    method Need(need: nat)
      requires Valid()
      modifies this
      ensures Valid() && end - cur >= need
      ensures fresh(mem) || mem == old(mem)
      ensures cur == old(cur) && Contents() == old(Contents())
    {
      if end - cur < need {
        Grow(need);
      }
    }

    /** sb_put and sb_puts. */
    method Put(bytes: seq<byte>)
      requires Valid()
      modifies this, mem
      ensures Valid() && (fresh(mem) || mem == old(mem))
      ensures Contents() == old(Contents()) + bytes
    {
      Need(|bytes|);
      cur := PutAt(mem, cur, bytes);
    }

    /** sb_putc. */
    method PutChar(c: byte)
      requires Valid()
      modifies this, mem
      ensures Valid() && (fresh(mem) || mem == old(mem))
      ensures Contents() == old(Contents()) + [c]
    {
      if cur >= end {
        Grow(1);
      }
      mem[cur] := c;
      cur := cur + 1;
    }

    /** sb_finish: the terminator fits, and the string ends there because no octet before it is 0. */
    method Finish() returns (s: seq<byte>)
      requires Valid() && 0 !in Contents()
      modifies mem
      ensures s == old(Contents()) && mem[..cur + 1] == s + [0]
      ensures StrLen(mem[..], 0) == cur
    {
      s := mem[..cur];
      mem[cur] := 0;
      StrLenIs(mem[..], 0, cur);
    }
  }

  /** strlen from position i on. */
  function StrLen(s: seq<byte>, i: nat): nat
    decreases |s| - i
  {
    if i >= |s| || s[i] == 0 then 0 else 1 + StrLen(s, i + 1)
  }

  lemma {:induction false} StrLenIs(s: seq<byte>, i: nat, n: nat)
    requires i <= n < |s| && s[n] == 0 && forall k :: i <= k < n ==> s[k] != 0
    ensures StrLen(s, i) == n - i
    decreases n - i
  {
    if i < n {
      StrLenIs(s, i + 1, n);
    }
  }
}
