/**
 * Chunked transfer coding in mongoose.c (section 4.1 of RFC 7230): mg_send_http_chunk writes
 * chunks, mg_http_parse_chunk reads one, and mg_handle_chunked collapses the complete ones
 * at the front of the receive buffer.
 */
module HttpChunked {
  import opened Bytes

  const CR: byte := 13
  const LF: byte := 10

  // ---------------------------------------------------------------- hexadecimal numbers

  /** %lX. */
  function HexText(n: nat): (s: seq<byte>)
    ensures |s| > 0 && forall i :: 0 <= i < |s| ==> HexValue(s[i]).Some?
  {
    var d: byte := if n % 16 < 10 then 48 + n % 16 else 65 + n % 16 - 10;
    if n < 16 then [d] else HexText(n / 16) + [d]
  }

  function HexNat(s: seq<byte>): nat
    requires forall i :: 0 <= i < |s| ==> HexValue(s[i]).Some?
  {
    if s == [] then 0 else 16 * HexNat(s[..|s| - 1]) + HexValue(s[|s| - 1]).value
  }

  lemma {:induction false} HexReadsBack(n: nat)
    ensures HexNat(HexText(n)) == n
  {
    var s := HexText(n);
    if n < 16 {
      assert s[..0] == [];
    } else {
      HexReadsBack(n / 16);
      assert s[..|s| - 1] == HexText(n / 16);
    }
  }

  /** How many digits s starts with. */
  function HexLen(s: seq<byte>): (n: nat)
    ensures n <= |s| && (forall i :: 0 <= i < n ==> HexValue(s[i]).Some?)
    ensures n < |s| ==> HexValue(s[n]).None?
  {
    if s == [] || HexValue(s[0]).None? then 0 else 1 + HexLen(s[1..])
  }

  /** HexLen is the only number with its properties. */
  lemma {:induction false} HexLenIs(s: seq<byte>, n: nat)
    requires n <= |s| && (forall i :: 0 <= i < n ==> HexValue(s[i]).Some?)
    requires n < |s| ==> HexValue(s[n]).None?
    ensures HexLen(s) == n
  {
    if n > 0 {
      assert HexValue(s[0]).Some?;
      HexLenIs(s[1..], n - 1);
    }
  }

  // ---------------------------------------------------------------- one chunk

  /** Incomplete is the answer 0: more may be needed, or it never becomes a chunk. */
  datatype Chunk = Incomplete | Chunk(data: seq<byte>, size: nat)

  predicate LineEnd(s: seq<byte>, i: nat) {
    i + 2 <= |s| && s[i] == CR && s[i + 1] == LF
  }

  /** The number in front. */
  function ChunkSize(s: seq<byte>): nat { HexNat(s[..HexLen(s)]) }

  function Parse(s: seq<byte>): (c: Chunk)
    ensures c.Chunk? ==> 0 < c.size <= |s| && |c.data| + 5 <= c.size
  {
    ParseBy(s, HexLen(s), ChunkSize(s))
  }

  /** The rest of a chunk, by how many digits there are and what they say. */
  function ParseBy(s: seq<byte>, digits: nat, size: nat): (c: Chunk)
    ensures c.Chunk? ==> 0 < c.size <= |s| && |c.data| + 5 <= c.size
  {
    if digits == 0 || !LineEnd(s, digits) then Incomplete
    else
      var from, to := digits + 2, digits + 2 + size;
      if !LineEnd(s, to) then Incomplete else Chunk(s[from..to], to + 2)
  }

  /** mg_send_http_chunk. */
  function Wire(data: seq<byte>): seq<byte> {
    HexText(|data|) + [CR, LF] + data + [CR, LF]
  }

  /** What has been parsed does not change when more arrives. */
  lemma ParseExtend(s: seq<byte>, t: seq<byte>)
    requires Parse(s).Chunk?
    ensures Parse(s + t) == Parse(s)
  {
    var i := HexLen(s);
    assert forall k :: 0 <= k < |s| ==> (s + t)[k] == s[k];
    HexLenIs(s + t, i);
    assert (s + t)[..i] == s[..i];
    var c := Parse(s);
    assert (s + t)[i + 2..c.size - 2] == s[i + 2..c.size - 2];
  }

  /** The front of a chunk as sent: the size line, cut anywhere. */
  lemma WireLine(data: seq<byte>, more: seq<byte>)
    ensures var h, s := HexText(|data|), Wire(data) + more;
            && HexLen(s) == |h| && s[..|h|] == h && LineEnd(s, |h|)
            && s[|h| + 2..|h| + 2 + |data|] == data && LineEnd(s, |h| + 2 + |data|)
  {
    var h, s := HexText(|data|), Wire(data) + more;
    assert s == h + [CR, LF] + data + [CR, LF] + more;
    WireParts(h, data, more);
    hide HexText, Wire;
    assert forall i :: 0 <= i < |h| ==> HexValue(h[i]).Some? && s[i] == s[..|h|][i];
    HexLenIs(s, |h|);
  }

  lemma WireParts(h: seq<byte>, data: seq<byte>, more: seq<byte>)
    ensures var s := h + [CR, LF] + data + [CR, LF] + more;
            && s[..|h|] == h && s[|h|] == CR && LineEnd(s, |h|)
            && s[|h| + 2..|h| + 2 + |data|] == data && LineEnd(s, |h| + 2 + |data|)
  {
    var s, line := h + [CR, LF] + data + [CR, LF] + more, h + [CR, LF];
    assert s == line + (data + ([CR, LF] + more));
    assert s[|line|..] == data + ([CR, LF] + more);
    assert s[|line|..][..|data|] == s[|line|..|line| + |data|];
  }

  lemma ParseWire(data: seq<byte>, more: seq<byte>)
    ensures Parse(Wire(data) + more) == Chunk(data, |Wire(data)|)
  {
    WireLine(data, more);
    HexReadsBack(|data|);
  }

  /** Every proper prefix of a chunk is incomplete. */
  lemma ParseProperPrefix(data: seq<byte>, k: nat)
    requires k < |Wire(data)|
    ensures Parse(Wire(data)[..k]) == Incomplete
  {
    var s := Wire(data)[..k];
    if Parse(s).Chunk? {
      ParseExtend(s, Wire(data)[k..]);
      assert s + Wire(data)[k..] == Wire(data) + [];
      ParseWire(data, []);
    }
  }

  // ---------------------------------------------------------------- all complete chunks

  /** The data of the complete chunks, what follows them, and whether the last was the empty one. */
  datatype Collapsed = Collapsed(data: seq<byte>, left: seq<byte>, last: bool)

  function Collapse(s: seq<byte>): (c: Collapsed)
    ensures |c.data| + |c.left| <= |s|
    decreases |s|
  {
    match Parse(s)
    case Incomplete => Collapsed([], s, false)
    case Chunk(data, n) =>
      if data == [] then Collapsed([], s[n..], true)
      else
        var c := Collapse(s[n..]);
        Collapsed(data + c.data, c.left, c.last)
  }

  function Join(data: seq<byte>, c: Collapsed): Collapsed { c.(data := data + c.data) }

  lemma CollapseStep(s: seq<byte>)
    requires Parse(s).Chunk?
    ensures var p := Parse(s);
            Collapse(s) == if p.data == [] then Collapsed([], s[p.size..], true)
                           else Join(p.data, Collapse(s[p.size..]))
  {
    hide Parse;
  }

  lemma CollapseStop(s: seq<byte>)
    requires Parse(s).Incomplete?
    ensures Collapse(s) == Collapsed([], s, false)
  {
    hide Parse;
  }

  lemma JoinTwice(a: seq<byte>, b: seq<byte>, c: Collapsed)
    ensures Join(a, Join(b, c)) == Join(a + b, c) && Join([], c) == c
  {
    assert a + (b + c.data) == (a + b) + c.data;
    assert [] + c.data == c.data;
  }

  /** Collapsing what is there, then again when more has arrived, is collapsing all at once. */
  lemma {:induction false} CollapseResumes(s: seq<byte>, t: seq<byte>)
    ensures var c := Collapse(s);
            Collapse(s + t)
            == if c.last then Collapsed(c.data, c.left + t, true) else Join(c.data, Collapse(c.left + t))
    decreases |s|
  {
    hide Collapse, Parse, Join;
    if Parse(s).Chunk? {
      ResumesAfter(s, t);
    } else {
      CollapseStop(s);
      JoinTwice([], [], Collapse(s + t));
    }
  }

  lemma {:induction false} ResumesAfter(s: seq<byte>, t: seq<byte>)
    requires Parse(s).Chunk?
    ensures var c := Collapse(s);
            Collapse(s + t)
            == if c.last then Collapsed(c.data, c.left + t, true) else Join(c.data, Collapse(c.left + t))
    decreases |s|, 0
  {
    hide Collapse, Parse;
    var p := Parse(s);
    ParseExtend(s, t);
    assert (s + t)[p.size..] == s[p.size..] + t;
    CollapseStep(s);
    CollapseStep(s + t);
    if p.data != [] {
      var c := Collapse(s[p.size..]);
      CollapseResumes(s[p.size..], t);
      JoinTwice(p.data, c.data, Collapse(c.left + t));
    }
  }

  // ---------------------------------------------------------------- streams of chunks

  function Wires(chunks: seq<seq<byte>>): seq<byte> {
    if chunks == [] then [] else Wire(chunks[0]) + Wires(chunks[1..])
  }

  predicate NonEmpty(chunks: seq<seq<byte>>) {
    forall i :: 0 <= i < |chunks| ==> chunks[i] != []
  }

  lemma {:induction false} CollapseWires(chunks: seq<seq<byte>>, t: seq<byte>)
    requires NonEmpty(chunks)
    ensures Collapse(Wires(chunks) + t) == Join(Concat(chunks), Collapse(t))
    decreases |chunks|
  {
    hide Collapse, Parse, Wire;
    if chunks == [] {
      assert Wires(chunks) + t == t;
      JoinTwice([], [], Collapse(t));
    } else {
      var more := Wires(chunks[1..]) + t;
      assert Wires(chunks) + t == Wire(chunks[0]) + more;
      ParseWire(chunks[0], more);
      CollapseStep(Wire(chunks[0]) + more);
      assert (Wire(chunks[0]) + more)[|Wire(chunks[0])|..] == more;
      CollapseWires(chunks[1..], t);
      JoinTwice(chunks[0], Concat(chunks[1..]), Collapse(t));
    }
  }

  /** A whole body: its data in order, and what comes after the empty chunk is left. */
  lemma WholeBody(chunks: seq<seq<byte>>, t: seq<byte>)
    requires NonEmpty(chunks)
    ensures Collapse(Wires(chunks) + Wire([]) + t) == Collapsed(Concat(chunks), t, true)
  {
    hide Collapse, Parse, Wire, Wires, Concat;
    assert Wires(chunks) + Wire([]) + t == Wires(chunks) + (Wire([]) + t);
    CollapseWires(chunks, Wire([]) + t);
    ParseWire([], t);
    CollapseStep(Wire([]) + t);
    assert (Wire([]) + t)[|Wire([])|..] == t;
    assert Concat(chunks) + [] == Concat(chunks);
  }

  /** A body cut inside a chunk: the data of the chunks before it, and what there is of it. */
  lemma CutBody(chunks: seq<seq<byte>>, chunk: seq<byte>, k: nat)
    requires NonEmpty(chunks) && k < |Wire(chunk)|
    ensures Collapse(Wires(chunks) + Wire(chunk)[..k]) == Collapsed(Concat(chunks), Wire(chunk)[..k], false)
  {
    hide Collapse, Parse, Wire, Wires, Concat;
    CollapseWires(chunks, Wire(chunk)[..k]);
    ParseProperPrefix(chunk, k);
    CollapseStop(Wire(chunk)[..k]);
    assert Concat(chunks) + [] == Concat(chunks);
  }

  // ---------------------------------------------------------------- the receive buffer

  /** The digits at the front of buf[i..len] and their value. */
  method ScanLength(buf: array<byte>, i: nat, len: nat) returns (j: nat, size: nat)
    requires i <= len <= buf.Length
    ensures j == HexLen(buf[i..len]) && size == ChunkSize(buf[i..len])
  {
    ghost var s := buf[i..len];
    j, size := 0, 0;
    while i + j < len && HexValue(buf[i + j]).Some?
      invariant i + j <= len && forall k :: 0 <= k < j ==> HexValue(s[k]).Some?
      invariant size == HexNat(s[..j])
    {
      assert s[..j + 1][..j] == s[..j];
      size := size * 16 + HexValue(buf[i + j]).value;
      j := j + 1;
    }
    HexLenIs(s, j);
  }

  method AtLineEnd(buf: array<byte>, i: nat, j: nat, len: nat) returns (yes: bool)
    requires i <= len <= buf.Length
    ensures yes == LineEnd(buf[i..len], j)
  {
    yes := i + j + 2 <= len && buf[i + j] == CR && buf[i + j + 1] == LF;
  }

  /** mg_http_parse_chunk on buf[i..len]; the answer 0 is n == 0. */
  method ParseChunk(buf: array<byte>, i: nat, len: nat) returns (n: nat, data: nat, dataLen: nat)
    requires i <= len <= buf.Length
    ensures n == 0 <==> Parse(buf[i..len]) == Incomplete
    ensures n > 0 ==> i <= data && data + dataLen <= i + n <= len
                      && Parse(buf[i..len]) == Chunk(buf[data..data + dataLen], n)
  {
    hide *;
    ghost var s := buf[i..len];
    var j, size := ScanLength(buf, i, len);
    var ends := AtLineEnd(buf, i, j, len);
    if j == 0 || !ends {
      NoSizeLine(s);
      return 0, 0, 0;
    }
    data, dataLen := i + (j + 2), size;
    n := CheckEnd(buf, i, len, j + 2, data, dataLen);
    ParseDecided(s, n, if n > 0 then buf[data..data + dataLen] else []);
  }

  lemma NoSizeLine(s: seq<byte>)
    requires HexLen(s) == 0 || !LineEnd(s, HexLen(s))
    ensures Parse(s) == Incomplete
  {
    hide HexLen, LineEnd, ChunkSize;
  }

  lemma ParseDecided(s: seq<byte>, n: nat, piece: seq<byte>)
    requires HexLen(s) > 0 && LineEnd(s, HexLen(s))
    requires var from, to := HexLen(s) + 2, HexLen(s) + 2 + ChunkSize(s);
             if LineEnd(s, to) then n == to + 2 <= |s| && piece == s[from..to] else n == 0
    ensures if n == 0 then Parse(s) == Incomplete else Parse(s) == Chunk(piece, n)
  {
    hide HexLen, LineEnd, ChunkSize;
  }

  /** The line end behind the data; the answer is the size of the chunk, or 0. */
  method CheckEnd(buf: array<byte>, i: nat, len: nat, from: nat, data: nat, size: nat) returns (n: nat)
    requires i <= len <= buf.Length && data == i + from
    ensures var s := buf[i..len];
            if LineEnd(s, from + size)
            then n == from + size + 2 <= len - i && buf[data..data + size] == s[from..from + size]
            else n == 0
  {
    n := 0;
    ghost var s := buf[i..len];
    var ends := AtLineEnd(buf, i, from + size, len);
    if ends {
      n := from + size + 2;
      ghost var part := buf[data..data + size];
      forall k | 0 <= k < size ensures part[k] == s[from + k] {
        assert part[k] == buf[data + k];
      }
      assert part == s[from..from + size];
    }
  }

  /** One round of the loop: the next chunk's data, piece, moves behind the body. */
  method TakeChunk(buf: array<byte>, body: nat, i: nat, len: nat) returns (n: nat, dataLen: nat, ghost piece: seq<byte>)
    requires body <= i <= len <= buf.Length
    modifies buf
    ensures old(Parse(buf[i..len])) == if n == 0 then Incomplete else Chunk(piece, n)
    ensures dataLen == |piece| && i + n <= len && if n == 0 then piece == [] else dataLen + 5 <= n
    ensures buf[..body + dataLen] == old(buf[..body]) + piece
    ensures buf[i + n..len] == old(buf[i..len])[n..]
  {
    hide *;
    ghost var s := buf[i..len];
    var data;
    n, data, dataLen := ParseChunk(buf, i, len);
    if n == 0 {
      dataLen, piece := 0, [];
    } else {
      ChunkIsLonger(s);
      assert buf[i + n..len] == s[n..];
      piece := buf[data..data + dataLen];
      ghost var rest := buf[i + n..len];
      Move(buf, body, buf, data, dataLen);
      assert buf[i + n..len] == rest;
    }
  }

  /** The loop has taken chunks with the data moved, and rest is not parsed. */
  ghost predicate Going(start: seq<byte>, moved: seq<byte>, rest: seq<byte>) {
    Collapse(start) == Join(moved, Collapse(rest))
  }

  lemma GoingStart(start: seq<byte>)
    ensures Going(start, [], start)
  {
    JoinTwice([], [], Collapse(start));
    hide Collapse, Parse;
  }

  lemma GoingOn(start: seq<byte>, moved: seq<byte>, rest: seq<byte>, piece: seq<byte>, n: nat)
    requires Going(start, moved, rest) && Parse(rest) == Chunk(piece, n)
    ensures n <= |rest| && (piece != [] ==> Going(start, moved + piece, rest[n..]))
    ensures piece == [] ==> Collapse(start) == Collapsed(moved, rest[n..], true)
  {
    CollapseStep(rest);
    JoinTwice(moved, piece, Collapse(rest[n..]));
    JoinsEmpty(moved, rest[n..]);
    hide Collapse;
  }

  lemma GoingEnds(start: seq<byte>, moved: seq<byte>, rest: seq<byte>)
    requires Going(start, moved, rest) && Parse(rest) == Incomplete
    ensures Collapse(start) == Collapsed(moved, rest, false)
  {
    CollapseStop(rest);
    JoinsEmpty(moved, rest);
    hide Collapse, Parse;
  }

  /** One round and what it means for the whole; before is the body in front of the first chunk. */
  method Round(buf: array<byte>, body: nat, i: nat, len: nat, ghost start: seq<byte>, ghost before: seq<byte>,
               ghost moved: seq<byte>)
    returns (next: nat, end: nat, ghost moved': seq<byte>)
    requires body <= i <= len <= buf.Length
    requires Going(start, moved, buf[i..len]) && buf[..body] == before + moved
    modifies buf
    ensures body <= end <= next <= len && i <= next && buf[..end] == before + moved'
    ensures end > body ==> i < next && Going(start, moved', buf[next..len])
    ensures end == body ==> Collapse(start) == Collapsed(moved', buf[next..len], next > i)
  {
    hide *;
    ghost var piece, rest := [], buf[i..len];
    var n, dataLen;
    n, dataLen, piece := TakeChunk(buf, body, i, len);
    next, end := i + n, body + dataLen;
    Assoc(before, moved, piece);
    moved' := moved + piece;
    if n == 0 {
      GoingEnds(start, moved, rest);
      assert rest[n..] == rest;
    } else {
      GoingOn(start, moved, rest, piece, n);
    }
    assert piece == [] ==> moved' == moved;
  }

  /**
   * The loop of mg_handle_chunked: chunk data moves to the front, behind the body so far.
   * i is where the octets that are not yet parsed start.
   */
  method CollapseFront(buf: array<byte>, bodyLen: nat, len: nat) returns (i: nat, body: nat, last: bool)
    requires bodyLen <= len <= buf.Length
    modifies buf
    ensures bodyLen <= body <= i <= len
    ensures i == body <==> old(Parse(buf[bodyLen..len])) == Incomplete
    ensures i == body ==> body == bodyLen && !last
    ensures var c := old(Collapse(buf[bodyLen..len]));
            buf[..body] == old(buf[..bodyLen]) + c.data && buf[i..len] == c.left && last == c.last
  {
    ghost var start, before := buf[bodyLen..len], buf[..bodyLen];
    GoingStart(start);
    assert before + [] == before;
    hide *;
    i, body, last := bodyLen, bodyLen, false;
    ghost var moved: seq<byte> := [];
    var more := true;
    while more
      invariant bodyLen <= body <= i <= len && buf[..body] == before + moved
      invariant more ==> Going(start, moved, buf[i..len])
      invariant !more ==> Collapse(start) == Collapsed(moved, buf[i..len], last)
      decreases more, len - i
    {
      var next, end;
      next, end, moved := Round(buf, body, i, len, start, before, moved);
      more, last := end > body, next > i;
      i, body := next, end;
    }
    CollapseShrinks(start);
  }

  /** Something is taken away exactly if there is a complete chunk. */
  lemma CollapseShrinks(s: seq<byte>)
    ensures var c := Collapse(s);
            if Parse(s) == Incomplete then c.data == [] && c.left == s && !c.last else |c.data| + |c.left| < |s|
  {
    hide Parse;
    if Parse(s) != Incomplete {
      ChunkIsLonger(s);
    }
  }

  lemma JoinsEmpty(a: seq<byte>, left: seq<byte>)
    ensures Join(a, Collapsed([], left, false)) == Collapsed(a, left, false)
    ensures Join(a, Collapsed([], left, true)) == Collapsed(a, left, true)
  {
    assert a + [] == a;
  }

  lemma ChunkIsLonger(s: seq<byte>)
    requires Parse(s).Chunk?
    ensures |Parse(s).data| + 5 <= Parse(s).size
  {
  }

  /** The receive buffer behind the header: the body so far, then what is not parsed. */
  class ChunkedBody {
    var buf: array<byte>
    var len: nat
    var bodyLen: nat
    /** The body each MG_EV_HTTP_CHUNK event showed. */
    var events: seq<seq<byte>>
    /** hm->message.len without the header, once the empty chunk is there. */
    var messageLen: nat
    ghost var stream: seq<byte>
    ghost var deleted: seq<byte>
    ghost var done: bool

    constructor (capacity: nat)
      ensures Valid() && stream == [] && deleted == [] && events == [] && !done && fresh(buf)
    {
      buf := new byte[capacity];
      len, bodyLen, messageLen, events := 0, 0, 0, [];
      stream, deleted, done := [], [], false;
      new;
      assert deleted + buf[..bodyLen] == [] && buf[bodyLen..len] == [];
    }

    /** What was received so far is the data taken, at the front or deleted, and the rest. */
    ghost predicate Valid()
      reads this, buf
    {
      && bodyLen <= len <= buf.Length
      && Collapse(stream) == Collapsed(deleted + buf[..bodyLen], buf[bodyLen..len], done)
    }

    /** mbuf_append. */
    method Append(more: seq<byte>)
      requires bodyLen <= len <= buf.Length
      modifies this`buf, this`len, buf
      ensures bodyLen <= len <= buf.Length && (buf == old(buf) || fresh(buf))
      ensures buf[..bodyLen] == old(buf[..bodyLen]) && buf[bodyLen..len] == old(buf[bodyLen..len]) + more
    {
      ghost var body, rest := buf[..bodyLen], buf[bodyLen..len];
      assert buf[..len] == body + rest;
      if len + |more| > buf.Length {
        var grown := new byte[(len + |more|) * 3 / 2];
        Move(grown, 0, buf, 0, len);
        buf := grown;
        assert buf[..len] == [] + (body + rest) == body + rest;
      }
      Copy(buf, len, more);
      len := len + |more|;
      Assoc(body, rest, more);
      Halves(buf[..len], body, rest + more);
      assert buf[..bodyLen] == buf[..len][..bodyLen] && buf[bodyLen..len] == buf[..len][bodyLen..];
    }

    /** The unparsed octets from i on move behind the body, and the event is raised. */
    method Show(body: nat, i: nat)
      requires body <= i <= len <= buf.Length
      modifies this`len, this`bodyLen, this`events, buf
      ensures bodyLen == body && len == body + (old(len) - i) && len <= buf.Length
      ensures buf[..bodyLen] == old(buf[..body]) && buf[bodyLen..len] == old(buf[i..len])
      ensures forall k :: len <= k < old(len) ==> buf[k] == 0
      ensures events == old(events) + [buf[..bodyLen]]
    {
      var rest := len - i;
      Move(buf, body, buf, i, rest);
      assert buf[..body] == buf[..body + rest][..body] && buf[body..body + rest] == buf[..body + rest][body..];
      Clear(buf, body + rest, i - body);
      len, bodyLen := body + rest, body;
      events := events + [buf[..body]];
    }

    /** MG_F_DELETE_CHUNK: the unparsed octets move to the front. */
    method Discard()
      requires bodyLen <= len <= buf.Length
      modifies this`len, this`bodyLen, this`deleted, buf
      ensures bodyLen == 0 && len == old(len - bodyLen) && deleted == old(deleted + buf[..bodyLen])
      ensures buf[bodyLen..len] == old(buf[bodyLen..len])
    {
      var rest := len - bodyLen;
      deleted := deleted + buf[..bodyLen];
      Clear(buf, 0, bodyLen);
      assert buf[bodyLen..len] == old(buf[bodyLen..len]);
      Move(buf, 0, buf, bodyLen, rest);
      len, bodyLen := rest, 0;
    }

    /** What mg_handle_chunked does when there was a chunk. */
    method Finish(body: nat, i: nat, last: bool, deleteChunk: bool)
      requires body <= i <= len <= buf.Length
      modifies this`len, this`bodyLen, this`events, this`deleted, this`messageLen, buf
      ensures bodyLen <= len <= buf.Length && buf[bodyLen..len] == old(buf[i..len])
      ensures deleted + buf[..bodyLen] == old(deleted + buf[..body])
      ensures events == old(events) + [old(buf[..body])]
      ensures if deleteChunk then bodyLen == 0 else deleted == old(deleted)
      ensures last ==> messageLen == len
    {
      hide *;
      Show(body, i);
      if deleteChunk {
        Discard();
        Nothing(deleted, buf[..bodyLen]);
      }
      if last {
        messageLen := len;
      }
    }

    /** mg_handle_chunked; deleteChunk is whether the event handler sets MG_F_DELETE_CHUNK. */
    method HandleChunked(deleteChunk: bool)
      requires bodyLen <= len <= buf.Length && !done
      modifies this, buf
      ensures bodyLen <= len <= buf.Length && buf == old(buf) && stream == old(stream)
      ensures var c := old(Collapse(buf[bodyLen..len]));
              && buf[bodyLen..len] == c.left && done == c.last
              && deleted + buf[..bodyLen] == old(deleted + buf[..bodyLen]) + c.data
              && (c.last ==> messageLen == len)
      ensures var c := old(Collapse(buf[bodyLen..len]));
              if old(Parse(buf[bodyLen..len])) == Incomplete then events == old(events)
              else events == old(events) + [old(buf[..bodyLen]) + c.data] && (deleteChunk ==> bodyLen == 0)
      ensures !deleteChunk ==> deleted == old(deleted)
      ensures done ==> (messageLen == bodyLen <==> old(Collapse(buf[bodyLen..len])).left == [])
    {
      ghost var start, front := buf[bodyLen..len], buf[..bodyLen];
      var i, body, last := CollapseFront(buf, bodyLen, len);
      CollapseShrinks(start);
      hide *;
      done := last;
      Assoc(deleted, front, Collapse(start).data);
      if i > body {
        Finish(body, i, last, deleteChunk);
      }
    }

    method Take(more: seq<byte>, deleteChunk: bool)
      requires bodyLen <= len <= buf.Length && !done
      modifies this, buf
      ensures bodyLen <= len <= buf.Length && (buf == old(buf) || fresh(buf)) && stream == old(stream)
      ensures var c := Collapse(old(buf[bodyLen..len]) + more);
              && deleted + buf[..bodyLen] == old(deleted + buf[..bodyLen]) + c.data
              && buf[bodyLen..len] == c.left && done == c.last
      ensures deleteChunk && |events| > |old(events)| ==> bodyLen == 0
      ensures !deleteChunk ==> deleted == old(deleted)
      ensures done ==> messageLen == len
    {
      hide *;
      Append(more);
      HandleChunked(deleteChunk);
    }

    /**
     * A read from the socket: however the stream is cut, the data taken and the rest
     * are what collapsing all of it at once gives.
     */
    method Receive(more: seq<byte>, deleteChunk: bool)
      requires Valid() && !done
      modifies this, buf
      ensures Valid() && stream == old(stream) + more && (buf == old(buf) || fresh(buf))
      ensures deleteChunk && |events| > |old(events)| ==> bodyLen == 0
      ensures !deleteChunk ==> deleted == old(deleted)
      ensures done ==> messageLen == len
    {
      ghost var tail, taken := buf[bodyLen..len], deleted + buf[..bodyLen];
      ReceiveStep(stream, more, taken, tail);
      hide Collapse, Parse;
      Take(more, deleteChunk);
      stream := stream + more;
    }
  }

  /** A body that ends, with the first octet of the next request behind it, which the message is said to hold. */
  lemma NextRequestIsCounted()
    ensures Collapse([48, CR, LF, CR, LF, 71]) == Collapsed([], [71], true)
  {
    WholeBody([], [71]);
    assert Wires([]) + Wire([]) + [71] == [48, CR, LF, CR, LF, 71];
  }

  lemma ReceiveStep(stream: seq<byte>, more: seq<byte>, taken: seq<byte>, tail: seq<byte>)
    requires Collapse(stream) == Collapsed(taken, tail, false)
    ensures var c := Collapse(tail + more);
            Collapse(stream + more) == Collapsed(taken + c.data, c.left, c.last)
  {
    CollapseResumes(stream, more);
    hide Collapse;
  }

  lemma Halves(s: seq<byte>, a: seq<byte>, b: seq<byte>)
    requires s == a + b
    ensures s[..|a|] == a && s[|a|..] == b
  {
  }

  lemma Nothing(a: seq<byte>, b: seq<byte>)
    ensures b == [] ==> a + b == a
  {
  }

  // ---------------------------------------------------------------- as it is written

  /** A chunk of fewer than sixteen octets; the empty one ends the body. */
  lemma ShortChunk(data: seq<byte>, more: seq<byte>)
    requires |data| < 16
    ensures Wire(data) == ["0123456789ABCDEF"[|data|] as int, 13, 10] + data + [13, 10]
    ensures Parse(Wire(data) + more) == Chunk(data, 5 + |data|)
  {
    HexValueIsPlace(48, |data|);
    ParseWire(data, more);
    hide Parse;
    var digit: byte := "0123456789ABCDEF"[|data|] as int;
    assert [digit] + [13, 10] == [digit, 13, 10];
  }

  /** The size line of 26 octets is 1A. */
  lemma LongerChunk(data: seq<byte>)
    requires |data| == 26
    ensures Wire(data) == [49, 65, 13, 10] + data + [13, 10]
  {
    assert HexText(1) == [49] && HexText(26) == HexText(1) + [65];
    assert [49] + [65] + [13, 10] == [49, 65, 13, 10];
  }
}
