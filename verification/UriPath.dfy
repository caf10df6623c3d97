/**
 * mg_normalize_uri_path of mongoose.c: path normalisation, also in place, against
 * remove_dot_segments of section 5.2.4 of RFC 3986.
 */
module UriPath {
  import opened Bytes

  const SLASH: byte := 47
  const DOT: byte := 46

  // ---------------------------------------------------------------- RFC 3986, section 5.2.4

  predicate StartsWith(s: seq<byte>, p: seq<byte>) { |p| <= |s| && s[..|p|] == p }

  /** The output buffer without its last segment and the slash in front of it. */
  function DropSegment(out: seq<byte>): seq<byte> {
    if out == [] then []
    else if out[|out| - 1] == SLASH then out[..|out| - 1]
    else DropSegment(out[..|out| - 1])
  }

  /** The number of characters in front of the first slash. */
  function ToSlash(s: seq<byte>): (n: nat)
    ensures n <= |s| && SLASH !in s[..(n)] && (n < |s| ==> s[n] == SLASH)
  {
    if s == [] || s[0] == SLASH then 0
    else
      assert s[..1 + ToSlash(s[1..])] == [s[0]] + s[1..][..ToSlash(s[1..])];
      1 + ToSlash(s[1..])
  }

  /** Steps 2A to 2E, in the order of the standard. */
  function RemoveDotSegments(input: seq<byte>, out: seq<byte>): seq<byte>
    decreases |input|
  {
    if input == [] then out
    else if StartsWith(input, [DOT, DOT, SLASH]) then RemoveDotSegments(input[3..], out)
    else if StartsWith(input, [DOT, SLASH]) then RemoveDotSegments(input[2..], out)
    else if StartsWith(input, [SLASH, DOT, SLASH]) then RemoveDotSegments(input[2..], out)
    else if input == [SLASH, DOT] then RemoveDotSegments([SLASH], out)
    else if StartsWith(input, [SLASH, DOT, DOT, SLASH]) then RemoveDotSegments(input[3..], DropSegment(out))
    else if input == [SLASH, DOT, DOT] then RemoveDotSegments([SLASH], DropSegment(out))
    else if input == [DOT] || input == [DOT, DOT] then out
    else
      var n := if input[0] == SLASH then 1 + ToSlash(input[1..]) else ToSlash(input);
      RemoveDotSegments(input[n..], out + input[..n])
  }

  // ---------------------------------------------------------------- what the loop computes

  function Strip(out: seq<byte>): (r: seq<byte>)
    ensures r <= out
  {
    if out == [] || out[|out| - 1] == SLASH then out else Strip(out[..|out| - 1])
  }

  /** The two backtracking lines for "..". */
  function Back(out: seq<byte>): (r: seq<byte>)
    ensures r <= out
  {
    Strip(if |out| > 1 && out[|out| - 1] == SLASH then out[..|out| - 1] else out)
  }

  function Min(a: nat, b: nat): nat { if a < b then a else b }

  /** parse_uri_component: where the next component starts. */
  function Next(s: seq<byte>): (n: nat)
    ensures n <= |s| && (s != [] ==> n > 0)
  {
    Min(ToSlash(s) + 1, |s|)
  }

  /** One round of the loop: the output after the first component of s. */
  function Round(s: seq<byte>, out: seq<byte>): (r: seq<byte>)
    ensures |r| <= |out| + Next(s)
  {
    var component := s[..ToSlash(s)];
    if component == [DOT] then out
    else if component == [DOT, DOT] then Back(out)
    else out + s[..Next(s)]
  }

  function Rounds(s: seq<byte>, out: seq<byte>): seq<byte>
    decreases |s|
  {
    if s == [] then out else Rounds(s[Next(s)..], Round(s, out))
  }

  /** None for what mg_normalize_uri_path answers with 0. */
  function Normalized(path: seq<byte>): Option<seq<byte>> {
    if path == [] || path[0] != SLASH then None
    else
      var out := Rounds(path, []);
      Some(if out == [] then [SLASH] else out)
  }

  // ---------------------------------------------------------------- the loop is the standard's algorithm

  lemma {:induction false} StripDrops(out: seq<byte>)
    requires out != [] && out[0] == SLASH
    ensures Strip(out) == DropSegment(out) + [SLASH]
  {
    if out[|out| - 1] == SLASH {
      assert out == out[..|out| - 1] + [SLASH];
    } else {
      StripDrops(out[..|out| - 1]);
    }
  }

  lemma BackDrops(out: seq<byte>)
    requires out == [] || out[0] == SLASH
    ensures Back(out + [SLASH]) == DropSegment(out) + [SLASH]
    ensures var d := DropSegment(out); d == [] || d[0] == SLASH
  {
    assert (out + [SLASH])[..|out|] == out;
    if out != [] {
      StripDrops(out);
      assert Strip(out) <= out;
    }
  }

  lemma SlashAt(s: seq<byte>)
    ensures ToSlash(s) == 1 <==> |s| >= 1 && s[0] != SLASH && (|s| == 1 || s[1] == SLASH)
    ensures ToSlash(s) == 2 <==> |s| >= 2 && s[0] != SLASH && s[1] != SLASH && (|s| == 2 || s[2] == SLASH)
  {
    if |s| >= 1 { assert ToSlash(s) == if s[0] == SLASH then 0 else 1 + ToSlash(s[1..]); }
    if |s| >= 2 { assert ToSlash(s[1..]) == if s[1] == SLASH then 0 else 1 + ToSlash(s[2..]); }
    if |s| >= 3 { assert ToSlash(s[2..]) == if s[2] == SLASH then 0 else 1 + ToSlash(s[3..]); }
  }

  /** The dot segments at the front of s, read off the standard's cases on "/" + s. */
  lemma FirstSegment(s: seq<byte>)
    ensures var input, component := [SLASH] + s, s[..ToSlash(s)];
            && (StartsWith(input, [SLASH, DOT, SLASH]) <==> component == [DOT] && |s| > 1)
            && (input == [SLASH, DOT] <==> component == [DOT] && |s| == 1)
            && (StartsWith(input, [SLASH, DOT, DOT, SLASH]) <==> component == [DOT, DOT] && |s| > 2)
            && (input == [SLASH, DOT, DOT] <==> component == [DOT, DOT] && |s| == 2)
  {
    SlashAt(s);
    CutIs(s, ToSlash(s));
    StartsDot(s);
    StartsDots(s);
    hide ToSlash, StartsWith;
  }

  lemma StartsDot(s: seq<byte>)
    ensures StartsWith([SLASH] + s, [SLASH, DOT, SLASH]) <==> |s| >= 2 && s[0] == DOT && s[1] == SLASH
    ensures [SLASH] + s == [SLASH, DOT] <==> s == [DOT]
  {
    var input := [SLASH] + s;
    assert input[1..] == s && [SLASH, DOT] == [SLASH] + [DOT];
    if |s| >= 2 { assert input[..3] == [SLASH, s[0], s[1]]; }
  }

  lemma StartsDots(s: seq<byte>)
    ensures StartsWith([SLASH] + s, [SLASH, DOT, DOT, SLASH])
            <==> |s| >= 3 && s[0] == DOT && s[1] == DOT && s[2] == SLASH
    ensures [SLASH] + s == [SLASH, DOT, DOT] <==> s == [DOT, DOT]
  {
    var input := [SLASH] + s;
    assert input[1..] == s && [SLASH, DOT, DOT] == [SLASH] + [DOT, DOT];
    if |s| >= 3 { assert input[..4] == [SLASH, s[0], s[1], s[2]]; }
  }

  /** What the first n octets of s are. */
  lemma CutIs(s: seq<byte>, n: nat)
    requires n <= |s|
    ensures s[..n] == [DOT] <==> n == 1 && s[0] == DOT
    ensures s[..n] == [DOT, DOT] <==> n == 2 && s[0] == DOT && s[1] == DOT
  {
  }

  /** The steps of the standard that an input with a slash in front can take. */
  function SlashStep(input: seq<byte>, out: seq<byte>): seq<byte>
    requires input != [] && input[0] == SLASH
  {
    if StartsWith(input, [SLASH, DOT, SLASH]) then RemoveDotSegments(input[2..], out)
    else if input == [SLASH, DOT] then RemoveDotSegments([SLASH], out)
    else if StartsWith(input, [SLASH, DOT, DOT, SLASH]) then RemoveDotSegments(input[3..], DropSegment(out))
    else if input == [SLASH, DOT, DOT] then RemoveDotSegments([SLASH], DropSegment(out))
    else RemoveDotSegments(input[1 + ToSlash(input[1..])..], out + input[..1 + ToSlash(input[1..])])
  }

  lemma TakesSlashStep(input: seq<byte>, out: seq<byte>)
    requires input != [] && input[0] == SLASH
    ensures RemoveDotSegments(input, out) == SlashStep(input, out)
  {
    assert input[..1] == [SLASH];
    assert !StartsWith(input, [DOT, DOT, SLASH]) && !StartsWith(input, [DOT, SLASH]) by {
      assert |input| >= 3 ==> input[..3][0] == SLASH;
      assert |input| >= 2 ==> input[..2][0] == SLASH;
    }
    assert input != [DOT] && input != [DOT, DOT];
    hide ToSlash, StartsWith, DropSegment;
  }

  lemma OnlySlash(out: seq<byte>)
    ensures RemoveDotSegments([SLASH], out) == out + [SLASH]
  {
    assert [SLASH][1..] == [];
  }

  /** The standard's output after the first component of s. */
  function NextOut(s: seq<byte>, out: seq<byte>): seq<byte> {
    var component := s[..ToSlash(s)];
    if component == [DOT] then out
    else if component == [DOT, DOT] then DropSegment(out)
    else out + [SLASH] + component
  }

  /** One round of the loop on s, and one or two steps of the standard on "/" + s, when a slash follows. */
  lemma StepFollows(s: seq<byte>, out: seq<byte>)
    requires ToSlash(s) < |s|
    ensures RemoveDotSegments([SLASH] + s, out) == RemoveDotSegments([SLASH] + s[Next(s)..], NextOut(s, out))
  {
    hide RemoveDotSegments, DropSegment, ToSlash, StartsWith;
    var input := [SLASH] + s;
    InputParts(s, ToSlash(s), out);
    TakesSlashStep(input, out);
    FirstSegment(s);
  }

  lemma InputParts(s: seq<byte>, n: nat, out: seq<byte>)
    requires n < |s| && s[n] == SLASH
    ensures var input := [SLASH] + s;
            && input[0] == SLASH && input[1..] == s && input[n + 1..] == [SLASH] + s[n + 1..]
            && out + input[..n + 1] == out + [SLASH] + s[..n]
  {
    assert s[n..] == [SLASH] + s[n + 1..];
  }

  /** The same for the last component. */
  lemma LastStepFollows(s: seq<byte>, out: seq<byte>)
    requires s != [] && ToSlash(s) == |s|
    ensures RemoveDotSegments([SLASH] + s, out)
            == if s == [DOT] || s == [DOT, DOT] then NextOut(s, out) + [SLASH] else NextOut(s, out)
  {
    var input, n := [SLASH] + s, ToSlash(s);
    assert input[0] == SLASH && input[1..] == s && s[..n] == s;
    TakesSlashStep(input, out);
    FirstSegment(s);
    OnlySlash(out);
    OnlySlash(DropSegment(out));
    assert input[n + 1..] == [] && out + input[..n + 1] == out + [SLASH] + s[..n];
    Finished(out + [SLASH] + s);
    hide RemoveDotSegments, DropSegment;
  }

  lemma Finished(out: seq<byte>)
    ensures RemoveDotSegments([], out) == out
  {
  }

  lemma PieceOf(s: seq<byte>)
    ensures ToSlash(s) < |s| ==> s[..Next(s)] == s[..ToSlash(s)] + [SLASH] && s != s[..ToSlash(s)]
    ensures ToSlash(s) == |s| ==> s[..Next(s)] == s && s[..ToSlash(s)] == s
  {
    PieceUpTo(s, ToSlash(s));
    hide ToSlash, Min;
  }

  lemma PieceUpTo(s: seq<byte>, n: nat)
    requires n <= |s| && (n < |s| ==> s[n] == SLASH)
    ensures n < |s| ==> s[..Min(n + 1, |s|)] == s[..n] + [SLASH] && |s[..n]| < |s|
    ensures n == |s| ==> s[..Min(n + 1, |s|)] == s && s[..n] == s
  {
  }

  lemma RoundFollows(s: seq<byte>, out: seq<byte>)
    requires s != [] && (out == [] || out[0] == SLASH)
    ensures NextOut(s, out) == [] || NextOut(s, out)[0] == SLASH
    ensures Round(s, out + [SLASH])
            == if ToSlash(s) == |s| && s != [DOT] && s != [DOT, DOT] then NextOut(s, out) else NextOut(s, out) + [SLASH]
  {
    BackDrops(out);
    PieceOf(s);
    var component, piece := s[..ToSlash(s)], s[..Next(s)];
    hide Back, DropSegment, ToSlash, Next;
    if component != [DOT] && component != [DOT, DOT] {
      Plain(out, component, piece);
    }
  }

  lemma Plain(out: seq<byte>, component: seq<byte>, piece: seq<byte>)
    ensures (out + [SLASH] + component) == [] || out == [] || (out + [SLASH] + component)[0] == out[0]
    ensures out == [] ==> (out + [SLASH] + component)[0] == SLASH
    ensures piece == component + [SLASH] ==> (out + [SLASH]) + piece == (out + [SLASH] + component) + [SLASH]
  {
  }

  lemma {:induction false} RoundsFollow(s: seq<byte>, out: seq<byte>)
    requires out == [] || out[0] == SLASH
    ensures Rounds(s, out + [SLASH]) == RemoveDotSegments([SLASH] + s, out)
    decreases |s|
  {
    hide RemoveDotSegments, Round, NextOut, ToSlash;
    if s == [] {
      assert [SLASH] + s == [SLASH];
      OnlySlash(out);
    } else {
      RoundFollows(s, out);
      if ToSlash(s) < |s| {
        StepFollows(s, out);
        RoundsFollow(s[Next(s)..], NextOut(s, out));
      } else {
        LastStepFollows(s, out);
      }
    }
  }

  lemma FirstRound(path: seq<byte>)
    requires path != [] && path[0] == SLASH
    ensures Rounds(path, []) == Rounds(path[1..], [SLASH])
  {
    assert path[..1] == [SLASH] && path[..0] == [] && [] + [SLASH] == [SLASH];
    hide Back;
  }

  /** On every path that starts with a slash the result is the one of the standard. */
  lemma NormalizesAsStandard(path: seq<byte>)
    requires path != [] && path[0] == SLASH
    ensures Normalized(path) == Some(RemoveDotSegments(path, []))
  {
    hide RemoveDotSegments, Rounds;
    FirstRound(path);
    assert path == [SLASH] + path[1..] && [] + [SLASH] == [SLASH];
    RoundsFollow(path[1..], []);
    RoundsNonEmpty(path[1..], [SLASH]);
  }

  /** The slash in front is never taken away. */
  lemma {:induction false} RoundsNonEmpty(s: seq<byte>, out: seq<byte>)
    requires out != [] && out[0] == SLASH
    ensures Rounds(s, out) != [] && Rounds(s, out)[0] == SLASH
    decreases |s|
  {
    if s != [] {
      BackNonEmpty(out);
      RoundsNonEmpty(s[Next(s)..], Round(s, out));
    }
  }

  lemma BackNonEmpty(out: seq<byte>)
    requires out != [] && out[0] == SLASH
    ensures Back(out) != [] && Back(out)[0] == SLASH
  {
    StripNonEmpty(out);
    if |out| > 1 { StripNonEmpty(out[..|out| - 1]); }
  }

  lemma {:induction false} StripNonEmpty(out: seq<byte>)
    requires out != [] && out[0] == SLASH
    ensures Strip(out) != [] && Strip(out)[0] == SLASH
  {
    if out[|out| - 1] != SLASH {
      StripNonEmpty(out[..|out| - 1]);
    }
  }

  // ---------------------------------------------------------------- no dot segments, and twice is once

  /** At i a segment "." or ".." starts. */
  predicate DotsAt(s: seq<byte>, i: nat)
    requires i < |s|
  {
    && (i == 0 || s[i - 1] == SLASH) && s[i] == DOT
    && (|| i + 1 == |s| || s[i + 1] == SLASH
        || (s[i + 1] == DOT && (i + 2 == |s| || s[i + 2] == SLASH)))
  }

  predicate NoDots(s: seq<byte>) {
    forall i :: 0 <= i < |s| ==> !DotsAt(s, i)
  }

  /** Whole segments put after each other have the dot segments of the parts. */
  lemma DotsConcat(a: seq<byte>, b: seq<byte>)
    requires a == [] || a[|a| - 1] == SLASH
    ensures NoDots(a + b) <==> NoDots(a) && NoDots(b)
  {
    assert forall i :: 0 <= i < |a| ==> (DotsAt(a + b, i) <==> DotsAt(a, i));
    assert forall i :: 0 <= i < |b| ==> (DotsAt(a + b, |a| + i) <==> DotsAt(b, i));
    if NoDots(a) && NoDots(b) {
      forall i | 0 <= i < |a + b| ensures !DotsAt(a + b, i) {
        if i >= |a| { assert !DotsAt(b, i - |a|); }
      }
    }
  }

  lemma OneSegment(component: seq<byte>)
    requires SLASH !in component
    ensures NoDots(component + [SLASH]) <==> component != [DOT] && component != [DOT, DOT]
    ensures NoDots(component) <==> component != [DOT] && component != [DOT, DOT]
  {
    var s := component + [SLASH];
    assert forall i :: 0 <= i < |component| ==> component[i] in component;
    assert forall i :: 0 <= i < |component| ==> s[i] == component[i] && component[i] in component;
    if component == [DOT] || component == [DOT, DOT] {
      assert DotsAt(component, 0) && DotsAt(s, 0);
    } else {
      forall i | 0 <= i < |component| ensures !DotsAt(component, i) && !DotsAt(s, i) {
      }
      assert !DotsAt(s, |component|);
    }
  }

  /** The first piece of s counts for itself. */
  lemma FirstPiece(s: seq<byte>)
    requires s != []
    ensures var component := s[..ToSlash(s)];
            NoDots(s[..Next(s)]) <==> component != [DOT] && component != [DOT, DOT]
    ensures NoDots(s) <==> NoDots(s[..Next(s)]) && NoDots(s[Next(s)..])
  {
    PieceOf(s);
    OneSegment(s[..ToSlash(s)]);
    assert s == s[..Next(s)] + s[Next(s)..];
    hide NoDots;
    if ToSlash(s) < |s| {
      DotsConcat(s[..Next(s)], s[Next(s)..]);
    } else {
      NoneNoDots();
    }
  }

  lemma NoneNoDots()
    ensures NoDots([])
  {
  }

  lemma {:induction false} StripEnds(out: seq<byte>)
    ensures Strip(out) == [] || Strip(out)[|Strip(out)| - 1] == SLASH
    ensures |out| > 0 && out[|out| - 1] == SLASH ==> Strip(out) == out
  {
    if out != [] && out[|out| - 1] != SLASH {
      StripEnds(out[..|out| - 1]);
    }
  }

  lemma BackKeepsNoDots(out: seq<byte>)
    requires NoDots(out) && (out == [] || out[|out| - 1] == SLASH)
    ensures NoDots(Back(out)) && (Back(out) == [] || Back(out)[|Back(out)| - 1] == SLASH)
  {
    var r := Back(out);
    StripEnds(if |out| > 1 && out[|out| - 1] == SLASH then out[..|out| - 1] else out);
    assert out == r + out[|r|..];
    DotsConcat(r, out[|r|..]);
  }

  lemma {:induction false} RoundsNoDots(s: seq<byte>, out: seq<byte>)
    requires NoDots(out) && (out == [] || out[|out| - 1] == SLASH)
    ensures NoDots(Rounds(s, out))
    decreases |s|
  {
    if s != [] {
      RoundKeepsNoDots(s, out);
      hide Round, NoDots;
      if ToSlash(s) < |s| {
        RoundsNoDots(s[Next(s)..], Round(s, out));
      }
    }
  }

  lemma RoundKeepsNoDots(s: seq<byte>, out: seq<byte>)
    requires s != [] && NoDots(out) && (out == [] || out[|out| - 1] == SLASH)
    ensures NoDots(Round(s, out))
    ensures ToSlash(s) < |s| ==> Round(s, out) == [] || Round(s, out)[|Round(s, out)| - 1] == SLASH
    ensures ToSlash(s) == |s| ==> s[Next(s)..] == []
  {
    FirstPiece(s);
    PieceOf(s);
    BackKeepsNoDots(out);
    DotsConcat(out, s[..Next(s)]);
    hide NoDots, Back, ToSlash;
  }

  /** A path without dot segments is copied. */
  lemma {:induction false} RoundsCopy(s: seq<byte>, out: seq<byte>)
    requires NoDots(s)
    ensures Rounds(s, out) == out + s
    decreases |s|
  {
    if s == [] {
      assert out + s == out;
    } else {
      hide NoDots, Round, Next, Rounds;
      RoundCopies(s, out);
      RoundsOnce(s, out);
      RoundsCopy(s[Next(s)..], out + s[..Next(s)]);
      RegroupAt(out, s, Next(s));
    }
  }

  lemma RoundsOnce(s: seq<byte>, out: seq<byte>)
    requires s != []
    ensures Next(s) <= |s| && Rounds(s, out) == Rounds(s[Next(s)..], Round(s, out))
  {
    hide Round, Next;
  }

  lemma RegroupAt(out: seq<byte>, s: seq<byte>, n: nat)
    requires n <= |s|
    ensures out + s[..n] + s[n..] == out + s
  {
  }

  lemma RoundCopies(s: seq<byte>, out: seq<byte>)
    requires s != [] && NoDots(s)
    ensures Round(s, out) == out + s[..Next(s)] && NoDots(s[Next(s)..])
  {
    FirstPiece(s);
    hide NoDots, ToSlash, Next, Back;
  }

  /** The result starts with a slash, has no dot segment, and normalising it again changes nothing. */
  lemma NormalizedIsNormal(path: seq<byte>)
    requires path != [] && path[0] == SLASH
    ensures var r := Normalized(path).value;
            r != [] && r[0] == SLASH && NoDots(r) && Normalized(r) == Some(r)
  {
    hide NoDots;
    var r := Normalized(path).value;
    NoneNoDots();
    RoundsNoDots(path, []);
    FirstRound(path);
    RoundsNonEmpty(path[1..], [SLASH]);
    RoundsCopy(r, []);
    assert [] + r == r;
  }

  /** Exactly the paths without dot segments stay as they are. */
  lemma UnchangedExactly(path: seq<byte>)
    requires path != [] && path[0] == SLASH
    ensures Normalized(path) == Some(path) <==> NoDots(path)
  {
    if NoDots(path) {
      RoundsCopy(path, []);
      assert [] + path == path;
    } else {
      NormalizedIsNormal(path);
    }
  }

  // ---------------------------------------------------------------- the function itself

  /** parse_uri_component with "/" as the separator: the component is src[s..s + n]. */
  method ParseComponent(src: array<byte>, s: nat, se: nat) returns (n: nat, next: nat)
    requires s < se <= src.Length
    ensures n == ToSlash(src[s..se]) && next == s + Next(src[s..se])
  {
    n := 0;
    while s + n < se && src[s + n] != SLASH
      invariant s + n <= se && ToSlash(src[s..se]) == n + ToSlash(src[s + n..se])
    {
      assert src[s + n..se][1..] == src[s + n + 1..se];
      n := n + 1;
    }
    next := if s + n < se then s + n + 1 else s + n;
  }

  method BackTrack(dst: array<byte>, end: nat) returns (d: nat)
    requires end <= dst.Length
    ensures d <= end && dst[..d] == Back(dst[..end])
  {
    d := end;
    if d > 1 && dst[d - 1] == SLASH {
      d := d - 1;
      assert dst[..d] == dst[..end][..end - 1];
    }
    while d > 0 && dst[d - 1] != SLASH
      invariant d <= end && Back(dst[..end]) == Strip(dst[..d])
    {
      assert dst[..d][..d - 1] == dst[..d - 1];
      d := d - 1;
    }
  }

  /** One round of the loop. */
  method Advance(src: array<byte>, s: nat, se: nat, dst: array<byte>, d: nat) returns (next: nat, end: nat)
    requires d <= s < se <= src.Length && se <= dst.Length
    modifies dst
    ensures end <= next <= se && next == s + Next(old(src[s..se]))
    ensures dst[..end] == Round(old(src[s..se]), old(dst[..d]))
    ensures forall k :: next <= k < dst.Length ==> dst[k] == old(dst[k])
  {
    ghost var rest := src[s..se];
    var n;
    n, next := ParseComponent(src, s, se);
    assert src[s..s + n] == rest[..n] && src[s..next] == rest[..next - s];
    CutIs(rest, n);
    RoundCases(rest, dst[..d]);
    hide ToSlash, Next, Back, Round;
    if n == 1 && src[s] == DOT {
      end := d;
    } else if n == 2 && src[s] == DOT && src[s + 1] == DOT {
      end := BackTrack(dst, d);
    } else {
      Move(dst, d, src, s, next - s);
      end := d + (next - s);
    }
  }

  lemma RoundCases(s: seq<byte>, out: seq<byte>)
    ensures var component := s[..ToSlash(s)];
            Round(s, out) == if component == [DOT] then out
                             else if component == [DOT, DOT] then Back(out)
                             else out + s[..Next(s)]
  {
    hide ToSlash, Next, Back;
  }

  lemma RoundsStep(path: seq<byte>, s: nat, out: seq<byte>)
    requires s < |path|
    ensures var next := s + Next(path[s..]);
            s < next <= |path| && Rounds(path[s..], out) == Rounds(path[next..], Round(path[s..], out))
  {
    var n := Next(path[s..]);
    assert path[s..][n..] == path[s + n..];
    hide Round, Next;
  }

  /** The loop: what is written is always behind what is read. */
  method Loop(src: array<byte>, len: nat, dst: array<byte>) returns (d: nat)
    requires len <= src.Length && len <= dst.Length
    modifies dst
    ensures d <= len && dst[..d] == Rounds(old(src[..len]), [])
    ensures dst[len..] == old(dst[len..])
  {
    hide Round, Next, Rounds;
    var s: nat := 0;
    d := 0;
    ghost var path := src[..len];
    assert path[0..] == path && dst[..0] == [];
    while s < len
      invariant d <= s <= len && src[s..len] == path[s..]
      invariant Rounds(path[s..], dst[..d]) == Rounds(path, [])
      invariant dst[len..] == old(dst[len..])
      decreases len - s
    {
      ghost var was := s;
      RoundsStep(path, s, dst[..d]);
      s, d := Advance(src, s, len, dst, d);
      assert path[was..][s - was..] == path[s..];
    }
    RoundsEnd(path, dst[..d]);
  }

  lemma RoundsEnd(path: seq<byte>, out: seq<byte>)
    ensures Rounds(path[|path|..], out) == out
  {
  }

  /**
   * mg_normalize_uri_path from the first len octets of src into dst, which may be the same buffer.
   */
  method Normalize(src: array<byte>, len: nat, dst: array<byte>) returns (ok: bool, outLen: nat)
    requires len <= src.Length && len <= dst.Length
    modifies dst
    ensures outLen <= len && ok == old(Normalized(src[..len])).Some?
    ensures ok ==> Some(dst[..outLen]) == old(Normalized(src[..len]))
    ensures !ok ==> outLen == 0 && dst[..] == old(dst[..])
    ensures dst[len..] == old(dst[len..])
  {
    if len == 0 || src[0] != SLASH {
      return false, 0;
    }
    hide Rounds;
    var d := Loop(src, len, dst);
    if d == 0 {
      dst[d] := SLASH;
      d := d + 1;
      assert dst[..d] == [SLASH];
    }
    return true, d;
  }

  // ---------------------------------------------------------------- as it is written

  /** The answer is 0 exactly for a path that does not begin with a slash. */
  lemma SlashInFront(path: seq<byte>)
    ensures Normalized(path).Some? <==> path != [] && path[0] == 47
  {
    hide Rounds;
  }

  lemma OneRound(component: seq<byte>, rest: seq<byte>, out: seq<byte>)
    requires 47 !in component
    ensures Rounds(component + [47] + rest, out)
            == Rounds(rest, if component == [46] then out else if component == [46, 46] then Back(out)
                            else out + component + [47])
  {
    var s := component + [47] + rest;
    ToSlashOf(component, rest);
    assert s[..|component|] == component && s[..|component| + 1] == component + [47];
    assert s[|component| + 1..] == rest;
    Assoc(out, component, [47]);
    hide ToSlash, Back;
  }

  lemma LastRound(component: seq<byte>, out: seq<byte>)
    requires 47 !in component && component != [] && component != [46] && component != [46, 46]
    ensures Rounds(component, out) == out + component
  {
    var n := Next(component);
    assert n == |component|;
    assert component[..n] == component && component[n..] == [];
    assert Round(component, out) == out + component;
    assert Rounds([], out + component) == out + component;
    hide ToSlash, Back;
  }

  lemma {:induction false} ToSlashOf(component: seq<byte>, rest: seq<byte>)
    requires 47 !in component
    ensures ToSlash(component + [47] + rest) == |component|
    decreases |component|
  {
    if component != [] {
      assert (component + [47] + rest)[1..] == component[1..] + [47] + rest;
      ToSlashOf(component[1..], rest);
    }
  }

  lemma ShortRounds(c: byte, rest: seq<byte>, out: seq<byte>)
    requires c != 46 && c != 47
    ensures Rounds([47] + rest, out) == Rounds(rest, out + [47])
    ensures Rounds([c, 47] + rest, out) == Rounds(rest, out + [c, 47])
    ensures Rounds([46, 47] + rest, out) == Rounds(rest, out)
    ensures Rounds([46, 46, 47] + rest, out) == Rounds(rest, Back(out))
  {
    hide Rounds, Back;
    OneRound([], rest, out);
    OneRound([c], rest, out);
    OneRound([46], rest, out);
    OneRound([46, 46], rest, out);
    assert [] + [47] == [47] && [c] + [47] == [c, 47] && [46] + [47] == [46, 47] && [46, 46] + [47] == [46, 46, 47];
    assert out + [] == out && out + [c] + [47] == out + [c, 47];
  }

  /** The example of section 5.2.4: /a/b/c/./../../g is /a/g. */
  lemma Example()
    ensures var up := [46, 46, 47] + ([46, 46, 47] + [103]);
            Normalized([47] + ([97, 47] + ([98, 47] + ([99, 47] + ([46, 47] + up))))) == Some([47] + [97, 47] + [103])
  {
    var up := [46, 46, 47] + ([46, 46, 47] + [103]);
    var a := [47] + [97, 47];
    var b := a + [98, 47];
    ShortRounds(97, [97, 47] + ([98, 47] + ([99, 47] + ([46, 47] + up))), []);
    ShortRounds(97, [98, 47] + ([99, 47] + ([46, 47] + up)), [47]);
    ShortRounds(98, [99, 47] + ([46, 47] + up), a);
    ShortRounds(99, [46, 47] + up, b);
    ShortRounds(97, up, b + [99, 47]);
    ShortRounds(97, [46, 46, 47] + [103], b + [99, 47]);
    BackOver(b, 99);
    ShortRounds(97, [103], b);
    BackOver(a, 98);
    LastRound([103], a);
    assert [] + [47] == [47];
    hide Rounds, Back;
  }

  lemma BackOver(out: seq<byte>, c: byte)
    requires out != [] && out[|out| - 1] == 47 && c != 47
    ensures Back(out + [c, 47]) == out
  {
    assert (out + [c, 47])[..|out| + 1] == out + [c] && (out + [c])[..|out|] == out;
    assert Strip(out) == out;
    assert Strip(out + [c]) == out;
  }
}
