/** Number lexemes of JSON (section 6 of RFC 8259). */
module JsonNumbers {
  import opened Bytes

  predicate IsDigit(c: byte) { 48 <= c <= 57 }

  predicate AllDigits(s: seq<byte>) {
    forall i :: 0 <= i < |s| ==> IsDigit(s[i])
  }

  // The grammar: [ minus ] int [ frac ] [ exp ].

  predicate IsMinus(s: seq<byte>) { s == [] || s == [45] }

  predicate IsInt(s: seq<byte>) { s != [] && AllDigits(s) && (s[0] == 48 ==> |s| == 1) }

  predicate IsFrac(s: seq<byte>) { s == [] || (|s| >= 2 && s[0] == 46 && AllDigits(s[1..])) }

  predicate IsExp(s: seq<byte>) {
    s == [] ||
    (|s| >= 2 && (s[0] == 69 || s[0] == 101)
     && (AllDigits(s[1..]) || (|s| >= 3 && (s[1] == 43 || s[1] == 45) && AllDigits(s[2..]))))
  }

  predicate Splits(s: seq<byte>, a: nat, b: nat, c: nat) {
    a <= b <= c <= |s| && IsMinus(s[..a]) && IsInt(s[a..b]) && IsFrac(s[b..c]) && IsExp(s[c..])
  }

  ghost predicate IsNumber(s: seq<byte>) {
    exists a, b, c :: Splits(s, a, b, c)
  }

  // What parse_number does, as the lengths of the parts it takes.

  function DigitCount(s: seq<byte>): (n: nat)
    ensures n <= |s| && AllDigits(s[..(n)]) && (n < |s| ==> !IsDigit(s[n]))
  {
    if s == [] || !IsDigit(s[0]) then 0 else 1 + DigitCount(s[1..])
  }

  function MinusLen(s: seq<byte>): nat { if s != [] && s[0] == 45 then 1 else 0 }

  function IntLen(s: seq<byte>): (n: Option<nat>)
    ensures n.Some? ==> 0 < n.value <= |s| && IsInt(s[..(n.value)])
  {
    if s != [] && s[0] == 48 then Some(1)
    else if DigitCount(s) == 0 then None
    else Some(DigitCount(s))
  }

  function FracLen(s: seq<byte>): (n: Option<nat>)
    ensures n.Some? ==> n.value <= |s| && IsFrac(s[..(n.value)])
  {
    if s == [] || s[0] != 46 then Some(0)
    else
      var d := DigitCount(s[1..]);
      assert s[..1 + d][1..] == s[1..][..d];
      if d == 0 then None else Some(1 + d)
  }

  function SignLen(s: seq<byte>): nat { if s != [] && (s[0] == 43 || s[0] == 45) then 1 else 0 }

  function ExpLen(s: seq<byte>): (n: Option<nat>)
    ensures n.Some? ==> n.value <= |s| && IsExp(s[..(n.value)])
  {
    if s == [] || (s[0] != 69 && s[0] != 101) then Some(0)
    else
      var k := 1 + SignLen(s[1..]);
      var d := DigitCount(s[k..]);
      assert s[..k + d][k..] == s[k..][..d];
      if d == 0 then None else Some(k + d)
  }

  /** The length of the number s starts with. */
  function NumberLen(s: seq<byte>): (n: Option<nat>)
    ensures n.Some? ==> 0 < n.value <= |s|
  {
    var a := MinusLen(s);
    var i := IntLen(s[a..]);
    if i.None? then None
    else
      var b := a + i.value;
      var f := FracLen(s[b..]);
      if f.None? then None
      else
        var c := b + f.value;
        var e := ExpLen(s[c..]);
        if e.None? then None else Some(c + e.value)
  }

  /** number_is_valid. */
  predicate Valid(s: seq<byte>) { NumberLen(s) == Some(|s|) }

  /** What may follow a number: nothing that would prolong it. */
  predicate Ends(rest: seq<byte>) {
    rest == [] || !(IsDigit(rest[0]) || rest[0] == 46 || rest[0] == 69 || rest[0] == 101)
  }

  lemma {:induction false} DigitCountIs(s: seq<byte>, n: nat)
    requires n <= |s| && AllDigits(s[..n]) && (n < |s| ==> !IsDigit(s[n]))
    ensures DigitCount(s) == n
  {
    if n > 0 {
      assert s[0] == s[..n][0];
      assert s[1..][..n - 1] == s[..n][1..];
      DigitCountIs(s[1..], n - 1);
    }
  }

  /** Each part of the grammar, in front of what may follow it, is what the scanner takes. */
  lemma IntLenIs(s: seq<byte>, n: nat)
    requires n <= |s| && IsInt(s[..n]) && (n < |s| ==> !IsDigit(s[n]))
    ensures IntLen(s) == Some(n)
  {
    assert s[0] == s[..n][0];
    DigitCountIs(s, n);
  }

  lemma FracLenIs(s: seq<byte>, n: nat)
    requires n <= |s| && IsFrac(s[..n])
    requires n < |s| ==> !IsDigit(s[n]) && s[n] != 46
    ensures FracLen(s) == Some(n)
  {
    if n > 0 {
      assert s[0] == s[..n][0];
      assert s[1..][..n - 1] == s[..n][1..];
      DigitCountIs(s[1..], n - 1);
    }
  }

  lemma ExpLenIs(s: seq<byte>, n: nat)
    requires n <= |s| && IsExp(s[..n]) && (n < |s| ==> Ends(s[n..]))
    ensures ExpLen(s) == Some(n)
  {
    if n > 0 {
      assert s[0] == s[..n][0] && s[1] == s[..n][1];
      var k := if IsDigit(s[1]) then 1 else 2;
      assert s[..n][1..][0] == s[1];
      assert s[1..][0] == s[1];
      assert s[k..][..n - k] == s[..n][k..];
      if n < |s| { assert s[n..][0] == s[n]; }
      DigitCountIs(s[k..], n - k);
    } else if |s| > 0 {
      assert s[n..] == s;
    }
  }

  /** What the octets of t at i, j and k are when its parts fit the grammar. */
  lemma PartsFollow(s: seq<byte>, rest: seq<byte>, a: nat, b: nat, c: nat)
    requires Splits(s, a, b, c) && Ends(rest)
    ensures var t := s + rest;
            && t[a..][..b - a] == s[a..b] && t[b..][..c - b] == s[b..c] && t[c..][..|s| - c] == s[c..]
            && t[c..][|s| - c..] == rest
            && MinusLen(t) == a
            && (b < |t| ==> !IsDigit(t[b]))
            && (c < |t| ==> !IsDigit(t[c]) && t[c] != 46)
  {
    var t := s + rest;
    assert s[a..b][0] == t[a];
    assert a == 1 ==> s[..a][0] == t[0];
    assert b < c ==> s[b..c][0] == t[b];
    assert c < |s| ==> s[c..][0] == t[c];
  }

  lemma IntFollows(s: seq<byte>, rest: seq<byte>, a: nat, b: nat, c: nat)
    requires Splits(s, a, b, c) && Ends(rest)
    ensures IntLen((s + rest)[a..]) == Some(b - a)
  {
    PartsFollow(s, rest, a, b, c);
    IntLenIs((s + rest)[a..], b - a);
  }

  lemma FracFollows(s: seq<byte>, rest: seq<byte>, a: nat, b: nat, c: nat)
    requires Splits(s, a, b, c) && Ends(rest)
    ensures FracLen((s + rest)[b..]) == Some(c - b)
  {
    PartsFollow(s, rest, a, b, c);
    FracLenIs((s + rest)[b..], c - b);
  }

  lemma ExpFollows(s: seq<byte>, rest: seq<byte>, a: nat, b: nat, c: nat)
    requires Splits(s, a, b, c) && Ends(rest)
    ensures ExpLen((s + rest)[c..]) == Some(|s| - c)
  {
    PartsFollow(s, rest, a, b, c);
    ExpLenIs((s + rest)[c..], |s| - c);
  }

  lemma NumberLenIs(t: seq<byte>, i: nat, f: nat, e: nat)
    requires MinusLen(t) <= |t| && IntLen(t[MinusLen(t)..]) == Some(i)
    requires MinusLen(t) + i <= |t| && FracLen(t[MinusLen(t) + i..]) == Some(f)
    requires MinusLen(t) + i + f <= |t| && ExpLen(t[MinusLen(t) + i + f..]) == Some(e)
    ensures NumberLen(t) == Some(MinusLen(t) + i + f + e)
  {
    hide IntLen, FracLen, ExpLen, IsInt, IsFrac, IsExp;
  }

  /** A number of the grammar, in front of anything that does not prolong it, is taken whole. */
  lemma NumberLenOfSplit(s: seq<byte>, rest: seq<byte>, a: nat, b: nat, c: nat)
    requires Splits(s, a, b, c) && Ends(rest)
    ensures NumberLen(s + rest) == Some(|s|)
  {
    hide *;
    SplitsBounds(s, a, b, c);
    PartsFollow(s, rest, a, b, c);
    IntFollows(s, rest, a, b, c);
    FracFollows(s, rest, a, b, c);
    ExpFollows(s, rest, a, b, c);
    NumberLenIs(s + rest, b - a, c - b, |s| - c);
  }

  lemma SplitsBounds(s: seq<byte>, a: nat, b: nat, c: nat)
    requires Splits(s, a, b, c)
    ensures a <= b <= c <= |s|
  {
  }

  /** What is taken is a number by itself, and splits where the scanner's parts end. */
  lemma NumberTakenSplits(s: seq<byte>) returns (a: nat, b: nat, c: nat)
    requires NumberLen(s).Some?
    ensures Splits(s[..NumberLen(s).value], a, b, c)
  {
    hide IntLen, FracLen, ExpLen, IsInt, IsFrac, IsExp;
    a := MinusLen(s);
    b := a + IntLen(s[a..]).value;
    c := b + FracLen(s[b..]).value;
    SplitsPrefix(s, a, b, c, NumberLen(s).value);
  }

  lemma SplitsPrefix(s: seq<byte>, a: nat, b: nat, c: nat, n: nat)
    requires a <= b <= c <= n <= |s|
    requires IsMinus(s[..a]) && IsInt(s[a..][..b - a]) && IsFrac(s[b..][..c - b]) && IsExp(s[c..][..n - c])
    ensures Splits(s[..n], a, b, c)
  {
    hide IsMinus, IsInt, IsFrac, IsExp;
    var l := s[..n];
    assert l[..a] == s[..a] && l[a..b] == s[a..][..b - a];
    assert l[b..c] == s[b..][..c - b] && l[c..] == s[c..][..n - c];
  }

  /** number_is_valid accepts exactly the grammar. */
  lemma ValidIsGrammar(s: seq<byte>)
    ensures Valid(s) <==> IsNumber(s)
  {
    hide NumberLen, Splits;
    if Valid(s) {
      assert s[..|s|] == s;
      var a, b, c := NumberTakenSplits(s);
    }
    if IsNumber(s) {
      var a, b, c :| Splits(s, a, b, c);
      NumberLenOfSplit(s, [], a, b, c);
      assert s + [] == s;
    }
  }

  lemma NumberReadsBack(s: seq<byte>, rest: seq<byte>)
    requires Valid(s) && Ends(rest)
    ensures NumberLen(s + rest) == Some(|s|)
  {
    hide NumberLen, Splits;
    ValidIsGrammar(s);
    var a, b, c :| Splits(s, a, b, c);
    NumberLenOfSplit(s, rest, a, b, c);
  }

  /** What is taken is a number by itself. */
  lemma NumberTaken(s: seq<byte>)
    requires NumberLen(s).Some?
    ensures Valid(s[..NumberLen(s).value])
  {
    hide NumberLen, Splits;
    var a, b, c := NumberTakenSplits(s);
    ValidIsGrammar(s[..NumberLen(s).value]);
  }

  // ---------------------------------------------------------------- as it is written

  predicate Decimal(s: seq<byte>) { forall i :: 0 <= i < |s| ==> DecimalDigit(s[i]) }

  predicate DecimalDigit(c: byte) { c as char in "0123456789" }

  /** A number part by part; an empty fraction or exponent is not there, and e is the letter with its sign. */
  function Written(minus: bool, digits: seq<byte>, fraction: seq<byte>, e: string, exponent: seq<byte>): seq<byte>
    requires e in {"e", "E", "e+", "E+", "e-", "E-"}
  {
    (if minus then [45] else []) + digits + (if fraction == [] then [] else [46] + fraction)
      + (if exponent == [] then [] else Letters(e) + exponent)
  }

  function Letters(e: string): seq<byte>
    requires e in {"e", "E", "e+", "E+", "e-", "E-"}
  {
    if |e| == 1 then [e[0] as int] else [e[0] as int, e[1] as int]
  }

  lemma DigitsAreDecimal(c: byte, s: seq<byte>)
    ensures IsDigit(c) <==> DecimalDigit(c)
    ensures AllDigits(s) <==> Decimal(s)
  {
    forall c: byte ensures IsDigit(c) <==> DecimalDigit(c) {
    }
  }

  /** No digit is put in front of another one if it is zero. */
  predicate Parts(digits: seq<byte>, fraction: seq<byte>, exponent: seq<byte>) {
    && digits != [] && Decimal(digits) && (digits[0] == 48 ==> |digits| == 1)
    && Decimal(fraction) && Decimal(exponent)
  }

  /** Such texts are valid. */
  lemma WrittenIsValid(minus: bool, digits: seq<byte>, fraction: seq<byte>, e: string, exponent: seq<byte>)
    requires e in {"e", "E", "e+", "E+", "e-", "E-"} && Parts(digits, fraction, exponent)
    ensures Valid(Written(minus, digits, fraction, e, exponent))
  {
    var m: seq<byte> := if minus then [45] else [];
    var f := if fraction == [] then [] else [46] + fraction;
    var x := if exponent == [] then [] else Letters(e) + exponent;
    var s := Written(minus, digits, fraction, e, exponent);
    DigitsAreDecimal(0, digits);
    DigitsAreDecimal(0, fraction);
    DigitsAreDecimal(0, exponent);
    FractionIs(fraction);
    ExponentIs(e, exponent);
    hide Decimal, AllDigits, Letters, Valid, NumberLen;
    FourParts(m, digits, f, x);
    assert Splits(s, |m|, |m + digits|, |m + digits + f|);
    ValidIsGrammar(s);
  }

  lemma FourParts(a: seq<byte>, b: seq<byte>, c: seq<byte>, d: seq<byte>)
    ensures var s := a + b + c + d;
            && s[..|a|] == a && s[|a|..|a + b|] == b && s[|a + b|..|a + b + c|] == c && s[|a + b + c|..] == d
  {
    var s := a + b + c + d;
    assert s == a + b + (c + d) == a + (b + c + d);
  }

  lemma FractionIs(fraction: seq<byte>)
    requires AllDigits(fraction)
    ensures IsFrac(if fraction == [] then [] else [46] + fraction)
  {
    assert ([46] + fraction)[1..] == fraction;
  }

  lemma ExponentIs(e: string, exponent: seq<byte>)
    requires e in {"e", "E", "e+", "E+", "e-", "E-"} && AllDigits(exponent)
    ensures IsExp(if exponent == [] then [] else Letters(e) + exponent)
  {
    var s, l := Letters(e) + exponent, Letters(e);
    assert s[|l|..] == exponent && s[0] == l[0] && (|l| == 2 ==> s[1] == l[1]);
    hide AllDigits;
    if exponent != [] {
      assert l[0] == 69 || l[0] == 101;
      assert |l| == 2 ==> l[1] == 43 || l[1] == 45;
      assert |l| == |e| && 1 <= |l| <= 2;
    }
  }

  /** And there are no other valid ones. */
  lemma ValidIsWritten(s: seq<byte>)
    returns (minus: bool, digits: seq<byte>, fraction: seq<byte>, e: string, exponent: seq<byte>)
    requires Valid(s)
    ensures e in {"e", "E", "e+", "E+", "e-", "E-"} && Parts(digits, fraction, exponent)
    ensures s == Written(minus, digits, fraction, e, exponent)
  {
    ValidIsGrammar(s);
    hide Valid, NumberLen, IsFrac, IsExp, Letters;
    var a: nat, b: nat, c: nat :| Splits(s, a, b, c);
    minus, digits := a > 0, s[a..b];
    fraction := FractionOf(s[b..c]);
    e, exponent := ExponentOf(s[c..]);
    DigitsAreDecimal(0, digits);
    hide Decimal, AllDigits;
    FourSlices(s, a, b, c);
  }

  lemma FourSlices(s: seq<byte>, a: nat, b: nat, c: nat)
    requires a <= b <= c <= |s|
    ensures s == s[..a] + s[a..b] + s[b..c] + s[c..]
  {
  }

  lemma FractionOf(s: seq<byte>) returns (fraction: seq<byte>)
    requires IsFrac(s)
    ensures Decimal(fraction) && s == if fraction == [] then [] else [46] + fraction
  {
    if s == [] {
      fraction := [];
    } else {
      fraction := s[1..];
      DigitsAreDecimal(0, fraction);
      assert s == [46] + s[1..];
      hide AllDigits, Decimal;
    }
  }

  lemma LettersAre()
    ensures Decimal([])
    ensures Letters("e") == [101] && Letters("E") == [69]
    ensures Letters("e+") == [101, 43] && Letters("E+") == [69, 43]
    ensures Letters("e-") == [101, 45] && Letters("E-") == [69, 45]
  {
  }

  lemma ExponentOf(s: seq<byte>) returns (e: string, exponent: seq<byte>)
    requires IsExp(s)
    ensures e in {"e", "E", "e+", "E+", "e-", "E-"} && Decimal(exponent)
    ensures s == if exponent == [] then [] else Letters(e) + exponent
  {
    hide AllDigits, Decimal, Letters;
    LettersAre();
    if s == [] {
      e, exponent := "e", [];
    } else if AllDigits(s[1..]) {
      e, exponent := if s[0] == 69 then "E" else "e", s[1..];
      DigitsAreDecimal(0, exponent);
      assert Letters(e) == [s[0]] && s == [s[0]] + s[1..];
    } else {
      e := if s[0] == 69 then (if s[1] == 43 then "E+" else "E-") else (if s[1] == 43 then "e+" else "e-");
      exponent := s[2..];
      DigitsAreDecimal(0, exponent);
      assert Letters(e) == [s[0], s[1]] && s == [s[0], s[1]] + s[2..];
    }
  }
}
