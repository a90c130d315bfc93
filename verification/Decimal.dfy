/** Decimal text of integers, as printed with %ld and read back with stol and atol. */
module Decimal {
  import opened Bytes
  import opened Scanning

  /** The value of a run of digits. */
  function Number(s: seq<byte>): (n: nat)
    requires forall i :: 0 <= i < |s| ==> IsDigit(s[i])
  {
    if s == [] then 0
    else
      var c := s[|s| - 1];
      assert IsDigit(c);
      10 * Number(s[..|s| - 1]) + (c as int - 48)
  }

  /** The decimal digits of `n`. */
  function Digits(n: nat): (s: seq<byte>)
    ensures |s| > 0
    ensures forall i :: 0 <= i < |s| ==> IsDigit(s[i])
  {
    if n < 10 then [n + ZERO] else Digits(n / 10) + [n % 10 + ZERO]
  }

  function Text(n: int): (s: seq<byte>)
    ensures |s| > 0
  {
    if n < 0 then [MINUS] + Digits(-n) else Digits(n)
  }

  lemma {:induction false} NumberOfDigits(n: nat)
    ensures Number(Digits(n)) == n
  {
    if n < 10 {
      assert Number([n + ZERO]) == 10 * Number([n + ZERO][..0]) + n;
    } else {
      NumberOfDigits(n / 10);
      assert Digits(n)[..|Digits(n)| - 1] == Digits(n / 10);
    }
  }

  /** The leading digits of `s`. */
  function LeadingDigits(s: seq<byte>): (d: seq<byte>)
    ensures forall i :: 0 <= i < |d| ==> IsDigit(d[i])
  {
    s[..Span(s, 0, IsDigit)]
  }

  lemma AllDigits(s: seq<byte>)
    requires forall i :: 0 <= i < |s| ==> IsDigit(s[i])
    ensures LeadingDigits(s) == s
  {
    SpanIs(s, 0, |s|, IsDigit);
  }

  /** atol: spaces, a sign, digits; 0 where there are none. */
  function Atol(s: seq<byte>): int {
    var t := s[SkipSpace(s, 0)..];
    if At(t, 0, MINUS) then 0 - Number(LeadingDigits(t[1..])) as int
    else if At(t, 0, 43) then Number(LeadingDigits(t[1..]))
    else Number(LeadingDigits(t))
  }

  /** The long that atol makes of a text; a number out of range becomes the nearest long. */
  function LongOf(s: seq<byte>): (n: int)
    ensures IsInt64(n)
    ensures IsInt64(Atol(s)) ==> n == Atol(s)
    ensures Atol(s) >= INT64_LIMIT ==> n == INT64_LIMIT - 1
    ensures Atol(s) < -INT64_LIMIT ==> n == -INT64_LIMIT
  {
    var n := Atol(s);
    if n < -INT64_LIMIT then -INT64_LIMIT else if n >= INT64_LIMIT then INT64_LIMIT - 1 else n
  }

  lemma AtolOfText(n: int)
    ensures Atol(Text(n)) == n
  {
    var s := Text(n);
    var d := Digits(if n < 0 then -n else n);
    NumberOfDigits(if n < 0 then -n else n);
    AllDigits(d);
    assert !IsSpace(s[0]);
    assert SkipSpace(s, 0) == 0;
    assert s[0..] == s;
    if n < 0 {
      assert s[1..] == d;
    }
  }

  /** What atol reads: white space, a sign, digits, and nothing of what is behind them. */
  lemma AtolReads(space: seq<byte>, sign: seq<byte>, digits: seq<byte>, behind: seq<byte>)
    requires forall i :: 0 <= i < |space| ==> IsSpace(space[i])
    requires sign == [] || sign == [MINUS] || sign == [43]
    requires forall i :: 0 <= i < |digits| ==> IsDigit(digits[i])
    requires behind != [] ==> !IsDigit(behind[0])
    requires sign == [] && digits == [] && behind != [] ==> !IsSpace(behind[0]) && behind[0] != MINUS && behind[0] != 43
    ensures Atol(space + sign + digits + behind) == if sign == [MINUS] then 0 - Number(digits) as int else Number(digits)
  {
    hide Number, Span, Atol;
    var s, t, rest := space + sign + digits + behind, sign + digits + behind, digits + behind;
    assert s == space + t && t == sign + rest;
    NotSpace(sign, digits, behind);
    SpaceInFront(s, space, t);
    AtolOf(s, t);
    DigitsInFront(digits, behind);
    if sign != [] {
      assert t[0] == sign[0] && t[1..] == rest;
    } else {
      assert t == rest;
    }
  }

  lemma NotSpace(sign: seq<byte>, digits: seq<byte>, behind: seq<byte>)
    requires sign == [] || sign == [MINUS] || sign == [43]
    requires forall i :: 0 <= i < |digits| ==> IsDigit(digits[i])
    requires sign == [] && digits == [] && behind != [] ==> !IsSpace(behind[0])
    ensures var t := sign + digits + behind; t != [] ==> !IsSpace(t[0])
  {
  }

  lemma SpaceInFront(s: seq<byte>, space: seq<byte>, t: seq<byte>)
    requires s == space + t && (forall i :: 0 <= i < |space| ==> IsSpace(space[i])) && (t != [] ==> !IsSpace(t[0]))
    ensures SkipSpace(s, 0) == |space| && s[|space|..] == t
  {
    SpanIs(s, 0, |space|, IsSpace);
  }

  lemma DigitsInFront(digits: seq<byte>, behind: seq<byte>)
    requires forall i :: 0 <= i < |digits| ==> IsDigit(digits[i])
    requires behind != [] ==> !IsDigit(behind[0])
    ensures LeadingDigits(digits + behind) == digits
  {
    SpanIs(digits + behind, 0, |digits|, IsDigit);
  }

  lemma AtolOf(s: seq<byte>, t: seq<byte>)
    requires s[SkipSpace(s, 0)..] == t
    ensures t == [] ==> Atol(s) == Number(LeadingDigits(t))
    ensures t != [] ==>
              Atol(s) ==
              if t[0] == MINUS then 0 - Number(LeadingDigits(t[1..])) as int
              else if t[0] == 43 then Number(LeadingDigits(t[1..]))
              else Number(LeadingDigits(t))
  {
    hide Number, LeadingDigits, Span;
  }
}
