/** The scanner both text readers rest on: one symbol of look-ahead over a text. */
module Scanning {
  import opened Bytes
  import opened Wrappers

  const TAB: byte := 9
  const NEWLINE: byte := 10
  const SPACE: byte := 32
  const QUOTE: byte := 39
  const LPAREN: byte := 40
  const RPAREN: byte := 41
  const MINUS: byte := 45
  const DOT: byte := 46
  const ZERO: byte := 48
  const QUESTION: byte := 63
  const LBRACKET: byte := 91
  const BACKSLASH: byte := 92
  const RBRACKET: byte := 93
  const UNDERSCORE: byte := 95

  predicate IsSpace(c: byte) { 9 <= c <= 13 || c == 32 }

  predicate IsDigit(c: byte) { 48 <= c <= 57 }

  predicate IsAlpha(c: byte) { 65 <= c <= 90 || 97 <= c <= 122 }

  predicate IsNamePart(c: byte) { IsAlpha(c) || IsDigit(c) || c == UNDERSCORE }

  predicate IsHex(c: byte) { IsDigit(c) || 65 <= c <= 70 || 97 <= c <= 102 }

  function Base16(c: byte): (n: nat)
    requires IsHex(c)
    ensures n < 16
  {
    if IsDigit(c) then c - 48 else if c <= 70 then 10 + c - 65 else 10 + c - 97
  }

  /** The byte two hexadecimal digits stand for. */
  function HexByte(high: byte, low: byte): byte
    requires IsHex(high) && IsHex(low)
  {
    Base16(high) * 16 + Base16(low)
  }

  predicate At(text: seq<byte>, p: nat, c: byte) { p < |text| && text[p] == c }

  predicate AtAny(text: seq<byte>, p: nat, f: byte -> bool) { p < |text| && f(text[p]) }

  /** The end of the longest stretch of symbols from `p` on that satisfy `f`. */
  function Span(text: seq<byte>, p: nat, f: byte -> bool): (q: nat)
    requires p <= |text|
    ensures p <= q <= |text|
    ensures forall i :: p <= i < q ==> f(text[i])
    ensures q < |text| ==> !f(text[q])
    decreases |text| - p
  {
    if AtAny(text, p, f) then Span(text, p + 1, f) else p
  }

  function SkipSpace(text: seq<byte>, p: nat): (q: nat)
    requires p <= |text|
    ensures p <= q <= |text|
  {
    Span(text, p, IsSpace)
  }

  /** The end of an unsigned number: digits, at most one dot, digits. */
  function NumberEnd(text: seq<byte>, p: nat): (q: nat)
    requires AtAny(text, p, IsDigit)
    ensures p < q <= |text|
  {
    var i := Span(text, p + 1, IsDigit);
    Span(text, if At(text, i, DOT) then i + 1 else i, IsDigit)
  }

  function NameEnd(text: seq<byte>, p: nat): (q: nat)
    requires AtAny(text, p, IsAlpha)
    ensures p < q <= |text|
  {
    Span(text, p + 1, IsNamePart)
  }

  /** A stretch that is all `f` and then stops is found whole. */
  lemma {:induction false} SpanIs(text: seq<byte>, p: nat, q: nat, f: byte -> bool)
    requires p <= q <= |text|
    requires forall i :: p <= i < q ==> f(text[i])
    requires q < |text| ==> !f(text[q])
    ensures Span(text, p, f) == q
    decreases q - p
  {
    if p < q {
      SpanIs(text, p + 1, q, f);
    }
  }

  /** `s` stands in `text` from `p` on. */
  predicate Holds(text: seq<byte>, p: nat, s: seq<byte>) {
    p + |s| <= |text| && text[p..p + |s|] == s
  }

  lemma HoldsParts(text: seq<byte>, p: nat, a: seq<byte>, b: seq<byte>)
    requires Holds(text, p, a + b)
    ensures Holds(text, p, a) && Holds(text, p + |a|, b)
  {
    assert text[p..p + |a|] == text[p..p + |a + b|][..|a|];
    assert text[p + |a|..p + |a + b|] == text[p..p + |a + b|][|a|..];
  }

  lemma HoldsAt(text: seq<byte>, p: nat, s: seq<byte>)
    requires Holds(text, p, s)
    ensures p + |s| <= |text|
    ensures forall i {:trigger text[i]} :: p <= i < p + |s| ==> text[i] == s[i - p]
    ensures s != [] ==> text[p] == s[0]
  {
    forall i {:trigger text[i]} | p <= i < p + |s| ensures text[i] == s[i - p] {
      assert text[p..p + |s|][i - p] == text[i];
    }
  }

  lemma HoldsFrom(text: seq<byte>, p: nat, s: seq<byte>, k: nat)
    requires Holds(text, p, s) && k <= |s|
    ensures Holds(text, p + k, s[k..])
  {
    assert s == s[..k] + s[k..];
    HoldsParts(text, p, s[..k], s[k..]);
  }

  lemma NumberEndIs(text: seq<byte>, p: nat)
    requires AtAny(text, p, IsDigit)
    ensures p < Span(text, p + 1, IsDigit) <= |text|
    ensures var i := Span(text, p + 1, IsDigit);
            NumberEnd(text, p) == Span(text, if At(text, i, DOT) then i + 1 else i, IsDigit)
  {
  }

  /** An unsigned number: digits, then at most one dot with any digits behind it, and no more of that. */
  lemma NumberEndMeans(text: seq<byte>, p: nat) returns (i: nat)
    requires AtAny(text, p, IsDigit)
    ensures var q := NumberEnd(text, p);
            && p < i <= q <= |text| && (forall k :: p <= k < i ==> IsDigit(text[k]))
            && !AtAny(text, q, IsDigit)
            && if q == i then !At(text, i, DOT) else text[i] == DOT && forall k :: i < k < q ==> IsDigit(text[k])
  {
    i := Span(text, p + 1, IsDigit);
  }

  /** A name: a letter and all name symbols behind it. */
  lemma NameEndMeans(text: seq<byte>, p: nat)
    requires AtAny(text, p, IsAlpha)
    ensures var q := NameEnd(text, p);
            p < q <= |text| && (forall k :: p < k < q ==> IsNamePart(text[k])) && !AtAny(text, q, IsNamePart)
  {
  }

  lemma Adjoin(text: seq<byte>, a: nat, b: nat, c: nat)
    requires a <= b <= c <= |text|
    ensures text[a..b] + text[b..c] == text[a..c]
  {
  }

  class Scanner {
    const text: seq<byte>
    var pos: nat

    ghost predicate Valid()
      reads this
    {
      pos <= |text|
    }

    constructor (text: seq<byte>)
      ensures Valid() && this.text == text && pos == 0
    {
      this.text := text;
      pos := 0;
    }

    predicate Eof() reads this { pos >= |text| }

    /** Takes the current symbol when it satisfies `f`. */
    method AcceptIf(f: byte -> bool) returns (c: Option<byte>)
      requires Valid()
      modifies this
      ensures Valid()
      ensures if AtAny(text, old(pos), f) then c == Some(text[old(pos)]) && pos == old(pos) + 1
              else c == None && pos == old(pos)
    {
      if !Eof() && f(text[pos]) {
        c := Some(text[pos]);
        pos := pos + 1;
      } else {
        c := None;
      }
    }

    method Accept(ch: byte) returns (ok: bool)
      requires Valid()
      modifies this
      ensures Valid() && ok == At(text, old(pos), ch)
      ensures pos == if ok then old(pos) + 1 else old(pos)
    {
      var c := AcceptIf(x => x == ch);
      ok := c.Some?;
    }

    /** Takes symbols while they satisfy `f`. */
    method AcceptAll(f: byte -> bool) returns (s: seq<byte>)
      requires Valid()
      modifies this
      ensures Valid() && pos == Span(text, old(pos), f)
      ensures s == text[old(pos)..pos]
    {
      s := [];
      var c := AcceptIf(f);
      while c.Some?
        invariant Valid() && old(pos) + |s| + (if c.Some? then 1 else 0) == pos
        invariant s == text[old(pos)..old(pos) + |s|]
        invariant if c.Some? then pos > old(pos) && c.value == text[pos - 1] else !AtAny(text, pos, f)
        invariant Span(text, old(pos), f) == Span(text, pos, f)
        decreases |text| - pos, c.Some?
      {
        s := s + [c.value];
        c := AcceptIf(f);
      }
    }

    method Space()
      requires Valid()
      modifies this
      ensures Valid() && pos == SkipSpace(text, old(pos))
    {
      var _ := AcceptAll(IsSpace);
    }

    /** Two hexadecimal digits as one byte; one digit alone is an error, none is nothing. */
    method Hex() returns (r: Result<Option<byte>, ()>)
      requires Valid()
      modifies this
      ensures Valid()
      ensures if !AtAny(text, old(pos), IsHex) then r == Ok(None) && pos == old(pos)
              else if AtAny(text, old(pos) + 1, IsHex) then
                r == Ok(Some(HexByte(text[old(pos)], text[old(pos) + 1]))) && pos == old(pos) + 2
              else r == Err(())
    {
      var high := AcceptIf(IsHex);
      if high.None? {
        return Ok(None);
      }
      var low := AcceptIf(IsHex);
      if low.None? {
        return Err(());
      }
      r := Ok(Some(HexByte(high.value, low.value)));
    }

    /** An unsigned number, empty when there is none. */
    method UnsignedNumber() returns (s: seq<byte>)
      requires Valid()
      modifies this
      ensures Valid()
      ensures pos == if AtAny(text, old(pos), IsDigit) then NumberEnd(text, old(pos)) else old(pos)
      ensures s == text[old(pos)..pos]
    {
      hide Span, NumberEnd, IsDigit;
      s := [];
      ghost var start := pos;
      var c := AcceptIf(IsDigit);
      if c.Some? {
        NumberEndIs(text, start);
        var whole := AcceptAll(IsDigit);
        s := [c.value] + whole;
        assert s == text[start..pos];
        ghost var mid := pos;
        var dot := Accept(DOT);
        if dot {
          s := s + [DOT];
          assert s == text[start..pos];
        }
        mid := pos;
        var part := AcceptAll(IsDigit);
        Adjoin(text, start, mid, pos);
        s := s + part;
      }
    }

    /** A name, empty when there is none. */
    method Name() returns (s: seq<byte>)
      requires Valid()
      modifies this
      ensures Valid()
      ensures pos == if AtAny(text, old(pos), IsAlpha) then NameEnd(text, old(pos)) else old(pos)
      ensures s == text[old(pos)..pos]
    {
      s := [];
      var c := AcceptIf(IsAlpha);
      if c.Some? {
        var rest := AcceptAll(IsNamePart);
        s := [c.value] + rest;
      }
    }
  }
}
