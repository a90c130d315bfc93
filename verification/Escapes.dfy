/** Text with escapes: a backslash takes two hexadecimal digits as one byte, and is dropped
    where none follow. */
module Escapes {
  import opened Bytes
  import opened Wrappers
  import opened Scanning

  /** The bytes and where they end, or one hexadecimal digit alone behind a backslash. */
  datatype Escaped = Ended(value: seq<byte>, end: nat) | HalfHex

  /** What stands from `p` up to the first `stop`, or to the end of the text. */
  function ReadEscaped(text: seq<byte>, p: nat, stop: byte): (r: Escaped)
    requires p <= |text|
    ensures r.Ended? ==> p <= r.end <= |text| && (r.end == |text| || text[r.end] == stop)
    decreases |text| - p
  {
    if At(text, p, BACKSLASH) then
      if !AtAny(text, p + 1, IsHex) then ReadEscaped(text, p + 1, stop)
      else if AtAny(text, p + 2, IsHex) then
        match ReadEscaped(text, p + 3, stop)
        case Ended(s, q) => Ended([HexByte(text[p + 1], text[p + 2])] + s, q)
        case HalfHex => HalfHex
      else HalfHex
    else if p < |text| && text[p] != stop then
      match ReadEscaped(text, p + 1, stop)
      case Ended(s, q) => Ended([text[p]] + s, q)
      case HalfHex => HalfHex
    else Ended([], p)
  }

  lemma EscapedIs(text: seq<byte>, p: nat, stop: byte)
    requires p <= |text|
    ensures ReadEscaped(text, p, stop) ==
            if At(text, p, BACKSLASH) then
              if !AtAny(text, p + 1, IsHex) then ReadEscaped(text, p + 1, stop)
              else if AtAny(text, p + 2, IsHex) then
                match ReadEscaped(text, p + 3, stop)
                case Ended(s, q) => Ended([HexByte(text[p + 1], text[p + 2])] + s, q)
                case HalfHex => HalfHex
              else HalfHex
            else if p < |text| && text[p] != stop then
              match ReadEscaped(text, p + 1, stop)
              case Ended(s, q) => Ended([text[p]] + s, q)
              case HalfHex => HalfHex
            else Ended([], p)
  {
  }

  /** A loop that reads `whole` has the bytes `s` and `more` in front of it. */
  predicate Onwards(whole: Escaped, s: seq<byte>, more: Escaped) {
    if more.Ended? then whole == Ended(s + more.value, more.end) else whole == more
  }

  lemma OnwardsFirst(whole: Escaped)
    ensures Onwards(whole, [], whole)
  {
    if whole.Ended? {
      assert [] + whole.value == whole.value;
    }
  }

  /** One turn of such a loop. */
  lemma OneEscape(whole: Escaped, s: seq<byte>, text: seq<byte>, p: nat, stop: byte)
    requires p <= |text| && Onwards(whole, s, ReadEscaped(text, p, stop))
    ensures At(text, p, BACKSLASH) && !AtAny(text, p + 1, IsHex) ==> Onwards(whole, s, ReadEscaped(text, p + 1, stop))
    ensures At(text, p, BACKSLASH) && AtAny(text, p + 1, IsHex) ==>
              if AtAny(text, p + 2, IsHex) then Onwards(whole, s + [HexByte(text[p + 1], text[p + 2])], ReadEscaped(text, p + 3, stop))
              else whole == HalfHex
    ensures !At(text, p, BACKSLASH) ==>
              if p < |text| && text[p] != stop then Onwards(whole, s + [text[p]], ReadEscaped(text, p + 1, stop))
              else whole == Ended(s, p)
  {
    hide ReadEscaped, HexByte, IsHex;
    EscapedIs(text, p, stop);
    assert s + [] == s;
    if At(text, p, BACKSLASH) && AtAny(text, p + 1, IsHex) && AtAny(text, p + 2, IsHex) {
      OneByteOn(s, HexByte(text[p + 1], text[p + 2]), ReadEscaped(text, p + 3, stop));
    } else if p < |text| {
      OneByteOn(s, text[p], ReadEscaped(text, p + 1, stop));
    }
  }

  lemma OneByteOn(s: seq<byte>, c: byte, more: Escaped)
    ensures more.Ended? ==> s + ([c] + more.value) == s + [c] + more.value
  {
  }

  /** What a stretch of text with escapes stands for. */
  function Unescape(w: seq<byte>): (s: Option<seq<byte>>)
    decreases |w|
  {
    if w == [] then Some([])
    else if w[0] == BACKSLASH then
      if |w| < 2 || !IsHex(w[1]) then Unescape(w[1..])
      else if |w| < 3 || !IsHex(w[2]) then None
      else Prefixed([HexByte(w[1], w[2])], Unescape(w[3..]))
    else Prefixed([w[0]], Unescape(w[1..]))
  }

  function Prefixed(a: seq<byte>, s: Option<seq<byte>>): (r: Option<seq<byte>>) {
    match s
    case Some(b) => Some(a + b)
    case None => None
  }

  lemma UnescapeIs(w: seq<byte>)
    ensures Unescape(w) ==
            if w == [] then Some([])
            else if w[0] == BACKSLASH then
              if |w| < 2 || !IsHex(w[1]) then Unescape(w[1..])
              else if |w| < 3 || !IsHex(w[2]) then None
              else Prefixed([HexByte(w[1], w[2])], Unescape(w[3..]))
            else Prefixed([w[0]], Unescape(w[1..]))
  {
  }

  /** Reading a stretch does not depend on what is around it. */
  lemma {:induction false} StretchIsRead(text: seq<byte>, p: nat, w: seq<byte>, stop: byte)
    requires Holds(text, p, w) && stop !in w && !IsHex(stop) && stop != BACKSLASH
    requires p + |w| == |text| || text[p + |w|] == stop
    ensures ReadEscaped(text, p, stop) ==
            match Unescape(w)
            case Some(s) => Ended(s, p + |w|)
            case None => HalfHex
    decreases |w|
  {
    hide ReadEscaped, HexByte, Holds, Unescape, IsHex;
    HoldsAt(text, p, w);
    EscapedIs(text, p, stop);
    UnescapeIs(w);
    if w != [] {
      HoldsFrom(text, p, w, 1);
      if w[0] != BACKSLASH || |w| < 2 || !IsHex(w[1]) {
        StretchIsRead(text, p + 1, w[1..], stop);
      } else if |w| >= 3 && IsHex(w[2]) {
        HoldsFrom(text, p, w, 3);
        StretchIsRead(text, p + 3, w[3..], stop);
      }
    }
  }

  /** Every backslash shortens what is read. */
  lemma {:induction false} UnescapeShortens(w: seq<byte>)
    ensures var s := Unescape(w);
            && (BACKSLASH !in w ==> s == Some(w))
            && (BACKSLASH in w && s.Some? ==> |s.value| < |w|)
    decreases |w|
  {
    hide HexByte;
    if w != [] {
      assert w == [w[0]] + w[1..];
      if w[0] == BACKSLASH && |w| >= 3 && IsHex(w[1]) && IsHex(w[2]) {
        UnescapeShortens(w[3..]);
        assert w[3..] == w[1..][2..];
      } else {
        UnescapeShortens(w[1..]);
      }
    }
  }

  /** A stretch up to `stop` is read as itself if and only if it holds no `stop` and no backslash. */
  lemma ReadsAsItself(text: seq<byte>, p: nat, s: seq<byte>, stop: byte)
    requires Holds(text, p, s + [stop]) && !IsHex(stop) && stop != BACKSLASH
    ensures ReadEscaped(text, p, stop) == Ended(s, p + |s|) <==> stop !in s && BACKSLASH !in s
    ensures var r := ReadEscaped(text, p, stop);
            stop in s || BACKSLASH in s ==> r == HalfHex || (r.Ended? && |r.value| < |s|)
  {
    hide ReadEscaped, Unescape, Span, Holds;
    var all := s + [stop];
    HoldsAt(text, p, all);
    var n := Span(all, 0, (c: byte) => c != stop);
    var w := all[..n];
    FirstStop(s, stop);
    HoldsFrom(text, p, all, n);
    HoldsParts(text, p, w, all[n..]);
    StretchIsRead(text, p, w, stop);
    UnescapeShortens(w);
  }

  lemma FirstStop(s: seq<byte>, stop: byte)
    ensures var all := s + [stop];
            var n := Span(all, 0, (c: byte) => c != stop);
            && n <= |s| && all[n] == stop && stop !in all[..n] && all[..n] == s[..n] && all == all[..n] + all[n..]
            && (n == |s| <==> stop !in s)
  {
    var all := s + [stop];
    assert all[|s|] == stop;
    var n := Span(all, 0, (c: byte) => c != stop);
    if stop in s {
      var i :| 0 <= i < |s| && s[i] == stop;
      assert all[i] == stop;
    }
  }
}
