/** Base64, section 4 of RFC 4648, three bytes to four characters. */
module Base64 {
  import opened Wrappers

  type octet = bv8

  const PAD: octet := 61

  datatype Error = NoSpace | BadLength | BadCharacter

  /** The character for six bits. */
  function Letter(d: octet): (c: octet)
    requires d < 64
  {
    if d < 26 then d + 65 else if d < 52 then d + 71 else if d < 62 then d - 4 else if d == 62 then 43 else 47
  }

  /** The six bits of a character, 128 for one that is not in the alphabet. */
  function Code(c: octet): (d: octet) {
    if 65 <= c <= 90 then c - 65
    else if 97 <= c <= 122 then c - 71
    else if 48 <= c <= 57 then c + 4
    else if c == 43 then 62
    else if c == 47 then 63
    else 128
  }

  lemma CodeOfLetter(d: octet)
    requires d < 64
    ensures Code(Letter(d)) == d && Letter(d) != PAD
  {
  }

  /** Three bytes as one word. */
  function Word(b0: octet, b1: octet, b2: octet): (n: bv32) {
    ((b0 as bv32) << 16) + ((b1 as bv32) << 8) + (b2 as bv32)
  }

  function Six(n: bv32, shift: nat): (d: octet)
    requires shift <= 18
    ensures d < 64
  {
    ((n >> shift) & 63) as octet
  }

  /** Four groups of six bits as one word. */
  function Joined(c0: octet, c1: octet, c2: octet, c3: octet): (n: bv32) {
    ((c0 as bv32) << 18) | ((c1 as bv32) << 12) | ((c2 as bv32) << 6) | (c3 as bv32)
  }

  function Eight(n: bv32, shift: nat): (b: octet)
    requires shift <= 16
  {
    ((n >> shift) & 255) as octet
  }

  lemma WordIsOr(b0: octet, b1: octet, b2: octet)
    ensures Word(b0, b1, b2) == ((b0 as bv32) << 16) | ((b1 as bv32) << 8) | (b2 as bv32)
    ensures Word(b0, b1, b2) < 0x100_0000
  {
  }

  lemma SixIsPart(n: bv32)
    requires n < 0x100_0000
    ensures (Six(n, 18) as bv32) << 18 == n & 0xFC_0000
    ensures (Six(n, 12) as bv32) << 12 == n & 0x3_F000
    ensures (Six(n, 6) as bv32) << 6 == n & 0xFC0
    ensures (Six(n, 0) as bv32) == n & 0x3F
  {
  }

  lemma PartsJoin(n: bv32)
    requires n < 0x100_0000
    ensures (n & 0xFC_0000) | (n & 0x3_F000) | (n & 0xFC0) | (n & 0x3F) == n
  {
  }

  lemma SixJoin(n: bv32)
    requires n < 0x100_0000
    ensures Joined(Six(n, 18), Six(n, 12), Six(n, 6), Six(n, 0)) == n
  {
    hide Six;
    SixIsPart(n);
    PartsJoin(n);
  }

  lemma EightIsByte(b0: octet, b1: octet, b2: octet)
    ensures Eight(((b0 as bv32) << 16) | ((b1 as bv32) << 8) | (b2 as bv32), 16) == b0
    ensures Eight(((b0 as bv32) << 16) | ((b1 as bv32) << 8) | (b2 as bv32), 8) == b1
    ensures Eight(((b0 as bv32) << 16) | ((b1 as bv32) << 8) | (b2 as bv32), 0) == b2
  {
  }

  lemma WordRoundTrip(b0: octet, b1: octet, b2: octet)
    ensures var n := Word(b0, b1, b2);
            Joined(Six(n, 18), Six(n, 12), Six(n, 6), Six(n, 0)) == n
    ensures var n := Word(b0, b1, b2);
            Eight(n, 16) == b0 && Eight(n, 8) == b1 && Eight(n, 0) == b2
  {
    hide *;
    WordIsOr(b0, b1, b2);
    SixJoin(Word(b0, b1, b2));
    EightIsByte(b0, b1, b2);
  }

  /** How many characters stand for `n` bytes. */
  function Chars(n: nat): (c: nat) {
    n / 3 * 4 + if n / 3 * 3 < n then 4 else 0
  }

  function Block(b0: octet, b1: octet, b2: octet): (s: seq<octet>)
    ensures |s| == 4
  {
    var n := Word(b0, b1, b2);
    [Letter(Six(n, 18)), Letter(Six(n, 12)), Letter(Six(n, 6)), Letter(Six(n, 0))]
  }

  /** The characters of a byte sequence, padded to whole blocks. */
  function Encoded(s: seq<octet>): (t: seq<octet>)
    ensures |t| % 4 == 0
  {
    if s == [] then []
    else if |s| == 1 then Block(s[0], 0, 0)[..2] + [PAD, PAD]
    else if |s| == 2 then Block(s[0], s[1], 0)[..3] + [PAD]
    else Block(s[0], s[1], s[2]) + Encoded(s[3..])
  }

  predicate Bad(d: octet) { d & 128 != 0 }

  function Or(a: octet, b: octet): octet { a | b }

  function Triple(c0: octet, c1: octet, c2: octet, c3: octet): (s: seq<octet>)
    ensures |s| == 3
  {
    var n := Joined(c0, c1, c2, c3);
    [Eight(n, 16), Eight(n, 8), Eight(n, 0)]
  }

  /** What whole blocks stand for; padding may end the last one, and after one sign of it the
      rest of that block is not looked at. */
  function Decoded(t: seq<octet>): (s: Option<seq<octet>>)
    requires |t| % 4 == 0
  {
    if t == [] then Some([])
    else
      var c0, c1, c2, c3 := Code(t[0]), Code(t[1]), Code(t[2]), Code(t[3]);
      if |t| > 4 then
        match Decoded(t[4..])
        case Some(more) => if Bad(c0) || Bad(c1) || Bad(c2) || Bad(c3) then None else Some(Triple(c0, c1, c2, c3) + more)
        case None => None
      else if t[2] == PAD then if Bad(c0) || Bad(c1) then None else Some(Triple(c0, c1, 0, 0)[..1])
      else if t[3] == PAD then if Bad(c0) || Bad(c1) || Bad(c2) then None else Some(Triple(c0, c1, c2, 0)[..2])
      else if Bad(c0) || Bad(c1) || Bad(c2) || Bad(c3) then None else Some(Triple(c0, c1, c2, c3))
  }

  lemma {:induction false} EncodedLength(s: seq<octet>)
    ensures |Encoded(s)| == Chars(|s|)
  {
    hide Block;
    if |s| >= 3 {
      EncodedLength(s[3..]);
      CharsNext(|s| - 3);
    }
  }

  lemma CharsNext(n: nat)
    ensures Chars(n + 3) == Chars(n) + 4
  {
    assert (n + 3) / 3 == n / 3 + 1;
  }

  lemma BlockDecodes(b0: octet, b1: octet, b2: octet)
    ensures var t := Block(b0, b1, b2);
            && Triple(Code(t[0]), Code(t[1]), Code(t[2]), Code(t[3])) == [b0, b1, b2]
            && !Bad(Code(t[0])) && !Bad(Code(t[1])) && !Bad(Code(t[2])) && !Bad(Code(t[3]))
            && t[2] != PAD && t[3] != PAD
  {
    hide Letter, Code, Word, Six, Joined, Eight;
    var n := Word(b0, b1, b2);
    CodeOfLetter(Six(n, 18));
    CodeOfLetter(Six(n, 12));
    CodeOfLetter(Six(n, 6));
    CodeOfLetter(Six(n, 0));
    WordRoundTrip(b0, b1, b2);
  }

  /** The padded blocks: the bits that stand for no byte are zero. */
  lemma PaddedDecodes(b0: octet, b1: octet)
    ensures var t := Block(b0, 0, 0);
            Triple(Code(t[0]), Code(t[1]), 0, 0)[..1] == [b0] && !Bad(Code(t[0])) && !Bad(Code(t[1]))
    ensures var t := Block(b0, b1, 0);
            && Triple(Code(t[0]), Code(t[1]), Code(t[2]), 0)[..2] == [b0, b1]
            && !Bad(Code(t[0])) && !Bad(Code(t[1])) && !Bad(Code(t[2])) && t[2] != PAD
  {
    hide Letter, Code, Word, Six, Joined, Eight;
    PaddedOne(b0);
    PaddedTwo(b0, b1);
  }

  lemma PaddedOne(b0: octet)
    ensures var t := Block(b0, 0, 0);
            Triple(Code(t[0]), Code(t[1]), 0, 0)[..1] == [b0] && !Bad(Code(t[0])) && !Bad(Code(t[1]))
  {
    hide Letter, Code;
    var n := Word(b0, 0, 0);
    CodeOfLetter(Six(n, 18));
    CodeOfLetter(Six(n, 12));
  }

  lemma PaddedTwo(b0: octet, b1: octet)
    ensures var t := Block(b0, b1, 0);
            && Triple(Code(t[0]), Code(t[1]), Code(t[2]), 0)[..2] == [b0, b1]
            && !Bad(Code(t[0])) && !Bad(Code(t[1])) && !Bad(Code(t[2])) && t[2] != PAD
  {
    hide Letter, Code;
    var n := Word(b0, b1, 0);
    CodeOfLetter(Six(n, 18));
    CodeOfLetter(Six(n, 12));
    CodeOfLetter(Six(n, 6));
  }

  lemma FirstBlock(b: seq<octet>, more: seq<octet>)
    requires |b| == 4 && |more| % 4 == 0 && b[2] != PAD && b[3] != PAD
    requires !Bad(Code(b[0])) && !Bad(Code(b[1])) && !Bad(Code(b[2])) && !Bad(Code(b[3]))
    ensures Decoded(b + more) ==
            match Decoded(more)
            case Some(s) => Some(Triple(Code(b[0]), Code(b[1]), Code(b[2]), Code(b[3])) + s)
            case None => None
  {
    hide Bad, Code, Triple;
    var t := b + more;
    assert t[0] == b[0] && t[1] == b[1] && t[2] == b[2] && t[3] == b[3];
    assert t[4..] == more;
    var one := Triple(Code(b[0]), Code(b[1]), Code(b[2]), Code(b[3]));
    assert one + [] == one;
  }

  /** Decoding what was encoded gives the bytes back, whatever they are. */
  lemma {:induction false} RoundTrip(s: seq<octet>)
    ensures Decoded(Encoded(s)) == Some(s)
  {
    hide Block, Triple, Code, Bad;
    if s == [] {
    } else if |s| == 1 {
      PaddedDecodes(s[0], 0);
      assert [s[0]] == s;
    } else if |s| == 2 {
      PaddedDecodes(s[0], s[1]);
      assert [s[0], s[1]] == s;
    } else {
      var b, more := Block(s[0], s[1], s[2]), Encoded(s[3..]);
      BlockDecodes(s[0], s[1], s[2]);
      RoundTrip(s[3..]);
      EncodedLength(s[3..]);
      FirstBlock(b, more);
      assert [s[0], s[1], s[2]] + s[3..] == s;
    }
  }

  // ---- the loops ----

  /** Writes the characters for `ibuf`, no further than they reach. */
  method Encode(ibuf: seq<octet>, obuf: array<octet>) returns (r: Result<nat, Error>)
    modifies obuf
    ensures r == if obuf.Length < Chars(|ibuf|) then Err(NoSpace) else Ok(Chars(|ibuf|))
    ensures r.Err? ==> obuf[..] == old(obuf[..])
    ensures r.Ok? ==> obuf[..r.value] == Encoded(ibuf) && obuf[r.value..] == old(obuf[r.value..])
  {
    hide Block, Encoded;
    var blocks, padded := |ibuf| / 3, |ibuf| % 3;
    if obuf.Length < blocks * 4 + (if padded > 0 then 4 else 0) {
      return Err(NoSpace);
    }
    EncodedLength(ibuf);
    var ipos, opos := 0, 0;
    ghost var all := obuf[..];
    assert ibuf[0..] == ibuf;
    for i := 0 to blocks
      invariant ipos == 3 * i && opos == 4 * i
      invariant obuf[..opos] + Encoded(ibuf[ipos..]) == Encoded(ibuf)
      invariant obuf[opos..] == all[opos..]
    {
      EncodedNext(ibuf, ipos);
      TailOf(obuf[..], all, opos, 4);
      WriteBlock(obuf, opos, ibuf[ipos], ibuf[ipos + 1], ibuf[ipos + 2]);
      ipos, opos := ipos + 3, opos + 4;
    }
    if padded > 0 {
      WriteLast(obuf, opos, ibuf[ipos..]);
      opos := opos + 4;
    } else {
      EncodedLast(ibuf[ipos..]);
    }
    r := Ok(opos);
  }

  lemma TailOf(a: seq<octet>, b: seq<octet>, i: nat, n: nat)
    requires i + n <= |a| == |b| && a[i..] == b[i..]
    ensures a[i + n..] == b[i + n..]
  {
    assert a[i..][n..] == a[i + n..] && b[i..][n..] == b[i + n..];
  }

  /** The padded block for one or two last bytes. */
  method WriteLast(obuf: array<octet>, opos: nat, last: seq<octet>)
    requires opos + 4 <= obuf.Length && 0 < |last| < 3
    modifies obuf
    ensures |Encoded(last)| == 4 && obuf[..opos + 4] == old(obuf[..opos]) + Encoded(last)
    ensures obuf[opos + 4..] == old(obuf[opos + 4..])
  {
    hide Block, Encoded;
    EncodedLast(last);
    WriteBlock(obuf, opos, last[0], if |last| > 1 then last[1] else 0, 0);
    obuf[opos + 3] := PAD;
    if |last| == 1 {
      obuf[opos + 2] := PAD;
    }
    assert obuf[opos..opos + 4] == Encoded(last);
  }

  method WriteBlock(obuf: array<octet>, opos: nat, b0: octet, b1: octet, b2: octet)
    requires opos + 4 <= obuf.Length
    modifies obuf
    ensures obuf[opos..opos + 4] == Block(b0, b1, b2)
    ensures obuf[..opos + 4] == old(obuf[..opos]) + Block(b0, b1, b2)
    ensures obuf[..opos] == old(obuf[..opos]) && obuf[opos + 4..] == old(obuf[opos + 4..])
  {
    var n := Word(b0, b1, b2);
    obuf[opos] := Letter(Six(n, 18));
    obuf[opos + 1] := Letter(Six(n, 12));
    obuf[opos + 2] := Letter(Six(n, 6));
    obuf[opos + 3] := Letter(Six(n, 0));
  }

  lemma EncodedNext(s: seq<octet>, i: nat)
    requires i + 3 <= |s|
    ensures Encoded(s[i..]) == Block(s[i], s[i + 1], s[i + 2]) + Encoded(s[i + 3..])
  {
    assert s[i..][3..] == s[i + 3..];
  }

  lemma EncodedLast(s: seq<octet>)
    requires |s| < 3
    ensures s == [] ==> Encoded(s) == []
    ensures |s| == 1 ==> Encoded(s) == Block(s[0], 0, 0)[..2] + [PAD, PAD]
    ensures |s| == 2 ==> Encoded(s) == Block(s[0], s[1], 0)[..3] + [PAD]
  {
  }

  /** Writes the bytes that `ibuf` stands for. */
  method Decode(ibuf: seq<octet>, obuf: array<octet>) returns (r: Result<nat, Error>)
    modifies obuf
    ensures obuf.Length < |ibuf| / 4 * 3 ==> r == Err(NoSpace) && obuf[..] == old(obuf[..])
    ensures obuf.Length >= |ibuf| / 4 * 3 && |ibuf| % 4 != 0 ==> r == Err(BadLength) && obuf[..] == old(obuf[..])
    ensures obuf.Length >= |ibuf| / 4 * 3 && |ibuf| % 4 == 0 ==>
              match Decoded(ibuf)
              case None => r == Err(BadCharacter)
              case Some(s) => r == Ok(|s|) && |s| <= obuf.Length && obuf[..|s|] == s
    ensures obuf.Length >= |ibuf| / 4 * 3 ==> obuf[|ibuf| / 4 * 3..] == old(obuf[|ibuf| / 4 * 3..])
  {
    hide Code, Triple, Bad, Decoded, Held;
    var blocks := |ibuf| / 4;
    if obuf.Length < blocks * 3 {
      return Err(NoSpace);
    }
    if |ibuf| % 4 != 0 {
      return Err(BadLength);
    }
    var ipos, opos, err := 0, 0, 0;
    assert ibuf[0..] == ibuf;
    NothingBad();
    HeldFirst(ibuf);
    for i := 1 to (if blocks == 0 then 1 else blocks)
      invariant ipos == 4 * (i - 1) && opos == 3 * (i - 1)
      invariant Held(Bad(err), obuf[..opos], ibuf[ipos..], Decoded(ibuf))
      invariant obuf[blocks * 3..] == old(obuf[blocks * 3..])
    {
      err := DecodeBlock(ibuf, ipos, obuf, opos, err, Decoded(ibuf));
      ipos, opos := ipos + 4, opos + 3;
    }
    if ipos < |ibuf| {
      var outc;
      outc, err := DecodeLast(ibuf, ipos, obuf, opos, err, Decoded(ibuf));
      opos := opos + outc;
    } else {
      HeldIs(Bad(err), obuf[..opos], ibuf[ipos..], Decoded(ibuf));
      NoBlock();
      Regroup(obuf[..opos], [], []);
    }
    if Bad(err) {
      return Err(BadCharacter);
    }
    r := Ok(opos);
  }

  /** A block that is not the last one. */
  method DecodeBlock(ibuf: seq<octet>, ipos: nat, obuf: array<octet>, opos: nat, err0: octet, ghost whole: Option<seq<octet>>)
    returns (err: octet)
    requires ipos + 4 < |ibuf| && opos + 3 <= obuf.Length && |ibuf[ipos..]| % 4 == 0
    requires Held(Bad(err0), obuf[..opos], ibuf[ipos..], whole)
    modifies obuf
    ensures Held(Bad(err), obuf[..opos + 3], ibuf[ipos + 4..], whole)
    ensures obuf[opos + 3..] == old(obuf[opos + 3..])
  {
    hide *;
    var c0, c1, c2, c3 := Code(ibuf[ipos]), Code(ibuf[ipos + 1]), Code(ibuf[ipos + 2]), Code(ibuf[ipos + 3]);
    err := Or(Or(Or(Or(err0, c0), c1), c2), c3);
    HeldNext(ibuf, ipos, err0, obuf[..opos], whole);
    var t := Triple(c0, c1, c2, c3);
    assert t[..3] == t;
    WriteBytes(obuf, opos, t, 3);
  }

  /** The last block, which padding may end. */
  method DecodeLast(ibuf: seq<octet>, ipos: nat, obuf: array<octet>, opos: nat, err0: octet, ghost whole: Option<seq<octet>>)
    returns (outc: nat, err: octet)
    requires ipos + 4 == |ibuf| && opos + 3 <= obuf.Length
    requires Held(Bad(err0), obuf[..opos], ibuf[ipos..], whole)
    modifies obuf
    ensures outc <= 3 && whole == if Bad(err) then None else Some(obuf[..opos + outc])
    ensures obuf[opos + 3..] == old(obuf[opos + 3..])
  {
    hide Triple, Bad, Decoded, Held;
    HeldIs(Bad(err0), obuf[..opos], ibuf[ipos..], whole);
    var t;
    t, outc, err := ReadLast(ibuf, ipos, err0);
    WriteBytes(obuf, opos, t, outc);
  }

  method ReadLast(ibuf: seq<octet>, ipos: nat, err0: octet) returns (t: seq<octet>, outc: nat, err: octet)
    requires ipos + 4 == |ibuf|
    ensures |t| == 3 && 1 <= outc <= 3
    ensures |ibuf[ipos..]| % 4 == 0
    ensures Bad(err) <==> Bad(err0) || Decoded(ibuf[ipos..]).None?
    ensures Decoded(ibuf[ipos..]).Some? ==> Decoded(ibuf[ipos..]).value == t[..outc]
  {
    hide *;
    LastBlock(ibuf, ipos);
    BadOr4(err0, Code(ibuf[ipos]), Code(ibuf[ipos + 1]), Code(ibuf[ipos + 2]), Code(ibuf[ipos + 3]));
    outc := 1;
    var c0, c1, c2, c3 := Code(ibuf[ipos]), Code(ibuf[ipos + 1]), 0, 0;
    err := Or(Or(err0, c0), c1);
    if ibuf[ipos + 2] != PAD {
      outc := 2;
      c2 := Code(ibuf[ipos + 2]);
      err := Or(err, c2);
      if ibuf[ipos + 3] != PAD {
        outc := 3;
        c3 := Code(ibuf[ipos + 3]);
        err := Or(err, c3);
      }
    }
    t := Triple(c0, c1, c2, c3);
  }

  method WriteBytes(obuf: array<octet>, opos: nat, t: seq<octet>, outc: nat)
    requires |t| == 3 && 1 <= outc <= 3 && opos + 3 <= obuf.Length
    modifies obuf
    ensures obuf[..opos + outc] == old(obuf[..opos]) + t[..outc]
    ensures obuf[opos + 3..] == old(obuf[opos + 3..])
  {
    obuf[opos] := t[0];
    if outc > 1 {
      obuf[opos + 1] := t[1];
      if outc > 2 {
        obuf[opos + 2] := t[2];
      }
    }
  }

  lemma NoBlock()
    ensures Decoded([]) == Some([])
  {
  }

  /** What is known half-way: the bytes so far begin the result, unless something was bad. */
  ghost predicate Held(bad: bool, done: seq<octet>, rest: seq<octet>, whole: Option<seq<octet>>) {
    && |rest| % 4 == 0
    && whole == if bad then None
                else
                  match Decoded(rest)
                  case Some(more) => Some(done + more)
                  case None => None
  }

  lemma HeldFirst(t: seq<octet>)
    requires |t| % 4 == 0
    ensures Held(false, [], t, Decoded(t))
  {
    hide Decoded;
    match Decoded(t)
    case Some(s) => assert [] + s == s;
    case None =>
  }

  lemma NothingBad()
    ensures !Bad(0)
  {
  }

  lemma BadOr(a: octet, b: octet)
    ensures Bad(Or(a, b)) <==> Bad(a) || Bad(b)
  {
  }

  lemma HeldIs(bad: bool, done: seq<octet>, rest: seq<octet>, whole: Option<seq<octet>>)
    requires |rest| % 4 == 0
    ensures Held(bad, done, rest, whole) <==>
            whole == if bad || Decoded(rest).None? then None else Some(done + Decoded(rest).value)
  {
  }

  lemma BadOr4(err: octet, c0: octet, c1: octet, c2: octet, c3: octet)
    ensures Bad(Or(Or(Or(Or(err, c0), c1), c2), c3)) <==> Bad(err) || Bad(c0) || Bad(c1) || Bad(c2) || Bad(c3)
    ensures Bad(Or(Or(Or(err, c0), c1), c2)) <==> Bad(err) || Bad(c0) || Bad(c1) || Bad(c2)
    ensures Bad(Or(Or(err, c0), c1)) <==> Bad(err) || Bad(c0) || Bad(c1)
  {
    hide *;
    BadOr(err, c0);
    BadOr(Or(err, c0), c1);
    BadOr(Or(Or(err, c0), c1), c2);
    BadOr(Or(Or(Or(err, c0), c1), c2), c3);
  }

  lemma NextBlock(t: seq<octet>, i: nat)
    requires i + 4 < |t| && |t[i..]| % 4 == 0
    ensures |t[i + 4..]| % 4 == 0
    ensures var more := Decoded(t[i + 4..]);
            var c0, c1, c2, c3 := Code(t[i]), Code(t[i + 1]), Code(t[i + 2]), Code(t[i + 3]);
            Decoded(t[i..]) == if more.None? || Bad(c0) || Bad(c1) || Bad(c2) || Bad(c3) then None
                               else Some(Triple(c0, c1, c2, c3) + more.value)
  {
    hide Code, Triple, Bad;
    assert t[i..][4..] == t[i + 4..];
  }

  lemma LastBlock(t: seq<octet>, i: nat)
    requires i + 4 == |t|
    ensures var c0, c1, c2, c3 := Code(t[i]), Code(t[i + 1]), Code(t[i + 2]), Code(t[i + 3]);
            Decoded(t[i..]) ==
            if t[i + 2] == PAD then if Bad(c0) || Bad(c1) then None else Some(Triple(c0, c1, 0, 0)[..1])
            else if t[i + 3] == PAD then if Bad(c0) || Bad(c1) || Bad(c2) then None else Some(Triple(c0, c1, c2, 0)[..2])
            else if Bad(c0) || Bad(c1) || Bad(c2) || Bad(c3) then None else Some(Triple(c0, c1, c2, c3)[..3])
  {
    hide Code, Triple, Bad;
    var all := Triple(Code(t[i]), Code(t[i + 1]), Code(t[i + 2]), Code(t[i + 3]));
    assert all[..3] == all;
  }

  lemma Regroup(a: seq<octet>, b: seq<octet>, c: seq<octet>)
    ensures a + b + c == a + (b + c) && a + [] == a
  {
  }

  lemma HeldNext(t: seq<octet>, i: nat, err: octet, done: seq<octet>, whole: Option<seq<octet>>)
    requires i + 4 < |t| && |t[i..]| % 4 == 0 && Held(Bad(err), done, t[i..], whole)
    ensures var c0, c1, c2, c3 := Code(t[i]), Code(t[i + 1]), Code(t[i + 2]), Code(t[i + 3]);
            Held(Bad(Or(Or(Or(Or(err, c0), c1), c2), c3)), done + Triple(c0, c1, c2, c3), t[i + 4..], whole)
  {
    hide *;
    var c0, c1, c2, c3 := Code(t[i]), Code(t[i + 1]), Code(t[i + 2]), Code(t[i + 3]);
    NextBlock(t, i);
    BadOr4(err, c0, c1, c2, c3);
    var more := Decoded(t[i + 4..]);
    HeldIs(Bad(err), done, t[i..], whole);
    HeldIs(Bad(Or(Or(Or(Or(err, c0), c1), c2), c3)), done + Triple(c0, c1, c2, c3), t[i + 4..], whole);
    if more.Some? {
      Regroup(done, Triple(c0, c1, c2, c3), more.value);
    }
  }

  // ---- which texts are read back ----

  /** How many signs of padding the decoder sees. */
  function Padding(t: seq<octet>): (n: nat)
    requires |t| >= 4
    ensures n <= 2
  {
    if t[|t| - 2] == PAD then 2 else if t[|t| - 1] == PAD then 1 else 0
  }

  /** The bits of the last character that stand for no byte. */
  function Unused(padding: nat): octet { if padding == 2 then 15 else if padding == 1 then 3 else 0 }

  /** The one form of a text that section 3.5 of RFC 4648 asks of an encoder. */
  predicate Canonical(t: seq<octet>) {
    |t| >= 4 ==>
      var n := |t| - Padding(t);
      && (forall i :: 0 <= i < n ==> !Bad(Code(t[i])))
      && (forall i :: n <= i < |t| ==> t[i] == PAD)
      && Code(t[n - 1]) & Unused(Padding(t)) == 0
  }

  lemma LetterOfCode(c: octet)
    ensures !Bad(Code(c)) ==> Code(c) < 64 && Letter(Code(c)) == c
  {
  }

  lemma SameLetter(a: octet, b: octet)
    requires a < 64 && b < 64
    ensures Letter(a) == Letter(b) <==> a == b
  {
    CodeOfLetter(a);
    CodeOfLetter(b);
  }

  lemma JoinedParts(d0: octet, d1: octet, d2: octet, d3: octet)
    requires d0 < 64 && d1 < 64 && d2 < 64 && d3 < 64
    ensures var n := Joined(d0, d1, d2, d3);
            n < 0x100_0000 && Six(n, 18) == d0 && Six(n, 12) == d1 && Six(n, 6) == d2 && Six(n, 0) == d3
  {
  }

  // The bytes of a word in their places.

  function High(b: octet): bv32 { (b as bv32) << 16 }

  function Middle(b: octet): bv32 { (b as bv32) << 8 }

  function Lowest(b: octet): bv32 { b as bv32 }

  function Or3(x: bv32, y: bv32, z: bv32): bv32 { x | y | z }

  function And(n: bv32, mask: bv32): bv32 { n & mask }

  lemma WordIsOr3(b0: octet, b1: octet, b2: octet)
    ensures Word(b0, b1, b2) == Or3(High(b0), Middle(b1), Lowest(b2))
  {
    hide Word;
    WordIsOr(b0, b1, b2);
  }

  lemma EightIsPart(n: bv32)
    requires n < 0x100_0000
    ensures High(Eight(n, 16)) == And(n, 0xFF_0000)
    ensures Middle(Eight(n, 8)) == And(n, 0xFF00)
    ensures Lowest(Eight(n, 0)) == And(n, 0xFF)
    ensures Middle(0) == 0 && Lowest(0) == 0
  {
    hide Eight;
    EightInPlace(n);
  }

  lemma EightInPlace(n: bv32)
    requires n < 0x100_0000
    ensures (Eight(n, 16) as bv32) << 16 == n & 0xFF_0000
    ensures (Eight(n, 8) as bv32) << 8 == n & 0xFF00
    ensures (Eight(n, 0) as bv32) == n & 0xFF
  {
  }

  lemma BytesJoin(n: bv32)
    requires n < 0x100_0000
    ensures Or3(And(n, 0xFF_0000), And(n, 0xFF00), And(n, 0xFF)) == n
    ensures Or3(And(n, 0xFF_0000), And(n, 0xFF00), 0) == And(n, 0xFF_FF00)
    ensures Or3(And(n, 0xFF_0000), 0, 0) == And(n, 0xFF_0000)
  {
  }

  lemma WordOfEight(n: bv32)
    requires n < 0x100_0000
    ensures Word(Eight(n, 16), Eight(n, 8), Eight(n, 0)) == n
    ensures Word(Eight(n, 16), Eight(n, 8), 0) == And(n, 0xFF_FF00)
    ensures Word(Eight(n, 16), 0, 0) == And(n, 0xFF_0000)
  {
    hide *;
    WordIsOr3(Eight(n, 16), Eight(n, 8), Eight(n, 0));
    WordIsOr3(Eight(n, 16), Eight(n, 8), 0);
    WordIsOr3(Eight(n, 16), 0, 0);
    EightIsPart(n);
    BytesJoin(n);
  }

  lemma SixOfMasked(n: bv32)
    requires n < 0x100_0000
    ensures Six(And(n, 0xFF_FF00), 18) == Six(n, 18) && Six(And(n, 0xFF_FF00), 12) == Six(n, 12)
    ensures Six(And(n, 0xFF_FF00), 6) == Cut(Six(n, 6), 0x3C)
    ensures Six(And(n, 0xFF_0000), 18) == Six(n, 18)
    ensures Six(And(n, 0xFF_0000), 12) == Cut(Six(n, 12), 0x30)
  {
    hide *;
    SixOfTwo(n, And(n, 0xFF_FF00));
    SixOfOne(n, And(n, 0xFF_0000));
  }

  function Cut(d: octet, mask: octet): octet { d & mask }

  lemma SixOfTwo(n: bv32, m: bv32)
    requires n < 0x100_0000 && m == And(n, 0xFF_FF00)
    ensures Six(m, 18) == Six(n, 18) && Six(m, 12) == Six(n, 12) && Six(m, 6) == Cut(Six(n, 6), 0x3C)
  {
  }

  lemma SixOfOne(n: bv32, m: bv32)
    requires n < 0x100_0000 && m == And(n, 0xFF_0000)
    ensures Six(m, 18) == Six(n, 18) && Six(m, 12) == Cut(Six(n, 12), 0x30)
  {
  }

  lemma MaskedIsSame(d: octet)
    requires d < 64
    ensures Cut(d, 0x30) < 64 && (Cut(d, 0x30) == d <==> d & 15 == 0)
    ensures Cut(d, 0x3C) < 64 && (Cut(d, 0x3C) == d <==> d & 3 == 0)
    ensures d & 0 == 0
  {
  }

  /** The characters for the bytes of a block: those of the block, but for bits that stand for no
      byte. */
  lemma BlockOfTriple(t: seq<octet>)
    requires |t| == 4 && !Bad(Code(t[0])) && !Bad(Code(t[1]))
    ensures var b := Triple(Code(t[0]), Code(t[1]), 0, 0);
            Block(b[0], 0, 0)[..2] == t[..2] <==> Code(t[1]) & 15 == 0
    ensures !Bad(Code(t[2])) ==>
              var b := Triple(Code(t[0]), Code(t[1]), Code(t[2]), 0);
              Block(b[0], b[1], 0)[..3] == t[..3] <==> Code(t[2]) & 3 == 0
    ensures !Bad(Code(t[2])) && !Bad(Code(t[3])) ==>
              var b := Triple(Code(t[0]), Code(t[1]), Code(t[2]), Code(t[3]));
              Block(b[0], b[1], b[2]) == t
  {
    hide Letter, Code, Word, Six, Joined, Eight, Bad;
    BlockOfOne(t);
    if !Bad(Code(t[2])) {
      BlockOfTwo(t);
      if !Bad(Code(t[3])) {
        BlockOfThree(t);
      }
    }
  }

  lemma BlockOfOne(t: seq<octet>)
    requires |t| == 4 && !Bad(Code(t[0])) && !Bad(Code(t[1]))
    ensures var b := Triple(Code(t[0]), Code(t[1]), 0, 0);
            Block(b[0], 0, 0)[..2] == t[..2] <==> Code(t[1]) & 15 == 0
  {
    hide Letter, Code, Word, Six, Joined, Eight, Bad, And, Cut;
    var d0, d1 := Code(t[0]), Code(t[1]);
    var n := Joined(d0, d1, 0, 0);
    LetterOfCode(t[0]);
    LetterOfCode(t[1]);
    JoinedParts(d0, d1, 0, 0);
    WordOfEight(n);
    SixOfMasked(n);
    MaskedIsSame(d1);
    SameLetter(Cut(d1, 0x30), d1);
    var b := Block(Triple(d0, d1, 0, 0)[0], 0, 0);
    assert b[0] == t[0] && b[1] == Letter(Cut(d1, 0x30));
    assert b[..2] == t[..2] <==> b[1] == t[1] by { assert b[..2] == [b[0], b[1]] && t[..2] == [t[0], t[1]]; }
  }

  lemma BlockOfTwo(t: seq<octet>)
    requires |t| == 4 && !Bad(Code(t[0])) && !Bad(Code(t[1])) && !Bad(Code(t[2]))
    ensures var b := Triple(Code(t[0]), Code(t[1]), Code(t[2]), 0);
            Block(b[0], b[1], 0)[..3] == t[..3] <==> Code(t[2]) & 3 == 0
  {
    hide Letter, Code, Word, Six, Joined, Eight, Bad, And, Cut;
    var d0, d1, d2 := Code(t[0]), Code(t[1]), Code(t[2]);
    var n := Joined(d0, d1, d2, 0);
    LetterOfCode(t[0]);
    LetterOfCode(t[1]);
    LetterOfCode(t[2]);
    JoinedParts(d0, d1, d2, 0);
    WordOfEight(n);
    SixOfMasked(n);
    MaskedIsSame(d2);
    SameLetter(Cut(d2, 0x3C), d2);
    var b := Block(Triple(d0, d1, d2, 0)[0], Triple(d0, d1, d2, 0)[1], 0);
    assert b[0] == t[0] && b[1] == t[1] && b[2] == Letter(Cut(d2, 0x3C));
    assert b[..3] == t[..3] <==> b[2] == t[2] by {
      assert b[..3] == [b[0], b[1], b[2]] && t[..3] == [t[0], t[1], t[2]];
    }
  }

  lemma BlockOfThree(t: seq<octet>)
    requires |t| == 4 && !Bad(Code(t[0])) && !Bad(Code(t[1])) && !Bad(Code(t[2])) && !Bad(Code(t[3]))
    ensures var b := Triple(Code(t[0]), Code(t[1]), Code(t[2]), Code(t[3]));
            Block(b[0], b[1], b[2]) == t
  {
    hide Letter, Code, Word, Six, Joined, Eight, Bad, And, Cut;
    LetterOfCode(t[0]);
    LetterOfCode(t[1]);
    LetterOfCode(t[2]);
    LetterOfCode(t[3]);
    JoinedParts(Code(t[0]), Code(t[1]), Code(t[2]), Code(t[3]));
    WordOfEight(Joined(Code(t[0]), Code(t[1]), Code(t[2]), Code(t[3])));
  }

  lemma PadIsBad()
    ensures Bad(Code(PAD))
  {
  }

  ghost predicate ReadsBack(t: seq<octet>)
    requires |t| % 4 == 0
  {
    Decoded(t).Some? && Encoded(Decoded(t).value) == t
  }

  lemma CanonicalNext(t: seq<octet>)
    requires |t| > 4 && |t| % 4 == 0
    ensures Canonical(t) <==>
            !Bad(Code(t[0])) && !Bad(Code(t[1])) && !Bad(Code(t[2])) && !Bad(Code(t[3])) && Canonical(t[4..])
  {
    hide Code, Bad, Unused;
    var n, u := |t| - Padding(t), t[4..];
    assert forall i :: 4 <= i < |t| ==> t[i] == u[i - 4];
    assert Padding(u) == Padding(t);
    if Canonical(u) && !Bad(Code(t[0])) && !Bad(Code(t[1])) && !Bad(Code(t[2])) && !Bad(Code(t[3])) {
      forall i | 0 <= i < n ensures !Bad(Code(t[i])) {
        if i >= 4 {
          assert t[i] == u[i - 4];
        }
      }
      assert Canonical(t);
    }
    if Canonical(t) {
      forall i | 0 <= i < n - 4 ensures !Bad(Code(u[i])) {
        assert u[i] == t[i + 4];
      }
    }
  }

  lemma LastReadsBack(t: seq<octet>)
    requires |t| == 4
    ensures ReadsBack(t) <==> Canonical(t)
  {
    hide Code, Bad, Triple, Block, Decoded, Encoded, Canonical;
    var c0, c1, c2, c3 := Code(t[0]), Code(t[1]), Code(t[2]), Code(t[3]);
    assert t[0..] == t;
    LastBlock(t, 0);
    LastCanonical(t);
    if !Bad(c0) && !Bad(c1) {
      BlockOfTriple(t);
      LastOfOne(t, Triple(c0, c1, 0, 0));
      LastOfTwo(t, Triple(c0, c1, c2, 0));
      LastOfThree(t, Triple(c0, c1, c2, c3));
    }
  }

  lemma LastCanonical(t: seq<octet>)
    requires |t| == 4
    ensures var c0, c1, c2, c3 := Code(t[0]), Code(t[1]), Code(t[2]), Code(t[3]);
            Canonical(t) <==>
            && !Bad(c0) && !Bad(c1)
            && if t[2] == PAD then t[3] == PAD && c1 & 15 == 0
               else !Bad(c2) && if t[3] == PAD then c2 & 3 == 0 else !Bad(c3)
  {
    hide Code, Bad;
    PadIsBad();
    MaskNone(Code(t[3]));
  }

  lemma LastOfThree(t: seq<octet>, b: seq<octet>)
    requires |t| == 4 && |b| == 3
    ensures Encoded(b[..3]) == t <==> Block(b[0], b[1], b[2]) == t
  {
    hide Block;
    assert b[..3] == b && b[3..] == [];
    assert Block(b[0], b[1], b[2]) + [] == Block(b[0], b[1], b[2]);
  }

  lemma MaskNone(c: octet)
    ensures c & 0 == 0
  {
  }

  lemma LastOfOne(t: seq<octet>, b: seq<octet>)
    requires |t| == 4 && |b| == 3
    ensures Encoded(b[..1]) == t <==> Block(b[0], 0, 0)[..2] == t[..2] && t[2] == PAD && t[3] == PAD
  {
    hide Block;
    var e := Block(b[0], 0, 0)[..2] + [PAD, PAD];
    assert t == t[..2] + [t[2], t[3]];
    assert e[..2] == Block(b[0], 0, 0)[..2] && e[2] == PAD && e[3] == PAD;
  }

  lemma LastOfTwo(t: seq<octet>, b: seq<octet>)
    requires |t| == 4 && |b| == 3
    ensures Encoded(b[..2]) == t <==> Block(b[0], b[1], 0)[..3] == t[..3] && t[3] == PAD
  {
    hide Block;
    var e := Block(b[0], b[1], 0)[..3] + [PAD];
    assert t == t[..3] + [t[3]];
    assert e[..3] == Block(b[0], b[1], 0)[..3] && e[3] == PAD;
  }

  /** A text that is read stands for the bytes it is the encoding of if and only if it is in
      canonical form: fully padded, and with zeros in the bits that stand for no byte. */
  lemma {:induction false} OnlyCanonicalReadsBack(t: seq<octet>)
    requires |t| % 4 == 0
    ensures Decoded(t).Some? && Encoded(Decoded(t).value) == t <==> Canonical(t)
  {
    hide Code, Bad, Triple, Block, Decoded, Encoded, Canonical;
    if t == [] {
      NoBlock();
      NothingCanonical();
    } else if |t| == 4 {
      LastReadsBack(t);
    } else {
      OnlyCanonicalReadsBack(t[4..]);
      CanonicalNext(t);
      assert t[0..] == t;
      NextBlock(t, 0);
      if Decoded(t).Some? {
        var b, more := Triple(Code(t[0]), Code(t[1]), Code(t[2]), Code(t[3])), Decoded(t[4..]).value;
        BlockOfTriple(t[..4]);
        EncodedNext(b + more, 0);
        assert (b + more)[0..] == b + more && (b + more)[3..] == more;
        assert t == t[..4] + t[4..];
      }
    }
  }

  lemma NothingCanonical()
    ensures Canonical([]) && Encoded([]) == []
  {
  }

  /** Texts that are read and are not canonical: QR== and QQ=A stand for the byte that is written
      QQ==. */
  lemma LooseTexts()
    ensures Decoded([81, 81, PAD, PAD]) == Some([65]) && Canonical([81, 81, PAD, PAD])
    ensures Decoded([81, 82, PAD, PAD]) == Some([65]) && !Canonical([81, 82, PAD, PAD])
    ensures Decoded([81, 81, PAD, 65]) == Some([65]) && !Canonical([81, 81, PAD, 65])
  {
    LooseTriples();
    assert Code(81) == 16 && Code(82) == 17;
    LastCanonical([81, 81, PAD, PAD]);
    LastCanonical([81, 82, PAD, PAD]);
    LastCanonical([81, 81, PAD, 65]);
    assert Triple(16, 16, 0, 0)[..1] == Triple(16, 17, 0, 0)[..1] == [65];
  }

  lemma LooseTriples()
    ensures Triple(16, 16, 0, 0)[0] == 65 && Triple(16, 17, 0, 0)[0] == 65
    ensures (16 as octet) & 15 == 0 && (17 as octet) & 15 != 0
  {
  }

  // ---- the alphabet and the bits ----

  /** The alphabet: capital letters, small letters, digits, plus and slash, and each is read as the
      number it is written for. */
  lemma Alphabet(d: octet)
    requires d < 64
    ensures Letter(0) == 'A' as octet && Letter(26) == 'a' as octet && Letter(52) == '0' as octet
    ensures Letter(62) == '+' as octet && Letter(63) == '/' as octet && PAD == '=' as octet
    ensures d < 61 && d != 25 && d != 51 ==> Letter(d + 1) == Letter(d) + 1
    ensures Code(Letter(d)) == d
  {
  }

  /** Four characters hold the bits of three bytes, the first character the highest bits. */
  lemma BlockBits(b0: octet, b1: octet, b2: octet)
    ensures var t := Block(b0, b1, b2);
            && Code(t[0]) == b0 >> 2
            && Code(t[1]) == ((b0 & 3) << 4) | (b1 >> 4)
            && Code(t[2]) == ((b1 & 15) << 2) | (b2 >> 6)
            && Code(t[3]) == b2 & 63
  {
    hide Letter, Code, Word, Six;
    var n := Word(b0, b1, b2);
    CodeOfLetter(Six(n, 18));
    CodeOfLetter(Six(n, 12));
    CodeOfLetter(Six(n, 6));
    CodeOfLetter(Six(n, 0));
    WordIsOr(b0, b1, b2);
    SixBits(b0, b1, b2, n);
  }

  lemma SixBits(b0: octet, b1: octet, b2: octet, n: bv32)
    requires n == ((b0 as bv32) << 16) | ((b1 as bv32) << 8) | (b2 as bv32)
    ensures Six(n, 18) == b0 >> 2
    ensures Six(n, 12) == ((b0 & 3) << 4) | (b1 >> 4)
    ensures Six(n, 6) == ((b1 & 15) << 2) | (b2 >> 6)
    ensures Six(n, 0) == b2 & 63
  {
  }
}
