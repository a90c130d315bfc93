/** The reflected CRC-32 of section 8 of RFC 1952, bit by bit, and what it detects. */
module Checksum {

  const POLYNOMIAL: bv32 := 0xEDB8_8320

  /** One bit: the lowest bit falls out, and takes the polynomial in when it was set. */
  function Step(crc: bv32): bv32 {
    Xor(Half(crc), Mask(Low(crc)))
  }

  function Half(a: bv32): bv32 { a >> 1 }

  function Low(a: bv32): bv32 { a & 1 }

  /** The polynomial for a bit that is set, nothing for one that is not. */
  function Mask(bit: bv32): bv32 { POLYNOMIAL & (0 - bit) }

  function Steps(crc: bv32, n: nat): bv32 {
    if n == 0 then crc else Step(Steps(crc, n - 1))
  }

  function Xor(a: bv32, b: bv32): bv32 { a ^ b }

  function Wide(b: bv8): bv32 { b as bv32 }

  function Up(a: bv32): bv32 { a << 8 }

  function Byte(crc: bv32, b: bv8): bv32 { Steps(Xor(crc, Wide(b)), 8) }

  /** The state after a byte sequence. */
  function Crc(crc: bv32, data: seq<bv8>): bv32
    decreases |data|
  {
    if data == [] then crc else Crc(Byte(crc, data[0]), data[1..])
  }

  /** The checksum of `data`. */
  function Sum(data: seq<bv8>): bv32 { Complement(Crc(0xFFFF_FFFF, data)) }

  function Complement(a: bv32): bv32 { !a }

  method Crc32b(data: seq<bv8>) returns (sum: bv32)
    ensures sum == Sum(data)
  {
    hide *;
    var crc: bv32 := 0xFFFF_FFFF;
    assert data[0..] == data;
    for i := 0 to |data|
      invariant Crc(crc, data[i..]) == Crc(0xFFFF_FFFF, data)
    {
      assert data[i..][1..] == data[i + 1..];
      CrcNext(crc, data[i..]);
      crc := TakeByte(crc, data[i]);
    }
    CrcOfNone(crc);
    assert data[|data|..] == [];
    SumIs(data);
    sum := Complement(crc);
  }

  lemma SumIs(data: seq<bv8>)
    ensures Sum(data) == Complement(Crc(0xFFFF_FFFF, data))
  {
  }

  method TakeByte(start: bv32, b: bv8) returns (crc: bv32)
    ensures crc == Byte(start, b)
  {
    hide Step, Xor, Wide, Mask, Half, Low;
    crc := Xor(start, Wide(b));
    ghost var first := crc;
    for j := 0 to 8
      invariant crc == Steps(first, j)
    {
      StepIs(crc);
      var mask := Mask(Low(crc));
      crc := Xor(Half(crc), mask);
    }
  }

  // ---- one bit ----

  function Unstep(crc: bv32): bv32 {
    if crc & 0x8000_0000 != 0 then ((crc ^ POLYNOMIAL) << 1) | 1 else crc << 1
  }

  /** A bit step can be undone, and every state is one it leads to. */
  lemma StepIsInvertible(crc: bv32)
    ensures Unstep(Step(crc)) == crc
    ensures Step(Unstep(crc)) == crc
  {
    hide *;
    UnstepOfStep(crc);
    StepOfUnstep(crc);
  }

  lemma UnstepOfStep(crc: bv32)
    ensures Unstep(Step(crc)) == crc
  {
  }

  lemma StepOfUnstep(crc: bv32)
    ensures Step(Unstep(crc)) == crc
  {
    hide Step;
    if crc & 0x8000_0000 != 0 {
      StepOfSet(crc);
    } else {
      StepOfClear(crc);
    }
  }

  lemma StepOfSet(crc: bv32)
    requires crc & 0x8000_0000 != 0
    ensures Step(((crc ^ POLYNOMIAL) << 1) | 1) == crc
  {
  }

  lemma StepOfClear(crc: bv32)
    requires crc & 0x8000_0000 == 0
    ensures Step(crc << 1) == crc
  {
  }

  lemma LowIsBit(a: bv32)
    ensures Low(a) == 0 || Low(a) == 1
  {
  }

  lemma MaskIs(bit: bv32)
    ensures bit == 0 ==> Mask(bit) == 0
    ensures bit == 1 ==> Mask(bit) == POLYNOMIAL
  {
  }

  lemma StepIs(a: bv32)
    ensures Step(a) == Xor(Half(a), Mask(Low(a)))
  {
    hide Xor, Half, Mask, Low;
  }

  lemma HalvesAdd(a: bv32, b: bv32)
    ensures Half(Xor(a, b)) == Xor(Half(a), Half(b))
    ensures Low(Xor(a, b)) == Xor(Low(a), Low(b))
  {
  }

  lemma XorOfBits()
    ensures Xor(0, 0) == 0 && Xor(0, 1) == 1 && Xor(1, 0) == 1 && Xor(1, 1) == 0
  {
  }

  lemma XorWithNothing(a: bv32)
    ensures Xor(a, 0) == a && Xor(0, a) == a && Xor(a, a) == 0
  {
  }

  lemma MasksAdd(a: bv32, b: bv32)
    ensures Mask(Xor(Low(a), Low(b))) == Xor(Mask(Low(a)), Mask(Low(b)))
  {
    hide *;
    LowIsBit(a);
    LowIsBit(b);
    MaskIs(0);
    MaskIs(1);
    XorOfBits();
    XorWithNothing(0);
    XorWithNothing(POLYNOMIAL);
  }

  lemma XorAssociates(a: bv32, b: bv32, c: bv32)
    ensures Xor(Xor(a, b), c) == Xor(a, Xor(b, c))
  {
  }

  lemma XorCommutes(a: bv32, b: bv32)
    ensures Xor(a, b) == Xor(b, a)
  {
  }

  lemma Exchange(a: bv32, b: bv32, p: bv32, q: bv32)
    ensures Xor(Xor(a, b), Xor(p, q)) == Xor(Xor(a, p), Xor(b, q))
  {
    hide *;
    XorAssociates(a, b, Xor(p, q));
    XorAssociates(b, p, q);
    XorCommutes(b, p);
    XorAssociates(p, b, q);
    XorAssociates(a, p, Xor(b, q));
  }

  lemma StepAdds(a: bv32, b: bv32)
    ensures Step(Xor(a, b)) == Xor(Step(a), Step(b))
  {
    hide *;
    StepIs(a);
    StepIs(b);
    StepIs(Xor(a, b));
    HalvesAdd(a, b);
    MasksAdd(a, b);
    Exchange(Half(a), Half(b), Mask(Low(a)), Mask(Low(b)));
  }

  // ---- bytes ----

  lemma StepsNext(a: bv32, n: nat)
    ensures Steps(a, 0) == a && Steps(a, n + 1) == Step(Steps(a, n))
  {
  }

  lemma {:induction false} StepsInjective(a: bv32, b: bv32, n: nat)
    requires Steps(a, n) == Steps(b, n)
    ensures a == b
  {
    hide *;
    StepsNext(a, 0);
    StepsNext(b, 0);
    if n > 0 {
      StepsNext(a, n - 1);
      StepsNext(b, n - 1);
      StepIsInvertible(Steps(a, n - 1));
      StepIsInvertible(Steps(b, n - 1));
      StepsInjective(a, b, n - 1);
    }
  }

  lemma {:induction false} StepsAdd(a: bv32, b: bv32, n: nat)
    ensures Steps(Xor(a, b), n) == Xor(Steps(a, n), Steps(b, n))
  {
    hide *;
    if n == 0 {
      StepsNext(a, 0);
      StepsNext(b, 0);
      StepsNext(Xor(a, b), 0);
    } else {
      StepsAdd(a, b, n - 1);
      StepAdds(Steps(a, n - 1), Steps(b, n - 1));
      StepsNext(a, n - 1);
      StepsNext(b, n - 1);
      StepsNext(Xor(a, b), n - 1);
    }
  }

  lemma {:induction false} StepsThen(a: bv32, n: nat, m: nat)
    ensures Steps(Steps(a, n), m) == Steps(a, n + m)
  {
    hide *;
    if m == 0 {
      StepsNext(Steps(a, n), 0);
    } else {
      StepsThen(a, n, m - 1);
      StepsNext(Steps(a, n), m - 1);
      StepsNext(a, n + m - 1);
    }
  }

  lemma XorKeeps(a: bv32, b: bv32, x: bv32)
    ensures Xor(a, x) == Xor(b, x) ==> a == b
    ensures Xor(x, a) == Xor(x, b) ==> a == b
  {
  }

  lemma CrcNext(crc: bv32, data: seq<bv8>)
    requires data != []
    ensures Crc(crc, data) == Crc(Byte(crc, data[0]), data[1..])
  {
  }

  lemma ByteIs(crc: bv32, b: bv8)
    ensures Byte(crc, b) == Steps(Xor(crc, Wide(b)), 8)
  {
  }

  lemma CrcOfNone(crc: bv32)
    ensures Crc(crc, []) == crc
  {
  }

  lemma {:induction false} CrcInjective(a: bv32, b: bv32, data: seq<bv8>)
    requires Crc(a, data) == Crc(b, data)
    ensures a == b
    decreases |data|
  {
    hide *;
    if data == [] {
      CrcOfNone(a);
      CrcOfNone(b);
    } else {
      var x := Wide(data[0]);
      CrcNext(a, data);
      CrcNext(b, data);
      CrcInjective(Byte(a, data[0]), Byte(b, data[0]), data[1..]);
      ByteIs(a, data[0]);
      ByteIs(b, data[0]);
      StepsInjective(Xor(a, x), Xor(b, x), 8);
      XorKeeps(a, b, x);
    }
  }

  lemma {:induction false} CrcConcat(crc: bv32, a: seq<bv8>, b: seq<bv8>)
    ensures Crc(crc, a + b) == Crc(Crc(crc, a), b)
    decreases |a|
  {
    hide *;
    if a == [] {
      assert a + b == b;
      CrcOfNone(crc);
    } else {
      assert (a + b)[1..] == a[1..] + b;
      CrcNext(crc, a);
      CrcNext(crc, a + b);
      CrcConcat(Byte(crc, a[0]), a[1..], b);
    }
  }

  // ---- four bytes at once ----

  predicate Low24(a: bv32) { a < 0x100_0000 }

  /** A lowest bit that is not set only falls out. */
  lemma EvenStep(a: bv32)
    requires Low(a) == 0
    ensures Step(a) == Half(a)
  {
    hide *;
    StepIs(a);
    MaskIs(0);
    XorWithNothing(Half(a));
  }

  lemma LowBitsClear(a: bv32)
    requires Low24(a)
    ensures var s := Up(a);
            && Low(s) == 0 && Low(Half(s)) == 0 && Low(Half(Half(s))) == 0 && Low(Half(Half(Half(s)))) == 0
            && Low(Half(Half(Half(Half(s))))) == 0 && Low(Half(Half(Half(Half(Half(s)))))) == 0
            && Low(Half(Half(Half(Half(Half(Half(s))))))) == 0
            && Low(Half(Half(Half(Half(Half(Half(Half(s)))))))) == 0
            && Half(Half(Half(Half(Half(Half(Half(Half(s)))))))) == a
  {
  }

  /** Eight steps take back a shift by eight places. */
  lemma ShiftedOut(a: bv32)
    requires Low24(a)
    ensures Steps(Up(a), 8) == a
  {
    hide *;
    var s := Up(a);
    LowBitsClear(a);
    var s1 := Half(s);
    var s2 := Half(s1);
    var s3 := Half(s2);
    var s4 := Half(s3);
    var s5 := Half(s4);
    var s6 := Half(s5);
    var s7 := Half(s6);
    EvenStep(s);
    EvenStep(s1);
    EvenStep(s2);
    EvenStep(s3);
    EvenStep(s4);
    EvenStep(s5);
    EvenStep(s6);
    EvenStep(s7);
    StepsNext(s, 0);
    StepsNext(s, 1);
    StepsNext(s, 2);
    StepsNext(s, 3);
    StepsNext(s, 4);
    StepsNext(s, 5);
    StepsNext(s, 6);
    StepsNext(s, 7);
  }

  /** Four bytes as one word, the first one lowest. */
  function Word(b0: bv8, b1: bv8, b2: bv8, b3: bv8): bv32 {
    Xor(Xor(Xor(Wide(b0), Up(Wide(b1))), Up(Up(Wide(b2)))), Up(Up(Up(Wide(b3)))))
  }

  lemma WordParts(b0: bv8, b1: bv8, b2: bv8, b3: bv8)
    ensures var w := Word(b0, b1, b2, b3);
            && (w & 255) as bv8 == b0 && ((w >> 8) & 255) as bv8 == b1
            && ((w >> 16) & 255) as bv8 == b2 && (w >> 24) as bv8 == b3
  {
  }

  lemma WordInjective(a0: bv8, a1: bv8, a2: bv8, a3: bv8, b0: bv8, b1: bv8, b2: bv8, b3: bv8)
    requires Word(a0, a1, a2, a3) == Word(b0, b1, b2, b3)
    ensures a0 == b0 && a1 == b1 && a2 == b2 && a3 == b3
  {
    hide *;
    WordParts(a0, a1, a2, a3);
    WordParts(b0, b1, b2, b3);
  }

  /** A byte that comes after `n` bits is as good as one that stood `n` places further up. */
  lemma LateByte(start: bv32, n: nat, up: bv32, b: bv8)
    requires Steps(up, n) == Wide(b)
    ensures Byte(Steps(start, n), b) == Steps(Xor(start, up), n + 8)
  {
    hide *;
    ByteIs(Steps(start, n), b);
    StepsAdd(start, up, n);
    StepsThen(Xor(start, up), n, 8);
  }

  lemma WideIsLow(b: bv8)
    ensures Low24(Wide(b)) && Low24(Up(Wide(b))) && Low24(Up(Up(Wide(b))))
  {
  }

  lemma UpIsTakenBack(b: bv8)
    ensures Steps(Up(Wide(b)), 8) == Wide(b)
    ensures Steps(Up(Up(Wide(b))), 16) == Wide(b)
    ensures Steps(Up(Up(Up(Wide(b)))), 24) == Wide(b)
  {
    hide *;
    var x := Wide(b);
    WideIsLow(b);
    ShiftedOut(x);
    ShiftedOut(Up(x));
    ShiftedOut(Up(Up(x)));
    StepsThen(Up(Up(x)), 8, 8);
    StepsThen(Up(Up(Up(x))), 8, 16);
  }

  lemma CrcOfFour(crc: bv32, s: seq<bv8>)
    requires |s| == 4
    ensures Crc(crc, s) == Byte(Byte(Byte(Byte(crc, s[0]), s[1]), s[2]), s[3])
  {
    hide *;
    var c1 := Byte(crc, s[0]);
    var c2 := Byte(c1, s[1]);
    var c3 := Byte(c2, s[2]);
    assert s[1..][1..] == s[2..] && s[2..][1..] == s[3..] && s[3..][1..] == [];
    CrcNext(crc, s);
    CrcNext(c1, s[1..]);
    CrcNext(c2, s[2..]);
    CrcNext(c3, s[3..]);
    CrcOfNone(Byte(c3, s[3]));
  }

  lemma Associate(c: bv32, a0: bv32, a1: bv32, a2: bv32, a3: bv32)
    ensures Xor(Xor(Xor(Xor(c, a0), a1), a2), a3) == Xor(c, Xor(Xor(Xor(a0, a1), a2), a3))
  {
    hide *;
    XorAssociates(c, a0, a1);
    XorAssociates(c, Xor(a0, a1), a2);
    XorAssociates(c, Xor(Xor(a0, a1), a2), a3);
  }

  lemma WordIs(b0: bv8, b1: bv8, b2: bv8, b3: bv8)
    ensures Word(b0, b1, b2, b3) == Xor(Xor(Xor(Wide(b0), Up(Wide(b1))), Up(Up(Wide(b2)))), Up(Up(Up(Wide(b3)))))
  {
  }

  /** Four bytes act like one word. */
  lemma FourBytes(crc: bv32, s: seq<bv8>)
    requires |s| == 4
    ensures Crc(crc, s) == Steps(Xor(crc, Word(s[0], s[1], s[2], s[3])), 32)
  {
    hide *;
    CrcOfFour(crc, s);
    var a0, a1, a2, a3 := Wide(s[0]), Up(Wide(s[1])), Up(Up(Wide(s[2]))), Up(Up(Up(Wide(s[3]))));
    ByteIs(crc, s[0]);
    UpIsTakenBack(s[1]);
    UpIsTakenBack(s[2]);
    UpIsTakenBack(s[3]);
    LateByte(Xor(crc, a0), 8, a1, s[1]);
    LateByte(Xor(Xor(crc, a0), a1), 16, a2, s[2]);
    LateByte(Xor(Xor(Xor(crc, a0), a1), a2), 24, a3, s[3]);
    WordIs(s[0], s[1], s[2], s[3]);
    Associate(crc, a0, a1, a2, a3);
  }

  lemma FourInjective(crc: bv32, s: seq<bv8>, t: seq<bv8>)
    requires |s| == |t| == 4 && Crc(crc, s) == Crc(crc, t)
    ensures s == t
  {
    hide *;
    FourBytes(crc, s);
    FourBytes(crc, t);
    var v, w := Word(s[0], s[1], s[2], s[3]), Word(t[0], t[1], t[2], t[3]);
    StepsInjective(Xor(crc, v), Xor(crc, w), 32);
    XorKeeps(v, w, crc);
    WordInjective(s[0], s[1], s[2], s[3], t[0], t[1], t[2], t[3]);
  }

  lemma UpToFour(crc: bv32, s: seq<bv8>, t: seq<bv8>)
    requires |s| == |t| <= 4 && Crc(crc, s) == Crc(crc, t)
    ensures s == t
  {
    hide *;
    var more := seq(4 - |s|, _ => 0 as bv8);
    CrcConcat(crc, s, more);
    CrcConcat(crc, t, more);
    FourInjective(crc, s + more, t + more);
    assert (s + more)[..|s|] == s && (t + more)[..|s|] == t;
  }

  // ---- what is detected ----

  /** Inputs that differ only within four bytes next to each other have different checksums. */
  lemma BurstDetected(before: seq<bv8>, s: seq<bv8>, t: seq<bv8>, behind: seq<bv8>)
    requires |s| == |t| <= 4 && s != t
    ensures Sum(before + s + behind) != Sum(before + t + behind)
  {
    hide *;
    var c := Crc(0xFFFF_FFFF, before);
    CrcConcat(0xFFFF_FFFF, before + s, behind);
    CrcConcat(0xFFFF_FFFF, before, s);
    CrcConcat(0xFFFF_FFFF, before + t, behind);
    CrcConcat(0xFFFF_FFFF, before, t);
    SumsAre(before + s + behind, before + t + behind);
    if Crc(Crc(c, s), behind) == Crc(Crc(c, t), behind) {
      CrcInjective(Crc(c, s), Crc(c, t), behind);
      UpToFour(c, s, t);
    }
  }

  lemma SumsAre(s: seq<bv8>, t: seq<bv8>)
    ensures Sum(s) == Sum(t) <==> Crc(0xFFFF_FFFF, s) == Crc(0xFFFF_FFFF, t)
  {
    hide *;
    SumIs(s);
    SumIs(t);
    Complements(Crc(0xFFFF_FFFF, s), Crc(0xFFFF_FFFF, t));
  }

  lemma Complements(a: bv32, b: bv32)
    ensures Complement(a) == Complement(b) <==> a == b
  {
  }

  /** One differing byte is detected, wherever it is. */
  lemma OneByteDetected(s: seq<bv8>, t: seq<bv8>, k: nat)
    requires |s| == |t| && k < |s| && s[k] != t[k]
    requires forall i :: 0 <= i < |s| && i != k ==> s[i] == t[i]
    ensures Sum(s) != Sum(t)
  {
    hide *;
    BurstDetected(s[..k], [s[k]], [t[k]], s[k + 1..]);
    assert s == s[..k] + [s[k]] + s[k + 1..];
    assert t == s[..k] + [t[k]] + s[k + 1..];
  }

  // ---- the generator, and data that carries its checksum ----

  /** The place of x^e in a reflected polynomial. */
  function Term(e: nat): bv32
    requires e < 32
  {
    1 << (31 - e)
  }

  /** The generator of section 8 of RFC 1952: x^32 and these. */
  lemma GeneratorTerms()
    ensures POLYNOMIAL == Term(26) | Term(23) | Term(22) | Term(16) | Term(12) | Term(11) | Term(10) | Term(8)
                          | Term(7) | Term(5) | Term(4) | Term(2) | Term(1) | Term(0)
  {
  }

  /** What is left of a state of ones after four zero bytes. */
  lemma OnesAfterFour()
    ensures Steps(0xFFFF_FFFF, 32) == 0xDEBB_20E3
  {
    hide *;
    Eight0();
    Eight1();
    Eight2();
    Eight3();
    StepsThen(0xFFFF_FFFF, 8, 8);
    StepsThen(0xFFFF_FFFF, 16, 8);
    StepsThen(0xFFFF_FFFF, 24, 8);
  }

  lemma Eight0()
    ensures Steps(0xFFFF_FFFF, 8) == 0x2DFD_1072
  {
    hide *;
    var a: bv32 := 0xFFFF_FFFF;
    StepsNext(a, 0);
    StepsNext(a, 0);
    BitOut(0xFFFF_FFFF, 0x9247_7CDF);
    StepsNext(a, 1);
    BitOut(0x9247_7CDF, 0xA49B_3D4F);
    StepsNext(a, 2);
    BitOut(0xA49B_3D4F, 0xBFF5_1D87);
    StepsNext(a, 3);
    BitOut(0xBFF5_1D87, 0xB242_0DE3);
    StepsNext(a, 4);
    BitOut(0xB242_0DE3, 0xB499_85D1);
    StepsNext(a, 5);
    BitOut(0xB499_85D1, 0xB7F4_41C8);
    StepsNext(a, 6);
    BitGone(0xB7F4_41C8, 0x5BFA_20E4);
    StepsNext(a, 7);
    BitGone(0x5BFA_20E4, 0x2DFD_1072);
  }

  lemma Eight1()
    ensures Steps(0x2DFD_1072, 8) == 0xBE26_ED00
  {
    hide *;
    var a: bv32 := 0x2DFD_1072;
    StepsNext(a, 0);
    StepsNext(a, 0);
    BitGone(0x2DFD_1072, 0x16FE_8839);
    StepsNext(a, 1);
    BitOut(0x16FE_8839, 0xE6C7_C73C);
    StepsNext(a, 2);
    BitGone(0xE6C7_C73C, 0x7363_E39E);
    StepsNext(a, 3);
    BitGone(0x7363_E39E, 0x39B1_F1CF);
    StepsNext(a, 4);
    BitOut(0x39B1_F1CF, 0xF160_7BC7);
    StepsNext(a, 5);
    BitOut(0xF160_7BC7, 0x9508_BEC3);
    StepsNext(a, 6);
    BitOut(0x9508_BEC3, 0xA73C_DC41);
    StepsNext(a, 7);
    BitOut(0xA73C_DC41, 0xBE26_ED00);
  }

  lemma Eight2()
    ensures Steps(0xBE26_ED00, 8) == 0x00BE_26ED
  {
    hide *;
    var a: bv32 := 0xBE26_ED00;
    StepsNext(a, 0);
    StepsNext(a, 0);
    BitGone(0xBE26_ED00, 0x5F13_7680);
    StepsNext(a, 1);
    BitGone(0x5F13_7680, 0x2F89_BB40);
    StepsNext(a, 2);
    BitGone(0x2F89_BB40, 0x17C4_DDA0);
    StepsNext(a, 3);
    BitGone(0x17C4_DDA0, 0x0BE2_6ED0);
    StepsNext(a, 4);
    BitGone(0x0BE2_6ED0, 0x05F1_3768);
    StepsNext(a, 5);
    BitGone(0x05F1_3768, 0x02F8_9BB4);
    StepsNext(a, 6);
    BitGone(0x02F8_9BB4, 0x017C_4DDA);
    StepsNext(a, 7);
    BitGone(0x017C_4DDA, 0x00BE_26ED);
  }

  lemma Eight3()
    ensures Steps(0x00BE_26ED, 8) == 0xDEBB_20E3
  {
    hide *;
    var a: bv32 := 0x00BE_26ED;
    StepsNext(a, 0);
    StepsNext(a, 0);
    BitOut(0x00BE_26ED, 0xEDE7_9056);
    StepsNext(a, 1);
    BitGone(0xEDE7_9056, 0x76F3_C82B);
    StepsNext(a, 2);
    BitOut(0x76F3_C82B, 0xD6C1_6735);
    StepsNext(a, 3);
    BitOut(0xD6C1_6735, 0x86D8_30BA);
    StepsNext(a, 4);
    BitGone(0x86D8_30BA, 0x436C_185D);
    StepsNext(a, 5);
    BitOut(0x436C_185D, 0xCC0E_8F0E);
    StepsNext(a, 6);
    BitGone(0xCC0E_8F0E, 0x6607_4787);
    StepsNext(a, 7);
    BitOut(0x6607_4787, 0xDEBB_20E3);
  }

  lemma BitOut(a: bv32, b: bv32)
    requires a & 1 == 1 && b == (a >> 1) ^ 0xEDB8_8320
    ensures Step(a) == b
  {
  }

  lemma BitGone(a: bv32, b: bv32)
    requires a & 1 == 0 && b == a >> 1
    ensures Step(a) == b
  {
  }

  lemma OnesOf(a: bv32)
    ensures Xor(a, Complement(a)) == 0xFFFF_FFFF
  {
  }

  /** Data followed by four bytes leaves the known remainder if and only if the four bytes are the
      checksum of the data, the low byte first. */
  lemma CarriesItsSum(data: seq<bv8>, tail: seq<bv8>)
    requires |tail| == 4
    ensures Crc(0xFFFF_FFFF, data + tail) == 0xDEBB_20E3 <==> Word(tail[0], tail[1], tail[2], tail[3]) == Sum(data)
  {
    hide *;
    var c := Crc(0xFFFF_FFFF, data);
    var w := Word(tail[0], tail[1], tail[2], tail[3]);
    CrcConcat(0xFFFF_FFFF, data, tail);
    FourBytes(c, tail);
    SumIs(data);
    OnesOf(c);
    OnesAfterFour();
    if Steps(Xor(c, w), 32) == Steps(0xFFFF_FFFF, 32) {
      StepsInjective(Xor(c, w), 0xFFFF_FFFF, 32);
      XorKeeps(w, Complement(c), c);
    }
  }
}
