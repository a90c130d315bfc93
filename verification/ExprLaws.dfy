/** What each operator is worth, by its name and the worth of its operands. */
module ExprLaws {
  import opened Bytes
  import opened Wrappers
  import opened Decimal
  import opened Records
  import opened Expressions
  import opened ExprMeaning

  // ---- numbers ----

  /** The long that a value which is no double counts as. */
  predicate AsLong(v: Value, a: int) {
    match v
    case VLong(n) => a == n && IsInt64(n)
    case VText(s, _) => a == LongOf(s)
    case VDouble(_) => false
  }

  /** The operands of an operator are worth two values that count as longs. */
  ghost predicate Longs(m: Machine, fs: Fields, l: Expr, r: Expr, a: int, b: int) {
    && Meaning(m, fs, l).Worth? && AsLong(Meaning(m, fs, l).value, a)
    && Meaning(m, fs, r).Worth? && AsLong(Meaning(m, fs, r).value, b)
  }

  /** Worth that number, or nothing when it does not fit a long. */
  predicate IsNumber(v: Outcome<Value>, n: int) {
    if IsInt64(n) then v == Worth(VLong(n)) else !v.Worth?
  }

  /** Worth 1 or 0. */
  predicate Truth(v: Outcome<Value>, b: bool) { v == Worth(VLong(if b then 1 else 0)) }

  lemma OnOperands(m: Machine, fs: Fields, op: BinOp, l: Expr, r: Expr, a: int, b: int)
    requires Longs(m, fs, l, r, a, b) && op < LESS_THAN
    ensures Meaning(m, fs, Binary(op, l, r)) == OnLongs(op, a, b)
  {
    hide OnLongs, LongOf;
  }

  /** Sums, differences and products are those of the numbers as long as they fit a long. */
  lemma Arithmetic(m: Machine, fs: Fields, l: Expr, r: Expr, a: int, b: int)
    requires Longs(m, fs, l, r, a, b)
    ensures IsNumber(Meaning(m, fs, Binary(ADDITION, l, r)), a + b)
    ensures IsNumber(Meaning(m, fs, Binary(SUBTRACTION, l, r)), a - b)
    ensures IsNumber(Meaning(m, fs, Binary(MULTIPLICATION, l, r)), a * b)
  {
    hide Meaning, Longs;
    OnOperands(m, fs, ADDITION, l, r, a, b);
    OnOperands(m, fs, SUBTRACTION, l, r, a, b);
    OnOperands(m, fs, MULTIPLICATION, l, r, a, b);
  }

  /** Quotient and remainder make the dividend; the remainder is smaller than the divisor and has the
      sign of the dividend. They are worth nothing for a zero, and where the quotient does not fit. */
  lemma Dividing(m: Machine, fs: Fields, l: Expr, r: Expr, a: int, b: int)
    requires Longs(m, fs, l, r, a, b)
    ensures var quotient, rest := Meaning(m, fs, Binary(DIVISION, l, r)), Meaning(m, fs, Binary(MODULUS, l, r));
            if b == 0 || (a == -INT64_LIMIT && b == -1) then !quotient.Worth? && !rest.Worth?
            else
              && quotient.Worth? && quotient.value.VLong? && rest.Worth? && rest.value.VLong?
              && a == b * quotient.value.n + rest.value.n
              && (if rest.value.n < 0 then -rest.value.n else rest.value.n) < (if b < 0 then -b else b)
              && (rest.value.n == 0 || (rest.value.n > 0 <==> a >= 0))
  {
    hide Meaning, Longs, Quotient, Remainder;
    OnOperands(m, fs, DIVISION, l, r, a, b);
    OnOperands(m, fs, MODULUS, l, r, a, b);
    LongsFit(m, fs, l, r, a, b);
    if b != 0 {
      QuotientAndRemainder(a, b);
      QuotientFits(a, b);
    }
  }

  lemma LongsFit(m: Machine, fs: Fields, l: Expr, r: Expr, a: int, b: int)
    requires Longs(m, fs, l, r, a, b)
    ensures IsInt64(a) && IsInt64(b)
  {
  }

  /** A quotient of longs fits a long, but for one. */
  lemma QuotientFits(a: int, b: int)
    requires IsInt64(a) && IsInt64(b) && b != 0
    ensures IsInt64(Quotient(a, b)) <==> !(a == -INT64_LIMIT && b == -1)
    ensures IsInt64(Remainder(a, b))
  {
    hide *;
    QuotientAndRemainder(a, b);
    QuotientShrinks(a, b, Quotient(a, b), Remainder(a, b));
  }

  lemma QuotientShrinks(a: int, b: int, q: int, r: int)
    requires IsInt64(a) && IsInt64(b) && b != 0 && a == b * q + r
    requires Abs(r) < Abs(b) && (r == 0 || (r > 0) == (a >= 0))
    ensures IsInt64(q) <==> !(a == -INT64_LIMIT && b == -1)
    ensures IsInt64(r)
  {
    if b == 1 || b == -1 {
      assert r == 0;
    } else {
      Smaller(a, b, q, r);
    }
  }

  /** Division by a number that is neither 1 nor -1 at least halves. */
  lemma Smaller(a: int, b: int, q: int, r: int)
    requires (b >= 2 || b <= -2) && a == b * q + r && Abs(r) < Abs(b) && (r == 0 || (r > 0) == (a >= 0))
    ensures 2 * Abs(q) <= Abs(a)
  {
    hide Abs;
    AbsIs(a);
    AbsIs(b);
    AbsIs(q);
    AbsIs(r);
    Product(b, q, Abs(b), Abs(q));
    AtLeast(Abs(b), Abs(q));
    SameSide(a, b * q, r, Abs(b), Abs(q), Abs(b) * Abs(q));
  }

  lemma AtLeast(x: nat, y: nat)
    ensures x >= 2 ==> x * y >= 2 * y
    ensures y >= 1 ==> x * y >= x
    ensures y == 0 ==> x * y == 0
  {
  }

  lemma SameSide(a: int, p: int, r: int, x: nat, y: nat, xy: nat)
    requires a == p + r && (p == xy || p == 0 - xy) && 0 - x < r < x && (r == 0 || (r > 0) == (a >= 0))
    requires xy >= 2 * y && (y >= 1 ==> xy >= x) && (y == 0 ==> xy == 0)
    ensures 2 * y <= if a < 0 then -a else a
  {
  }

  lemma Logic(m: Machine, fs: Fields, l: Expr, r: Expr, a: int, b: int)
    requires Longs(m, fs, l, r, a, b)
    ensures Truth(Meaning(m, fs, Binary(LOGICAL_AND, l, r)), a != 0 && b != 0)
    ensures Truth(Meaning(m, fs, Binary(LOGICAL_OR, l, r)), a != 0 || b != 0)
  {
    hide Meaning, Longs;
    OnOperands(m, fs, LOGICAL_AND, l, r, a, b);
    OnOperands(m, fs, LOGICAL_OR, l, r, a, b);
  }

  /** Bit `k` of a number in two's complement. */
  function BitOf(n: int, k: nat): (b: int)
    ensures b == 0 || b == 1
    decreases k
  {
    if k == 0 then n % 2 else BitOf(n / 2, k - 1)
  }

  /** Each bit of an exclusive or is set exactly when the bits of the operands differ. */
  lemma ExclusiveOr(m: Machine, fs: Fields, l: Expr, r: Expr, a: int, b: int, k: nat)
    requires Longs(m, fs, l, r, a, b) && k < 64
    ensures var x := Meaning(m, fs, Binary(EXCLUSIVE_OR, l, r));
            && x.Worth? && x.value.VLong? && IsInt64(x.value.n)
            && (BitOf(x.value.n, k) == 1 <==> BitOf(a, k) != BitOf(b, k))
  {
    hide Meaning, Longs, BitOf, Xor, XorLong;
    OnOperands(m, fs, EXCLUSIVE_OR, l, r, a, b);
    LongsFit(m, fs, l, r, a, b);
    XorLongTwice(a, b);
    XorLongBit(a, b, k);
  }

  lemma XorLongBit(a: int, b: int, k: nat)
    requires k < 64
    ensures BitOf(XorLong(a, b), k) == 1 <==> BitOf(a, k) != BitOf(b, k)
  {
    hide Xor, BitOf;
    var w := 0x1_0000_0000_0000_0000;
    Pow2Of64();
    XorFits(a % w, b % w, 64);
    var x := Xor(a % w, b % w, 64);
    XorBit(a % w, b % w, 64, k);
    BitOfLow(a, 64, k);
    BitOfLow(b, 64, k);
    BitOfLow(ToSigned(x), 64, k);
    assert ToSigned(x) % w == x;
  }

  lemma {:induction false} XorFits(a: nat, b: nat, bits: nat)
    requires a < Pow2(bits)
    ensures Xor(a, b, bits) < Pow2(bits)
  {
    XorTwice(a, b, bits);
  }

  lemma {:induction false} XorBit(a: nat, b: nat, bits: nat, k: nat)
    requires k < bits
    ensures BitOf(Xor(a, b, bits), k) == 1 <==> BitOf(a, k) != BitOf(b, k)
  {
    var x := Xor(a, b, bits);
    assert x / 2 == Xor(a / 2, b / 2, bits - 1) && x % 2 == Bit(a % 2 != b % 2);
    if k > 0 {
      XorBit(a / 2, b / 2, bits - 1, k - 1);
    }
  }

  /** The low bits of a number are those of its remainder. */
  lemma {:induction false} BitOfLow(a: int, bits: nat, k: nat)
    requires k < bits
    ensures BitOf(a % Pow2(bits), k) == BitOf(a, k)
    decreases k
  {
    hide Pow2;
    Pow2Next(bits - 1);
    HalfOfRest(a, Pow2(bits - 1));
    if k > 0 {
      BitOfLow(a / 2, bits - 1, k - 1);
    }
  }

  lemma HalfOfRest(a: int, p: nat)
    requires p > 0
    ensures (a % (2 * p)) / 2 == (a / 2) % p && (a % (2 * p)) % 2 == a % 2
  {
    var q, s := a / (2 * p), a % (2 * p);
    assert a == 2 * (p * q) + s by { assert a == (2 * p) * q + s; assert (2 * p) * q == 2 * (p * q); }
    assert a / 2 == p * q + s / 2;
    RestOf(a / 2, p, q, s / 2);
  }

  lemma RestOf(a: int, p: nat, q: int, s: nat)
    requires a == p * q + s && s < p
    ensures a % p == s
  {
    var d := a / p - q;
    assert a == p * (a / p) + a % p;
    assert p * (a / p) - p * q == p * d;
    assert p * d == s - a % p;
    Multiples(p, d);
  }

  lemma Multiples(p: nat, d: int)
    ensures d >= 1 ==> p * d >= p
    ensures d <= -1 ==> p * d <= 0 - p
    ensures d == 0 ==> p * d == 0
  {
  }

  /** The unary operators. */
  lemma Unaries(m: Machine, fs: Fields, x: Expr, a: int)
    requires Meaning(m, fs, x).Worth? && AsLong(Meaning(m, fs, x).value, a)
    ensures IsNumber(Meaning(m, fs, Unary(UNARY_MINUS, x)), 0 - a)
    ensures Truth(Meaning(m, fs, Unary(LOGICAL_NEGATION, x)), a == 0)
    ensures Meaning(m, fs, Unary(BITWISE_NEGATION, x)).Worth?
    ensures var c := Meaning(m, fs, Unary(BITWISE_NEGATION, x)).value; c.VLong? && c.n + a == -1
  {
    hide LongOf;
  }

  // ---- comparisons ----

  /** Six comparisons of what is less, equal or greater. */
  ghost predicate Ordered(m: Machine, fs: Fields, l: Expr, r: Expr, less: bool, equal: bool) {
    && Truth(Meaning(m, fs, Binary(LESS_THAN, l, r)), less)
    && Truth(Meaning(m, fs, Binary(EQUAL, l, r)), equal)
    && Truth(Meaning(m, fs, Binary(GREATER_THAN, l, r)), !less && !equal)
    && Truth(Meaning(m, fs, Binary(LESS_OR_EQUAL, l, r)), less || equal)
    && Truth(Meaning(m, fs, Binary(NOT_EQUAL, l, r)), !equal)
    && Truth(Meaning(m, fs, Binary(GREATER_OR_EQUAL, l, r)), !less)
  }

  /** Numbers, and a text of a field against a number, compare as numbers. */
  lemma NumbersCompare(m: Machine, fs: Fields, l: Expr, r: Expr, a: int, b: int)
    requires Longs(m, fs, l, r, a, b)
    requires var v, w := Meaning(m, fs, l).value, Meaning(m, fs, r).value;
             (v.VText? ==> !v.constant && !w.VText?) && (w.VText? ==> !w.constant)
    ensures Ordered(m, fs, l, r, a < b, a == b)
  {
    hide LongOf, Meaning, OnLongs, Compare;
    var v, w := Meaning(m, fs, l).value, Meaning(m, fs, r).value;
    forall op: BinOp | LESS_THAN <= op <= NOT_EQUAL
      ensures Meaning(m, fs, Binary(op, l, r)) == OnLongs(op, a, b)
    {
      ComparesOperands(m, fs, op, l, r);
      OneCompares(m, op, v, w, a, b);
    }
    OrderOnLongs(a, b);
  }

  lemma ComparesOperands(m: Machine, fs: Fields, op: BinOp, l: Expr, r: Expr)
    requires IsCompare(op) && Meaning(m, fs, l).Worth? && Meaning(m, fs, r).Worth?
    ensures Meaning(m, fs, Binary(op, l, r)) == Compare(m, op, Meaning(m, fs, l).value, Meaning(m, fs, r).value)
  {
    hide Compare;
  }

  lemma OneCompares(m: Machine, op: BinOp, v: Value, w: Value, a: int, b: int)
    requires LESS_THAN <= op <= NOT_EQUAL && AsLong(v, a) && AsLong(w, b)
    requires (v.VText? ==> !v.constant && !w.VText?) && (w.VText? ==> !w.constant)
    ensures Compare(m, op, v, w) == OnLongs(op, a, b)
  {
    hide LongOf, OnLongs;
  }

  lemma OrderOnLongs(a: int, b: int)
    ensures Truth(OnLongs(LESS_THAN, a, b), a < b) && Truth(OnLongs(EQUAL, a, b), a == b)
    ensures Truth(OnLongs(GREATER_THAN, a, b), a > b) && Truth(OnLongs(LESS_OR_EQUAL, a, b), a <= b)
    ensures Truth(OnLongs(NOT_EQUAL, a, b), a != b) && Truth(OnLongs(GREATER_OR_EQUAL, a, b), a >= b)
  {
  }

  /** `s` comes before `t`: it is smaller where they first differ, or a beginning of it. */
  ghost predicate Before(s: seq<byte>, t: seq<byte>) { exists k: nat :: BeforeAt(s, t, k) }

  ghost predicate BeforeAt(s: seq<byte>, t: seq<byte>, k: nat) {
    k <= |s| && k < |t| && s[..k] == t[..k] && (k < |s| ==> s[k] < t[k])
  }

  lemma {:induction false} OneIsBefore(s: seq<byte>, t: seq<byte>)
    requires s != t
    ensures Before(s, t) || Before(t, s)
  {
    if s == [] {
      assert BeforeAt(s, t, 0);
    } else if t == [] {
      assert BeforeAt(t, s, 0);
    } else if s[0] != t[0] {
      assert BeforeAt(s, t, 0) || BeforeAt(t, s, 0);
    } else {
      assert s == [s[0]] + s[1..] && t == [t[0]] + t[1..];
      OneIsBefore(s[1..], t[1..]);
      BeforeInside(s, t);
      BeforeInside(t, s);
    }
  }

  lemma BeforeInside(s: seq<byte>, t: seq<byte>)
    requires s != [] && t != [] && s[0] == t[0]
    ensures Before(s[1..], t[1..]) ==> Before(s, t)
  {
    if k: nat :| BeforeAt(s[1..], t[1..], k) {
      assert s[..k + 1] == [s[0]] + s[1..][..k] && t[..k + 1] == [t[0]] + t[1..][..k];
      assert BeforeAt(s, t, k + 1);
    }
  }

  lemma OrderOfTexts(s: seq<byte>, t: seq<byte>)
    ensures StrCmp(s, t) < 0 <==> Before(s, t)
    ensures StrCmp(s, t) > 0 <==> Before(t, s)
  {
    hide StrCmp;
    StrCmpSwaps(s, t);
    if k: nat :| BeforeAt(s, t, k) {
      StrCmpAt(s, t, k);
    }
    if k: nat :| BeforeAt(t, s, k) {
      StrCmpAt(t, s, k);
    }
    if s != t {
      OneIsBefore(s, t);
    }
  }

  /** What a value is as text; that of a double has to fit a buffer of 64 bytes. */
  predicate AsText(m: Machine, v: Value, s: seq<byte>) {
    match v
    case VLong(n) => s == Text(n)
    case VText(t, _) => s == t
    case VDouble(d) => s == m.toText(d) && |s| < 64
  }

  /** Two texts, and a literal against anything, compare as texts. */
  lemma TextsCompare(m: Machine, fs: Fields, l: Expr, r: Expr, s: seq<byte>, t: seq<byte>)
    requires Meaning(m, fs, l).Worth? && Meaning(m, fs, r).Worth?
    requires var v, w := Meaning(m, fs, l).value, Meaning(m, fs, r).value;
             && AsText(m, v, s) && AsText(m, w, t)
             && ((v.VText? && (v.constant || w.VText?)) || (w.VText? && w.constant))
    ensures Ordered(m, fs, l, r, Before(s, t), s == t)
  {
    hide StrCmp, Text, Before, Meaning, OnLongs, Compare;
    var v, w := Meaning(m, fs, l).value, Meaning(m, fs, r).value;
    forall op: BinOp | LESS_THAN <= op <= NOT_EQUAL
      ensures Meaning(m, fs, Binary(op, l, r)) == OnLongs(op, StrCmp(s, t), 0)
    {
      ComparesOperands(m, fs, op, l, r);
      OneComparesTexts(m, op, v, w, s, t);
    }
    OrderOnLongs(StrCmp(s, t), 0);
    OrderOfTexts(s, t);
  }

  lemma OneComparesTexts(m: Machine, op: BinOp, v: Value, w: Value, s: seq<byte>, t: seq<byte>)
    requires LESS_THAN <= op <= NOT_EQUAL && AsText(m, v, s) && AsText(m, w, t)
    requires (v.VText? && (v.constant || w.VText?)) || (w.VText? && w.constant)
    ensures Compare(m, op, v, w) == OnLongs(op, StrCmp(s, t), 0)
  {
    hide StrCmp, Text, OnLongs;
  }

  /** A match is a pattern found at the very start. */
  lemma Matching(m: Machine, fs: Fields, l: Expr, r: Expr)
    requires Meaning(m, fs, l).Worth? && Meaning(m, fs, l).value.VText?
    requires Meaning(m, fs, r).Worth? && Meaning(m, fs, r).value.VText?
    ensures var found := m.search(Meaning(m, fs, r).value.s, Meaning(m, fs, l).value.s);
            var yes, no := Meaning(m, fs, Binary(MATCHES, l, r)), Meaning(m, fs, Binary(NOT_MATCHES, l, r));
            if found.BadPattern? then yes == Unsupported && no == Unsupported
            else Truth(yes, found == MatchAt(0)) && Truth(no, found != MatchAt(0))
  {
  }

  // ---- doubles ----

  predicate AsDouble(m: Machine, v: Value, d: Bits64) {
    match v
    case VLong(n) => d == m.ofLong(n)
    case VText(s, _) => d == m.ofText(s)
    case VDouble(x) => d == x
  }

  /** The operands are worth two values, one of them a double. */
  ghost predicate OneDouble(m: Machine, fs: Fields, l: Expr, r: Expr, v: Value, w: Value) {
    Meaning(m, fs, l) == Worth(v) && Meaning(m, fs, r) == Worth(w) && (v.VDouble? || w.VDouble?)
  }

  /** With a double on one side the machine's arithmetic on doubles is used. */
  lemma DoubleArithmetic(m: Machine, fs: Fields, op: BinOp, l: Expr, r: Expr, v: Value, w: Value, x: Bits64, y: Bits64)
    requires OneDouble(m, fs, l, r, v, w) && AsDouble(m, v, x) && AsDouble(m, w, y)
    ensures op in {ADDITION, SUBTRACTION, MULTIPLICATION, DIVISION} ==>
              Meaning(m, fs, Binary(op, l, r)) == Worth(VDouble(m.arith(op, x, y)))
    ensures op in {LOGICAL_AND, LOGICAL_OR} ==> Truth(Meaning(m, fs, Binary(op, l, r)), m.truth(op, x, y))
  {
  }

  /** And for comparisons, but with a literal. */
  lemma DoublesCompare(m: Machine, fs: Fields, op: BinOp, l: Expr, r: Expr, v: Value, w: Value, x: Bits64, y: Bits64)
    requires OneDouble(m, fs, l, r, v, w) && AsDouble(m, v, x) && AsDouble(m, w, y)
    requires !(v.VText? && v.constant) && !(w.VText? && w.constant)
    ensures op in {LESS_THAN, GREATER_THAN, LESS_OR_EQUAL, GREATER_OR_EQUAL, EQUAL, NOT_EQUAL} ==>
              Truth(Meaning(m, fs, Binary(op, l, r)), m.truth(op, x, y))
  {
    hide Meaning, ToText;
    if IsCompare(op) {
      ComparesOperands(m, fs, op, l, r);
    }
  }

  /** Remainders and exclusive or take the longs of both sides, doubles cut off. */
  lemma DoublesCutOff(m: Machine, fs: Fields, l: Expr, r: Expr, v: Value, w: Value, a: int, b: int)
    requires OneDouble(m, fs, l, r, v, w) && CutOff(m, v, a) && CutOff(m, w, b)
    ensures Meaning(m, fs, Binary(MODULUS, l, r)) == Meaning(m, fs, Binary(MODULUS, Long(a), Long(b)))
    ensures Meaning(m, fs, Binary(EXCLUSIVE_OR, l, r)) == Meaning(m, fs, Binary(EXCLUSIVE_OR, Long(a), Long(b)))
  {
    hide LongOf, OnLongs;
  }

  predicate CutOff(m: Machine, v: Value, a: int) {
    if v.VDouble? then IsInt64(a) && m.toLong(v.bits) == Some(a) else AsLong(v, a)
  }

  // ---- fields ----

  /** The number in a SHORT or a LONG field: signed, the low byte first. */
  lemma FieldNumbers(v: seq<byte>)
    ensures |v| == 2 ==> -0x8000 <= FieldLong(v) < 0x8000 && FieldLong(v) % 0x1_0000 == v[0] as int + 0x100 * v[1] as int
    ensures |v| == 8 ==>
              && IsInt64(FieldLong(v))
              && FieldLong(v) % 0x1_0000_0000_0000_0000 == U32(v[..4]) + 0x1_0000_0000 * U32(v[4..])
  {
    hide U32;
  }

  /** What a field is worth: the number in it, its text up to a NUL, and 0 or no text without it. */
  lemma FieldWorth(m: Machine, fs: Fields, id: nat, oc: int)
    ensures var v, e := ValueAt(fs, id, oc), Meaning(m, fs, FieldAt(id, oc));
            match FldType(id)
            case 0 => e == Worth(VLong(if v.Some? then FieldLong(v.value) else 0))
            case 1 => e == Worth(VLong(if v.Some? then FieldLong(v.value) else 0))
            case 3 => e == Worth(VDouble(if v.None? then [0, 0, 0, 0, 0, 0, 0, 0] else if |v.value| == 8 then v.value else m.ofFloat(v.value)))
            case 4 => e == Worth(VDouble(if v.None? then [0, 0, 0, 0, 0, 0, 0, 0] else if |v.value| == 8 then v.value else m.ofFloat(v.value)))
            case _ => e == Worth(VText(if v.Some? then CText(v.value) else [], false))
  {
    hide FieldLong, CText;
  }
}
