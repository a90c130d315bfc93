/** What an expression is worth over the fields of a buffer. */
module ExprMeaning {
  import opened Bytes
  import opened Wrappers
  import opened Scanning
  import opened Decimal
  import opened FieldSeq
  import opened Records
  import opened Expressions

  type Fields = seq<Field<seq<byte>>>

  datatype Value = VLong(n: int) | VDouble(bits: Bits64) | VText(s: seq<byte>, constant: bool)

  /** A value; the exception for what the evaluator does not support; or nothing the language
      defines: a signed overflow, a division by zero, memory that does not hold the value. */
  datatype Outcome<T> = Worth(value: T) | Unsupported | Undefined

  datatype Match = BadPattern | NoMatch | MatchAt(start: nat)

  /** What is left to the machine: arithmetic on doubles and regular expressions. */
  datatype Machine = Machine(
    arith: (BinOp, Bits64, Bits64) -> Bits64,
    truth: (BinOp, Bits64, Bits64) -> bool,
    ofLong: int -> Bits64,
    ofText: seq<byte> -> Bits64,
    ofFloat: seq<byte> -> Bits64,
    toLong: Bits64 -> Option<int>,
    toText: Bits64 -> seq<byte>,
    search: (seq<byte>, seq<byte>) -> Match
  )

  const ZERO_DOUBLE: Bits64 := [0, 0, 0, 0, 0, 0, 0, 0]

  /** The size of the buffers numbers are printed into before they are compared as text. */
  const TEXT_BUFFER := 64

  function Bit(b: bool): (n: int) { if b then 1 else 0 }

  /** A number, if it fits a long. */
  function Checked(n: int): (v: Outcome<Value>)
    ensures v == Worth(VLong(n)) <==> IsInt64(n)
  {
    if IsInt64(n) then Worth(VLong(n)) else Undefined
  }

  // ---- fields ----

  function ValueAt(fs: Fields, id: nat, oc: int): (v: Option<seq<byte>>) {
    if 0 <= oc < |Values(fs, id)| then Some(Values(fs, id)[oc]) else None
  }

  /** A C string: what stands in front of the first NUL. */
  function CText(v: seq<byte>): (s: seq<byte>)
    ensures s <= v && 0 !in s
    ensures |s| < |v| ==> v[|s|] == 0
  {
    v[..Span(v, 0, (c: byte) => c != 0)]
  }

  function FieldLong(v: seq<byte>): (n: int) {
    if |v| == 8 then I64(v)
    else if |v| == 2 then
      var m := v[0] as int + 0x100 * v[1] as int;
      if m < 0x8000 then m else m - 0x1_0000
    else 0
  }

  predicate IsText(id: nat) { FldType(id) == FLD_CHAR || FldType(id) >= FLD_STRING }

  predicate UsableField(id: nat) { ValidId(id) && FldType(id) <= FLD_CARRAY }

  /** A field's value; 0 or the empty string for one that is not there. */
  function OfField(m: Machine, fs: Fields, id: nat, oc: int): (v: Value)
    ensures v.VText? <==> IsText(id)
    ensures v.VText? ==> !v.constant
  {
    var v := ValueAt(fs, id, oc);
    if IsText(id) then VText(if v.Some? then CText(v.value) else [], false)
    else if FldType(id) == FLD_FLOAT || FldType(id) == FLD_DOUBLE then
      VDouble(if v.None? then ZERO_DOUBLE else if |v.value| == 8 then v.value else m.ofFloat(v.value))
    else VLong(if v.None? then 0 else FieldLong(v.value))
  }

  // ---- conversions ----

  function ToLong(m: Machine, v: Value): (n: Outcome<int>)
    ensures n.Worth? ==> IsInt64(n.value)
  {
    var n := match v
             case VLong(n) => Some(n)
             case VDouble(d) => m.toLong(d)
             case VText(s, _) => Some(LongOf(s));
    if n.Some? && IsInt64(n.value) then Worth(n.value) else Undefined
  }

  function ToDouble(m: Machine, v: Value): (d: Bits64) {
    match v
    case VLong(n) => m.ofLong(n)
    case VDouble(d) => d
    case VText(s, _) => m.ofText(s)
  }

  function ToText(m: Machine, v: Value): (s: Outcome<seq<byte>>) {
    match v
    case VLong(n) => Worth(Text(n))
    case VDouble(d) => if |m.toText(d)| < TEXT_BUFFER then Worth(m.toText(d)) else Undefined
    case VText(s, _) => Worth(s)
  }

  // ---- operators ----

  /** The order of texts, byte by byte: negative, zero or positive. */
  function StrCmp(a: seq<byte>, b: seq<byte>): (c: int)
    ensures c == 0 <==> a == b
  {
    if a == [] && b == [] then 0
    else if a == [] then -1
    else if b == [] then 1
    else if a[0] != b[0] then a[0] - b[0]
    else
      assert a == [a[0]] + a[1..] && b == [b[0]] + b[1..];
      StrCmp(a[1..], b[1..])
  }

  /** `/` and `%` as the machine has them: the quotient is rounded towards zero. */
  function Quotient(a: int, b: int): (q: int)
    requires b != 0
  {
    if (a >= 0) == (b > 0) then Abs(a) / Abs(b) else -(Abs(a) / Abs(b))
  }

  function Remainder(a: int, b: int): (r: int)
    requires b != 0
  {
    if a >= 0 then Abs(a) % Abs(b) else -(Abs(a) % Abs(b))
  }

  function Abs(a: int): nat { if a < 0 then -a else a }

  /** Bitwise exclusive or of two's complement numbers of `bits` bits, as natural numbers. */
  function Xor(a: nat, b: nat, bits: nat): (x: nat) {
    if bits == 0 then 0 else Bit(a % 2 != b % 2) + 2 * Xor(a / 2, b / 2, bits - 1)
  }

  function ToSigned(n: nat): int { if n < INT64_LIMIT then n else n - 0x1_0000_0000_0000_0000 }

  function XorLong(a: int, b: int): int {
    ToSigned(Xor(a % 0x1_0000_0000_0000_0000, b % 0x1_0000_0000_0000_0000, 64))
  }

  predicate IsCompare(op: BinOp) { LESS_THAN <= op }

  /** An operator on two longs; a match is none. */
  function OnLongs(op: BinOp, a: int, b: int): (v: Outcome<Value>) {
    if op == MULTIPLICATION then Checked(a * b)
    else if op == DIVISION then if b == 0 then Undefined else Checked(Quotient(a, b))
    else if op == MODULUS then if b == 0 || (a == -INT64_LIMIT && b == -1) then Undefined else Checked(Remainder(a, b))
    else if op == ADDITION then Checked(a + b)
    else if op == SUBTRACTION then Checked(a - b)
    else if op == EXCLUSIVE_OR then Worth(VLong(XorLong(a, b)))
    else if op == LOGICAL_AND then Worth(VLong(Bit(a != 0 && b != 0)))
    else if op == LOGICAL_OR then Worth(VLong(Bit(a != 0 || b != 0)))
    else if op == LESS_THAN then Worth(VLong(Bit(a < b)))
    else if op == GREATER_THAN then Worth(VLong(Bit(a > b)))
    else if op == LESS_OR_EQUAL then Worth(VLong(Bit(a <= b)))
    else if op == GREATER_OR_EQUAL then Worth(VLong(Bit(a >= b)))
    else if op == EQUAL then Worth(VLong(Bit(a == b)))
    else Worth(VLong(Bit(a != b)))
  }

  /** An operator on two values: on doubles when one is a double and the operator takes them. */
  function Apply(m: Machine, op: BinOp, l: Value, r: Value): (v: Outcome<Value>) {
    if (l.VDouble? || r.VDouble?) && op != MODULUS && op != EXCLUSIVE_OR then
      var a, b := ToDouble(m, l), ToDouble(m, r);
      Worth(if op <= SUBTRACTION then VDouble(m.arith(op, a, b)) else VLong(Bit(m.truth(op, a, b))))
    else
      match (ToLong(m, l), ToLong(m, r))
      case (Worth(a), Worth(b)) => OnLongs(op, a, b)
      case _ => Undefined
  }

  predicate Lexical(l: Value, r: Value) {
    (l.VText? && l.constant) || (r.VText? && r.constant) || (l.VText? && r.VText?)
  }

  function Compare(m: Machine, op: BinOp, l: Value, r: Value): (v: Outcome<Value>)
    requires IsCompare(op)
  {
    if IsMatch(op) then
      if !l.VText? || !r.VText? then Undefined
      else
        match m.search(r.s, l.s)
        case BadPattern => Unsupported
        case NoMatch => Worth(VLong(Bit(op == NOT_MATCHES)))
        case MatchAt(k) => Worth(VLong(Bit((op == MATCHES) == (k == 0))))
    else if Lexical(l, r) then
      match (ToText(m, l), ToText(m, r))
      case (Worth(a), Worth(b)) => OnLongs(op, StrCmp(a, b), 0)
      case _ => Undefined
    else Apply(m, op, l, r)
  }

  function Operate(m: Machine, op: BinOp, l: Value, r: Value): (v: Outcome<Value>) {
    if IsCompare(op) then Compare(m, op, l, r) else Apply(m, op, l, r)
  }

  function Negate(m: Machine, op: UnOp, v: Value): (r: Outcome<Value>) {
    match ToLong(m, v)
    case Worth(n) =>
      if op == UNARY_MINUS then Checked(-n)
      else if op == LOGICAL_NEGATION then Worth(VLong(Bit(n == 0)))
      else Worth(VLong(-n - 1))
    case Unsupported => Unsupported
    case Undefined => Undefined
  }

  /** A value counts as true when it is not zero as a long. */
  predicate IsTrue(m: Machine, v: Value) { ToLong(m, v).Worth? && ToLong(m, v).value != 0 }

  // ---- expressions ----

  /** The first occurrence from `oc` on that satisfies the comparison decides. */
  function AnyFrom(m: Machine, fs: Fields, op: BinOp, id: nat, oc: nat, r: Value): (v: Outcome<Value>)
    requires IsCompare(op)
    decreases |Values(fs, id)| - oc
  {
    if oc >= |Values(fs, id)| then Worth(VLong(0))
    else
      var v := Compare(m, op, OfField(m, fs, id, oc), r);
      if v.Worth? && !IsTrue(m, v.value) then AnyFrom(m, fs, op, id, oc + 1, r) else v
  }

  /** The worth of an expression. */
  function Meaning(m: Machine, fs: Fields, e: Expr): (v: Outcome<Value>) {
    match e
    case Long(n) => Worth(VLong(n))
    case Double(d) => Worth(VDouble(d))
    case Str(s) => Worth(VText(s, true))
    case FieldAt(id, oc) => Worth(OfField(m, fs, id, oc))
    case FieldAny(_) => Unsupported
    case Unary(op, x) =>
      (match Meaning(m, fs, x)
       case Worth(a) => Negate(m, op, a)
       case other => other)
    case Binary(op, l, r) =>
      if IsCompare(op) && l.FieldAny? then
        match Meaning(m, fs, r)
        case Worth(b) => AnyFrom(m, fs, op, l.id, 0, b)
        case other => other
      else
        match Meaning(m, fs, l)
        case Worth(a) =>
          (match Meaning(m, fs, r)
           case Worth(b) => Operate(m, op, a, b)
           case other => other)
        case other => other
  }

  lemma {:induction false} StrCmpSwaps(a: seq<byte>, b: seq<byte>)
    ensures StrCmp(a, b) == -StrCmp(b, a)
    decreases |a|
  {
    if a != [] && b != [] {
      StrCmpSwaps(a[1..], b[1..]);
    }
  }

  /** Texts compare as their first difference does; a prefix comes first. */
  lemma {:induction false} StrCmpAt(a: seq<byte>, b: seq<byte>, k: nat)
    requires k <= |a| && k < |b| && a[..k] == b[..k] && (k < |a| ==> a[k] < b[k])
    ensures StrCmp(a, b) < 0
    decreases k
  {
    if k > 0 {
      assert a[0] == a[..k][0] && b[0] == b[..k][0];
      assert a[1..][..k - 1] == a[..k][1..] && b[1..][..k - 1] == b[..k][1..];
      StrCmpAt(a[1..], b[1..], k - 1);
    }
  }

  lemma QuotientAndRemainder(a: int, b: int)
    requires b != 0
    ensures a == b * Quotient(a, b) + Remainder(a, b)
    ensures Abs(Remainder(a, b)) < Abs(b)
    ensures Remainder(a, b) == 0 || (Remainder(a, b) > 0) == (a >= 0)
  {
    hide *;
    var k, r := QuotientParts(a, b);
    AbsIs(a);
    AbsIs(b);
    AbsIs(Remainder(a, b));
    Product(b, Quotient(a, b), Abs(b), k);
  }

  lemma AbsIs(a: int)
    ensures Abs(a) == if a < 0 then 0 - a else a
  {
  }

  /** A product from the product of the absolute values. */
  lemma Product(b: int, q: int, y: int, k: int)
    requires (b == y || b == -y) && (q == k || q == -k)
    ensures b * q == if (b == y) == (q == k) then y * k else -(y * k)
    ensures k == 0 ==> y * k == 0
  {
    Signs(y, k);
    if b == y {
      if q != k { assert q == -k; }
    } else {
      if q != k { assert b == -y && q == -k; }
    }
  }

  lemma QuotientParts(a: int, b: int) returns (k: int, r: int)
    requires b != 0
    ensures Quotient(a, b) == (if (a >= 0) == (b > 0) then k else -k)
    ensures Remainder(a, b) == (if a >= 0 then r else -r)
    ensures Abs(a) == Abs(b) * k + r && 0 <= r < Abs(b)
  {
    Division(Abs(a), Abs(b), b);
    hide Abs;
    k, r := Abs(a) / Abs(b), Abs(a) % Abs(b);
  }

  lemma Division(x: nat, y: nat, b: int)
    requires b != 0 && y == Abs(b)
    ensures y > 0 && x == y * (x / y) + x % y && 0 <= x % y < y
  {
  }

  lemma Signs(y: int, k: int)
    ensures -y * -k == y * k && y * -k == -(y * k) && -y * k == -(y * k)
  {
  }

  lemma {:induction false} CompareIsWorthLong(m: Machine, op: BinOp, l: Value, r: Value)
    requires IsCompare(op)
    ensures var v := Compare(m, op, l, r);
            v.Worth? ==> v.value == VLong(0) || v.value == VLong(1)
  {
    hide StrCmp, Text, LongOf, XorLong, Quotient, Remainder;
  }

  /** Some occurrence satisfies the comparison exactly when it is worth something true. */
  lemma {:induction false} AnyFromMeans(m: Machine, fs: Fields, op: BinOp, id: nat, oc: nat, r: Value)
    requires IsCompare(op) && AnyFrom(m, fs, op, id, oc, r).Worth?
    ensures AnyFrom(m, fs, op, id, oc, r).value == VLong(0) || AnyFrom(m, fs, op, id, oc, r).value == VLong(1)
    ensures AnyFrom(m, fs, op, id, oc, r).value == VLong(1) <==>
            exists k {:trigger OfField(m, fs, id, k)} :: oc <= k < |Values(fs, id)| && Compare(m, op, OfField(m, fs, id, k), r) == Worth(VLong(1))
    decreases |Values(fs, id)| - oc
  {
    hide Compare, OfField, IsTrue, ToLong, Values;
    TruthOfBit(m);
    if oc < |Values(fs, id)| {
      var v := Compare(m, op, OfField(m, fs, id, oc), r);
      CompareIsWorthLong(m, op, OfField(m, fs, id, oc), r);
      if v.Worth? && !IsTrue(m, v.value) {
        AnyFromMeans(m, fs, op, id, oc + 1, r);
      }
    }
  }

  lemma TruthOfBit(m: Machine)
    ensures !IsTrue(m, VLong(0)) && IsTrue(m, VLong(1))
  {
  }

  /** `F[?] op r` is true exactly when some occurrence of F satisfies it. */
  lemma AnyOccurrence(m: Machine, fs: Fields, op: BinOp, id: nat, r: Expr)
    requires IsCompare(op) && Meaning(m, fs, Binary(op, FieldAny(id), r)).Worth?
    ensures Meaning(m, fs, r).Worth?
    ensures Meaning(m, fs, Binary(op, FieldAny(id), r)) == Worth(VLong(1)) <==>
            exists k {:trigger OfField(m, fs, id, k)} :: 0 <= k < |Values(fs, id)| && Compare(m, op, OfField(m, fs, id, k), Meaning(m, fs, r).value) == Worth(VLong(1))
    ensures Meaning(m, fs, Binary(op, FieldAny(id), r)) != Worth(VLong(1)) ==>
              Meaning(m, fs, Binary(op, FieldAny(id), r)) == Worth(VLong(0))
  {
    AnyFromMeans(m, fs, op, id, 0, Meaning(m, fs, r).value);
  }

  // ---- what the operators mean together ----

  predicate Satisfied(v: Outcome<Value>) { v == Worth(VLong(1)) }

  /** Where no double is compared as a number, two values are in exactly one of the three orders,
      and the other three comparisons are their complements. */
  lemma OneOrder(m: Machine, l: Value, r: Value)
    requires !l.VDouble? && !r.VDouble?
    requires Compare(m, EQUAL, l, r).Worth?
    ensures var lt, eq, gt := Compare(m, LESS_THAN, l, r), Compare(m, EQUAL, l, r), Compare(m, GREATER_THAN, l, r);
            && (Satisfied(lt) || Satisfied(eq) || Satisfied(gt))
            && !(Satisfied(lt) && Satisfied(eq)) && !(Satisfied(lt) && Satisfied(gt)) && !(Satisfied(eq) && Satisfied(gt))
            && (Satisfied(Compare(m, GREATER_OR_EQUAL, l, r)) <==> !Satisfied(lt))
            && (Satisfied(Compare(m, NOT_EQUAL, l, r)) <==> !Satisfied(eq))
            && (Satisfied(Compare(m, LESS_OR_EQUAL, l, r)) <==> !Satisfied(gt))
    ensures Satisfied(Compare(m, LESS_THAN, l, r)) <==> Satisfied(Compare(m, GREATER_THAN, r, l))
    ensures Satisfied(Compare(m, EQUAL, l, r)) <==> Satisfied(Compare(m, EQUAL, r, l))
  {
    hide *;
    var x, y := ComparedAs(m, l, r);
    LongsOrder(x, y);
    var x', y' := ComparedAs(m, r, l);
    LongsOrder(x', y');
    SidesSwap(m, l, r);
  }

  /** What a comparison that is not one of doubles compares: two longs. */
  ghost predicate Sides(m: Machine, l: Value, r: Value, x: int, y: int) {
    if Lexical(l, r) then
      ToText(m, l).Worth? && ToText(m, r).Worth? && x == StrCmp(ToText(m, l).value, ToText(m, r).value) && y == 0
    else ToLong(m, l) == Worth(x) && ToLong(m, r) == Worth(y)
  }

  lemma ComparedAs(m: Machine, l: Value, r: Value) returns (x: int, y: int)
    requires !l.VDouble? && !r.VDouble? && (Compare(m, EQUAL, l, r).Worth? || Compare(m, EQUAL, r, l).Worth?)
    ensures Sides(m, l, r, x, y)
    ensures Compare(m, LESS_THAN, l, r) == OnLongs(LESS_THAN, x, y)
    ensures Compare(m, GREATER_THAN, l, r) == OnLongs(GREATER_THAN, x, y)
    ensures Compare(m, LESS_OR_EQUAL, l, r) == OnLongs(LESS_OR_EQUAL, x, y)
    ensures Compare(m, GREATER_OR_EQUAL, l, r) == OnLongs(GREATER_OR_EQUAL, x, y)
    ensures Compare(m, EQUAL, l, r) == OnLongs(EQUAL, x, y)
    ensures Compare(m, NOT_EQUAL, l, r) == OnLongs(NOT_EQUAL, x, y)
  {
    hide ToText, ToLong, StrCmp, OnLongs;
    x, y := 0, 0;
    if Lexical(l, r) {
      match (ToText(m, l), ToText(m, r))
      case (Worth(a), Worth(b)) => x := StrCmp(a, b);
      case _ =>
    } else {
      match (ToLong(m, l), ToLong(m, r))
      case (Worth(a), Worth(b)) => x, y := a, b;
      case _ =>
    }
  }

  lemma LongsOrder(a: int, b: int)
    ensures Satisfied(OnLongs(LESS_THAN, a, b)) <==> a < b
    ensures Satisfied(OnLongs(GREATER_THAN, a, b)) <==> a > b
    ensures Satisfied(OnLongs(LESS_OR_EQUAL, a, b)) <==> a <= b
    ensures Satisfied(OnLongs(GREATER_OR_EQUAL, a, b)) <==> a >= b
    ensures Satisfied(OnLongs(EQUAL, a, b)) <==> a == b
    ensures Satisfied(OnLongs(NOT_EQUAL, a, b)) <==> a != b
  {
  }

  lemma SidesSwap(m: Machine, l: Value, r: Value)
    ensures forall x, y, x', y' :: Sides(m, l, r, x, y) && Sides(m, r, l, x', y') ==>
              (x < y <==> y' < x') && (x == y <==> x' == y')
  {
    hide ToText, ToLong, StrCmp;
    if Lexical(l, r) {
      match (ToText(m, l), ToText(m, r))
      case (Worth(a), Worth(b)) => StrCmpSwaps(a, b);
      case _ =>
    }
  }

  /** Where a pattern can be searched for, a match and its negation are complements. */
  lemma MatchOrNot(m: Machine, l: Value, r: Value)
    ensures Compare(m, MATCHES, l, r).Worth? <==> Compare(m, NOT_MATCHES, l, r).Worth?
    ensures Compare(m, MATCHES, l, r).Worth? ==>
              (Satisfied(Compare(m, MATCHES, l, r)) <==> !Satisfied(Compare(m, NOT_MATCHES, l, r)))
  {
  }

  function Pow2(n: nat): (p: nat)
    ensures p > 0
  {
    if n == 0 then 1 else 2 * Pow2(n - 1)
  }

  /** Applying exclusive or with the same number twice gives the number back. */
  lemma {:induction false} XorTwice(a: nat, b: nat, bits: nat)
    requires a < Pow2(bits)
    ensures Xor(Xor(a, b, bits), b, bits) == a
    ensures Xor(a, b, bits) < Pow2(bits)
  {
    if bits > 0 {
      XorTwice(a / 2, b / 2, bits - 1);
      var x := Xor(a, b, bits);
      assert x / 2 == Xor(a / 2, b / 2, bits - 1) && x % 2 == Bit(a % 2 != b % 2);
    }
  }

  lemma Pow2Next(n: nat)
    ensures Pow2(n + 1) == 2 * Pow2(n)
  {
  }

  lemma EightMore(n: nat)
    ensures Pow2(n + 8) == 256 * Pow2(n)
  {
    hide *;
    Pow2Next(n);
    Pow2Next(n + 1);
    Pow2Next(n + 2);
    Pow2Next(n + 3);
    Pow2Next(n + 4);
    Pow2Next(n + 5);
    Pow2Next(n + 6);
    Pow2Next(n + 7);
  }

  lemma Pow2Of0()
    ensures Pow2(0) == 1
  {
  }

  lemma Pow2Of64()
    ensures Pow2(64) == 0x1_0000_0000_0000_0000
  {
    hide *;
    Pow2Of0();
    EightMore(0);
    EightMore(8);
    EightMore(16);
    EightMore(24);
    EightMore(32);
    EightMore(40);
    EightMore(48);
    EightMore(56);
  }

  /** Exclusive or of longs is a long, and undoes itself. */
  lemma XorLongTwice(a: int, b: int)
    requires IsInt64(a)
    ensures IsInt64(XorLong(a, b)) && XorLong(XorLong(a, b), b) == a
  {
    hide Xor;
    var w := 0x1_0000_0000_0000_0000;
    Pow2Of64();
    XorTwice(a % w, b % w, 64);
    var x := Xor(a % w, b % w, 64);
    assert ToSigned(x) % w == x;
  }

  predicate InRange(v: Value) { v.VLong? ==> IsInt64(v.n) }

  lemma OperateInRange(m: Machine, op: BinOp, l: Value, r: Value)
    ensures Operate(m, op, l, r).Worth? ==> InRange(Operate(m, op, l, r).value)
  {
    hide XorLong, StrCmp, Quotient, Remainder, LongOf, Text;
    if ToLong(m, l).Worth? && ToLong(m, r).Worth? {
      XorLongTwice(ToLong(m, l).value, ToLong(m, r).value);
    }
  }

  lemma {:induction false} AnyFromInRange(m: Machine, fs: Fields, op: BinOp, id: nat, oc: nat, r: Value)
    requires IsCompare(op)
    ensures AnyFrom(m, fs, op, id, oc, r).Worth? ==> InRange(AnyFrom(m, fs, op, id, oc, r).value)
  {
    if AnyFrom(m, fs, op, id, oc, r).Worth? {
      AnyFromMeans(m, fs, op, id, oc, r);
    }
  }

  lemma FieldInRange(m: Machine, fs: Fields, id: nat, oc: int)
    ensures InRange(OfField(m, fs, id, oc))
  {
  }

  /** Whatever an expression is worth as a number fits a long, at every depth. */
  lemma {:induction false} MeaningInRange(m: Machine, fs: Fields, e: Expr)
    requires Fits(e)
    ensures Meaning(m, fs, e).Worth? ==> InRange(Meaning(m, fs, e).value)
  {
    hide Operate, OfField, AnyFrom, Negate;
    match e
    case FieldAt(id, oc) => FieldInRange(m, fs, id, oc);
    case Unary(op, x) =>
      if Meaning(m, fs, x).Worth? {
        NegateInRange(m, op, Meaning(m, fs, x).value);
      }
    case Binary(op, l, r) =>
      if IsCompare(op) && l.FieldAny? {
        if Meaning(m, fs, r).Worth? {
          AnyFromInRange(m, fs, op, l.id, 0, Meaning(m, fs, r).value);
        }
      } else if Meaning(m, fs, l).Worth? && Meaning(m, fs, r).Worth? {
        OperateInRange(m, op, Meaning(m, fs, l).value, Meaning(m, fs, r).value);
      }
    case _ =>
  }

  lemma NegateInRange(m: Machine, op: UnOp, v: Value)
    ensures Negate(m, op, v).Worth? ==> InRange(Negate(m, op, v).value)
  {
  }
}
