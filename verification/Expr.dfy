/** Boolean expressions: the tree, its flat prefix-coded form and the tree that the
    precedence table gives to a chain of operands. */
module Expressions {
  import opened Bytes

  // ---- machine integers ----

  const INT32_LIMIT: int := 0x8000_0000

  predicate IsInt32(n: int) { -INT32_LIMIT <= n < INT32_LIMIT }

  /** The low 32 bits of `n` as a signed number. */
  function ToInt32(n: int): (r: int)
    ensures IsInt32(r)
    ensures IsInt32(n) ==> r == n
    ensures (r - n) % 0x1_0000_0000 == 0
  {
    (n + INT32_LIMIT) % 0x1_0000_0000 - INT32_LIMIT
  }

  function PutI32(n: int): (s: seq<byte>)
    ensures |s| == 4
  {
    PutU32(n % 0x1_0000_0000)
  }

  function I32(s: seq<byte>): (n: int)
    requires |s| == 4
  {
    ToInt32(U32(s))
  }

  function PutI64(n: int): (s: seq<byte>)
    ensures |s| == 8
  {
    var m := n % 0x1_0000_0000_0000_0000;
    PutU32(m % 0x1_0000_0000) + PutU32(m / 0x1_0000_0000)
  }

  function I64(s: seq<byte>): (n: int)
    requires |s| == 8
  {
    var m := U32(s[..4]) + 0x1_0000_0000 * U32(s[4..]);
    if m < INT64_LIMIT then m else m - 0x1_0000_0000_0000_0000
  }

  lemma I32OfPut(n: int)
    requires IsInt32(n)
    ensures I32(PutI32(n)) == n
  {
  }

  lemma I64OfPut(n: int)
    requires IsInt64(n)
    ensures I64(PutI64(n)) == n
  {
    var m := n % 0x1_0000_0000_0000_0000;
    var lo, hi := PutU32(m % 0x1_0000_0000), PutU32(m / 0x1_0000_0000);
    assert (lo + hi)[..4] == lo && (lo + hi)[4..] == hi;
  }

  // ---- opcodes ----

  const CONST_LONG: byte := 1
  const CONST_DOUBLE: byte := 2
  const CONST_STRING: byte := 3
  const FIELD: byte := 4
  const FIELD_ANY: byte := 5
  const UNARY_MINUS: byte := 6
  const LOGICAL_NEGATION: byte := 7
  const BITWISE_NEGATION: byte := 8
  const MULTIPLICATION: byte := 9
  const DIVISION: byte := 10
  const MODULUS: byte := 11
  const ADDITION: byte := 12
  const SUBTRACTION: byte := 13
  const EXCLUSIVE_OR: byte := 14
  const LOGICAL_AND: byte := 15
  const LOGICAL_OR: byte := 16
  const LESS_THAN: byte := 17
  const GREATER_THAN: byte := 18
  const LESS_OR_EQUAL: byte := 19
  const GREATER_OR_EQUAL: byte := 20
  const EQUAL: byte := 21
  const NOT_EQUAL: byte := 22
  const MATCHES: byte := 23
  const NOT_MATCHES: byte := 24

  type UnOp = op: byte | 6 <= op <= 8 witness 6

  type BinOp = op: byte | 9 <= op <= 24 witness 9

  predicate IsMatch(op: BinOp) { op == MATCHES || op == NOT_MATCHES }

  function UnText(op: UnOp): (c: byte) {
    if op == UNARY_MINUS then 45 else if op == LOGICAL_NEGATION then 33 else 126
  }

  /** How a binary operator is written. */
  function BinText(op: BinOp): (s: seq<byte>)
    ensures 1 <= |s| <= 2
  {
    if op == MULTIPLICATION then [42]
    else if op == DIVISION then [47]
    else if op == MODULUS then [37]
    else if op == ADDITION then [43]
    else if op == SUBTRACTION then [45]
    else if op == EXCLUSIVE_OR then [94]
    else if op == LOGICAL_AND then [38, 38]
    else if op == LOGICAL_OR then [124, 124]
    else if op == LESS_THAN then [60]
    else if op == GREATER_THAN then [62]
    else if op == LESS_OR_EQUAL then [60, 61]
    else if op == GREATER_OR_EQUAL then [62, 61]
    else if op == EQUAL then [61, 61]
    else if op == NOT_EQUAL then [33, 61]
    else if op == MATCHES then [37, 37]
    else [33, 37]
  }

  /** A binary operator's place in the precedence table; larger binds tighter. */
  function Prec(op: BinOp): (p: int)
    ensures 10 <= p <= 70
  {
    if op <= MODULUS then 70
    else if op <= SUBTRACTION then 60
    else if op == EXCLUSIVE_OR then 30
    else if op == LOGICAL_AND then 20
    else if op == LOGICAL_OR then 10
    else if op <= NOT_EQUAL then 50
    else 40
  }

  // ---- trees ----

  /** The eight bytes of a double; what they mean is left to the machine. */
  type Bits64 = s: seq<byte> | |s| == 8 witness [0, 0, 0, 0, 0, 0, 0, 0]

  datatype Expr =
    | Long(n: int)
    | Double(bits: Bits64)
    | Str(s: seq<byte>)
    | FieldAt(id: nat, oc: int)
    | FieldAny(id: nat)
    | Unary(uop: UnOp, e: Expr)
    | Binary(op: BinOp, l: Expr, r: Expr)

  /** The numbers of a tree fit the bytes they are stored in. */
  predicate Fits(e: Expr) {
    match e
    case Long(n) => IsInt64(n)
    case Double(_) => true
    case Str(_) => true
    case FieldAt(id, oc) => id < UINT32_LIMIT && IsInt32(oc)
    case FieldAny(id) => id < UINT32_LIMIT
    case Unary(_, e) => Fits(e)
    case Binary(_, l, r) => Fits(l) && Fits(r)
  }

  /** The flat form: each operator stands in front of its operands. */
  function Encode(e: Expr): (s: seq<byte>)
    ensures |s| > 0
  {
    match e
    case Long(n) => [CONST_LONG] + PutI64(n)
    case Double(bits) => [CONST_DOUBLE] + bits
    case Str(s) => [CONST_STRING] + s + [0]
    case FieldAt(id, oc) => [FIELD] + PutU32(id % UINT32_LIMIT) + PutI32(oc)
    case FieldAny(id) => [FIELD_ANY] + PutU32(id % UINT32_LIMIT)
    case Unary(op, e) => [op] + Encode(e)
    case Binary(op, l, r) => [op] + Encode(l) + Encode(r)
  }

  /** A match has a field or a string on its left and a string on its right. */
  predicate MatchTyped(op: BinOp, l: Expr, r: Expr) {
    IsMatch(op) ==> (l.Str? || l.FieldAt? || l.FieldAny?) && r.Str?
  }

  predicate WellTyped(e: Expr) {
    match e
    case Unary(_, e) => WellTyped(e)
    case Binary(op, l, r) => MatchTyped(op, l, r) && WellTyped(l) && WellTyped(r)
    case _ => true
  }

  lemma RootOp(e: Expr)
    ensures Encode(e)[0] == CONST_STRING <==> e.Str?
    ensures Encode(e)[0] == FIELD <==> e.FieldAt?
    ensures Encode(e)[0] == FIELD_ANY <==> e.FieldAny?
  {
  }

  // ---- what precedence means ----

  /** An operator with the operand that follows it. */
  datatype Item = Item(op: BinOp, e: Expr)

  /** The last of the operators that bind most weakly. */
  function Weakest(items: seq<Item>): (k: nat)
    requires items != []
    ensures k < |items|
    ensures forall j :: 0 <= j < |items| ==> Prec(items[k].op) <= Prec(items[j].op)
    ensures forall j :: k < j < |items| ==> Prec(items[k].op) < Prec(items[j].op)
  {
    var n := |items| - 1;
    if n == 0 then 0
    else
      var k := Weakest(items[..n]);
      if Prec(items[n].op) <= Prec(items[k].op) then n else k
  }

  /** The tree of a chain of operands: the weakest operator is applied last, the last of
      equally weak ones, so that equal operators associate to the left. */
  function Assemble(first: Expr, items: seq<Item>): Expr
    decreases |items|
  {
    if items == [] then first
    else
      var k := Weakest(items);
      Binary(items[k].op, Assemble(first, items[..k]), Assemble(items[k].e, items[k + 1..]))
  }

  /** How many operators from the first on bind at least as tightly as `p`. */
  function Tight(p: int, items: seq<Item>): (n: nat)
    ensures n <= |items|
    ensures forall j :: 0 <= j < n ==> Prec(items[j].op) >= p
    ensures n < |items| ==> Prec(items[n].op) < p
  {
    if items == [] || Prec(items[0].op) < p then 0 else 1 + Tight(p, items[1..])
  }

  lemma WeakestIs(items: seq<Item>, k: nat)
    requires k < |items|
    requires forall j :: 0 <= j < |items| ==> Prec(items[k].op) <= Prec(items[j].op)
    requires forall j :: k < j < |items| ==> Prec(items[k].op) < Prec(items[j].op)
    ensures Weakest(items) == k
  {
    var w := Weakest(items);
    assert Prec(items[w].op) == Prec(items[k].op);
  }

  lemma AssembleIs(first: Expr, items: seq<Item>)
    ensures items == [] ==> Assemble(first, items) == first
    ensures items != [] ==>
              var k := Weakest(items);
              Assemble(first, items) ==
              Binary(items[k].op, Assemble(first, items[..k]), Assemble(items[k].e, items[k + 1..]))
  {
  }

  /** The step of precedence climbing: the first operator may take its right operand with all
      tighter operators that follow, and the rest goes on from there. */
  lemma {:induction false} Climb(first: Expr, items: seq<Item>, m: nat)
    requires items != [] && m == Tight(Prec(items[0].op) + 1, items[1..])
    ensures Assemble(first, items) ==
            Assemble(Binary(items[0].op, first, Assemble(items[0].e, items[1..][..m])), items[1..][m..])
    decreases |items|
  {
    hide *;
    var rest := items[1..];
    var head := Binary(items[0].op, first, Assemble(items[0].e, rest[..m]));
    AssembleIs(first, items);
    AssembleIs(first, items[..0]);
    AssembleIs(head, rest[m..]);
    if m == |rest| {
      FirstIsWeakest(items);
      assert rest[..m] == rest;
    } else {
      var w := Weakest(items);
      ClimbSplit(items, m, w);
      Climb(first, items[..w], m);
      SameParts(items, m, w);
    }
  }

  lemma FirstIsWeakest(items: seq<Item>)
    requires items != [] && Tight(Prec(items[0].op) + 1, items[1..]) == |items| - 1
    ensures Weakest(items) == 0
  {
    forall j | 0 < j < |items| ensures Prec(items[0].op) < Prec(items[j].op) {
      assert items[j] == items[1..][j - 1];
    }
    WeakestIs(items, 0);
  }

  lemma SameParts<T>(s: seq<T>, m: nat, w: nat)
    requires m < w < |s|
    ensures s[..w][1..] == s[1..][..w - 1]
    ensures s[..w][1..][..m] == s[1..][..m]
    ensures s[..w][1..][m..] == s[1..][m..][..w - 1 - m]
    ensures s[1..][m..][w - 1 - m] == s[w] && s[..w][0] == s[0]
    ensures s[1..][m..][w - m..] == s[w + 1..]
  {
  }

  /** Where a weaker operator follows, the weakest one is among those that follow. */
  lemma ClimbSplit(items: seq<Item>, m: nat, w: nat)
    requires items != [] && m == Tight(Prec(items[0].op) + 1, items[1..]) && m < |items| - 1
    requires w == Weakest(items)
    ensures w > m && items[..w] != [] && items[..w][0] == items[0]
    ensures m == Tight(Prec(items[0].op) + 1, items[..w][1..])
    ensures Weakest(items[1..][m..]) == w - 1 - m
  {
    hide *;
    WeakestIsLate(items, m, w);
    TightPrefix(Prec(items[0].op) + 1, items[1..], w - 1);
    PrefixTail(items, w);
    TailTail(items, m);
    WeakestOfTail(items, m + 1, w);
  }

  lemma PrefixTail<T>(s: seq<T>, w: nat)
    requires 0 < w < |s|
    ensures s[..w][1..] == s[1..][..w - 1] && s[..w] != [] && s[..w][0] == s[0]
  {
  }

  lemma TailTail<T>(s: seq<T>, m: nat)
    requires m < |s|
    ensures s[1..][m..] == s[m + 1..]
  {
  }

  lemma WeakestIsLate(items: seq<Item>, m: nat, w: nat)
    requires items != [] && m == Tight(Prec(items[0].op) + 1, items[1..]) && m < |items| - 1
    requires w == Weakest(items)
    ensures m < w < |items|
  {
    hide Weakest, Tight, Prec;
    var rest := items[1..];
    assert rest[m] == items[m + 1];
    assert forall i :: 0 < i < |items| ==> items[i] == rest[i - 1];
  }

  lemma WeakestOfTail(items: seq<Item>, k: nat, w: nat)
    requires k <= w < |items| && w == Weakest(items)
    ensures Weakest(items[k..]) == w - k
  {
    hide Weakest, Prec;
    var tail := items[k..];
    forall j | 0 <= j < |tail| ensures Prec(items[w].op) <= Prec(tail[j].op) && (j > w - k ==> Prec(items[w].op) < Prec(tail[j].op)) {
      assert tail[j] == items[k + j];
    }
    WeakestIs(tail, w - k);
  }

  lemma {:induction false} TightPrefix(p: int, items: seq<Item>, n: nat)
    requires Tight(p, items) <= n <= |items|
    ensures Tight(p, items[..n]) == Tight(p, items)
  {
    if items != [] && Prec(items[0].op) >= p {
      TightPrefix(p, items[1..], n - 1);
      assert items[..n][1..] == items[1..][..n - 1];
    }
  }

  /** The first operand stays part of the tree. */
  lemma {:induction false} FirstIsPart(first: Expr, items: seq<Item>)
    ensures WellTyped(Assemble(first, items)) ==> WellTyped(first)
    decreases |items|
  {
    if items != [] {
      FirstIsPart(first, items[..Weakest(items)]);
    }
  }

  lemma AllTight(items: seq<Item>)
    ensures Tight(0, items) == |items| && items[..|items|] == items
  {
  }

  lemma NoneTight(first: Expr, items: seq<Item>, p: int)
    ensures Assemble(first, items[..0]) == first
    ensures items == [] || Prec(items[0].op) < p ==> Tight(p, items) == 0
  {
  }

  /** What is left of the tight operators after `k` of them. */
  lemma NothingLeft(cur: Expr, p: int, items: seq<Item>, k: nat)
    requires k <= Tight(p, items)
    ensures k <= |items| && Assemble(cur, items[k..k]) == cur
    ensures items[k..] == [] || Prec(items[k].op) < p ==> Tight(p, items) == k
    ensures k < |items| && Prec(items[k].op) >= p ==> k < Tight(p, items)
  {
  }

  lemma {:induction false} TightAfter(p: int, items: seq<Item>, k: nat)
    requires k <= Tight(p, items)
    ensures Tight(p, items[k..]) == Tight(p, items) - k
  {
    if k > 0 {
      TightAfter(p, items[1..], k - 1);
      assert items[1..][k - 1..] == items[k..];
    }
  }

  /** More operators bind at least as tightly as a weaker bound. */
  lemma {:induction false} TightWeaker(p: int, q: int, items: seq<Item>)
    requires p <= q
    ensures Tight(q, items) <= Tight(p, items)
  {
    if items != [] && Prec(items[0].op) >= q {
      TightWeaker(p, q, items[1..]);
    }
  }

  lemma SliceParts<T>(s: seq<T>, k: nat, m: nat, n: nat)
    requires k + 1 + m <= n <= |s|
    ensures s[k + 1..] == s[k..][1..] && s[k..n] == s[k..][..n - k]
    ensures s[k..n] != [] && s[k..n][0] == s[k]
    ensures s[k..n][1..] == s[k + 1..][..n - k - 1]
    ensures s[k..n][1..][..m] == s[k + 1..][..m]
    ensures s[k..n][1..][m..] == s[k + 1 + m..n]
    ensures s[k + 1..][m..] == s[k + 1 + m..]
  {
  }

  /** One round of precedence climbing inside a chain. */
  lemma ClimbWithin(cur: Expr, p: int, items: seq<Item>, k: nat, m: nat, right: Expr)
    requires k < Tight(p, items) && p <= Prec(items[k].op)
    requires m == Tight(Prec(items[k].op) + 1, items[k + 1..])
    requires right == Assemble(items[k].e, items[k + 1..][..m])
    ensures k + 1 + m <= Tight(p, items)
    ensures items[k + 1..][m..] == items[k + 1 + m..]
    ensures var n := Tight(p, items);
            var next := Binary(items[k].op, cur, right);
            && Assemble(cur, items[k..n]) == Assemble(next, items[k + 1 + m..n])
            && (WellTyped(Assemble(cur, items[k..n])) ==> WellTyped(next) && WellTyped(right))
  {
    hide *;
    var n := Tight(p, items);
    var q := Prec(items[k].op) + 1;
    TightIs(p, items);
    TightAfter(p, items, k + 1);
    TightWeaker(p, q, items[k + 1..]);
    SliceParts(items, k, m, n);
    TightPrefix(q, items[k + 1..], n - k - 1);
    Climb(cur, items[k..n], m);
    FirstIsPart(Binary(items[k].op, cur, right), items[k + 1 + m..n]);
    BinaryIs(items[k].op, cur, right);
  }

  lemma TightIs(p: int, items: seq<Item>)
    ensures Tight(p, items) <= |items|
  {
  }

  lemma BinaryIs(op: BinOp, l: Expr, r: Expr)
    ensures Encode(Binary(op, l, r)) == [op] + Encode(l) + Encode(r)
    ensures WellTyped(Binary(op, l, r)) == (MatchTyped(op, l, r) && WellTyped(l) && WellTyped(r))
  {
  }

  /** Operators that bind alike associate to the left. */
  lemma {:induction false} LeftAssociative(first: Expr, items: seq<Item>)
    requires items != [] && forall i, j :: 0 <= i < |items| && 0 <= j < |items| ==> Prec(items[i].op) == Prec(items[j].op)
    ensures var n := |items| - 1;
            Assemble(first, items) == Binary(items[n].op, Assemble(first, items[..n]), items[n].e)
  {
    hide Weakest, Prec, Assemble;
    var n := |items| - 1;
    WeakestIs(items, n);
    AssembleIs(first, items);
    AssembleIs(items[n].e, items[n + 1..]);
  }

  /** An operator with a tighter one on each side is the root, whatever its neighbours are. */
  lemma WeakestIsRoot(first: Expr, items: seq<Item>, k: nat)
    requires k < |items| && forall j :: 0 <= j < |items| && j != k ==> Prec(items[k].op) < Prec(items[j].op)
    ensures Assemble(first, items) ==
            Binary(items[k].op, Assemble(first, items[..k]), Assemble(items[k].e, items[k + 1..]))
  {
    hide Weakest, Prec, Assemble;
    WeakestIs(items, k);
    AssembleIs(first, items);
  }

  // ---- precedence, by the operators' names ----

  /** The operators that bind alike, the tightest first. */
  const CLASSES: seq<set<BinOp>> := [
    {MULTIPLICATION, DIVISION, MODULUS},
    {ADDITION, SUBTRACTION},
    {LESS_THAN, GREATER_THAN, LESS_OR_EQUAL, GREATER_OR_EQUAL, EQUAL, NOT_EQUAL},
    {MATCHES, NOT_MATCHES},
    {EXCLUSIVE_OR},
    {LOGICAL_AND},
    {LOGICAL_OR}
  ]

  /** Every operator is in one class, and binds tighter than those of the classes behind it. */
  lemma ClassesOrder(op1: BinOp, op2: BinOp)
    ensures exists i :: 0 <= i < |CLASSES| && op1 in CLASSES[i]
    ensures forall i, j :: 0 <= i < |CLASSES| && 0 <= j < |CLASSES| && op1 in CLASSES[i] && op2 in CLASSES[j] ==>
              (i < j <==> Prec(op1) > Prec(op2)) && (i == j <==> Prec(op1) == Prec(op2))
  {
    assert op1 in CLASSES[ClassOf(op1)];
    ClassIs(op1);
    ClassIs(op2);
  }

  function ClassOf(op: BinOp): (i: nat)
    ensures i < 7
  {
    if op <= MODULUS then 0 else if op <= SUBTRACTION then 1 else if op == EXCLUSIVE_OR then 4
    else if op == LOGICAL_AND then 5 else if op == LOGICAL_OR then 6 else if op <= NOT_EQUAL then 2 else 3
  }

  lemma ClassIs(op: BinOp)
    ensures forall i :: 0 <= i < |CLASSES| ==> (op in CLASSES[i] <==> i == ClassOf(op))
    ensures Prec(op) == 70 - 10 * ClassOf(op)
  {
  }

  /** In a chain the operator of the loosest class, the last one if there are more, is the root. */
  lemma LoosestIsRoot(first: Expr, items: seq<Item>, k: nat, c: nat)
    requires k < |items| && c < |CLASSES| && items[k].op in CLASSES[c]
    requires forall j, i :: 0 <= j < |items| && 0 <= i < |CLASSES| && items[j].op in CLASSES[i] ==> if j > k then i < c else i <= c
    ensures Assemble(first, items) ==
            Binary(items[k].op, Assemble(first, items[..k]), Assemble(items[k].e, items[k + 1..]))
  {
    hide Prec, Assemble, Weakest;
    forall j | 0 <= j < |items|
      ensures Prec(items[k].op) <= Prec(items[j].op) && (j > k ==> Prec(items[k].op) < Prec(items[j].op))
    {
      ClassesOrder(items[j].op, items[k].op);
    }
    WeakestIs(items, k);
    AssembleIs(first, items);
  }

  /** Two operators: the tighter one takes the operand between them, the first one of two that bind
      alike. */
  lemma TwoOperators(a: Expr, op1: BinOp, b: Expr, op2: BinOp, c: Expr, i: nat, j: nat)
    requires i < |CLASSES| && op1 in CLASSES[i] && j < |CLASSES| && op2 in CLASSES[j]
    ensures Assemble(a, [Item(op1, b), Item(op2, c)]) ==
            if j < i then Binary(op1, a, Binary(op2, b, c)) else Binary(op2, Binary(op1, a, b), c)
  {
    hide Prec, Assemble, Weakest;
    var items := [Item(op1, b), Item(op2, c)];
    ClassesOrder(op1, op2);
    WeakestIs(items, if j < i then 0 else 1);
    AssembleIs(a, items);
    AssembleIs(a, []);
    AssembleIs(b, []);
    AssembleIs(c, []);
    AssembleIs(a, [Item(op1, b)]);
    AssembleIs(b, [Item(op2, c)]);
    assert items[..0] == [] && items[1..] == [Item(op2, c)] && items[..1] == [Item(op1, b)] && items[2..] == [];
    assert [Item(op1, b)][..0] == [] && [Item(op1, b)][1..] == [] && [Item(op2, c)][..0] == [] && [Item(op2, c)][1..] == [];
  }
}
