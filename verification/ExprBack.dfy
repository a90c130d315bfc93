/** What compiled trees are made of, and which of them their printed text stands for. */
module ExprBack {
  import opened Bytes
  import opened Wrappers
  import opened Scanning
  import opened Escapes
  import opened Decimal
  import opened Records
  import opened Expressions
  import opened ExprGrammar
  import opened ExprPrint
  import FlatTrees

  // ---- what a compiled tree is made of ----

  /** A backslash and two zeros, which stand for a NUL. */
  predicate NulEscape(text: seq<byte>, p: nat) {
    p + 3 <= |text| && text[p] == BACKSLASH && text[p + 1] == ZERO && text[p + 2] == ZERO
  }

  /** A text in which no NUL is written, neither as it is nor as an escape. */
  ghost predicate NoNul(text: seq<byte>) {
    0 !in text && forall p: nat :: !NulEscape(text, p)
  }

  lemma OnlyZeros(a: byte, b: byte)
    requires IsHex(a) && IsHex(b) && HexByte(a, b) == 0
    ensures a == ZERO && b == ZERO
  {
  }

  lemma {:induction false} NoNulInString(text: seq<byte>, p: nat, stop: byte)
    requires p <= |text| && NoNul(text)
    ensures var r := ReadEscaped(text, p, stop); r.Ended? ==> 0 !in r.value
    decreases |text| - p
  {
    hide ReadEscaped, HexByte;
    EscapedIs(text, p, stop);
    if At(text, p, BACKSLASH) && AtAny(text, p + 1, IsHex) {
      if AtAny(text, p + 2, IsHex) {
        NoNulInString(text, p + 3, stop);
        assert !NulEscape(text, p);
        if HexByte(text[p + 1], text[p + 2]) == 0 {
          OnlyZeros(text[p + 1], text[p + 2]);
        }
      }
    } else if p < |text| {
      NoNulInString(text, p + 1, stop);
    }
  }

  /** What a compiled tree is made of: numbers without a sign and fields of the table. */
  predicate FromText(env: Env, noNul: bool, e: Expr) {
    match e
    case Long(n) => 0 <= n < INT64_LIMIT
    case Str(s) => noNul ==> 0 !in s
    case FieldAt(id, oc) => FieldOf(env, id) && IsInt32(oc)
    case FieldAny(id) => FieldOf(env, id)
    case Unary(_, e) => FromText(env, noNul, e)
    case Binary(_, l, r) => FromText(env, noNul, l) && FromText(env, noNul, r)
    case _ => true
  }

  predicate FieldOf(env: Env, id: nat) {
    0 < id && FldType(id) <= FLD_CARRAY && exists name :: name in env.ids && IsName(name) && env.ids[name] == id
  }

  lemma LeafFromText(env: Env, noNul: bool, text: seq<byte>, p: nat)
    requires p <= |text| && (noNul ==> NoNul(text))
    ensures var r := ReadLeaf(env, text, p); r.Got? ==> FromText(env, noNul, r.value)
  {
    hide NumberEnd, ReadEscaped, Span, Number, ToInt32, FldType, NoNul;
    if AtAny(text, p, IsAlpha) {
      NameIs(text, p);
    } else if At(text, p, QUOTE) && noNul {
      NoNulInString(text, p + 1, QUOTE);
    }
  }

  lemma NameIs(text: seq<byte>, p: nat)
    requires AtAny(text, p, IsAlpha)
    ensures IsName(text[p..NameEnd(text, p)])
  {
    var s := text[p..NameEnd(text, p)];
    assert forall i :: 0 < i < |s| ==> s[i] == text[p + i];
  }

  lemma {:induction false} PrimaryFromText(env: Env, noNul: bool, text: seq<byte>, p: nat)
    requires p <= |text| && (noNul ==> NoNul(text))
    ensures var r := ReadPrimary(env, text, p); r.Got? ==> FromText(env, noNul, r.value)
    decreases |text| - p, 0
  {
    hide NoNul, ReadPrimary, ReadExpr, ReadRest, ReadLeaf, Span, FieldOf, FldType;
    PrimaryIs(env, text, p);
    var i := SkipSpace(text, p);
    if AtAny(text, i, IsUnaryOp) {
      PrimaryFromText(env, noNul, text, i + 1);
    } else if At(text, i, LPAREN) {
      ExprFromText(env, noNul, text, i + 1);
    } else {
      LeafFromText(env, noNul, text, i);
    }
  }

  lemma {:induction false} RestFromText(env: Env, noNul: bool, text: seq<byte>, p: nat, held: seq<byte>)
    requires p <= |text| && (noNul ==> NoNul(text))
    ensures var items := ReadRest(env, text, p, held).items;
            forall i :: 0 <= i < |items| ==> FromText(env, noNul, items[i].e)
    decreases |text| - p, 1
  {
    hide NoNul, ReadPrimary, ReadExpr, ReadRest, Span, FieldOf, FromText, Which;
    if held != [] {
      RestHeld(env, text, p, held);
      PrimaryEnds(env, text, p);
      PrimaryFromText(env, noNul, text, p);
      var r := ReadPrimary(env, text, p);
      if r.Got? {
        RestFromText(env, noNul, text, r.end, []);
      }
    } else {
      var i := SkipSpace(text, p);
      RestSkips(env, text, p, []);
      SkipTwice(text, p);
      RestRead(env, text, i);
      if AtAny(text, i, IsOpStart) {
        var q := OpEnd(text, i);
        RestFromText(env, noNul, text, q, text[i..q]);
      }
    }
  }

  lemma {:induction false} ExprFromText(env: Env, noNul: bool, text: seq<byte>, p: nat)
    requires p <= |text| && (noNul ==> NoNul(text))
    ensures var r := ReadExpr(env, text, p); r.Got? ==> FromText(env, noNul, r.value)
    decreases |text| - p, 2
  {
    hide NoNul, ReadPrimary, ReadExpr, ReadRest, Span, FieldOf, FromText, Assemble, WellTyped;
    ExprIs(env, text, p);
    PrimaryEnds(env, text, p);
    PrimaryFromText(env, noNul, text, p);
    var r := ReadPrimary(env, text, p);
    if r.Got? {
      RestFromText(env, noNul, text, r.end, []);
      AssembleFromText(env, noNul, r.value, ReadRest(env, text, r.end, []).items);
    }
  }

  lemma BinaryFromText(env: Env, noNul: bool, op: BinOp, l: Expr, r: Expr)
    ensures FromText(env, noNul, Binary(op, l, r)) <==> FromText(env, noNul, l) && FromText(env, noNul, r)
  {
  }

  lemma {:induction false} AssembleFromText(env: Env, noNul: bool, first: Expr, items: seq<Item>)
    requires FromText(env, noNul, first)
    requires forall i :: 0 <= i < |items| ==> FromText(env, noNul, items[i].e)
    ensures FromText(env, noNul, Assemble(first, items))
    decreases |items|
  {
    hide *;
    AssembleIs(first, items);
    if items != [] {
      var k := Weakest(items);
      BinaryFromText(env, noNul, items[k].op, Assemble(first, items[..k]), Assemble(items[k].e, items[k + 1..]));
      AssembleFromText(env, noNul, first, items[..k]);
      AssembleFromText(env, noNul, items[k].e, items[k + 1..]);
    }
  }

  /** A text in which no NUL is written compiles to a tree in which no string is cut short. */
  lemma CompiledHasNoNul(env: Env, text: seq<byte>)
    requires NoNul(text) && ReadExpr(env, text, 0).Got?
    ensures NulFree(ReadExpr(env, text, 0).value)
  {
    hide NoNul, ReadExpr, FromText, NulFree;
    ExprFromText(env, true, text, 0);
    StringsHaveNoNul(env, ReadExpr(env, text, 0).value);
  }

  lemma {:induction e} StringsHaveNoNul(env: Env, e: Expr)
    requires FromText(env, true, e)
    ensures NulFree(e)
  {
    hide FieldOf;
  }

  /** What stands behind a string leaf is found if and only if the string holds no NUL. */
  lemma LeafEndsRight(tree: seq<byte>, p: nat, s: seq<byte>)
    requires Holds(tree, p, Encode(Str(s)))
    ensures p + 1 <= |tree| && (StrEnd(tree, p + 1) + 1 == p + |Encode(Str(s))| <==> 0 !in s)
  {
    hide Span, Holds;
    StrAt(tree, p, s);
    ReadToNul(tree, p + 1, s);
  }

  lemma ReadToNul(tree: seq<byte>, p: nat, s: seq<byte>)
    requires Holds(tree, p, s + [0])
    ensures p <= |tree| && (StrEnd(tree, p) == p + |s| <==> 0 !in s)
  {
    HoldsAt(tree, p, s + [0]);
    if 0 !in s {
      StrEndIs(tree, p, s);
    } else {
      var i :| 0 <= i < |s| && s[i] == 0;
      assert tree[p + i] == (s + [0])[i];
    }
  }

  // ---- what is written longer than it is ----

  /** A literal without quote and backslash compiles to that string. */
  lemma LiteralIsRead(env: Env, s: seq<byte>)
    requires QUOTE !in s && BACKSLASH !in s
    ensures var text := [QUOTE] + s + [QUOTE]; ReadExpr(env, text, 0) == Got(Str(s), |text|)
  {
    hide ReadPrimary, ReadExpr, ReadRest, ReadLeaf, Holds, Span;
    var text := [QUOTE] + s + [QUOTE];
    assert Holds(text, 0, text) by { HoldsWhole(text, []); assert text + [] == text; }
    StrIsRead(env, text, 0, s);
    NoSpaceAt(text, 0);
    SpanIs(text, |text|, |text|, IsSpace);
    PrimaryIs(env, text, 0);
    RestRead(env, text, |text|);
    ExprIs(env, text, 0);
    AssembleIs(Str(s), []);
  }

  /** A literal of 3000 letters: it compiles, and its bytes do not fit the block of the tree. */
  lemma LongLiteral(env: Env)
    ensures var s := seq(3000, _ => 120 as byte);
            ReadExpr(env, [QUOTE] + s + [QUOTE], 0) == Got(Str(s), 3002) && FlatTrees.Room(FlatTrees.Pieces(Str(s))) == None
  {
    var s := seq(3000, _ => 120 as byte);
    LiteralIsRead(env, s);
    FlatTrees.LiteralRoom(s);
  }

  // ---- a NUL in a string ----

  /** The text 'a\00b'==1: it compiles to a comparison of a string that holds a NUL. The bytes
      behind that NUL are where the right operand would be looked for, and are no opcode. */
  lemma NulCutsOff(env: Env)
    ensures var text: seq<byte> := [QUOTE, 97, BACKSLASH, ZERO, ZERO, 98, QUOTE, 61, 61, 49];
            var e := Binary(EQUAL, Str([97, 0, 98]), Long(1));
            var tree := Encode(e);
            && ReadExpr(env, text, 0) == Got(e, |text|)
            && StrEnd(tree, 2) + 1 < |tree| && tree[StrEnd(tree, 2) + 1] > NOT_MATCHES
  {
    hide ReadPrimary, ReadExpr, ReadRest, ReadLeaf, Span, Encode, StrEnd;
    var text: seq<byte> := [QUOTE, 97, BACKSLASH, ZERO, ZERO, 98, QUOTE, 61, 61, 49];
    var e := Binary(EQUAL, Str([97, 0, 98]), Long(1));
    LeftOfEqual(env, text);
    RightOfEqual(env, text);
    NoSpaceAt(text, 7);
    RestRead(env, text, 7);
    RestHeld(env, text, 9, [61, 61]);
    WhichOfText(EQUAL);
    RestRead(env, text, 10);
    ExprIs(env, text, 0);
    OneItem(Str([97, 0, 98]), EQUAL, Long(1));
    assert [Item(EQUAL, Long(1))] + [] == [Item(EQUAL, Long(1))];
    CutTree();
  }

  lemma CutTree()
    ensures var tree := Encode(Binary(EQUAL, Str([97, 0, 98]), Long(1)));
            |tree| > 4 && StrEnd(tree, 2) == 3 && tree[4] == 98
  {
    hide Span, PutI64;
    var tree := Encode(Binary(EQUAL, Str([97, 0, 98]), Long(1)));
    assert tree == [EQUAL, CONST_STRING, 97, 0, 98, 0] + Encode(Long(1));
    SpanIs(tree, 2, 3, (c: byte) => c != 0);
  }

  lemma LeftOfEqual(env: Env, text: seq<byte>)
    requires text == [QUOTE, 97, BACKSLASH, ZERO, ZERO, 98, QUOTE, 61, 61, 49]
    ensures ReadPrimary(env, text, 0) == Got(Str([97, 0, 98]), 7) && SkipSpace(text, 7) == 7
    ensures AtAny(text, 7, IsOpStart) && OpEnd(text, 7) == 9 && text[7..9] == [61, 61]
  {
    hide ReadPrimary, ReadExpr, ReadRest, Span, ReadEscaped;
    NoSpaceAt(text, 0);
    NoSpaceAt(text, 7);
    EscapedIs(text, 1, QUOTE);
    EscapedIs(text, 2, QUOTE);
    EscapedIs(text, 5, QUOTE);
    EscapedIs(text, 6, QUOTE);
    assert [97] + ([0] + ([98] + [])) == [97, 0, 98];
    PrimaryIs(env, text, 0);
  }

  lemma RightOfEqual(env: Env, text: seq<byte>)
    requires text == [QUOTE, 97, BACKSLASH, ZERO, ZERO, 98, QUOTE, 61, 61, 49]
    ensures ReadPrimary(env, text, 9) == Got(Long(1), 10) && SkipSpace(text, 10) == 10
  {
    hide ReadPrimary, ReadExpr, ReadRest, Span;
    NoSpaceAt(text, 9);
    SpanIs(text, 10, 10, IsDigit);
    SpanIs(text, 10, 10, IsSpace);
    assert text[9..10] == [49];
    AllDigits([49]);
    assert Number([49]) == 10 * Number([49][..0]) + 1;
    PrimaryIs(env, text, 9);
  }

  // ---- which trees their text stands for ----

  /** The names of fields are those of the table, each field has one name. */
  predicate OneToOne(env: Env, names: Names) {
    forall name :: name in env.ids && 0 < env.ids[name] ==>
      env.ids[name] < UINT32_LIMIT && env.ids[name] in names.of && names.of[env.ids[name]] == name
  }

  predicate NoDouble(e: Expr) {
    match e
    case Double(_) => false
    case Unary(_, e) => NoDouble(e)
    case Binary(_, l, r) => NoDouble(l) && NoDouble(r)
    case _ => true
  }

  /** The leaves of a tree in the order they are written in. */
  function Leaves(e: Expr): (s: seq<Expr>)
    ensures s != []
  {
    match e
    case Unary(_, e) => Leaves(e)
    case Binary(_, l, r) => Leaves(l) + Leaves(r)
    case _ => [e]
  }

  function LeavesOf(items: seq<Item>): seq<Expr> {
    if items == [] then [] else Leaves(items[0].e) + LeavesOf(items[1..])
  }

  lemma {:induction false} LeavesConcat(a: seq<Item>, b: seq<Item>)
    ensures LeavesOf(a + b) == LeavesOf(a) + LeavesOf(b)
    decreases |a|
  {
    if a == [] {
      assert a + b == b;
    } else {
      assert (a + b)[1..] == a[1..] + b;
      LeavesConcat(a[1..], b);
    }
  }

  /** Precedence changes the tree and not the order of its leaves. */
  lemma {:induction false} AssembleLeaves(first: Expr, items: seq<Item>)
    ensures Leaves(Assemble(first, items)) == Leaves(first) + LeavesOf(items)
    decreases |items|
  {
    hide Weakest, Assemble;
    AssembleIs(first, items);
    if items != [] {
      var k := Weakest(items);
      AssembleLeaves(first, items[..k]);
      AssembleLeaves(items[k].e, items[k + 1..]);
      LeavesConcat(items[..k], items[k..]);
      assert items[..k] + items[k..] == items && items[k..][1..] == items[k + 1..];
    }
  }

  /** The sequences have a first difference. */
  ghost predicate Differ(a: seq<Expr>, b: seq<Expr>) {
    exists k: nat :: DifferAt(a, b, k)
  }

  ghost predicate DifferAt(a: seq<Expr>, b: seq<Expr>, k: nat) {
    k < |a| && k < |b| && a[..k] == b[..k] && a[k] != b[k]
  }

  lemma DifferAround(c: seq<Expr>, a: seq<Expr>, b: seq<Expr>, x: seq<Expr>, y: seq<Expr>)
    requires Differ(a, b)
    ensures Differ(c + a + x, c + b + y)
  {
    var k: nat :| DifferAt(a, b, k);
    var u, v := c + a + x, c + b + y;
    assert u[..|c| + k] == c + a[..k] && v[..|c| + k] == c + b[..k];
    assert DifferAt(u, v, |c| + k);
  }

  lemma DifferMeans(a: seq<Expr>, b: seq<Expr>)
    ensures Differ(a, b) ==> a != b
  {
  }

  /** A tree is read, and its leaves differ from those of `e`; or the text is refused. */
  ghost predicate Refuted(r: Read<Expr>, e: Expr) { r.Bad? || Differ(Leaves(r.value), Leaves(e)) }

  /** In parentheses: what is read is what is read between them. */
  lemma ParenValue(env: Env, text: seq<byte>, p: nat)
    requires Holds(text, p, [LPAREN, SPACE])
    ensures p + 2 <= |text|
    ensures var r := ReadPrimary(env, text, p);
            r.Got? ==> ReadExpr(env, text, p + 2).Got? && r.value == ReadExpr(env, text, p + 2).value
  {
    hide ReadExpr, ReadPrimary, ReadRest, Span, Holds;
    HoldsAt(text, p, [LPAREN, SPACE]);
    assert text[p] == LPAREN && text[p + 1] == SPACE;
    PrimaryIs(env, text, p);
    ExprSkips(env, text, p + 1);
    NoSpaceAt(text, p);
  }

  /** The first operand is refuted, or what comes behind it. */
  lemma FirstRefutes(env: Env, text: seq<byte>, p: nat, e: Expr, behind: seq<Expr>, whole: Expr)
    requires p <= |text| && Refuted(ReadPrimary(env, text, p), e)
    requires Leaves(whole) == Leaves(e) + behind
    ensures Refuted(ReadExpr(env, text, p), whole)
  {
    hide *;
    RefutedIs(ReadPrimary(env, text, p), e);
    RefutedIs(ReadExpr(env, text, p), whole);
    ExprIs(env, text, p);
    var r := ReadPrimary(env, text, p);
    if r.Got? {
      PrimaryEnds(env, text, p);
      var items := ReadRest(env, text, r.end, []).items;
      AssembleLeaves(r.value, items);
      DifferAround([], Leaves(r.value), Leaves(e), LeavesOf(items), behind);
      assert [] + Leaves(r.value) + LeavesOf(items) == Leaves(r.value) + LeavesOf(items);
      assert [] + Leaves(e) + behind == Leaves(e) + behind;
    }
  }

  lemma RefutedIs(r: Read<Expr>, e: Expr)
    ensures Refuted(r, e) <==> r.Bad? || Differ(Leaves(r.value), Leaves(e))
  {
  }

  lemma SecondRefutes(env: Env, text: seq<byte>, p: nat, op: BinOp, l: Expr, i: nat, r: Expr)
    requires p <= |text| && ReadPrimary(env, text, p) == Got(l, i)
    requires Holds(text, i, BinText(op) + [SPACE])
    requires i + |BinText(op)| + 1 <= |text| && Refuted(ReadPrimary(env, text, i + |BinText(op)| + 1), r)
    ensures Refuted(ReadExpr(env, text, p), Binary(op, l, r))
  {
    hide *;
    var j := i + |BinText(op)|;
    OperatorIsRead(text, i, op);
    RestRead(env, text, i);
    RestHeld(env, text, j, BinText(op));
    WhichOfText(op);
    SpaceAt(text, j);
    PrimarySkips(env, text, j);
    PrimarySkips(env, text, j + 1);
    ExprIs(env, text, p);
    RefutedIs(ReadPrimary(env, text, j + 1), r);
    RefutedIs(ReadExpr(env, text, p), Binary(op, l, r));
    var right := ReadPrimary(env, text, j);
    if right.Got? {
      PrimaryEnds(env, text, j);
      var more := ReadRest(env, text, right.end, []).items;
      var items := [Item(op, right.value)] + more;
      AssembleLeaves(l, items);
      FirstOfItems(op, right.value, more);
      DifferAround(Leaves(l), Leaves(right.value), Leaves(r), LeavesOf(more), []);
      LeavesOfBinary(op, l, r);
      assert Leaves(l) + Leaves(right.value) + LeavesOf(more) == Leaves(l) + (Leaves(right.value) + LeavesOf(more));
      assert Leaves(l) + Leaves(r) + [] == Leaves(l) + Leaves(r);
    }
  }

  lemma FirstOfItems(op: BinOp, e: Expr, more: seq<Item>)
    ensures LeavesOf([Item(op, e)] + more) == Leaves(e) + LeavesOf(more)
  {
    assert ([Item(op, e)] + more)[1..] == more;
  }

  lemma LeavesOfBinary(op: BinOp, l: Expr, r: Expr)
    ensures Leaves(Binary(op, l, r)) == Leaves(l) + Leaves(r)
  {
  }

  lemma ParenRefutes(env: Env, text: seq<byte>, p: nat, e: Expr)
    requires Holds(text, p, [LPAREN, SPACE]) && p + 2 <= |text| && Refuted(ReadExpr(env, text, p + 2), e)
    ensures p <= |text| && Refuted(ReadPrimary(env, text, p), e)
  {
    hide ReadPrimary, ReadExpr, Differ, Leaves, Holds;
    ParenValue(env, text, p);
  }

  /** A leaf that its text does not stand for. */
  lemma LeafRefuted(env: Env, names: Names, text: seq<byte>, p: nat, e: Expr)
    requires Known(env, names, e) && FromText(env, false, e) && NoDouble(e) && !e.Unary? && !e.Binary? && !Sayable(e) && NulFree(e)
    requires Holds(text, p, LeafText(names, e))
    ensures p <= |text| && Refuted(ReadPrimary(env, text, p), e)
  {
    hide ReadPrimary, ReadExpr, ReadRest, Span, Holds;
    HoldsAt(text, p, LeafText(names, e));
    PrimaryIs(env, text, p);
    match e
    case Str(s) =>
      assert LeafText(names, e) == [QUOTE] + (s + [QUOTE]);
      HoldsParts(text, p, [QUOTE], s + [QUOTE]);
      NoSpaceAt(text, p);
      QuotedRefuted(env, text, p, s);
      var r := ReadPrimary(env, text, p);
      if r.Got? {
        OtherLeaf(r.value, e);
      }
    case FieldAt(id, oc) =>
      NegativeRefuted(env, names, text, p, id, oc);
  }

  lemma OtherLeaf(a: Expr, b: Expr)
    requires a.Str? && b.Str? && a != b
    ensures Differ(Leaves(a), Leaves(b))
  {
    assert [a][..0] == [b][..0];
    assert DifferAt([a], [b], 0);
  }

  lemma QuotedRefuted(env: Env, text: seq<byte>, p: nat, s: seq<byte>)
    requires p < |text| && text[p] == QUOTE && Holds(text, p + 1, s + [QUOTE]) && (QUOTE in s || BACKSLASH in s)
    ensures ReadLeaf(env, text, p).Bad? || (ReadLeaf(env, text, p).value.Str? && |ReadLeaf(env, text, p).value.s| < |s|)
  {
    hide ReadEscaped, Holds;
    ReadsAsItself(text, p + 1, s, QUOTE);
  }

  lemma NegativeRefuted(env: Env, names: Names, text: seq<byte>, p: nat, id: nat, oc: int)
    requires Knows(env, names, id) && oc < 0
    requires Holds(text, p, names.of[id] + [LBRACKET] + Text(oc) + [RBRACKET])
    ensures p <= |text| && ReadPrimary(env, text, p).Bad?
  {
    hide ReadPrimary, ReadExpr, ReadRest, Span, Holds, Digits, NameEnd;
    var name, tail := names.of[id], Digits(-oc) + [RBRACKET];
    assert name + [LBRACKET] + Text(oc) + [RBRACKET] == name + ([LBRACKET, MINUS] + tail);
    HoldsParts(text, p, name, [LBRACKET, MINUS] + tail);
    HoldsParts(text, p + |name|, [LBRACKET, MINUS], tail);
    HoldsAt(text, p + |name|, [LBRACKET, MINUS]);
    assert text[p + |name|] == LBRACKET && text[p + |name| + 1] == MINUS;
    NameIsRead(text, p, name);
    HoldsAt(text, p, name);
    NoSpaceAt(text, p);
    PrimaryIs(env, text, p);
  }

  /** The text of a tree that holds a leaf its text does not stand for is refused, or read as a
      tree with other leaves. */
  lemma {:induction false} ShownRefuted(env: Env, names: Names, text: seq<byte>, p: nat, e: Expr)
    requires Known(env, names, e) && FromText(env, false, e) && NoDouble(e) && NulFree(e) && WellTyped(e) && !Sayable(e)
    requires Holds(text, p, Shown(names, e))
    ensures p <= |text| && Refuted(ReadPrimary(env, text, p), e)
    decreases e
  {
    hide *;
    KnownIsNamed(env, names, e);
    match e
    case Unary(op, x) =>
      UnaryUnsayable(env, names, op, x);
      UnaryText(names, text, p, op, x);
      ShownRefuted(env, names, text, p + 3, x);
      UnaryRefuted(env, text, p + 2, op, x);
      ParenRefutes(env, text, p, e);
    case Binary(op, l, r) =>
      BinaryUnsayable(env, names, op, l, r);
      BinaryText(names, text, p, op, l, r);
      var i := p + 2 + |Shown(names, l)|;
      HoldsEnds(text, p, l, r, names, op);
      if !Sayable(l) {
        ShownRefuted(env, names, text, p + 2, l);
        LeavesOfBinary(op, l, r);
        FirstRefutes(env, text, p + 2, l, Leaves(r), e);
      } else {
        ShownIsRead(env, names, text, p + 2, l);
        ShownRefuted(env, names, text, i + |BinText(op)| + 1, r);
        OperatorIsRead(text, i, op);
        SecondRefutes(env, text, p + 2, op, l, i, r);
      }
      ParenRefutes(env, text, p, e);
    case _ =>
      LeafShown(env, names, e);
      var w := LeafText(names, e);
      HoldsParts(text, p, [LPAREN, SPACE], w + ([SPACE] + [RPAREN, SPACE]));
      HoldsParts(text, p + 2, w, [SPACE] + [RPAREN, SPACE]);
      LeafRefuted(env, names, text, p + 2, e);
      assert Leaves(e) == Leaves(e) + [];
      FirstRefutes(env, text, p + 2, e, [], e);
      ParenRefutes(env, text, p, e);
  }

  lemma HoldsEnds(text: seq<byte>, p: nat, l: Expr, r: Expr, names: Names, op: BinOp)
    requires Named(names, l) && Named(names, r)
    requires var q := p + 2 + |Shown(names, l)| + |BinText(op)| + 1 + |Shown(names, r)|; Holds(text, q, [RPAREN, SPACE])
    ensures p + 2 <= |text| && p + 2 + |Shown(names, l)| + |BinText(op)| + 1 <= |text|
  {
  }

  lemma UnaryUnsayable(env: Env, names: Names, op: UnOp, x: Expr)
    requires var e := Unary(op, x);
             Known(env, names, e) && FromText(env, false, e) && NoDouble(e) && NulFree(e) && WellTyped(e) && !Sayable(e)
    ensures Known(env, names, x) && FromText(env, false, x) && NoDouble(x) && NulFree(x) && WellTyped(x) && !Sayable(x)
    ensures Named(names, x)
  {
  }

  lemma BinaryUnsayable(env: Env, names: Names, op: BinOp, l: Expr, r: Expr)
    requires var e := Binary(op, l, r);
             Known(env, names, e) && FromText(env, false, e) && NoDouble(e) && NulFree(e) && WellTyped(e) && !Sayable(e)
    ensures Known(env, names, l) && FromText(env, false, l) && NoDouble(l) && NulFree(l) && WellTyped(l) && Named(names, l)
    ensures Known(env, names, r) && FromText(env, false, r) && NoDouble(r) && NulFree(r) && WellTyped(r) && Named(names, r)
    ensures !Sayable(l) || !Sayable(r)
  {
  }

  lemma UnaryRefuted(env: Env, text: seq<byte>, p: nat, op: UnOp, x: Expr)
    requires Holds(text, p, [UnText(op)]) && p + 1 <= |text| && Refuted(ReadPrimary(env, text, p + 1), x)
    ensures Refuted(ReadExpr(env, text, p), Unary(op, x))
  {
    hide ReadPrimary, ReadExpr, Differ, Span, Holds;
    HoldsAt(text, p, [UnText(op)]);
    NoSpaceAt(text, p);
    PrimaryIs(env, text, p);
    assert Leaves(Unary(op, x)) == Leaves(Unary(op, x)) + [];
    FirstRefutes(env, text, p, Unary(op, x), [], Unary(op, x));
  }

  /** The printed text of a tree without doubles is read as that tree if and only if the tree has
      no negative number and no string with a quote or a backslash. */
  lemma PrintsBack(env: Env, names: Names, e: Expr)
    requires Known(env, names, e) && WellTyped(e) && NulFree(e) && NoDouble(e)
    ensures Named(names, e)
    ensures var text := Shown(names, e) + [NEWLINE];
            ReadExpr(env, text, 0) == Got(e, |text|) <==> Sayable(e)
  {
    hide *;
    KnownIsNamed(env, names, e);
    var shown := Shown(names, e);
    var text := shown + [NEWLINE];
    if Sayable(e) {
      PrintedIsRead(env, names, e);
    } else if ReadExpr(env, text, 0) == Got(e, |text|) {
      ExprFromText(env, false, text, 0);
      HoldsWhole(shown, [NEWLINE]);
      ShownRefuted(env, names, text, 0, e);
      assert Leaves(e) == Leaves(e) + [];
      FirstRefutes(env, text, 0, e, [], e);
      RefutedIs(ReadExpr(env, text, 0), e);
      DifferMeans(Leaves(e), Leaves(e));
    }
  }

  /** Compile a text, print the tree, compile what was printed: it is the same tree if and only if
      no string needs an escape and no occurrence wrapped to a negative number. */
  lemma CompiledPrintsBack(env: Env, names: Names, text: seq<byte>)
    requires OneToOne(env, names) && ReadExpr(env, text, 0).Got?
    requires NoNul(text) && NoDouble(ReadExpr(env, text, 0).value)
    ensures var e := ReadExpr(env, text, 0).value;
            && Fits(e) && NulFree(e) && Named(names, e)
            && (ReadExpr(env, Shown(names, e) + [NEWLINE], 0) == Got(e, |Shown(names, e)| + 1) <==> Plain(e))
  {
    hide *;
    var e := ReadExpr(env, text, 0).value;
    ExprFromText(env, true, text, 0);
    ReadIsTyped(env, text);
    PlainIsSayable(env, names, e);
    KnownIsNamed(env, names, e);
    PrintsBack(env, names, e);
  }

  /** No string that needs an escape, no occurrence wrapped to a negative number. */
  predicate Plain(e: Expr) {
    match e
    case Str(s) => QUOTE !in s && BACKSLASH !in s
    case FieldAt(_, oc) => oc >= 0
    case Unary(_, e) => Plain(e)
    case Binary(_, l, r) => Plain(l) && Plain(r)
    case _ => true
  }

  lemma {:induction e} PlainIsSayable(env: Env, names: Names, e: Expr)
    requires FromText(env, true, e) && OneToOne(env, names) && NoDouble(e)
    ensures Fits(e) && NulFree(e) && Known(env, names, e)
    ensures Sayable(e) <==> Plain(e)
  {
    hide FldType, IsName, UnaryOp;
  }

  lemma ReadIsTyped(env: Env, text: seq<byte>)
    ensures var r := ReadExpr(env, text, 0); r.Got? ==> WellTyped(r.value)
  {
  }

  /** A string that is a quote is printed as three quotes, which are an empty string and an open one. */
  lemma QuoteDoesNotPrintBack(env: Env, names: Names)
    ensures var text := Shown(names, Str([QUOTE])) + [NEWLINE];
            ReadExpr(env, text, 0) != Got(Str([QUOTE]), |text|)
  {
    hide ReadExpr, Shown;
    PrintsBack(env, names, Str([QUOTE]));
  }
}
