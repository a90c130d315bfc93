/** Whole texts and what becomes of them. */
module Samples {
  import opened Bytes
  import opened Wrappers
  import opened Scanning
  import opened Escapes
  import opened Decimal
  import opened FieldSeq
  import opened Records
  import opened Expressions
  import opened ExprGrammar
  import opened ExprMeaning
  import opened ExprPrint
  import opened Symbols
  import TextForm
  import ExprParser

  // ---- operands ----

  /** A field name alone stands for its first occurrence. */
  lemma BareName(env: Env, name: seq<byte>)
    requires IsName(name) && name in env.ids && 0 < env.ids[name] && FldType(env.ids[name]) <= FLD_CARRAY
    ensures ReadExpr(env, name, 0) == Got(FieldAt(env.ids[name], 0), |name|)
  {
    hide ReadPrimary, ReadExpr, ReadRest, Span;
    var n := |name|;
    SpanIs(name, 1, n, IsNamePart);
    SpanIs(name, n, n, IsSpace);
    NoSpaceAt(name, 0);
    assert name[0..n] == name;
    ZeroIsRead();
    PrimaryIs(env, name, 0);
    RestRead(env, name, n);
    ExprIs(env, name, 0);
    AssembleIs(FieldAt(env.ids[name], 0), []);
  }

  lemma ZeroIsRead()
    ensures Stol([ZERO]) == Some(0)
  {
    AllDigits([ZERO]);
    assert Number([ZERO]) == 10 * Number([ZERO][..0]) + 0;
  }

  /** A plus in front of an operand changes nothing. */
  lemma PlusIsIgnored(env: Env, text: seq<byte>, p: nat)
    requires p < |text| && text[p] as char == '+'
    ensures ReadPrimary(env, text, p) == ReadPrimary(env, text, p + 1)
  {
    hide ReadPrimary, ReadExpr, Span;
    NoSpaceAt(text, p);
    PrimaryIs(env, text, p);
  }

  /** A name that is not in the table, and a field that an expression may not use. */
  lemma BadNames(env: Env, text: seq<byte>, p: nat)
    requires AtAny(text, p, IsAlpha)
    ensures var q := NameEnd(text, p);
            var name := text[p..q];
            ReadSubscript(text, q).Got? ==>
              && (name !in env.ids || env.ids[name] == 0 ==> ReadLeaf(env, text, p) == Bad(BadName))
              && (name in env.ids && env.ids[name] >= 7 * 0x100_0000 ==> ReadLeaf(env, text, p) == Bad(BadOperand))
  {
    hide NameEnd, ReadSubscript, Stol;
  }

  /** A number of digits is a long, and an error when it is too large; one with a dot is a double. */
  lemma NumberLeaves(env: Env, token: seq<byte>)
    requires token != []
    ensures (forall i :: 0 <= i < |token| ==> IsDigit(token[i])) ==>
              NumberLeaf(env, token) == if Number(token) < 0x8000_0000_0000_0000 then Ok(Long(Number(token))) else Err(Syntax)
    ensures DOT in token ==>
              NumberLeaf(env, token) == match env.stof(token) case Some(bits) => Ok(Double(bits)) case None => Err(Syntax)
  {
    if forall i :: 0 <= i < |token| ==> IsDigit(token[i]) {
      AllDigits(token);
    }
  }

  // ---- 1+2*3 ----

  /** A digit that an operator or the end follows is a number. */
  lemma OneDigit(env: Env, text: seq<byte>, p: nat)
    requires p < |text| && IsDigit(text[p])
    requires p + 1 < |text| ==> !IsDigit(text[p + 1]) && text[p + 1] != DOT && !IsSpace(text[p + 1])
    ensures ReadPrimary(env, text, p) == Got(Long(text[p] - 48), p + 1) && SkipSpace(text, p + 1) == p + 1
  {
    hide ReadPrimary, ReadExpr, ReadRest, Span;
    NoSpaceAt(text, p);
    SpanIs(text, p + 1, p + 1, IsDigit);
    SpanIs(text, p + 1, p + 1, IsSpace);
    assert text[p..p + 1] == [text[p]];
    AllDigits([text[p]]);
    assert Number([text[p]]) == 10 * Number([text[p]][..0]) + (text[p] - 48);
    PrimaryIs(env, text, p);
  }

  lemma ProductInSum(env: Env)
    ensures ReadExpr(env, Chars("1+2*3"), 0) == Got(Binary(ADDITION, Long(1), Binary(MULTIPLICATION, Long(2), Long(3))), 5)
  {
    hide ReadPrimary, ReadExpr, ReadRest, Span, Chars, Assemble, Prec, WellTyped, Which, CLASSES;
    SumText();
    var text := Chars("1+2*3");
    OneDigit(env, text, 0);
    RestOfSum(env, text);
    ExprIs(env, text, 0);
    OneInside();
    TwoOperators(Long(1), ADDITION, Long(2), MULTIPLICATION, Long(3), 1, 0);
    NumbersAreTyped();
  }

  lemma OneInside()
    ensures |CLASSES| > 1 && ADDITION in CLASSES[1] && MULTIPLICATION in CLASSES[0]
  {
  }

  lemma RestOfSum(env: Env, text: seq<byte>)
    requires text == [49, 43, 50, 42, 51]
    ensures ReadRest(env, text, 1, []) == Rest([Item(ADDITION, Long(2)), Item(MULTIPLICATION, Long(3))], None, Ok(5))
  {
    hide ReadPrimary, ReadExpr, ReadRest, Span, Prec, Which;
    OneDigit(env, text, 0);
    OneDigit(env, text, 2);
    OneDigit(env, text, 4);
    RestRead(env, text, 1);
    RestHeld(env, text, 2, [43]);
    RestRead(env, text, 3);
    RestHeld(env, text, 4, [42]);
    RestRead(env, text, 5);
    assert text[1..2] == [43] && text[3..4] == [42];
    WhichOfText(ADDITION);
    WhichOfText(MULTIPLICATION);
    assert [Item(MULTIPLICATION, Long(3))] + [] == [Item(MULTIPLICATION, Long(3))];
    assert [Item(ADDITION, Long(2))] + [Item(MULTIPLICATION, Long(3))] == [Item(ADDITION, Long(2)), Item(MULTIPLICATION, Long(3))];
  }

  lemma SumText()
    ensures Chars("1+2*3") == [49, 43, 50, 42, 51]
  {
  }

  lemma NumbersAreTyped()
    ensures WellTyped(Binary(ADDITION, Long(1), Binary(MULTIPLICATION, Long(2), Long(3))))
  {
  }

  // ---- flat trees ----

  /** The bytes of operands: an opcode, numbers with the low byte first, texts with their NUL. */
  lemma FlatOperands()
    ensures Encode(Long(258)) == [1, 2, 1, 0, 0, 0, 0, 0, 0]
    ensures forall d: Bits64 :: Encode(Double(d)) == [2] + d
    ensures Encode(Str(Chars("ab"))) == [3, 97, 98, 0]
    ensures Encode(FieldAt(258, 1)) == [4, 2, 1, 0, 0, 1, 0, 0, 0] && Encode(FieldAny(258)) == [5, 2, 1, 0, 0]
  {
    hide Encode;
    FlatNumbers();
    FlatText();
    FlatFields();
  }

  lemma FlatNumbers()
    ensures Encode(Long(258)) == [1, 2, 1, 0, 0, 0, 0, 0, 0]
    ensures forall d: Bits64 :: Encode(Double(d)) == [2] + d
  {
    assert PutI64(258) == [2, 1, 0, 0, 0, 0, 0, 0];
  }

  lemma FlatText()
    ensures Encode(Str(Chars("ab"))) == [3, 97, 98, 0]
  {
    assert Chars("ab") == [97, 98];
  }

  lemma FlatFields()
    ensures Encode(FieldAt(258, 1)) == [4, 2, 1, 0, 0, 1, 0, 0, 0] && Encode(FieldAny(258)) == [5, 2, 1, 0, 0]
  {
    assert PutU32(258) == [2, 1, 0, 0] && PutI32(1) == [1, 0, 0, 0];
  }

  /** A finished tree: its length in two bytes, the low one first, two bytes of zeros, the flat form. */
  lemma FinishedTree(e: Expr)
    requires |Encode(e)| + 4 < 0x1_0000
    ensures var t := ExprParser.Tree(e);
            && |t| == |Encode(e)| + 4 && t[0] as int + 0x100 * t[1] as int == |t|
            && t[2..4] == [0, 0] && t[4..] == Encode(e)
  {
    hide Encode;
  }

  /** The opcodes, which stand in front of their operands. */
  lemma Opcodes()
    ensures [UNARY_MINUS, LOGICAL_NEGATION, BITWISE_NEGATION] == [6, 7, 8]
    ensures [MULTIPLICATION, DIVISION, MODULUS, ADDITION, SUBTRACTION, EXCLUSIVE_OR] == [9, 10, 11, 12, 13, 14]
    ensures [LOGICAL_AND, LOGICAL_OR, LESS_THAN, GREATER_THAN, LESS_OR_EQUAL] == [15, 16, 17, 18, 19]
    ensures [GREATER_OR_EQUAL, EQUAL, NOT_EQUAL, MATCHES, NOT_MATCHES] == [20, 21, 22, 23, 24]
  {
  }

  // ---- a printed tree ----

  /** Every operand and every operation stands in parentheses of its own. */
  lemma PrintedTrees(names: Names, id: nat)
    requires id in names.of && names.of[id] == Chars("F")
    ensures Shown(names, Str(Chars("a b"))) == Chars("( 'a b' ) ")
    ensures Shown(names, Unary(UNARY_MINUS, FieldAt(id, 3))) == Chars("( -( F[3] ) ) ")
    ensures Shown(names, Binary(LESS_OR_EQUAL, FieldAny(id), Long(7))) == Chars("( ( F[?] ) <= ( 7 ) ) ")
  {
    hide Chars, Shown;
    TreeTexts();
    PrintedLeaves(names, id);
    PrintedUnary(names, FieldAt(id, 3));
    PrintedBinary(names, FieldAny(id), Long(7));
  }

  lemma PrintedLeaves(names: Names, id: nat)
    requires id in names.of && names.of[id] == [70]
    ensures Shown(names, Str([97, 32, 98])) == [40, 32, 39, 97, 32, 98, 39, 32, 41, 32]
    ensures Shown(names, FieldAny(id)) == [40, 32, 70, 91, 63, 93, 32, 41, 32]
    ensures Shown(names, FieldAt(id, 3)) == [40, 32, 70, 91, 51, 93, 32, 41, 32]
    ensures Shown(names, Long(7)) == [40, 32, 55, 32, 41, 32]
  {
    assert Text(3) == [51] && Text(7) == [55];
  }

  lemma PrintedUnary(names: Names, e: Expr)
    requires Named(names, e) && Shown(names, e) == [40, 32, 70, 91, 51, 93, 32, 41, 32]
    ensures Shown(names, Unary(UNARY_MINUS, e)) == [40, 32, 45, 40, 32, 70, 91, 51, 93, 32, 41, 32, 41, 32]
  {
    assert Shown(names, Unary(UNARY_MINUS, e)) == [40, 32, 45] + Shown(names, e) + [41, 32];
  }

  lemma PrintedBinary(names: Names, l: Expr, r: Expr)
    requires Named(names, l) && Shown(names, l) == [40, 32, 70, 91, 63, 93, 32, 41, 32]
    requires Named(names, r) && Shown(names, r) == [40, 32, 55, 32, 41, 32]
    ensures Shown(names, Binary(LESS_OR_EQUAL, l, r)) ==
            [40, 32, 40, 32, 70, 91, 63, 93, 32, 41, 32, 60, 61, 32, 40, 32, 55, 32, 41, 32, 41, 32]
  {
    hide Shown, BinText;
    var left, right := Shown(names, l), Shown(names, r);
    assert BinText(LESS_OR_EQUAL) == [60, 61] by { LessOrEqualText(); }
    BinaryShown(names, LESS_OR_EQUAL, l, r);
    var a := [40, 32] + left;
    assert a == [40, 32, 40, 32, 70, 91, 63, 93, 32, 41, 32];
    var b := a + [60, 61] + [32];
    assert b == [40, 32, 40, 32, 70, 91, 63, 93, 32, 41, 32, 60, 61, 32];
    var c := b + right;
    assert c == [40, 32, 40, 32, 70, 91, 63, 93, 32, 41, 32, 60, 61, 32, 40, 32, 55, 32, 41, 32];
  }

  lemma LessOrEqualText()
    ensures BinText(LESS_OR_EQUAL) == [60, 61]
  {
  }

  lemma TreeTexts()
    ensures Chars("F") == [70] && Chars("a b") == [97, 32, 98]
    ensures Chars("( 'a b' ) ") == [40, 32, 39, 97, 32, 98, 39, 32, 41, 32]
    ensures Chars("( -( F[3] ) ) ") == [40, 32, 45, 40, 32, 70, 91, 51, 93, 32, 41, 32, 41, 32]
    ensures Chars("( ( F[?] ) <= ( 7 ) ) ") ==
            [40, 32, 40, 32, 70, 91, 63, 93, 32, 41, 32, 60, 61, 32, 40, 32, 55, 32, 41, 32, 41, 32]
  {
    hide Chars;
    ShortTexts();
    UnaryTreeText();
    BinaryTreeText();
  }

  lemma ShortTexts()
    ensures Chars("F") == [70] && Chars("a b") == [97, 32, 98]
    ensures Chars("( 'a b' ) ") == [40, 32, 39, 97, 32, 98, 39, 32, 41, 32]
  {
  }

  lemma UnaryTreeText()
    ensures Chars("( -( F[3] ) ) ") == [40, 32, 45, 40, 32, 70, 91, 51, 93, 32, 41, 32, 41, 32]
  {
  }

  lemma BinaryTreeText()
    ensures Chars("( ( F[?] ) <= ( 7 ) ) ") ==
            [40, 32, 40, 32, 70, 91, 63, 93, 32, 41, 32, 60, 61, 32, 40, 32, 55, 32, 41, 32, 41, 32]
  {
  }

  // ---- a printed buffer ----

  const A_ID: nat := 1
  const S_ID: nat := 0x500_0001
  const N_ID: nat := 0xA00_0001

  /** A number, and a nested buffer with a string of an x and a bell. */
  const BUFFER: TextForm.Contents :=
    [Field(A_ID, TextForm.Short(-5)), Field(N_ID, TextForm.Nested([Field(S_ID, TextForm.Chars([120, 7]))]))]

  /** How a buffer is printed, byte for byte. */
  lemma PrintedBuffer(t: TextForm.Tables)
    requires A_ID in t.names && t.names[A_ID] == Chars("A")
    requires S_ID in t.names && t.names[S_ID] == Chars("S")
    requires N_ID in t.names && t.names[N_ID] == Chars("N")
    ensures TextForm.ShowFields(t, BUFFER, 0) + [NEWLINE] == Chars("A\t-5\nN\t\n\tS\tx\\07\n\n\n")
  {
    hide *;
    BufferText();
    StringLine(t);
    NumberLine(t);
    NestedLine(t);
    var a, n := [65, 9, 45, 53, 10], [78, 9, 10, 9, 83, 9, 120, 92, 48, 55, 10, 10];
    TwoLines(t, BUFFER, a, n);
    assert a + n + [NEWLINE] == [65, 9, 45, 53, 10, 78, 9, 10, 9, 83, 9, 120, 92, 48, 55, 10, 10, 10] by { NewlineIs(); }
  }

  lemma NewlineIs()
    ensures NEWLINE == 10 && |BUFFER| == 2
  {
  }

  lemma BufferText()
    ensures Chars("A\t-5\nN\t\n\tS\tx\\07\n\n\n") == [65, 9, 45, 53, 10, 78, 9, 10, 9, 83, 9, 120, 92, 48, 55, 10, 10, 10]
    ensures Chars("A") == [65] && Chars("S") == [83] && Chars("N") == [78]
  {
  }

  lemma TwoLines(t: TextForm.Tables, fs: TextForm.Contents, a: seq<byte>, b: seq<byte>)
    requires fs == BUFFER && TextForm.ShowLine(t, fs[0], 0) == a && TextForm.ShowLine(t, fs[1], 0) == b
    ensures TextForm.ShowFields(t, fs, 0) == a + b
  {
    hide TextForm.ShowLine;
    assert fs[1..][0] == fs[1] && fs[1..][1..] == [];
    assert TextForm.ShowFields(t, fs[1..], 0) == b + [];
  }

  lemma NumberLine(t: TextForm.Tables)
    requires A_ID in t.names && t.names[A_ID] == [65]
    ensures TextForm.ShowLine(t, BUFFER[0], 0) == [65, 9, 45, 53, 10]
  {
    assert Text(-5) == [45, 53];
    assert TextForm.Tabs(0) == [];
  }

  lemma StringLine(t: TextForm.Tables)
    requires S_ID in t.names && t.names[S_ID] == [83]
    ensures TextForm.ShowLine(t, Field(S_ID, TextForm.Chars([120, 7])), 1) == [9, 83, 9, 120, 92, 48, 55, 10]
  {
    hide TextForm.ShowBytes;
    ShownString();
    assert TextForm.Tabs(0) == [] && TextForm.Tabs(1) == [TAB];
  }

  lemma NestedLine(t: TextForm.Tables)
    requires N_ID in t.names && t.names[N_ID] == [78]
    requires TextForm.ShowLine(t, Field(S_ID, TextForm.Chars([120, 7])), 1) == [9, 83, 9, 120, 92, 48, 55, 10]
    ensures TextForm.ShowLine(t, BUFFER[1], 0) == [78, 9, 10, 9, 83, 9, 120, 92, 48, 55, 10, 10]
  {
    hide TextForm.ShowBytes;
    var inner := [Field(S_ID, TextForm.Chars([120, 7]))];
    assert inner[1..] == [];
    OneLine(t, inner);
    assert TextForm.Tabs(0) == [];
    assert TextForm.ShowLine(t, BUFFER[1], 0) == [78] + [9] + ([10] + TextForm.ShowFields(t, inner, 1)) + [10];
  }

  lemma OneLine(t: TextForm.Tables, fs: TextForm.Contents)
    requires |fs| == 1
    ensures TextForm.ShowFields(t, fs, 1) == TextForm.ShowLine(t, fs[0], 1)
  {
    hide TextForm.ShowLine;
    assert fs[1..] == [];
  }

  lemma ShownString()
    ensures TextForm.ShowBytes([120, 7]) == [120, 92, 48, 55]
  {
    assert [120, 7][1..] == [7] && [7][1..] == [];
    assert TextForm.ShowBytes([7]) == TextForm.ShowByte(7) + TextForm.ShowBytes([]);
  }

  // ---- values from their text ----

  /** What the text of a value becomes, type by type; a NUL ends it. */
  lemma ConvertedTexts(t: TextForm.Tables, text: seq<byte>)
    ensures var s, v := CText(text), (type_: nat) => TextForm.Convert(t, type_, text);
            && v(0).Short? && -0x8000 <= v(0).n < 0x8000 && (v(0).n - LongOf(s)) % 0x1_0000 == 0
            && v(1) == TextForm.Int(LongOf(s))
            && v(2) == TextForm.Char(if s == [] then 0 else s[0])
            && v(3) == TextForm.Float(t.single(s)) && v(4) == TextForm.Real(t.double(s))
            && v(5) == TextForm.Chars(s) && v(6) == TextForm.Raw(s + [0])
  {
    hide LongOf, CText;
  }
}
