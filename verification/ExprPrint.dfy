/** The text of a compiled expression, and why compiling that text gives the tree back. */
module ExprPrint {
  import opened Bytes
  import opened Wrappers
  import opened Scanning
  import opened Escapes
  import opened Decimal
  import opened Records
  import opened Expressions
  import opened ExprGrammar

  /** The names of fields, and the machine's text of a double. */
  datatype Names = Names(of: map<nat, seq<byte>>, double: Bits64 -> seq<byte>)

  /** Every leaf in parentheses with spaces, every operator around or in front of its operands. */
  function Shown(names: Names, e: Expr): (s: seq<byte>)
    requires Named(names, e)
  {
    match e
    case Long(n) => Leaf(Text(n))
    case Double(bits) => Leaf(names.double(bits))
    case Str(s) => Leaf([QUOTE] + s + [QUOTE])
    case FieldAt(id, oc) => Leaf(names.of[id] + [LBRACKET] + Text(oc) + [RBRACKET])
    case FieldAny(id) => Leaf(names.of[id] + [LBRACKET, QUESTION, RBRACKET])
    case Unary(op, e) => [LPAREN, SPACE, UnText(op)] + Shown(names, e) + [RPAREN, SPACE]
    case Binary(op, l, r) =>
      [LPAREN, SPACE] + Shown(names, l) + BinText(op) + [SPACE] + Shown(names, r) + [RPAREN, SPACE]
  }

  function Leaf(s: seq<byte>): seq<byte> { [LPAREN, SPACE] + s + [SPACE, RPAREN, SPACE] }

  predicate Named(names: Names, e: Expr) {
    match e
    case FieldAt(id, _) => id in names.of
    case FieldAny(id) => id in names.of
    case Unary(_, e) => Named(names, e)
    case Binary(_, l, r) => Named(names, l) && Named(names, r)
    case _ => true
  }

  /** No string in the tree holds the NUL that would end it early. */
  predicate NulFree(e: Expr) {
    match e
    case Str(s) => 0 !in s
    case Unary(_, e) => NulFree(e)
    case Binary(_, l, r) => NulFree(l) && NulFree(r)
    case _ => true
  }

  // ---- printing the flat form ----

  /** The bytes from `p` up to a NUL. */
  function StrEnd(tree: seq<byte>, p: nat): (q: nat)
    requires p <= |tree|
    ensures p <= q <= |tree|
  {
    Span(tree, p, (c: byte) => c != 0)
  }

  lemma StrEndIs(tree: seq<byte>, p: nat, s: seq<byte>)
    requires Holds(tree, p, s + [0]) && 0 !in s
    ensures StrEnd(tree, p) == p + |s|
  {
    var all := tree[p..p + |s| + 1];
    assert all == s + [0];
    assert forall i :: 0 <= i < |s| ==> all[i] == tree[p + i] && s[i] == all[i];
    assert all[|s|] == tree[p + |s|];
    forall i | p <= i < p + |s| ensures tree[i] != 0 {
      assert tree[i] == s[i - p];
    }
    SpanIs(tree, p, p + |s|, (c: byte) => c != 0);
  }

  /** What stands at `p` where a tree is encoded. */
  ghost predicate Part(tree: seq<byte>, p: nat, e: Expr)
    requires p < |tree|
  {
    var q := p + |Encode(e)|;
    && q <= |tree|
    && match e
       case Long(n) => tree[p] == CONST_LONG && q == p + 9 && I64(tree[p + 1..q]) == n
       case Double(bits) => tree[p] == CONST_DOUBLE && q == p + 9 && tree[p + 1..q] == bits
       case Str(s) =>
         tree[p] == CONST_STRING && q == p + |s| + 2 && tree[p + 1..q - 1] == s && Holds(tree, p + 1, s + [0])
       case FieldAt(id, oc) =>
         && tree[p] == FIELD && q == p + 9 && U32(tree[p + 1..p + 5]) == id && I32(tree[p + 5..q]) == oc
       case FieldAny(id) => tree[p] == FIELD_ANY && q == p + 5 && U32(tree[p + 1..q]) == id
       case Unary(op, x) => tree[p] == op && Holds(tree, p + 1, Encode(x)) && q == p + 1 + |Encode(x)|
       case Binary(op, l, r) =>
         && tree[p] == op && Holds(tree, p + 1, Encode(l)) && Holds(tree, p + 1 + |Encode(l)|, Encode(r))
         && q == p + 1 + |Encode(l)| + |Encode(r)|
  }

  lemma BehindOpcode(tree: seq<byte>, p: nat, op: byte, rest: seq<byte>)
    requires Holds(tree, p, [op] + rest)
    ensures p + 1 + |rest| <= |tree| && tree[p] == op && Holds(tree, p + 1, rest)
    ensures tree[p + 1..p + 1 + |rest|] == rest
  {
    HoldsParts(tree, p, [op], rest);
    assert tree[p..p + 1][0] == tree[p];
  }

  lemma LeafAt(tree: seq<byte>, p: nat, e: Expr)
    requires Holds(tree, p, Encode(e)) && Fits(e)
    requires e.Long? || e.Double? || e.FieldAny?
    ensures p < |tree| && Part(tree, p, e)
  {
    hide *;
    LeafBytes(e);
    BehindOpcode(tree, p, Encode(e)[0], Encode(e)[1..]);
    LeafPart(tree, p, e);
  }

  lemma LeafBytes(e: Expr)
    ensures Encode(e) == [Encode(e)[0]] + Encode(e)[1..]
  {
    hide Encode;
  }

  lemma LeafPart(tree: seq<byte>, p: nat, e: Expr)
    requires Fits(e) && (e.Long? || e.Double? || e.FieldAny?)
    requires var s := Encode(e); p + |s| <= |tree| && tree[p] == s[0] && tree[p + 1..p + |s|] == s[1..]
    ensures Part(tree, p, e)
  {
    hide I64, PutI64, U32, PutU32, Holds;
    match e
    case Long(n) => I64OfPut(n); assert Encode(e)[1..] == PutI64(n);
    case Double(bits) => assert Encode(e)[1..] == bits;
    case FieldAny(id) => assert Encode(e)[1..] == PutU32(id);
  }

  lemma StrAt(tree: seq<byte>, p: nat, s: seq<byte>)
    requires Holds(tree, p, Encode(Str(s)))
    ensures p < |tree| && Part(tree, p, Str(s))
  {
    assert Encode(Str(s)) == [CONST_STRING] + (s + [0]);
    BehindOpcode(tree, p, CONST_STRING, s + [0]);
    HoldsParts(tree, p + 1, s, [0]);
  }

  lemma FieldPartAt(tree: seq<byte>, p: nat, id: nat, oc: int)
    requires id < UINT32_LIMIT && IsInt32(oc)
    requires Holds(tree, p, Encode(FieldAt(id, oc)))
    ensures p < |tree| && Part(tree, p, FieldAt(id, oc))
  {
    hide Holds, I32, PutI32;
    assert Encode(FieldAt(id, oc)) == [FIELD] + (PutU32(id) + PutI32(oc));
    BehindOpcode(tree, p, FIELD, PutU32(id) + PutI32(oc));
    HoldsParts(tree, p + 1, PutU32(id), PutI32(oc));
    I32OfPut(oc);
  }

  lemma OperatorAt(tree: seq<byte>, p: nat, e: Expr)
    requires Holds(tree, p, Encode(e)) && (e.Unary? || e.Binary?)
    ensures p < |tree| && Part(tree, p, e)
  {
    match e
    case Unary(op, x) => BehindOpcode(tree, p, op, Encode(x));
    case Binary(op, l, r) =>
      assert Encode(e) == [op] + (Encode(l) + Encode(r));
      BehindOpcode(tree, p, op, Encode(l) + Encode(r));
      HoldsParts(tree, p + 1, Encode(l), Encode(r));
  }

  lemma EncodingAt(tree: seq<byte>, p: nat, e: Expr)
    requires Holds(tree, p, Encode(e)) && Fits(e)
    ensures p < |tree| && Part(tree, p, e)
  {
    hide Part, Holds, Encode;
    match e
    case FieldAt(id, oc) => FieldPartAt(tree, p, id, oc);
    case Str(s) => StrAt(tree, p, s);
    case Unary(_, _) => OperatorAt(tree, p, e);
    case Binary(_, _, _) => OperatorAt(tree, p, e);
    case _ => LeafAt(tree, p, e);
  }

  /** Prints the tree whose flat form stands at `p`, and says where that form ends. */
  method Boolpr(names: Names, tree: seq<byte>, p: nat, ghost e: Expr) returns (out: seq<byte>, q: nat)
    requires Holds(tree, p, Encode(e)) && Fits(e) && NulFree(e) && Named(names, e)
    ensures out == Shown(names, e) && q == p + |Encode(e)|
    decreases e
  {
    hide Holds, Encode, I64, I32, U32, Text, BinText, UnText, StrEnd, WellTyped;
    EncodingAt(tree, p, e);
    var op := tree[p];
    if op == CONST_LONG {
      q := p + 9;
      out := Leaf(Text(I64(tree[p + 1..q])));
    } else if op == CONST_DOUBLE {
      q := p + 9;
      out := Leaf(names.double(tree[p + 1..q]));
    } else if op == CONST_STRING {
      StrEndIs(tree, p + 1, e.s);
      var end := StrEnd(tree, p + 1);
      q := end + 1;
      out := Leaf([QUOTE] + tree[p + 1..end] + [QUOTE]);
    } else if op == FIELD {
      q := p + 9;
      out := Leaf(names.of[U32(tree[p + 1..p + 5])] + [LBRACKET] + Text(I32(tree[p + 5..q])) + [RBRACKET]);
    } else if op == FIELD_ANY {
      q := p + 5;
      out := Leaf(names.of[U32(tree[p + 1..q])] + [LBRACKET, QUESTION, RBRACKET]);
    } else if op <= BITWISE_NEGATION {
      out, q := Boolpr(names, tree, p + 1, e.e);
      out := [LPAREN, SPACE, UnText(op)] + out + [RPAREN, SPACE];
    } else {
      var l, r;
      l, q := Boolpr(names, tree, p + 1, e.l);
      r, q := Boolpr(names, tree, q, e.r);
      out := [LPAREN, SPACE] + l + BinText(op) + [SPACE] + r + [RPAREN, SPACE];
    }
  }

  /** The text of a compiled tree: what stands behind its four header bytes, and a newline. */
  method PrintTree(names: Names, tree: seq<byte>, ghost e: Expr) returns (text: seq<byte>)
    requires |tree| >= 4 && tree[4..] == Encode(e) && Fits(e) && NulFree(e) && Named(names, e)
    ensures text == Shown(names, e) + [NEWLINE]
  {
    assert Holds(tree, 4, Encode(e));
    var out, _ := Boolpr(names, tree, 4, e);
    text := out + [NEWLINE];
  }

  // ---- reading the text back ----

  predicate IsName(s: seq<byte>) {
    s != [] && IsAlpha(s[0]) && forall i :: 0 < i < |s| ==> IsNamePart(s[i])
  }

  /** The two tables name the field `id` alike, and an expression may use it. */
  predicate Knows(env: Env, names: Names, id: nat) {
    && id in names.of && IsName(names.of[id]) && names.of[id] in env.ids && env.ids[names.of[id]] == id
    && 0 < id < UINT32_LIMIT && FldType(id) <= FLD_CARRAY
  }

  /** What a text can say: no double, no negative number, no string that needs an escape. */
  predicate Sayable(e: Expr) {
    match e
    case Long(n) => 0 <= n < INT64_LIMIT
    case Double(_) => false
    case Str(s) => QUOTE !in s && BACKSLASH !in s && 0 !in s
    case FieldAt(_, oc) => 0 <= oc < INT32_LIMIT
    case FieldAny(_) => true
    case Unary(_, e) => Sayable(e)
    case Binary(_, l, r) => Sayable(l) && Sayable(r)
  }

  predicate Known(env: Env, names: Names, e: Expr)
    ensures Known(env, names, e) ==> Named(names, e)
  {
    match e
    case FieldAt(id, _) => Knows(env, names, id)
    case FieldAny(id) => Knows(env, names, id)
    case Unary(_, e) => Known(env, names, e)
    case Binary(_, l, r) => Known(env, names, l) && Known(env, names, r)
    case _ => true
  }

  /** A number is read up to the first symbol that is not part of it. */
  lemma NumberIsRead(text: seq<byte>, p: nat, n: nat)
    requires Holds(text, p, Digits(n)) && p + |Digits(n)| < |text|
    requires !IsDigit(text[p + |Digits(n)|]) && text[p + |Digits(n)|] != DOT
    requires n < INT64_LIMIT
    ensures AtAny(text, p, IsDigit) && NumberEnd(text, p) == p + |Digits(n)|
    ensures text[p..p + |Digits(n)|] == Digits(n)
    ensures DOT !in Digits(n) && Stol(Digits(n)) == Some(n)
  {
    var d, q := Digits(n), p + |Digits(n)|;
    HoldsAt(text, p, d);
    assert forall i {:trigger text[i]} :: p <= i < q ==> IsDigit(d[i - p]) && text[i] == d[i - p];
    SpanIs(text, p + 1, q, IsDigit);
    SpanIs(text, q, q, IsDigit);
    AllDigits(d);
    NumberOfDigits(n);
    assert forall i :: 0 <= i < |d| ==> IsDigit(d[i]);
  }

  lemma StringIsRead(text: seq<byte>, p: nat, s: seq<byte>)
    requires Holds(text, p, s + [QUOTE]) && QUOTE !in s && BACKSLASH !in s
    ensures ReadString(text, p) == Got(s, p + |s| + 1)
  {
    hide ReadEscaped, Holds;
    HoldsAt(text, p, s + [QUOTE]);
    ReadsAsItself(text, p, s, QUOTE);
  }

  lemma NameIsRead(text: seq<byte>, p: nat, name: seq<byte>)
    requires IsName(name) && Holds(text, p, name) && At(text, p + |name|, LBRACKET)
    ensures AtAny(text, p, IsAlpha) && NameEnd(text, p) == p + |name|
    ensures text[p..p + |name|] == name
  {
    HoldsAt(text, p, name);
    SpanIs(text, p + 1, p + |name|, IsNamePart);
  }

  /** The text of a leaf between its parentheses. */
  function LeafText(names: Names, e: Expr): seq<byte>
    requires Named(names, e) && !e.Unary? && !e.Binary?
  {
    match e
    case Long(n) => Text(n)
    case Double(bits) => names.double(bits)
    case Str(s) => [QUOTE] + s + [QUOTE]
    case FieldAt(id, oc) => names.of[id] + [LBRACKET] + Text(oc) + [RBRACKET]
    case FieldAny(id) => names.of[id] + [LBRACKET, QUESTION, RBRACKET]
  }

  lemma AnyIsRead(text: seq<byte>, q: nat)
    requires Holds(text, q, [LBRACKET, QUESTION, RBRACKET])
    ensures At(text, q, LBRACKET) && ReadSubscript(text, q) == Got(Any, q + 3)
  {
    HoldsAt(text, q, [LBRACKET, QUESTION, RBRACKET]);
    assert text[q] == LBRACKET && text[q + 1] == QUESTION && text[q + 2] == RBRACKET;
  }

  lemma OccurrenceIsRead(text: seq<byte>, q: nat, oc: nat)
    requires Holds(text, q, [LBRACKET] + Digits(oc) + [RBRACKET]) && oc < INT64_LIMIT
    ensures At(text, q, LBRACKET)
    ensures ReadSubscript(text, q) == Got(Occurrence(Digits(oc)), q + 2 + |Digits(oc)|)
    ensures Stol(Digits(oc)) == Some(oc)
  {
    hide Holds, NumberEnd, Stol, Digits, Number, Span;
    var d := Digits(oc);
    assert [LBRACKET] + d + [RBRACKET] == [LBRACKET] + (d + [RBRACKET]);
    HoldsParts(text, q, [LBRACKET], d + [RBRACKET]);
    HoldsParts(text, q + 1, d, [RBRACKET]);
    HoldsAt(text, q, [LBRACKET]);
    HoldsAt(text, q + 1 + |d|, [RBRACKET]);
    NumberIsRead(text, q + 1, oc);
  }

  lemma FieldLeafIs(env: Env, names: Names, e: Expr)
    requires Known(env, names, e) && Sayable(e) && (e.FieldAt? || e.FieldAny?)
    ensures e.id in names.of && IsName(names.of[e.id])
    ensures e.FieldAny? ==>
              && FieldLeaf(env, names.of[e.id], Any) == Ok(e)
              && LeafText(names, e) == names.of[e.id] + [LBRACKET, QUESTION, RBRACKET]
    ensures e.FieldAt? ==>
              && 0 <= e.oc < INT64_LIMIT
              && LeafText(names, e) == names.of[e.id] + ([LBRACKET] + Digits(e.oc) + [RBRACKET])
              && (Stol(Digits(e.oc)) == Some(e.oc) ==>
                    FieldLeaf(env, names.of[e.id], Occurrence(Digits(e.oc))) == Ok(e))
  {
    hide IsName, Stol, Digits;
  }

  lemma ReadFieldIs(env: Env, text: seq<byte>, p: nat, name: seq<byte>, sub: Subscript, end: nat, e: Expr)
    requires IsName(name) && Holds(text, p, name) && At(text, p + |name|, LBRACKET)
    requires ReadSubscript(text, p + |name|) == Got(sub, end) && FieldLeaf(env, name, sub) == Ok(e)
    ensures ReadLeaf(env, text, p) == Got(e, end)
  {
    hide FieldLeaf, ReadSubscript, IsName, Holds, NameEnd;
    NameIsRead(text, p, name);
  }

  lemma FieldIsRead(env: Env, names: Names, text: seq<byte>, p: nat, e: Expr)
    requires Known(env, names, e) && Sayable(e) && (e.FieldAt? || e.FieldAny?)
    requires Holds(text, p, LeafText(names, e))
    ensures ReadLeaf(env, text, p) == Got(e, p + |LeafText(names, e)|)
  {
    hide *;
    FieldLeafIs(env, names, e);
    var name := names.of[e.id];
    var q := p + |name|;
    if e.FieldAny? {
      HoldsParts(text, p, name, [LBRACKET, QUESTION, RBRACKET]);
      AnyIsRead(text, q);
      ReadFieldIs(env, text, p, name, Any, q + 3, e);
    } else {
      var d := Digits(e.oc);
      HoldsParts(text, p, name, [LBRACKET] + d + [RBRACKET]);
      OccurrenceIsRead(text, q, e.oc);
      ReadFieldIs(env, text, p, name, Occurrence(d), q + 2 + |d|, e);
    }
  }

  lemma LongIsRead(env: Env, text: seq<byte>, p: nat, n: nat)
    requires Holds(text, p, Digits(n)) && At(text, p + |Digits(n)|, SPACE) && n < INT64_LIMIT
    ensures ReadLeaf(env, text, p) == Got(Long(n), p + |Digits(n)|)
    ensures AtAny(text, p, IsDigit)
  {
    hide Holds, NumberEnd, Stol, Digits, Number, Span;
    NumberIsRead(text, p, n);
  }

  lemma StrIsRead(env: Env, text: seq<byte>, p: nat, s: seq<byte>)
    requires Holds(text, p, [QUOTE] + s + [QUOTE]) && QUOTE !in s && BACKSLASH !in s
    ensures ReadLeaf(env, text, p) == Got(Str(s), p + |s| + 2)
    ensures At(text, p, QUOTE)
  {
    hide Holds, ReadEscaped, Span;
    assert [QUOTE] + s + [QUOTE] == [QUOTE] + (s + [QUOTE]);
    HoldsParts(text, p, [QUOTE], s + [QUOTE]);
    HoldsAt(text, p, [QUOTE]);
    StringIsRead(text, p + 1, s);
  }

  lemma FieldStart(env: Env, names: Names, text: seq<byte>, p: nat, e: Expr)
    requires Known(env, names, e) && (e.FieldAt? || e.FieldAny?) && Holds(text, p, LeafText(names, e))
    ensures AtAny(text, p, IsAlpha)
  {
    hide Holds, Digits;
    HoldsAt(text, p, LeafText(names, e));
  }

  lemma StartOfLeaf(text: seq<byte>, p: nat)
    requires AtAny(text, p, IsDigit) || AtAny(text, p, IsAlpha) || At(text, p, QUOTE)
    ensures !AtAny(text, p, IsUnaryOp) && !At(text, p, LPAREN) && SkipSpace(text, p) == p
  {
  }

  lemma LeafIsRead(env: Env, names: Names, text: seq<byte>, p: nat, e: Expr)
    requires Known(env, names, e) && Sayable(e) && !e.Unary? && !e.Binary?
    requires Holds(text, p, LeafText(names, e)) && At(text, p + |LeafText(names, e)|, SPACE)
    ensures ReadLeaf(env, text, p) == Got(e, p + |LeafText(names, e)|)
    ensures !AtAny(text, p, IsUnaryOp) && !At(text, p, LPAREN) && SkipSpace(text, p) == p
  {
    hide Holds, ReadLeaf, Digits, Span, Knows, At, AtAny;
    match e {
      case Long(n) => LongIsRead(env, text, p, n);
      case Str(s) => StrIsRead(env, text, p, s);
      case _ =>
        FieldStart(env, names, text, p, e);
        FieldIsRead(env, names, text, p, e);
    }
    StartOfLeaf(text, p);
  }

  /** A closing parenthesis ends a chain. */
  lemma NothingBehind(env: Env, text: seq<byte>, p: nat)
    requires p <= |text| && At(text, SkipSpace(text, p), RPAREN)
    ensures ReadRest(env, text, p, []) == Rest([], None, Ok(SkipSpace(text, p)))
  {
  }

  lemma SpaceAt(text: seq<byte>, p: nat)
    requires At(text, p, SPACE)
    ensures SkipSpace(text, p) == SkipSpace(text, p + 1)
  {
  }

  lemma NoSpaceAt(text: seq<byte>, p: nat)
    requires p < |text| && !IsSpace(text[p])
    ensures SkipSpace(text, p) == p
  {
  }

  /** An expression in parentheses, once what is between them is known. */
  lemma Parenthesised(env: Env, text: seq<byte>, p: nat, e: Expr, q: nat)
    requires Holds(text, p, [LPAREN, SPACE]) && Holds(text, q, [RPAREN, SPACE])
    requires ReadExpr(env, text, p + 2) == Got(e, q)
    ensures ReadPrimary(env, text, p) == Got(e, SkipSpace(text, q + 2))
  {
    hide ReadExpr, ReadPrimary, ReadRest, Span, Holds;
    HoldsAt(text, p, [LPAREN, SPACE]);
    HoldsAt(text, q, [RPAREN, SPACE]);
    assert text[p] == LPAREN && text[p + 1] == SPACE && text[q] == RPAREN && text[q + 1] == SPACE;
    PrimaryIs(env, text, p);
    ExprSkips(env, text, p + 1);
    NoSpaceAt(text, p);
    SpaceAt(text, q + 1);
  }

  lemma ExprSkips(env: Env, text: seq<byte>, p: nat)
    requires At(text, p, SPACE)
    ensures ReadExpr(env, text, p) == ReadExpr(env, text, p + 1)
  {
    SpaceAt(text, p);
    PrimarySkips(env, text, p);
    PrimarySkips(env, text, p + 1);
    ExprIs(env, text, p);
    ExprIs(env, text, p + 1);
  }

  /** A single operand in front of a closing parenthesis. */
  lemma OneOperand(env: Env, text: seq<byte>, p: nat, e: Expr, q: nat)
    requires p <= |text| && ReadPrimary(env, text, p) == Got(e, q) && At(text, q, RPAREN)
    ensures ReadExpr(env, text, p) == Got(e, q)
  {
    NoSpaceAt(text, q);
    NothingBehind(env, text, q);
    ExprIs(env, text, p);
    PrimaryEnds(env, text, p);
    AssembleIs(e, []);
  }

  /** Two operands with an operator between them in front of a closing parenthesis. */
  lemma TwoOperands(env: Env, text: seq<byte>, p: nat, op: BinOp, l: Expr, i: nat, r: Expr, q: nat)
    requires p <= |text| && ReadPrimary(env, text, p) == Got(l, i)
    requires Holds(text, i, BinText(op) + [SPACE])
    requires ReadPrimary(env, text, i + |BinText(op)| + 1) == Got(r, q) && At(text, q, RPAREN)
    requires WellTyped(Binary(op, l, r))
    ensures ReadExpr(env, text, p) == Got(Binary(op, l, r), q)
  {
    hide ReadExpr, ReadPrimary, ReadRest, Assemble, Span, Holds, OpEnd, Which, BinText, WellTyped;
    OperatorIsRead(text, i, op);
    var j := i + |BinText(op)|;
    RestRead(env, text, i);
    RestHeld(env, text, j, BinText(op));
    WhichOfText(op);
    SpaceAt(text, j);
    PrimarySkips(env, text, j);
    PrimarySkips(env, text, j + 1);
    NoSpaceAt(text, q);
    NothingBehind(env, text, q);
    ExprIs(env, text, p);
    OneItem(l, op, r);
    assert [Item(op, r)] + [] == [Item(op, r)];
  }

  lemma OneItem(l: Expr, op: BinOp, r: Expr)
    ensures Assemble(l, [Item(op, r)]) == Binary(op, l, r)
  {
    AssembleIs(l, [Item(op, r)]);
    AssembleIs(l, [Item(op, r)][..0]);
    AssembleIs(r, [Item(op, r)][1..]);
  }

  lemma OperatorIsRead(text: seq<byte>, i: nat, op: BinOp)
    requires Holds(text, i, BinText(op) + [SPACE])
    ensures AtAny(text, i, IsOpStart) && OpEnd(text, i) == i + |BinText(op)|
    ensures text[i..i + |BinText(op)|] == BinText(op)
    ensures SkipSpace(text, i) == i && At(text, i + |BinText(op)|, SPACE)
  {
    var s := BinText(op);
    HoldsAt(text, i, s + [SPACE]);
    HoldsParts(text, i, s, [SPACE]);
    assert text[i] == s[0] && text[i + |s|] == SPACE;
    assert |s| == 2 ==> text[i + 1] == s[1];
  }

  /** The printed form of a tree, read as one operand, is that tree. */
  lemma {:induction false} ShownIsRead(env: Env, names: Names, text: seq<byte>, p: nat, e: Expr)
    requires Known(env, names, e) && Sayable(e) && WellTyped(e)
    requires Holds(text, p, Shown(names, e))
    ensures p + |Shown(names, e)| <= |text|
    ensures ReadPrimary(env, text, p) == Got(e, SkipSpace(text, p + |Shown(names, e)|))
    decreases e
  {
    hide *;
    match e
    case Unary(op, x) =>
      UnaryParts(env, names, op, x);
      UnaryText(names, text, p, op, x);
      ShownIsRead(env, names, text, p + 3, x);
      UnaryIsShown(env, names, text, p, op, x);
    case Binary(op, l, r) =>
      BinaryParts(env, names, op, l, r);
      BinaryText(names, text, p, op, l, r);
      ShownIsRead(env, names, text, p + 2, l);
      ShownIsRead(env, names, text, p + 2 + |Shown(names, l)| + |BinText(op)| + 1, r);
      BinaryIsShown(env, names, text, p, op, l, r);
    case _ => LeafIsShown(env, names, text, p, e);
  }

  lemma UnaryParts(env: Env, names: Names, op: UnOp, x: Expr)
    requires var e := Unary(op, x); Known(env, names, e) && Sayable(e) && WellTyped(e)
    ensures Known(env, names, x) && Sayable(x) && WellTyped(x) && Named(names, x) && Named(names, Unary(op, x))
  {
  }

  lemma BinaryParts(env: Env, names: Names, op: BinOp, l: Expr, r: Expr)
    requires var e := Binary(op, l, r); Known(env, names, e) && Sayable(e) && WellTyped(e)
    ensures Known(env, names, l) && Sayable(l) && WellTyped(l) && Named(names, l)
    ensures Known(env, names, r) && Sayable(r) && WellTyped(r) && Named(names, r)
    ensures Named(names, Binary(op, l, r))
  {
  }

  lemma UnaryIsShown(env: Env, names: Names, text: seq<byte>, p: nat, op: UnOp, x: Expr)
    requires Named(names, x) && Named(names, Unary(op, x))
    requires Holds(text, p, Shown(names, Unary(op, x)))
    requires p + 3 <= |text| && p + 3 + |Shown(names, x)| <= |text|
    requires ReadPrimary(env, text, p + 3) == Got(x, SkipSpace(text, p + 3 + |Shown(names, x)|))
    ensures p + |Shown(names, Unary(op, x))| <= |text|
    ensures ReadPrimary(env, text, p) == Got(Unary(op, x), SkipSpace(text, p + |Shown(names, Unary(op, x))|))
  {
    hide *;
    var q := p + 3 + |Shown(names, x)|;
    UnaryText(names, text, p, op, x);
    UnaryIsRead(env, text, p + 2, op, x, q);
    Parenthesised(env, text, p, Unary(op, x), q);
  }

  lemma BinaryIsShown(env: Env, names: Names, text: seq<byte>, p: nat, op: BinOp, l: Expr, r: Expr)
    requires Named(names, l) && Named(names, r) && Named(names, Binary(op, l, r))
    requires Holds(text, p, Shown(names, Binary(op, l, r))) && WellTyped(Binary(op, l, r))
    requires var i := p + 2 + |Shown(names, l)|;
             var j := i + |BinText(op)| + 1;
             var q := j + |Shown(names, r)|;
             && q <= |text|
             && ReadPrimary(env, text, p + 2) == Got(l, SkipSpace(text, i))
             && ReadPrimary(env, text, j) == Got(r, SkipSpace(text, q))
    ensures p + |Shown(names, Binary(op, l, r))| <= |text|
    ensures ReadPrimary(env, text, p) ==
            Got(Binary(op, l, r), SkipSpace(text, p + |Shown(names, Binary(op, l, r))|))
  {
    hide *;
    var i := p + 2 + |Shown(names, l)|;
    var q := i + |BinText(op)| + 1 + |Shown(names, r)|;
    BinaryText(names, text, p, op, l, r);
    OperatorIsRead(text, i, op);
    ParenAt(text, q);
    TwoOperands(env, text, p + 2, op, l, i, r, q);
    Parenthesised(env, text, p, Binary(op, l, r), q);
  }

  lemma ParenAt(text: seq<byte>, q: nat)
    requires Holds(text, q, [RPAREN, SPACE])
    ensures At(text, q, RPAREN) && SkipSpace(text, q) == q
  {
    HoldsAt(text, q, [RPAREN, SPACE]);
  }

  lemma UnaryIsRead(env: Env, text: seq<byte>, p: nat, op: UnOp, x: Expr, q: nat)
    requires Holds(text, p, [UnText(op)]) && Holds(text, q, [RPAREN, SPACE])
    requires ReadPrimary(env, text, p + 1) == Got(x, SkipSpace(text, q))
    ensures ReadExpr(env, text, p) == Got(Unary(op, x), q)
  {
    hide ReadPrimary, ReadExpr, ReadRest, ReadLeaf, Span, Holds;
    HoldsAt(text, p, [UnText(op)]);
    ParenAt(text, q);
    NoSpaceAt(text, p);
    PrimaryIs(env, text, p);
    OneOperand(env, text, p, Unary(op, x), q);
  }

  lemma UnaryText(names: Names, text: seq<byte>, p: nat, op: UnOp, x: Expr)
    requires Named(names, x) && Named(names, Unary(op, x))
    requires Holds(text, p, Shown(names, Unary(op, x)))
    ensures var q := p + 3 + |Shown(names, x)|;
            && Holds(text, p, [LPAREN, SPACE]) && Holds(text, p + 2, [UnText(op)])
            && Holds(text, p + 3, Shown(names, x)) && Holds(text, q, [RPAREN, SPACE])
            && q + 2 == p + |Shown(names, Unary(op, x))|
  {
    hide Holds, Shown;
    var s := Shown(names, x);
    UnaryShown(names, op, x);
    HoldsParts(text, p, [LPAREN, SPACE], [UnText(op)] + (s + [RPAREN, SPACE]));
    HoldsParts(text, p + 2, [UnText(op)], s + [RPAREN, SPACE]);
    HoldsParts(text, p + 3, s, [RPAREN, SPACE]);
  }

  lemma UnaryShown(names: Names, op: UnOp, x: Expr)
    requires Named(names, x) && Named(names, Unary(op, x))
    ensures Shown(names, Unary(op, x)) == [LPAREN, SPACE] + ([UnText(op)] + (Shown(names, x) + [RPAREN, SPACE]))
  {
    var s := Shown(names, x);
    assert [LPAREN, SPACE, UnText(op)] + s + [RPAREN, SPACE] == [LPAREN, SPACE] + ([UnText(op)] + (s + [RPAREN, SPACE]));
  }

  lemma BinaryShown(names: Names, op: BinOp, l: Expr, r: Expr)
    requires Named(names, Binary(op, l, r))
    ensures Named(names, l) && Named(names, r)
    ensures Shown(names, Binary(op, l, r)) ==
            [LPAREN, SPACE] + Shown(names, l) + BinText(op) + [SPACE] + Shown(names, r) + [RPAREN, SPACE]
  {
  }

  lemma Regroup(a: seq<byte>, b: seq<byte>, c: seq<byte>, d: seq<byte>, e: seq<byte>, f: seq<byte>)
    ensures a + b + c + d + e + f == a + (b + ((c + d) + (e + f)))
  {
  }

  lemma BinaryText(names: Names, text: seq<byte>, p: nat, op: BinOp, l: Expr, r: Expr)
    requires Named(names, l) && Named(names, r) && Named(names, Binary(op, l, r))
    requires Holds(text, p, Shown(names, Binary(op, l, r)))
    ensures var i := p + 2 + |Shown(names, l)|;
            var j := i + |BinText(op)| + 1;
            var q := j + |Shown(names, r)|;
            && Holds(text, p, [LPAREN, SPACE]) && Holds(text, p + 2, Shown(names, l))
            && Holds(text, i, BinText(op) + [SPACE]) && Holds(text, j, Shown(names, r))
            && Holds(text, q, [RPAREN, SPACE])
            && q + 2 == p + |Shown(names, Binary(op, l, r))|
  {
    hide *;
    var a, b, o, z := Shown(names, l), Shown(names, r), BinText(op) + [SPACE], [RPAREN, SPACE];
    BinaryShown(names, op, l, r);
    Regroup([LPAREN, SPACE], a, BinText(op), [SPACE], b, z);
    HoldsParts(text, p, [LPAREN, SPACE], a + (o + (b + z)));
    HoldsParts(text, p + 2, a, o + (b + z));
    HoldsParts(text, p + 2 + |a|, o, b + z);
    HoldsParts(text, p + 2 + |a| + |o|, b, z);
  }

  lemma LeafShown(env: Env, names: Names, e: Expr)
    requires Known(env, names, e) && !e.Unary? && !e.Binary?
    ensures Named(names, e)
    ensures Shown(names, e) == [LPAREN, SPACE] + (LeafText(names, e) + ([SPACE] + [RPAREN, SPACE]))
  {
  }

  lemma OneSpace(text: seq<byte>, q: nat)
    requires Holds(text, q, [SPACE])
    ensures At(text, q, SPACE)
  {
    HoldsAt(text, q, [SPACE]);
  }

  lemma LeafIsShown(env: Env, names: Names, text: seq<byte>, p: nat, e: Expr)
    requires Known(env, names, e) && Sayable(e) && !e.Unary? && !e.Binary?
    requires Holds(text, p, Shown(names, e))
    ensures ReadPrimary(env, text, p) == Got(e, SkipSpace(text, p + |Shown(names, e)|))
  {
    hide *;
    LeafShown(env, names, e);
    var s := LeafText(names, e);
    var q := p + 2 + |s|;
    HoldsParts(text, p, [LPAREN, SPACE], s + ([SPACE] + [RPAREN, SPACE]));
    HoldsParts(text, p + 2, s, [SPACE] + [RPAREN, SPACE]);
    HoldsParts(text, q, [SPACE], [RPAREN, SPACE]);
    OneSpace(text, q);
    ParenAt(text, q + 1);
    SpaceAt(text, q);
    LeafIsRead(env, names, text, p + 2, e);
    PrimaryIs(env, text, p + 2);
    OneOperand(env, text, p + 2, e, q + 1);
    Parenthesised(env, text, p, e, q + 1);
  }

  /** Reading the printed text of a tree gives the tree back, to the end of the text. */
  lemma PrintedIsRead(env: Env, names: Names, e: Expr)
    requires Known(env, names, e) && Sayable(e) && WellTyped(e)
    ensures var text := Shown(names, e) + [NEWLINE];
            ReadExpr(env, text, 0) == Got(e, |text|)
  {
    hide *;
    KnownIsNamed(env, names, e);
    var text := Shown(names, e) + [NEWLINE];
    HoldsWhole(Shown(names, e), [NEWLINE]);
    ShownIsRead(env, names, text, 0, e);
    NewlineIsSkipped(env, Shown(names, e));
    ExprIs(env, text, 0);
    AssembleIs(e, []);
  }

  lemma KnownIsNamed(env: Env, names: Names, e: Expr)
    requires Known(env, names, e)
    ensures Named(names, e)
  {
  }

  lemma NewlineIsSkipped(env: Env, s: seq<byte>)
    ensures var text := s + [NEWLINE];
            && SkipSpace(text, |s|) == |text|
            && ReadRest(env, text, |text|, []) == Rest([], None, Ok(|text|))
  {
    hide ReadPrimary, ReadExpr;
    var text := s + [NEWLINE];
    SpanIs(text, |s|, |text|, IsSpace);
  }

  lemma HoldsWhole(a: seq<byte>, b: seq<byte>)
    ensures Holds(a + b, 0, a)
  {
  }
}
