/** What an expression text means: operands read one after the other, precedence applied
    to the whole chain afterwards. */
module ExprGrammar {
  import opened Bytes
  import opened Wrappers
  import opened Scanning
  import opened Escapes
  import opened Decimal
  import opened Records
  import opened Expressions

  datatype Error = Syntax | BadName | BadOperand

  /** The field table, and the machine's reading of a decimal fraction. */
  datatype Env = Env(ids: map<seq<byte>, nat>, stof: seq<byte> -> Option<Bits64>)

  predicate IsUnaryOp(c: byte) { c == 43 || c == 45 || c == 33 || c == 126 }

  /** One of + - ! ~ * / % < > = ^ & | */
  predicate IsOpStart(c: byte) {
    IsUnaryOp(c) || c == 42 || c == 47 || c == 37 || c == 60 || c == 62 || c == 61 || c == 94 || c == 38 || c == 124
  }

  /** One of = % & | */
  predicate IsOpNext(c: byte) { c == 61 || c == 37 || c == 38 || c == 124 }

  function OpEnd(text: seq<byte>, p: nat): (q: nat)
    requires AtAny(text, p, IsOpStart)
    ensures p < q <= |text| && q <= p + 2
  {
    if AtAny(text, p + 1, IsOpNext) then p + 2 else p + 1
  }

  /** The binary operator written `s`. */
  function Which(s: seq<byte>): (op: Option<BinOp>)
    ensures op.Some? ==> BinText(op.value) == s
  {
    if s == [42] then Some(MULTIPLICATION)
    else if s == [47] then Some(DIVISION)
    else if s == [37] then Some(MODULUS)
    else if s == [43] then Some(ADDITION)
    else if s == [45] then Some(SUBTRACTION)
    else if s == [94] then Some(EXCLUSIVE_OR)
    else if s == [38, 38] then Some(LOGICAL_AND)
    else if s == [124, 124] then Some(LOGICAL_OR)
    else if s == [60] then Some(LESS_THAN)
    else if s == [62] then Some(GREATER_THAN)
    else if s == [60, 61] then Some(LESS_OR_EQUAL)
    else if s == [62, 61] then Some(GREATER_OR_EQUAL)
    else if s == [61, 61] then Some(EQUAL)
    else if s == [33, 61] then Some(NOT_EQUAL)
    else if s == [37, 37] then Some(MATCHES)
    else if s == [33, 37] then Some(NOT_MATCHES)
    else None
  }

  lemma WhichOfText(op: BinOp)
    ensures Which(BinText(op)) == Some(op)
  {
  }

  function UnaryOp(c: byte): (op: UnOp)
    requires IsUnaryOp(c) && c != 43
    ensures UnText(op) == c
  {
    if c == 45 then UNARY_MINUS else if c == 33 then LOGICAL_NEGATION else BITWISE_NEGATION
  }

  // ---- operands ----

  datatype Read<T> = Got(value: T, end: nat) | Bad(error: Error)

  /** The string that starts behind its opening quote. */
  function ReadString(text: seq<byte>, p: nat): (r: Read<seq<byte>>)
    requires p <= |text|
    ensures r.Got? ==> p < r.end <= |text|
    ensures r.Bad? ==> r.error == Syntax
  {
    match ReadEscaped(text, p, QUOTE)
    case Ended(s, q) => if q < |text| then Got(s, q + 1) else Bad(Syntax)
    case HalfHex => Bad(Syntax)
  }

  /** stol of a number token: its leading digits, out of range for a long is an error. */
  function Stol(s: seq<byte>): (n: Option<nat>)
    ensures n.Some? ==> IsInt64(n.value)
  {
    var d := LeadingDigits(s);
    if d == [] || Number(d) >= INT64_LIMIT then None else Some(Number(d))
  }

  datatype Subscript = Any | Occurrence(token: seq<byte>)

  /** The subscript behind a field name, occurrence 0 when there is none. */
  function ReadSubscript(text: seq<byte>, p: nat): (r: Read<Subscript>)
    requires p <= |text|
    ensures r.Got? ==> p <= r.end <= |text|
    ensures r.Bad? ==> r.error == Syntax
  {
    if !At(text, p, LBRACKET) then Got(Occurrence([ZERO]), p)
    else
      var (sub, q) :=
        if AtAny(text, p + 1, IsDigit) then
          (Occurrence(text[p + 1..NumberEnd(text, p + 1)]), NumberEnd(text, p + 1))
        else if At(text, p + 1, QUESTION) then (Any, p + 2)
        else (Occurrence([]), p + 1);
      if At(text, q, RBRACKET) then Got(sub, q + 1) else Bad(Syntax)
  }

  /** The leaf a field name with its subscript stands for. */
  function FieldLeaf(env: Env, name: seq<byte>, sub: Subscript): (r: Result<Expr, Error>)
    ensures r.Ok? ==> r.value.FieldAt? || r.value.FieldAny?
  {
    if name !in env.ids || env.ids[name] == 0 then Err(BadName)
    else if FldType(env.ids[name]) > FLD_CARRAY then Err(BadOperand)
    else
      match sub
      case Any => Ok(FieldAny(env.ids[name]))
      case Occurrence(token) =>
        match Stol(token)
        case Some(n) => Ok(FieldAt(env.ids[name], ToInt32(n)))
        case None => Err(Syntax)
  }

  function NumberLeaf(env: Env, token: seq<byte>): (r: Result<Expr, Error>)
    ensures r.Err? ==> r.error == Syntax
    ensures r.Ok? ==> r.value.Long? || r.value.Double?
  {
    if DOT in token then
      match env.stof(token)
      case Some(bits) => Ok(Double(bits))
      case None => Err(Syntax)
    else
      match Stol(token)
      case Some(n) => Ok(Long(n))
      case None => Err(Syntax)
  }

  /** An operand that is not an operator or a parenthesis, without the spaces behind it. */
  function ReadLeaf(env: Env, text: seq<byte>, p: nat): (r: Read<Expr>)
    requires p <= |text|
    ensures r.Got? ==> p < r.end <= |text| && WellTyped(r.value) && !r.value.Unary? && !r.value.Binary?
  {
    if AtAny(text, p, IsAlpha) then
      var q := NameEnd(text, p);
      match ReadSubscript(text, q)
      case Bad(e) => Bad(e)
      case Got(sub, end) =>
        match FieldLeaf(env, text[p..q], sub)
        case Ok(e) => Got(e, end)
        case Err(e) => Bad(e)
    else if AtAny(text, p, IsDigit) then
      match NumberLeaf(env, text[p..NumberEnd(text, p)])
      case Ok(e) => Got(e, NumberEnd(text, p))
      case Err(e) => Bad(e)
    else if At(text, p, QUOTE) then
      match ReadString(text, p + 1)
      case Got(s, q) => Got(Str(s), q)
      case Bad(e) => Bad(e)
    else Bad(Syntax)
  }

  // ---- chains ----

  /** Operators with their operands, and where they end or which error stops them: one in the operand
      of the pending operator, or an operator there is none of. */
  datatype Rest = Rest(items: seq<Item>, pending: Option<BinOp>, end: Result<nat, Error>)

  /** The whole chain, with something for the operand that could not be read. */
  function Chain(rest: Rest): (items: seq<Item>)
    ensures rest.items <= items
  {
    rest.items + match rest.pending
                 case Some(op) => [Item(op, Long(0))]
                 case None => []
  }

  /** Each operation that is complete in front of the last operand takes its operands. */
  predicate LeftsTyped(e: Expr) {
    match e
    case Binary(_, l, r) => WellTyped(l) && LeftsTyped(r)
    case _ => true
  }

  function ReadPrimary(env: Env, text: seq<byte>, p: nat): (r: Read<Expr>)
    requires p <= |text|
    ensures r.Got? ==> p < r.end <= |text| && WellTyped(r.value) && SkipSpace(text, r.end) == r.end
    decreases |text| - p, 0
  {
    var i := SkipSpace(text, p);
    if AtAny(text, i, IsUnaryOp) then
      match ReadPrimary(env, text, i + 1)
      case Bad(e) => Bad(e)
      case Got(e, q) => Got(if text[i] == 43 then e else Unary(UnaryOp(text[i]), e), q)
    else if At(text, i, LPAREN) then
      match ReadExpr(env, text, i + 1)
      case Bad(e) => Bad(e)
      case Got(e, q) =>
        if At(text, q, RPAREN) then
          SkipTwice(text, q + 1);
          Got(e, SkipSpace(text, q + 1))
        else Bad(Syntax)
    else
      match ReadLeaf(env, text, i)
      case Bad(e) => Bad(e)
      case Got(e, q) =>
        SkipTwice(text, q);
        Got(e, SkipSpace(text, q))
  }

  lemma SkipTwice(text: seq<byte>, p: nat)
    requires p <= |text|
    ensures SkipSpace(text, SkipSpace(text, p)) == SkipSpace(text, p)
  {
    SpanIs(text, SkipSpace(text, p), SkipSpace(text, p), IsSpace);
  }

  /** The operators and operands from `p` on; `held` is an operator read already. */
  function ReadRest(env: Env, text: seq<byte>, p: nat, held: seq<byte>): (r: Rest)
    requires p <= |text|
    ensures r.end.Ok? ==> p <= r.end.value <= |text| && r.pending.None?
    ensures r.end.Err? && r.pending.None? ==> r.end.error == Syntax
    decreases |text| - p, 1
  {
    var i := SkipSpace(text, p);
    if held == [] && !AtAny(text, i, IsOpStart) then Rest([], None, Ok(i))
    else
      var j := if held == [] then OpEnd(text, i) else i;
      match Which(if held == [] then text[i..j] else held)
      case None => Rest([], None, Err(Syntax))
      case Some(op) =>
        match ReadPrimary(env, text, j)
        case Bad(e) => Rest([], Some(op), Err(e))
        case Got(e, q) =>
          var more := ReadRest(env, text, q, []);
          Rest([Item(op, e)] + more.items, more.pending, more.end)
  }

  /** A chain of operands as the tree the precedence table makes of it. An operation that is complete
      in front of an error and does not take its operands is the error. */
  function ReadExpr(env: Env, text: seq<byte>, p: nat): (r: Read<Expr>)
    requires p <= |text|
    ensures r.Got? ==> p < r.end <= |text| && WellTyped(r.value)
    decreases |text| - p, 2
  {
    match ReadPrimary(env, text, p)
    case Bad(e) => Bad(e)
    case Got(first, q) =>
      var rest := ReadRest(env, text, q, []);
      match rest.end
      case Err(e) => Bad(if LeftsTyped(Assemble(first, Chain(rest))) then e else Syntax)
      case Ok(end) =>
        if WellTyped(Assemble(first, rest.items)) then Got(Assemble(first, rest.items), end) else Bad(Syntax)
  }

  // ---- one operator of look-ahead ----

  lemma PrimarySkips(env: Env, text: seq<byte>, p: nat)
    requires p <= |text|
    ensures ReadPrimary(env, text, SkipSpace(text, p)) == ReadPrimary(env, text, p)
  {
    SkipTwice(text, p);
  }

  lemma RestSkips(env: Env, text: seq<byte>, p: nat, held: seq<byte>)
    requires p <= |text|
    ensures ReadRest(env, text, SkipSpace(text, p), held) == ReadRest(env, text, p, held)
  {
    SkipTwice(text, p);
  }

  /** What follows an operator that was read already. */
  lemma RestHeld(env: Env, text: seq<byte>, p: nat, held: seq<byte>)
    requires p <= |text| && held != []
    ensures ReadRest(env, text, p, held) ==
            match Which(held)
            case None => Rest([], None, Err(Syntax))
            case Some(op) =>
              match ReadPrimary(env, text, p)
              case Bad(e) => Rest([], Some(op), Err(e))
              case Got(e, q) =>
                var more := ReadRest(env, text, q, []);
                Rest([Item(op, e)] + more.items, more.pending, more.end)
  {
    PrimarySkips(env, text, p);
  }

  /** Reading an operator and holding it changes nothing of what is ahead. */
  lemma RestRead(env: Env, text: seq<byte>, p: nat)
    requires p <= |text| && SkipSpace(text, p) == p
    ensures AtAny(text, p, IsOpStart) ==>
              var q := OpEnd(text, p);
              text[p..q] != [] && ReadRest(env, text, q, text[p..q]) == ReadRest(env, text, p, [])
    ensures !AtAny(text, p, IsOpStart) ==> ReadRest(env, text, p, []) == Rest([], None, Ok(p))
  {
    if AtAny(text, p, IsOpStart) {
      var q := OpEnd(text, p);
      RestHeld(env, text, q, text[p..q]);
    }
  }

  lemma PrimaryIs(env: Env, text: seq<byte>, p: nat)
    requires p <= |text|
    ensures var i := SkipSpace(text, p);
            ReadPrimary(env, text, p) ==
            if AtAny(text, i, IsUnaryOp) then
              match ReadPrimary(env, text, i + 1)
              case Bad(e) => Bad(e)
              case Got(e, q) => Got(if text[i] == 43 then e else Unary(UnaryOp(text[i]), e), q)
            else if At(text, i, LPAREN) then
              match ReadExpr(env, text, i + 1)
              case Bad(e) => Bad(e)
              case Got(e, q) => if At(text, q, RPAREN) then Got(e, SkipSpace(text, q + 1)) else Bad(Syntax)
            else
              match ReadLeaf(env, text, i)
              case Bad(e) => Bad(e)
              case Got(e, q) => Got(e, SkipSpace(text, q))
  {
  }

  lemma PrimaryEnds(env: Env, text: seq<byte>, p: nat)
    requires p <= |text|
    ensures var r := ReadPrimary(env, text, p);
            r.Got? ==> p < r.end <= |text| && WellTyped(r.value) && SkipSpace(text, r.end) == r.end
  {
  }

  lemma ExprIs(env: Env, text: seq<byte>, p: nat)
    requires p <= |text|
    ensures ReadExpr(env, text, p) ==
            match ReadPrimary(env, text, p)
            case Bad(e) => Bad(e)
            case Got(first, q) =>
              var rest := ReadRest(env, text, q, []);
              match rest.end
              case Err(e) => Bad(if LeftsTyped(Assemble(first, Chain(rest))) then e else Syntax)
              case Ok(end) =>
                if WellTyped(Assemble(first, rest.items)) then Got(Assemble(first, rest.items), end) else Bad(Syntax)
  {
  }

  // ---- which error ----

  /** How the operators that bind at least as tightly as `p` fail, if they do: in an operand, or in an
      operation that does not take its operands and is complete before that. */
  function Fault(p: int, left: Expr, rest: Rest): (e: Option<Error>) {
    var chain := Chain(rest);
    var n := Tight(p, chain);
    if n == |chain| && rest.end.Err? then Some(if LeftsTyped(Assemble(left, chain)) then rest.end.error else Syntax)
    else if WellTyped(Assemble(left, chain[..n])) then None
    else Some(Syntax)
  }

  /** How a right operand fails. An operator there is none of is left to the caller at first. */
  function OperandFault(p: int, e: Expr, rest: Rest): Option<Error> {
    if rest.items == [] && rest.pending.None? then None else Fault(p, e, rest)
  }

  lemma FaultIs(p: int, left: Expr, rest: Rest)
    ensures var chain := Chain(rest);
            var n := Tight(p, chain);
            && n <= |chain|
            && Fault(p, left, rest) ==
               if n == |chain| && rest.end.Err? then Some(if LeftsTyped(Assemble(left, chain)) then rest.end.error else Syntax)
               else if WellTyped(Assemble(left, chain[..n])) then None
               else Some(Syntax)
  {
  }

  /** All operators: what is read, or which error it is. */
  lemma FaultOfAll(first: Expr, rest: Rest)
    requires rest.end.Ok? ==> rest.pending.None?
    ensures Fault(0, first, rest) ==
            match rest.end
            case Err(e) => Some(if LeftsTyped(Assemble(first, Chain(rest))) then e else Syntax)
            case Ok(_) => if WellTyped(Assemble(first, rest.items)) then None else Some(Syntax)
  {
    hide Tight, Assemble, WellTyped, LeftsTyped;
    AllTight(Chain(rest));
    if rest.end.Ok? {
      assert Chain(rest) == rest.items;
    }
  }

  /** An operation in front of the rest of a chain is complete before what comes last. */
  lemma LeftsHold(first: Expr, items: seq<Item>)
    requires items != []
    ensures LeftsTyped(Assemble(first, items)) ==> WellTyped(first)
  {
    hide Weakest;
    AssembleIs(first, items);
    FirstIsPart(first, items[..Weakest(items)]);
  }

  /** The chain behind its first operators. */
  lemma ChainBehind(rest: Rest, k: nat)
    requires k <= |rest.items|
    ensures Chain(Rest(rest.items[k..], rest.pending, rest.end)) == Chain(rest)[k..]
  {
  }

  /** The operand of the first operator could not be read. */
  lemma FaultAtOnce(p: int, cur: Expr, rest: Rest)
    requires rest.items == [] && rest.pending.Some? && rest.end.Err? && p <= Prec(rest.pending.value) && WellTyped(cur)
    ensures Fault(p, cur, rest) == Some(rest.end.error)
  {
    hide Prec;
    var op := rest.pending.value;
    assert Chain(rest) == [Item(op, Long(0))];
    var chain := [Item(op, Long(0))];
    assert chain[1..] == [] && chain[..0] == [] && Tight(p, chain[1..]) == 0;
    assert Tight(p, chain) == 1;
    AssembleIs(cur, chain);
    AssembleIs(cur, []);
    AssembleIs(Long(0), []);
    assert Weakest(chain) == 0;
    assert Assemble(cur, chain) == Binary(op, cur, Long(0));
    LeftsOfBinary(op, cur, Long(0));
    FaultIs(p, cur, rest);
  }

  /** One round of climbing: it fails where the right operand does, or where the operator does not take
      its operands, and else as what follows it. */
  lemma FaultStep(p: int, cur: Expr, rest: Rest, e: Expr, more: Rest, m: nat, right: Expr)
    requires rest.items != [] && rest.items == [Item(rest.items[0].op, e)] + more.items
    requires rest.pending == more.pending && rest.end == more.end && WellTyped(cur) && p <= Prec(rest.items[0].op)
    requires rest.end.Err? && rest.pending.None? ==> rest.end.error == Syntax
    requires m == Tight(Prec(rest.items[0].op) + 1, Chain(more)) && right == Assemble(e, Chain(more)[..m])
    ensures var q, next := Prec(rest.items[0].op) + 1, Binary(rest.items[0].op, cur, right);
            && (OperandFault(q, e, more).Some? ==> Fault(p, cur, rest) == OperandFault(q, e, more))
            && (OperandFault(q, e, more).None? && !WellTyped(next) ==> Fault(p, cur, rest) == Some(Syntax))
            && (OperandFault(q, e, more).None? && m <= |more.items| && WellTyped(next) ==>
                  Fault(p, cur, rest) == Fault(p, next, Rest(more.items[m..], more.pending, more.end)))
  {
    hide *;
    var op := rest.items[0].op;
    var next, n := Binary(op, cur, right), Tight(p, Chain(rest));
    Climbed(p, cur, rest, e, more, m, right);
    FaultIs(Prec(op) + 1, e, more);
    OperandFaultIs(Prec(op) + 1, e, more);
    if m == |Chain(more)| {
      StepToEnd(p, cur, rest, next, n);
      LeftsOfBinary(op, cur, right);
      WholeChain(Chain(more), m);
      if m <= |more.items| {
        AtTheEnd(p, next, Rest(more.items[m..], more.pending, more.end));
      }
    } else {
      StepInside(p, cur, rest, next, 1 + m, n);
      if m <= |more.items| {
        StepGoesOn(p, cur, rest, next, more, m, n);
      }
    }
  }

  lemma WholeChain(chain: seq<Item>, m: nat)
    requires m == |chain|
    ensures chain[..m] == chain
  {
  }

  /** The round of climbing itself. */
  lemma Climbed(p: int, cur: Expr, rest: Rest, e: Expr, more: Rest, m: nat, right: Expr)
    requires rest.items != [] && rest.items == [Item(rest.items[0].op, e)] + more.items
    requires rest.pending == more.pending && WellTyped(cur) && p <= Prec(rest.items[0].op)
    requires m == Tight(Prec(rest.items[0].op) + 1, Chain(more)) && right == Assemble(e, Chain(more)[..m])
    ensures var chain, next, n := Chain(rest), Binary(rest.items[0].op, cur, right), Tight(p, Chain(rest));
            && chain != [] && chain[1..] == Chain(more) && 1 + m <= n <= |chain| == 1 + |Chain(more)|
            && Assemble(cur, chain[..n]) == Assemble(next, chain[1 + m..n])
            && (WellTyped(next) ==> WellTyped(right))
  {
    hide *;
    var op, chain := rest.items[0].op, Chain(rest);
    ChainOfOne(rest, e, more);
    FirstIsTight(p, chain);
    ClimbWithin(cur, p, chain, 0, m, right);
    TightIs(p, chain);
    FromStart(chain, Tight(p, chain));
    BinaryIs(op, cur, right);
  }

  lemma FromStart(chain: seq<Item>, n: nat)
    requires n <= |chain|
    ensures chain[0..n] == chain[..n] && chain[0..] == chain
  {
  }

  /** The operator takes all that follows. */
  lemma StepToEnd(p: int, cur: Expr, rest: Rest, next: Expr, n: nat)
    requires n == |Chain(rest)| == Tight(p, Chain(rest))
    requires Assemble(cur, Chain(rest)[..n]) == Assemble(next, Chain(rest)[n..n])
    ensures Fault(p, cur, rest) ==
            if rest.end.Err? then Some(if LeftsTyped(next) then rest.end.error else Syntax)
            else if WellTyped(next) then None else Some(Syntax)
  {
    hide *;
    var chain := Chain(rest);
    FaultIs(p, cur, rest);
    AssembleIs(next, []);
    assert chain[n..n] == [] && chain[..n] == chain;
  }

  lemma AtTheEnd(p: int, next: Expr, rest: Rest)
    requires rest.items == [] && rest.pending.None?
    ensures Fault(p, next, rest) ==
            if rest.end.Err? then Some(if LeftsTyped(next) then rest.end.error else Syntax)
            else if WellTyped(next) then None else Some(Syntax)
  {
    hide *;
    FaultIs(p, next, rest);
    OperandFaultIs(p, next, rest);
    AssembleIs(next, []);
    NoneTight(next, [], p);
  }

  /** Something follows that the operator does not take. */
  lemma StepInside(p: int, cur: Expr, rest: Rest, next: Expr, k: nat, n: nat)
    requires k <= n == Tight(p, Chain(rest)) && k < |Chain(rest)|
    requires Assemble(cur, Chain(rest)[..n]) == Assemble(next, Chain(rest)[k..n])
    ensures !WellTyped(next) ==> Fault(p, cur, rest) == Some(Syntax)
  {
    hide *;
    var chain := Chain(rest);
    FaultIs(p, cur, rest);
    Remainder(chain, k, n);
    if k < n {
      LeftsHold(next, chain[k..n]);
      FirstIsPart(next, chain[k..n]);
    } else {
      AssembleIs(next, []);
    }
  }

  lemma StepGoesOn(p: int, cur: Expr, rest: Rest, next: Expr, more: Rest, m: nat, n: nat)
    requires rest.items != [] && Chain(rest) != [] && Chain(rest)[1..] == Chain(more) && m <= |more.items|
    requires rest.pending == more.pending && rest.end == more.end
    requires 1 + m <= n == Tight(p, Chain(rest))
    requires Assemble(cur, Chain(rest)[..n]) == Assemble(next, Chain(rest)[1 + m..n])
    ensures Fault(p, cur, rest) == Fault(p, next, Rest(more.items[m..], more.pending, more.end))
  {
    hide *;
    var chain := Chain(rest);
    var after := Rest(more.items[m..], more.pending, more.end);
    ChainBehind(more, m);
    assert chain[1..][m..] == chain[1 + m..];
    FaultIs(p, cur, rest);
    FaultIs(p, next, after);
    TightAfter(p, chain, 1 + m);
    Remainder(chain, 1 + m, n);
  }

  lemma ChainOfOne(rest: Rest, e: Expr, more: Rest)
    requires rest.items != [] && rest.items == [Item(rest.items[0].op, e)] + more.items && rest.pending == more.pending
    ensures var chain := Chain(rest); chain != [] && chain[0] == Item(rest.items[0].op, e) && chain[1..] == Chain(more)
  {
  }

  lemma OperandFaultIs(p: int, e: Expr, rest: Rest)
    ensures OperandFault(p, e, rest) == if rest.items == [] && rest.pending.None? then None else Fault(p, e, rest)
    ensures rest.items == [] && rest.pending.None? ==> Chain(rest) == []
    ensures rest.pending.None? ==> |Chain(rest)| == |rest.items|
    ensures rest.pending.Some? ==> |Chain(rest)| == |rest.items| + 1
  {
  }

  lemma FirstIsTight(p: int, chain: seq<Item>)
    requires chain != [] && p <= Prec(chain[0].op)
    ensures 0 < Tight(p, chain)
  {
  }

  lemma LeftsOfBinary(op: BinOp, l: Expr, r: Expr)
    ensures LeftsTyped(Binary(op, l, r)) <==> WellTyped(l) && LeftsTyped(r)
  {
  }

  lemma Remainder(chain: seq<Item>, k: nat, n: nat)
    requires k <= n <= |chain|
    ensures chain[k..][..n - k] == chain[k..n] && |chain[k..]| == |chain| - k
    ensures n == |chain| ==> chain[..n] == chain && chain[k..n] == chain[k..]
    ensures k < n ==> chain[k..n] != []
    ensures k == n ==> chain[k..n] == []
  {
  }
}
