/** The expression compiler: precedence climbing with one operator of look-ahead, writing
    each opcode in front of operands that are already in the tree. */
module ExprParser {
  import opened Bytes
  import opened Wrappers
  import opened Scanning
  import opened Escapes
  import opened Records
  import opened Expressions
  import opened ExprGrammar
  import opened FlatTrees

  // ---- how much is written ----

  /** A string that starts at `p` has fewer bytes than the block of the tree has at first. */
  ghost predicate ShortAt(text: seq<byte>, p: nat) {
    p < |text| && text[p] == QUOTE ==>
      match ReadString(text, p + 1)
      case Got(s, _) => |s| < FIRST_SIZE
      case Bad(_) => true
  }

  /** No string literal of the text is too long for one doubling of the block. */
  ghost predicate ShortStrings(text: seq<byte>) { forall p: nat :: ShortAt(text, p) }

  /** Only small pieces were written, if the strings of the text are short. */
  ghost predicate Frugal(text: seq<byte>, was: seq<nat>, now: seq<nat>) {
    was <= now && (ShortStrings(text) ==> AllSmall(now[|was|..]))
  }

  lemma FrugalSame(text: seq<byte>, was: seq<nat>)
    ensures Frugal(text, was, was)
  {
  }

  lemma FrugalOne(text: seq<byte>, was: seq<nat>)
    ensures Frugal(text, was, was + [1])
  {
  }

  lemma FrugalTrans(text: seq<byte>, a: seq<nat>, b: seq<nat>, c: seq<nat>)
    requires Frugal(text, a, b) && Frugal(text, b, c)
    ensures Frugal(text, a, c)
  {
    hide ShortStrings;
    if ShortStrings(text) {
      forall i | 0 <= i < |c| - |a| ensures c[|a|..][i] <= FIRST_SIZE {
        if i < |b| - |a| {
          assert c[|a| + i] == b[|a| + i] == b[|a|..][i];
        } else {
          assert c[|a| + i] == c[|b|..][i - (|b| - |a|)];
        }
      }
    }
  }

  lemma FrugalLeaf(env: Env, text: seq<byte>, p: nat, was: seq<nat>)
    requires p <= |text|
    ensures var r := ReadLeaf(env, text, p);
            r.Got? ==>
              && !r.value.Unary? && !r.value.Binary? && LeafChunks(r.value) == Pieces(r.value)
              && Frugal(text, was, was + Pieces(r.value))
  {
    hide ReadEscaped, NumberEnd, NameEnd, ReadSubscript, FieldLeaf, NumberLeaf;
    assert ShortStrings(text) ==> ShortAt(text, p);
  }

  class ExpressionParser {
    const scan: Scanner
    const env: Env
    var op: seq<byte>    // an operator that was read and put back
    const ast: AstTree

    constructor (env: Env, text: seq<byte>)
      ensures scan.Valid() && fresh(scan) && scan.text == text && scan.pos == 0
      ensures this.env == env && op == [] && fresh(ast) && ast.Valid()
      ensures ast.inside && ast.bytes == [0, 0, 0, 0] && ast.chunks == []
    {
      this.env := env;
      op := [];
      ast := new AstTree();
      scan := new Scanner(text);
    }

    /** What is still to be read: the operator put back, if any, and the text. */
    ghost function Ahead(): Rest
      requires scan.pos <= |scan.text|
      reads this`op, scan
    {
      ReadRest(env, scan.text, scan.pos, op)
    }

    /** The operator put back or the next one in the text; empty when there is none. */
    method Op() returns (s: seq<byte>)
      requires scan.pos <= |scan.text|
      modifies this`op, scan
      ensures scan.pos <= |scan.text| && op == []
      ensures if old(op) != [] then s == old(op) && scan.pos == old(scan.pos)
              else if AtAny(scan.text, old(scan.pos), IsOpStart) then
                scan.pos == OpEnd(scan.text, old(scan.pos)) && s == scan.text[old(scan.pos)..scan.pos]
              else s == [] && scan.pos == old(scan.pos)
      ensures SkipSpace(scan.text, old(scan.pos)) == old(scan.pos) ==>
                if s == [] then old(Ahead()) == Rest([], None, Ok(scan.pos))
                else old(Ahead()) == ReadRest(env, scan.text, scan.pos, s)
    {
      hide ReadPrimary, ReadRest, Span;
      if SkipSpace(scan.text, scan.pos) == scan.pos {
        RestRead(env, scan.text, scan.pos);
      }
      if op != [] {
        s, op := op, [];
        return;
      }
      s := [];
      var c := scan.AcceptIf(IsOpStart);
      if c.Some? {
        var d := scan.AcceptIf(IsOpNext);
        s := if d.Some? then [c.value, d.value] else [c.value];
      }
    }

    /** The rest of a string literal. */
    method String() returns (r: Result<seq<byte>, Error>)
      requires scan.pos <= |scan.text|
      modifies scan
      ensures scan.pos <= |scan.text|
      ensures match ReadString(scan.text, old(scan.pos))
              case Got(s, q) => r == Ok(s) && scan.pos == q
              case Bad(e) => r == Err(e)
    {
      hide ReadEscaped, HexByte, IsHex, Onwards;
      var s: seq<byte> := [];
      ghost var start := scan.pos;
      ghost var whole := ReadEscaped(scan.text, scan.pos, QUOTE);
      OnwardsFirst(whole);
      while true
        invariant scan.pos <= |scan.text| && start <= scan.pos
        invariant Onwards(whole, s, ReadEscaped(scan.text, scan.pos, QUOTE))
        decreases |scan.text| - scan.pos
      {
        OneEscape(whole, s, scan.text, scan.pos, QUOTE);
        var slash := scan.Accept(BACKSLASH);
        if slash {
          var h := scan.Hex();
          if h.Err? {
            return Err(Syntax);
          }
          if h.value.Some? {
            s := s + [h.value.value];
          }
        } else {
          var c := scan.AcceptIf(x => x != QUOTE);
          if c.None? {
            break;
          }
          s := s + [c.value];
        }
      }
      var quote := scan.Accept(QUOTE);
      if !quote {
        return Err(Syntax);
      }
      r := Ok(s);
    }

    /** A field name with its subscript, a number or a string, appended as a leaf. */
    method Leaf() returns (r: Result<nat, Error>)
      requires scan.pos <= |scan.text| && ast.Valid()
      modifies ast, scan
      ensures scan.pos <= |scan.text| && ast.Valid()
      ensures var e := ReadLeaf(env, scan.text, old(scan.pos));
              ast.chunks == if e.Got? then old(ast.chunks) + LeafChunks(e.value) else old(ast.chunks)
      ensures match ReadLeaf(env, scan.text, old(scan.pos))
              case Got(e, q) => r == Ok(old(|ast.bytes|)) && ast.bytes == old(ast.bytes) + Encode(e) && scan.pos == q
              case Bad(e) => r == Err(e)
    {
      hide LeafChunks;
      var name := scan.Name();
      if name != [] {
        r := FieldWithSubscript(name);
        return;
      }
      var number := scan.UnsignedNumber();
      if number != [] {
        var leaf := NumberLeaf(env, number);
        if leaf.Err? {
          return Err(leaf.error);
        }
        var at := ast.AppendLeaf(leaf.value);
        return Ok(at);
      }
      var quote := scan.Accept(QUOTE);
      if quote {
        var s := String();
        if s.Err? {
          return Err(s.error);
        }
        var at := ast.AppendLeaf(Str(s.value));
        return Ok(at);
      }
      r := Err(Syntax);
    }

    method FieldWithSubscript(name: seq<byte>) returns (r: Result<nat, Error>)
      requires scan.pos <= |scan.text| && ast.Valid()
      modifies ast, scan
      ensures scan.pos <= |scan.text| && ast.Valid()
      ensures match ReadSubscript(scan.text, old(scan.pos))
              case Bad(e) => r == Err(e) && ast.chunks == old(ast.chunks)
              case Got(sub, q) =>
                match FieldLeaf(env, name, sub)
                case Ok(e) =>
                  && r == Ok(old(|ast.bytes|)) && ast.bytes == old(ast.bytes) + Encode(e) && scan.pos == q
                  && ast.chunks == old(ast.chunks) + LeafChunks(e)
                case Err(e) => r == Err(e) && ast.chunks == old(ast.chunks)
    {
      hide ReadPrimary, ReadRest, ReadExpr, ReadEscaped, Encode, FieldLeaf, Stol, NumberEnd, Span, LeafChunks;
      var sub := Occurrence([ZERO]);
      var bracket := scan.Accept(LBRACKET);
      if bracket {
        var token := scan.UnsignedNumber();
        sub := Occurrence(token);
        if token == [] {
          var any := scan.Accept(QUESTION);
          if any {
            sub := Any;
          }
        }
        var close := scan.Accept(RBRACKET);
        if !close {
          return Err(Syntax);
        }
      }
      var leaf := FieldLeaf(env, name, sub);
      if leaf.Err? {
        return Err(leaf.error);
      }
      var at := ast.AppendLeaf(leaf.value);
      r := Ok(at);
    }

    method ParsePrimary() returns (r: Result<nat, Error>)
      requires scan.pos <= |scan.text| && op == [] && ast.Valid()
      modifies this`op, ast, scan
      ensures scan.pos <= |scan.text| && (r.Ok? ==> op == []) && ast.Valid()
      ensures Frugal(scan.text, old(ast.chunks), ast.chunks)
      ensures var e := ReadPrimary(env, scan.text, old(scan.pos)); e.Got? ==> ast.chunks == old(ast.chunks) + Pieces(e.value)
      ensures match ReadPrimary(env, scan.text, old(scan.pos))
              case Got(e, q) => r == Ok(old(|ast.bytes|)) && ast.bytes == old(ast.bytes) + Encode(e) && scan.pos == q
              case Bad(e) => r == Err(e)
      decreases |scan.text| - scan.pos, 0
    {
      hide ReadPrimary, ReadRest, ReadExpr, ReadLeaf, Assemble, Tight, Weakest, Encode, WellTyped, Prec, Span, OpEnd, Frugal, ShortStrings, LeafChunks, Pieces, Sum, Room;
      FrugalSame(scan.text, ast.chunks);
      ghost var start := scan.pos;
      PrimaryIs(env, scan.text, scan.pos);
      scan.Space();
      var c := scan.AcceptIf(IsUnaryOp);
      if c.Some? {
        r := AfterUnary(c.value);
        return;
      }
      var paren := scan.Accept(LPAREN);
      if paren {
        r := ParseExpr();
        if r.Err? {
          return;
        }
        var close := scan.Accept(RPAREN);
        if !close {
          return Err(Syntax);
        }
      } else {
        FrugalLeaf(env, scan.text, scan.pos, ast.chunks);
        r := Leaf();
        if r.Err? {
          return;
        }
      }
      scan.Space();
    }

    /** An operand with a unary operator in front of it; a plus leaves no trace in the tree. */
    method AfterUnary(c: byte) returns (r: Result<nat, Error>)
      requires scan.pos <= |scan.text| && op == [] && IsUnaryOp(c) && ast.Valid()
      modifies this`op, ast, scan
      ensures scan.pos <= |scan.text| && (r.Ok? ==> op == []) && ast.Valid()
      ensures Frugal(scan.text, old(ast.chunks), ast.chunks)
      ensures match ReadPrimary(env, scan.text, old(scan.pos))
              case Got(e, q) =>
                && r == Ok(old(|ast.bytes|)) && scan.pos == q
                && ast.bytes == old(ast.bytes) + Encode(if c == 43 then e else Unary(UnaryOp(c), e))
                && ast.chunks == old(ast.chunks) + Pieces(if c == 43 then e else Unary(UnaryOp(c), e))
              case Bad(e) => r == Err(e)
      decreases |scan.text| - scan.pos, 1
    {
      hide ReadPrimary, Frugal, ShortStrings, Pieces, Encode, UnaryOp, Sum, Room, Span;
      ghost var was, before := ast.chunks, ast.bytes;
      FrugalSame(scan.text, was);
      var at := |ast.bytes|;
      if c != 43 {
        at := ast.Append(UnaryOp(c));
        FrugalOne(scan.text, was);
        UnaryIs(UnaryOp(c), before, was);
      }
      ghost var mid := ast.chunks;
      var inner := ParsePrimary();
      FrugalTrans(scan.text, was, mid, ast.chunks);
      if inner.Err? {
        return inner;
      }
      r := Ok(at);
    }

    method ParseExpr() returns (r: Result<nat, Error>)
      requires scan.pos <= |scan.text| && op == [] && ast.Valid()
      modifies this`op, ast, scan
      ensures scan.pos <= |scan.text| && (r.Ok? ==> op == []) && ast.Valid()
      ensures Frugal(scan.text, old(ast.chunks), ast.chunks)
      ensures var e := ReadExpr(env, scan.text, old(scan.pos)); e.Got? ==> ast.chunks == old(ast.chunks) + Pieces(e.value)
      ensures match ReadExpr(env, scan.text, old(scan.pos))
              case Got(e, q) => r == Ok(old(|ast.bytes|)) && ast.bytes == old(ast.bytes) + Encode(e) && scan.pos == q
              case Bad(e) => r == Err(e)
      decreases |scan.text| - scan.pos, 4
    {
      hide ReadPrimary, ReadRest, ReadExpr, ReadLeaf, Assemble, Tight, Weakest, Encode, WellTyped, Prec, Span, OpEnd, Frugal, ShortStrings, LeafChunks, Pieces, Sum, Room;
      ghost var start, was := scan.pos, ast.chunks;
      ExprIs(env, scan.text, scan.pos);
      var e := ParsePrimary();
      if e.Err? {
        return e;
      }
      ghost var first := ReadPrimary(env, scan.text, start).value;
      ghost var rest := Ahead();
      AheadIs();
      AllTight(Chain(rest));
      FaultOfAll(first, rest);
      assert ast.bytes[e.value..] == Encode(first);
      ghost var mid := ast.chunks;
      r := ParseBinop(0, e.value, first, was);
      FrugalTrans(scan.text, was, mid, ast.chunks);
      AssembleIs(first, rest.items);
    }

    lemma AheadIs()
      requires scan.pos <= |scan.text|
      ensures Ahead() == ReadRest(env, scan.text, scan.pos, op)
    {
    }

    /** The operand behind the operator `tok`, with the tighter operators that follow it. */
    method RightOperand(tok: BinOp) returns (r: Result<nat, Error>, ghost right: Expr, ghost m: nat)
      requires scan.pos <= |scan.text| && op == [] && ast.Valid()
      modifies this`op, ast, scan
      ensures scan.pos <= |scan.text| && ast.Valid() && Frugal(scan.text, old(ast.chunks), ast.chunks)
      ensures match ReadPrimary(env, scan.text, old(scan.pos))
              case Bad(e) => r == Err(e)
              case Got(e, q) =>
                var rest := ReadRest(env, scan.text, q, []);
                && m == Tight(Prec(tok) + 1, Chain(rest)) && right == Assemble(e, Chain(rest)[..m])
                && if r.Ok? then
                     && r == Ok(old(|ast.bytes|)) && ast.bytes == old(ast.bytes) + Encode(right) && WellTyped(right)
                     && ast.chunks == old(ast.chunks) + Pieces(right)
                     && m <= |rest.items| && OperandFault(Prec(tok) + 1, e, rest) == None
                     && Ahead() == Rest(rest.items[m..], rest.pending, rest.end) && scan.pos > old(scan.pos)
                   else OperandFault(Prec(tok) + 1, e, rest) == Some(r.error)
      decreases |scan.text| - scan.pos, 1
    {
      hide *;
      ghost var start, was := scan.pos, ast.chunks;
      PrimaryEnds(env, scan.text, scan.pos);
      right, m := Long(0), 0;
      r := ParsePrimary();
      if r.Err? {
        return;
      }
      ghost var first := ReadPrimary(env, scan.text, start).value;
      right := first;
      ghost var rest := Ahead();
      AheadIs();
      NoneTight(first, Chain(rest), Prec(tok) + 1);
      FaultIs(Prec(tok) + 1, first, rest);
      OperandFaultIs(Prec(tok) + 1, first, rest);
      assert rest.items[0..] == rest.items;
      var next := Op();
      AheadIs();
      m := Tight(Prec(tok) + 1, Chain(rest));
      right := Assemble(first, Chain(rest)[..m]);
      if next != [] {
        op := next;
        AheadIs();
        RestHeld(env, scan.text, scan.pos, next);
        FirstInChain(rest);
        var after := Which(next);
        if after.Some? && Prec(tok) < Prec(after.value) {
          assert ast.bytes[r.value..] == Encode(first);
          ghost var mid := ast.chunks;
          r := ParseBinop(Prec(tok) + 1, r.value, first, was);
          FrugalTrans(scan.text, was, mid, ast.chunks);
          if r.Ok? {
            PrefixOfChain(rest, m);
          }
        }
      }
    }

    /** The operator put back or the next one behind spaces. */
    method NextOp() returns (s: seq<byte>)
      requires scan.pos <= |scan.text|
      modifies this`op, scan
      ensures scan.pos <= |scan.text| && op == [] && scan.pos >= old(scan.pos)
      ensures if s == [] then old(Ahead()) == Ahead() == Rest([], None, Ok(scan.pos))
              else if Which(s).None? then old(Ahead()) == Rest([], None, Err(Syntax))
              else
                && old(Ahead()) == ReadRest(env, scan.text, scan.pos, s)
                && match ReadPrimary(env, scan.text, scan.pos)
                   case Bad(e) => old(Ahead()) == Rest([], Some(Which(s).value), Err(e))
                   case Got(e, q) =>
                     old(Ahead()) == Rest([Item(Which(s).value, e)] + ReadRest(env, scan.text, q, []).items,
                                          ReadRest(env, scan.text, q, []).pending,
                                          ReadRest(env, scan.text, q, []).end)
    {
      hide ReadPrimary, ReadRest, Which, Span, OpEnd;
      AheadIs();
      RestSkips(env, scan.text, scan.pos, op);
      SkipTwice(scan.text, scan.pos);
      scan.Space();
      RestRead(env, scan.text, scan.pos);
      AheadIs();
      s := Op();
      AheadIs();
      if s != [] {
        RestHeld(env, scan.text, scan.pos, s);
      }
    }

    /** Makes the operands at `lhs` and `rhs` those of `tok`, unless it is a match that does
        not take them. */
    method Combine(tok: BinOp, lhs: nat, rhs: nat, ghost before: seq<byte>, ghost l: Expr, ghost r: Expr)
      returns (typed: bool)
      requires ast.bytes == before + Encode(l) + Encode(r)
      requires lhs == |before| && rhs == |before| + |Encode(l)|
      requires WellTyped(l) && WellTyped(r) && ast.Valid()
      modifies ast
      ensures ast.Valid() && Frugal(scan.text, old(ast.chunks), ast.chunks)
      ensures typed == WellTyped(Binary(tok, l, r))
      ensures typed ==> ast.bytes == before + Encode(Binary(tok, l, r)) && ast.chunks == old(ast.chunks) + [1]
    {
      hide Encode, WellTyped, Frugal, ShortStrings, Sum, Room;
      FrugalSame(scan.text, ast.chunks);
      FrugalOne(scan.text, ast.chunks);
      RootOp(l);
      RootOp(r);
      BinaryIs(tok, l, r);
      assert ast.bytes[lhs] == Encode(l)[0] && ast.bytes[rhs] == Encode(r)[0];
      if (tok == MATCHES || tok == NOT_MATCHES) &&
         !((ast.bytes[lhs] == CONST_STRING || ast.bytes[lhs] == FIELD || ast.bytes[lhs] == FIELD_ANY) &&
           ast.bytes[rhs] == CONST_STRING)
      {
        return false;
      }
      assert ast.bytes[..lhs] == before && ast.bytes[lhs..] == Encode(l) + Encode(r);
      ast.Insert(lhs, [tok]);
      typed := true;
    }

    /** Makes the tree at `lhs`, which is `cur`, the left operand of `tok`, and what follows the
        right one. The chain stays the same: `k` of its operators were taken, now `taken`. */
    method TakeOperator(tok: BinOp, lhs: nat, prec: int, ghost before: seq<byte>, ghost base: seq<nat>,
                        ghost cur: Expr, ghost ahead: Rest, ghost k: nat)
      returns (r: Result<nat, Error>, ghost next: Expr, ghost taken: nat)
      requires scan.pos <= |scan.text| && op == [] && ast.Valid()
      requires ast.bytes == before + Encode(cur) && |before| == lhs && WellTyped(cur) && ast.chunks == base + Pieces(cur)
      requires k <= |ahead.items| && k < Tight(prec, Chain(ahead)) && prec <= Prec(tok)
      requires ahead.end.Err? && ahead.pending.None? ==> ahead.end.error == Syntax
      requires match ReadPrimary(env, scan.text, scan.pos)
               case Bad(e) => ahead.items[k..] == [] && ahead.end == Err(e) && ahead.pending == Some(tok)
               case Got(e, q) =>
                 var rest := ReadRest(env, scan.text, q, []);
                 && ahead.items[k..] == [Item(tok, e)] + rest.items
                 && ahead.end == rest.end && ahead.pending == rest.pending
      modifies this`op, ast, scan
      ensures scan.pos <= |scan.text| && ast.Valid() && Frugal(scan.text, old(ast.chunks), ast.chunks)
      ensures var n, now := Tight(prec, Chain(ahead)), Rest(ahead.items[k..], ahead.pending, ahead.end);
              if r.Ok? then
                && k < taken <= |ahead.items| && taken <= n && scan.pos > old(scan.pos)
                && ast.bytes == before + Encode(next) && WellTyped(next) && ast.chunks == base + Pieces(next)
                && Ahead() == Rest(ahead.items[taken..], ahead.pending, ahead.end)
                && Assemble(cur, Chain(ahead)[k..n]) == Assemble(next, Chain(ahead)[taken..n])
                && Fault(prec, cur, now) == Fault(prec, next, Ahead())
              else Fault(prec, cur, now) == Some(r.error)
      decreases |scan.text| - scan.pos, 2
    {
      hide *;
      ghost var was, start := ast.chunks, scan.pos;
      ghost var now := Rest(ahead.items[k..], ahead.pending, ahead.end);
      ghost var right, m;
      r, right, m := RightOperand(tok);
      next, taken := Binary(tok, cur, right), k + 1 + m;
      if ahead.items[k..] == [] {
        FaultAtOnce(prec, cur, now);
      } else {
        ghost var first := ReadPrimary(env, scan.text, start);
        PrimaryEnds(env, scan.text, start);
        ghost var more := ReadRest(env, scan.text, first.end, []);
        FaultStep(prec, cur, now, first.value, more, m, right);
        ChainFrom(ahead, k, more);
        ClimbWithin(cur, prec, Chain(ahead), k, m, right);
        TightIs(prec, Chain(ahead));
      }
      if r.Err? {
        return;
      }
      AheadIs();
      ghost var mid := ast.chunks;
      var typed := Combine(tok, lhs, r.value, before, cur, right);
      FrugalTrans(scan.text, was, mid, ast.chunks);
      PiecesOfBinary(tok, cur, right, base);
      AheadIs();
      if !typed {
        r := Err(Syntax);
      }
    }

    /** Reads on while operators bind at least as tightly as `prec`, making the tree at `lhs`
        the left operand. A weaker operator is read, put back and left to the caller. */
    method ParseBinop(prec: int, lhs: nat, ghost left: Expr, ghost base: seq<nat>) returns (r: Result<nat, Error>)
      requires scan.pos <= |scan.text| && ast.Valid() && lhs <= |ast.bytes| && ast.bytes[lhs..] == Encode(left) && WellTyped(left)
      requires ast.chunks == base + Pieces(left)
      modifies this`op, ast, scan
      ensures ast.Valid() && Frugal(scan.text, old(ast.chunks), ast.chunks)
      ensures scan.pos <= |scan.text| && (r.Ok? ==> scan.pos >= old(scan.pos))
      ensures r.Ok? && op != [] ==> Which(op).Some? && Prec(Which(op).value) < prec
      ensures var ahead := old(Ahead());
              var n := Tight(prec, Chain(ahead));
              if r.Ok? then
                && n <= |ahead.items|
                && var e := Assemble(left, ahead.items[..n]);
                && r == Ok(lhs)
                && ast.bytes == old(ast.bytes[..lhs]) + Encode(e)
                && WellTyped(e)
                && ast.chunks == base + Pieces(e)
                && Ahead() == Rest(ahead.items[n..], ahead.pending, ahead.end)
                && (op == [] ==> n == |ahead.items| && ahead.end == Ok(scan.pos))
                && Fault(prec, left, ahead) == None
              else Fault(prec, left, ahead) == Some(r.error)
      decreases |scan.text| - scan.pos, 3
    {
      hide *;
      ghost var ahead, before := Ahead(), ast.bytes[..lhs];
      ghost var chain := Chain(ahead);
      ghost var n := Tight(prec, chain);
      ghost var cur, k: nat := left, 0;
      ghost var was := ast.chunks;
      FrugalSame(scan.text, was);
      AheadIs();
      TightIs(prec, chain);
      assert ahead.items[0..] == ahead.items && chain[0..n] == chain[..n];
      while true
        invariant ast.Valid() && Frugal(scan.text, was, ast.chunks) && ast.chunks == base + Pieces(cur)
        invariant scan.pos <= |scan.text| && scan.pos >= old(scan.pos)
        invariant k <= |ahead.items| && k <= n && Ahead() == Rest(ahead.items[k..], ahead.pending, ahead.end)
        invariant ast.bytes == before + Encode(cur) && WellTyped(cur) && |before| == lhs
        invariant Assemble(left, chain[..n]) == Assemble(cur, chain[k..n])
        invariant Fault(prec, left, ahead) == Fault(prec, cur, Ahead())
        decreases |scan.text| - scan.pos
      {
        ghost var now := Ahead();
        NothingLeft(cur, prec, chain, k);
        FirstInChain(now);
        ChainBehind(ahead, k);
        FaultIs(prec, cur, now);
        PrefixOfChain(ahead, k);
        var s := NextOp();
        NoneTight(cur, Chain(now), prec);
        if s == [] {
          return Ok(lhs);
        }
        var tok := Which(s);
        if tok.None? {
          return Err(Syntax);
        }
        if Prec(tok.value) < prec {
          op := s;
          AheadIs();
          return Ok(lhs);
        }
        FirstAhead(chain, k);
        ghost var mid := ast.chunks;
        var step;
        step, cur, k := TakeOperator(tok.value, lhs, prec, before, base, cur, ahead, k);
        FrugalTrans(scan.text, was, mid, ast.chunks);
        if step.Err? {
          return step;
        }
      }
    }
  }

  lemma FirstInChain(rest: Rest)
    ensures rest.items != [] ==> Chain(rest) != [] && Chain(rest)[0] == rest.items[0]
    ensures rest.items == [] && rest.pending.Some? ==> Chain(rest) != [] && Chain(rest)[0].op == rest.pending.value
    ensures rest.items == [] && rest.pending.None? ==> Chain(rest) == []
  {
  }

  lemma PrefixOfChain(rest: Rest, k: nat)
    requires k <= |rest.items|
    ensures k <= |Chain(rest)| && Chain(rest)[..k] == rest.items[..k]
    ensures k < |Chain(rest)| ==> Chain(rest)[k..] != [] && Chain(rest)[k..][0] == Chain(rest)[k]
  {
  }

  lemma ChainFrom(ahead: Rest, k: nat, more: Rest)
    requires k < |ahead.items| && ahead.pending == more.pending
    requires ahead.items[k..] == [ahead.items[k]] + more.items
    ensures k < |Chain(ahead)| && Chain(ahead)[k] == ahead.items[k] && Chain(ahead)[k + 1..] == Chain(more)
    ensures more.items == ahead.items[k + 1..]
  {
    var c := Chain(ahead);
    assert c[k..] == ahead.items[k..] + Chain(ahead)[|ahead.items|..];
    assert c[k..][1..] == c[k + 1..];
    assert ahead.items[k..][1..] == ahead.items[k + 1..];
  }

  lemma UnaryIs(op: UnOp, bytes: seq<byte>, chunks: seq<nat>)
    ensures forall x :: bytes + [op] + Encode(x) == bytes + Encode(Unary(op, x))
    ensures forall x :: chunks + [1] + Pieces(x) == chunks + Pieces(Unary(op, x))
  {
    hide Pieces;
    forall x ensures chunks + [1] + Pieces(x) == chunks + Pieces(Unary(op, x)) {
      PiecesOfUnary(op, x, chunks);
    }
  }

  lemma FirstAhead(items: seq<Item>, k: nat)
    requires k <= |items|
    ensures items[k..] != [] ==> k < |items| && items[k..][0] == items[k]
  {
  }

  /** The finished tree: its length in the first two bytes, two reserved bytes, the flat form. */
  function Tree(e: Expr): (t: seq<byte>) {
    var len := 4 + |Encode(e)|;
    [len % 256, len / 256 % 256, 0, 0] + Encode(e)
  }

  /** Compiles an expression text. Text behind the expression is not looked at. When the block of
      the tree was too small for some piece even after doubling, nothing is known of the result. A
      text that the grammar reads stays inside if and only if the pieces of its tree fit; any text
      does whose string literals all have less than 1024 bytes. */
  method Compile(env: Env, text: seq<byte>) returns (r: Result<seq<byte>, Error>, inside: bool)
    ensures inside ==>
              match ReadExpr(env, text, 0)
              case Got(e, _) => r == Ok(Tree(e))
              case Bad(e) => r == Err(e)
    ensures ShortStrings(text) ==> inside
    ensures var e := ReadExpr(env, text, 0);
            e.Got? ==> (inside <==> Room(Pieces(e.value)).Some?)
  {
    hide ReadExpr, Encode, ShortStrings, Pieces, Sum, Room;
    var p := new ExpressionParser(env, text);
    var e := p.ParseExpr();
    inside := p.ast.inside;
    FrugalFits(text, p.ast.chunks);
    assert forall c: seq<nat> :: [] + c == c;
    if e.Err? {
      return Err(e.error), inside;
    }
    var len: nat := |p.ast.bytes|;
    ghost var flat := Encode(ReadExpr(env, text, 0).value);
    assert p.ast.bytes == [0, 0, 0, 0] + flat;
    assert p.ast.bytes[2..] == [0, 0] + flat;
    var t: seq<byte> := [len % 256, len / 256 % 256] + p.ast.bytes[2..];
    assert t == [len % 256, len / 256 % 256, 0, 0] + flat;
    r := Ok(t);
  }

  lemma FrugalFits(text: seq<byte>, chunks: seq<nat>)
    requires Frugal(text, [], chunks)
    ensures ShortStrings(text) ==> Room(chunks).Some?
  {
    hide ShortStrings, Room;
    assert chunks[0..] == chunks;
    if ShortStrings(text) {
      SmallFits(chunks);
    }
  }
}
