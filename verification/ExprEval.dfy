/** The evaluator of flat trees, and when it gives an expression its meaning. */
module ExprEval {
  import opened Bytes
  import opened Wrappers
  import opened Scanning
  import opened FieldSeq
  import opened Records
  import opened Expressions
  import opened ExprMeaning
  import FieldedBuffer
  import ExprGrammar
  import ExprPrint
  import ExprBack

  /** A value, and for text of a field which conversion left it in the shared conversion
      buffer; any later conversion overwrites it. */
  datatype Held = Held(v: Value, stamp: Option<nat>)

  predicate Fresh(h: Held, calls: nat) { h.stamp == None || h.stamp == Some(calls) }

  /** The evaluation converts some field. */
  predicate Looks(fs: Fields, e: Expr) {
    match e
    case FieldAt(id, oc) => ValueAt(fs, id, oc).Some?
    case Unary(_, x) => Looks(fs, x)
    case Binary(op, l, r) => Looks(fs, r) || (if Any(op, l) then |Values(fs, l.id)| > 0 else Looks(fs, l))
    case _ => false
  }

  predicate Any(op: BinOp, l: Expr) { IsCompare(op) && l.FieldAny? }

  /** The value is text of a field that is there. */
  predicate HoldsText(fs: Fields, e: Expr) {
    e.FieldAt? && IsText(e.id) && ValueAt(fs, e.id, e.oc).Some?
  }

  /** No operator holds text of a field while its other operand converts a field. */
  predicate ClobberFree(fs: Fields, e: Expr) {
    match e
    case Unary(_, x) => ClobberFree(fs, x)
    case Binary(op, l, r) =>
      && ClobberFree(fs, r)
      && if Any(op, l) then !(HoldsText(fs, r) && |Values(fs, l.id)| > 0)
         else ClobberFree(fs, l) && !(HoldsText(fs, l) && Looks(fs, r))
    case _ => true
  }

  predicate Evaluable(e: Expr) {
    match e
    case FieldAt(id, oc) => UsableField(id) && IsInt32(oc)
    case FieldAny(id) => UsableField(id)
    case Unary(_, x) => Evaluable(x)
    case Binary(_, l, r) => Evaluable(l) && Evaluable(r)
    case Long(n) => IsInt64(n)
    case Str(s) => 0 !in s
    case Double(_) => true
  }

  lemma EvaluableFits(e: Expr)
    requires Evaluable(e)
    ensures Fits(e)
  {
  }

  /** What a text compiles to can be evaluated, if the field table holds 32-bit ids and no NUL
      is written in the text. */
  lemma CompiledIsEvaluable(env: ExprGrammar.Env, text: seq<byte>)
    requires ExprGrammar.ReadExpr(env, text, 0).Got? && ExprBack.NoNul(text)
    requires forall name :: name in env.ids && env.ids[name] != 0 ==> env.ids[name] < UINT32_LIMIT
    ensures Evaluable(ExprGrammar.ReadExpr(env, text, 0).value)
  {
    hide *;
    ExprBack.ExprFromText(env, true, text, 0);
    FromTextIsEvaluable(env, ExprGrammar.ReadExpr(env, text, 0).value);
  }

  lemma {:induction e} FromTextIsEvaluable(env: ExprGrammar.Env, e: Expr)
    requires ExprBack.FromText(env, true, e)
    requires forall name :: name in env.ids && env.ids[name] != 0 ==> env.ids[name] < UINT32_LIMIT
    ensures Evaluable(e)
  {
    hide FldType;
  }

  method FieldValue(fbfr: FieldedBuffer.Fbfr32, m: Machine, id: nat, oc: int, calls: nat, ghost fs: Fields)
    returns (h: Held, after: nat)
    requires fbfr.Valid() && fbfr.Fields() == fs && UsableField(id)
    ensures h.v == OfField(m, fs, id, oc)
    ensures after == if ValueAt(fs, id, oc).Some? then calls + 1 else calls
    ensures h.stamp == if IsText(id) && ValueAt(fs, id, oc).Some? then Some(after) else None
  {
    hide *;
    FieldValueIs(m, fs, id, oc);
    var value := fbfr.Find(id, oc);
    after := if value.Some? then calls + 1 else calls;
    var type_ := FldType(id);
    if type_ == FLD_SHORT || type_ == FLD_LONG {
      h := Held(VLong(if value.None? then 0 else FieldLong(value.value)), None);
    } else if type_ == FLD_FLOAT || type_ == FLD_DOUBLE {
      var bits := if value.None? then ZERO_DOUBLE else AsDouble(m, value.value);
      h := Held(VDouble(bits), None);
    } else {
      h := if value.None? then Held(VText([], false), None) else Held(VText(CText(value.value), false), Some(after));
    }
  }

  function AsDouble(m: Machine, v: seq<byte>): Bits64 { if |v| == 8 then v else m.ofFloat(v) }

  lemma FieldValueIs(m: Machine, fs: Fields, id: nat, oc: int)
    requires UsableField(id)
    ensures ValidId(id)
    ensures ValueAt(fs, id, oc) == if 0 <= oc < |Values(fs, id)| then Some(Values(fs, id)[oc]) else None
    ensures var v := ValueAt(fs, id, oc);
            var t := FldType(id);
            && (IsText(id) <==> t != FLD_SHORT && t != FLD_LONG && t != FLD_FLOAT && t != FLD_DOUBLE)
            && OfField(m, fs, id, oc) ==
               if t == FLD_SHORT || t == FLD_LONG then VLong(if v.None? then 0 else FieldLong(v.value))
               else if t == FLD_FLOAT || t == FLD_DOUBLE then
                 VDouble(if v.None? then ZERO_DOUBLE else AsDouble(m, v.value))
               else VText(if v.None? then [] else CText(v.value), false)
    ensures FLD_SHORT == 0 && FLD_LONG == 1 && FLD_FLOAT == 3 && FLD_DOUBLE == 4
  {
    hide Values, CText, FieldLong;
  }

  /** The outcome of an evaluation against the meaning: the same when no held text is
      overwritten, and no worth at all otherwise. */
  ghost predicate Agrees(m: Machine, fs: Fields, e: Expr, r: Outcome<Held>, calls: nat, after: nat) {
    && after >= calls
    && (if ClobberFree(fs, e) then SameOutcome(r, Meaning(m, fs, e)) else !r.Worth?)
    && (r.Worth? ==>
          && (after > calls <==> Looks(fs, e))
          && r.value.stamp == if HoldsText(fs, e) then Some(after) else None)
  }

  predicate SameOutcome(r: Outcome<Held>, v: Outcome<Value>) {
    match r
    case Worth(h) => v == Worth(h.v)
    case Unsupported => v == Unsupported
    case Undefined => v == Undefined
  }

  /** A computed value stands in no shared memory. */
  function Computed(v: Outcome<Value>): Outcome<Held> {
    match v
    case Worth(x) => Worth(Held(x, None))
    case Unsupported => Unsupported
    case Undefined => Undefined
  }

  lemma LeafAgrees(m: Machine, fs: Fields, e: Expr, h: Held, calls: nat, after: nat)
    requires e.Long? || e.Double? || e.Str? || e.FieldAt?
    requires Meaning(m, fs, e) == Worth(h.v) && after >= calls
    requires (after > calls <==> e.FieldAt? && ValueAt(fs, e.id, e.oc).Some?)
    requires h.stamp == if HoldsText(fs, e) then Some(after) else None
    ensures Agrees(m, fs, e, Worth(h), calls, after)
  {
  }

  lemma UnaryAgrees(m: Machine, fs: Fields, op: UnOp, x: Expr, r: Outcome<Held>, calls: nat, after: nat)
    requires Agrees(m, fs, x, r, calls, after)
    ensures match r
            case Worth(h) => Agrees(m, fs, Unary(op, x), Computed(Negate(m, op, h.v)), calls, after)
            case other => Agrees(m, fs, Unary(op, x), other, calls, after)
  {
  }

  lemma BinaryAgrees(m: Machine, fs: Fields, op: BinOp, l: Expr, r: Expr, a: Outcome<Held>, b: Outcome<Held>,
                     t0: nat, t1: nat, t2: nat)
    requires !Any(op, l) && Agrees(m, fs, l, a, t0, t1)
    ensures !a.Worth? ==> Agrees(m, fs, Binary(op, l, r), a, t0, t1)
    ensures a.Worth? && Agrees(m, fs, r, b, t1, t2) ==>
              match b
              case Worth(h) =>
                Agrees(m, fs, Binary(op, l, r),
                       if Fresh(a.value, t2) then Computed(Operate(m, op, a.value.v, h.v)) else Undefined, t0, t2)
              case other => Agrees(m, fs, Binary(op, l, r), other, t0, t2)
  {
    hide Values, OfField, Operate, AnyFrom;
  }

  lemma AnyAgrees(m: Machine, fs: Fields, op: BinOp, id: nat, r: Expr, b: Outcome<Held>, t0: nat, t1: nat, t2: nat)
    requires IsCompare(op) && Agrees(m, fs, r, b, t0, t1) && t2 >= t1
    ensures !b.Worth? ==> Agrees(m, fs, Binary(op, FieldAny(id), r), b, t0, t1)
    ensures b.Worth? && (t2 > t1 <==> |Values(fs, id)| > 0) ==>
              Agrees(m, fs, Binary(op, FieldAny(id), r),
                     if Fresh(b.value, t2) then Computed(AnyFrom(m, fs, op, id, 0, b.value.v)) else Undefined, t0, t2)
  {
  }

  lemma AnyAlone(m: Machine, fs: Fields, id: nat, calls: nat)
    ensures Agrees(m, fs, FieldAny(id), Unsupported, calls, calls)
  {
  }

  lemma HeldIsFresh(m: Machine, fs: Fields, e: Expr, h: Held, calls: nat, after: nat)
    requires Agrees(m, fs, e, Worth(h), calls, after)
    ensures Fresh(h, after) && after >= calls
  {
  }

  /** Which way a binary operator is evaluated shows in the byte behind it. */
  lemma AnyShows(tree: seq<byte>, p: nat, op: BinOp, l: Expr, r: Expr)
    requires Holds(tree, p, Encode(Binary(op, l, r))) && Evaluable(l)
    ensures p + 1 < |tree| && tree[p] == op
    ensures Any(op, l) <==> op >= LESS_THAN && tree[p + 1] == FIELD_ANY
    ensures l.FieldAny? ==>
              && p + 6 <= |tree| && U32(tree[p + 2..p + 6]) == l.id && UsableField(l.id)
              && |Encode(Binary(op, l, r))| == 6 + |Encode(r)| && Holds(tree, p + 6, Encode(r))
    ensures IsCompare(op) <==> op >= LESS_THAN
  {
    hide Holds, Encode, U32, UsableField, ValidId;
    EvaluableFits(l);
    ExprPrint.OperatorAt(tree, p, Binary(op, l, r));
    ExprPrint.EncodingAt(tree, p + 1, l);
  }

  /** Tries the occurrences of a field until one satisfies the comparison. */
  method BoolevAny(fbfr: FieldedBuffer.Fbfr32, m: Machine, op: BinOp, id: nat, rhs: Held, calls: nat, ghost fs: Fields)
    returns (r: Outcome<Held>, after: nat)
    requires fbfr.Valid() && fbfr.Fields() == fs && UsableField(id) && IsCompare(op) && Fresh(rhs, calls)
    ensures after >= calls && (after > calls <==> |Values(fs, id)| > 0)
    ensures r == if Fresh(rhs, after) then Computed(AnyFrom(m, fs, op, id, 0, rhs.v)) else Undefined
  {
    hide *;
    UsableIsValid(id);
    var count := fbfr.Occur(id);
    CountIs(fbfr, id);
    after := calls;
    var oc := 0;
    AnyFromIs(m, fs, op, id, 0, rhs.v);
    FreshIs(rhs, calls);
    while oc < count
      invariant oc <= count == |Values(fs, id)|
      invariant after == calls + oc
      invariant oc > 0 ==> rhs.stamp == None
      invariant AnyFrom(m, fs, op, id, 0, rhs.v) == AnyFrom(m, fs, op, id, oc, rhs.v)
    {
      var lhs;
      PresentIs(fs, id, oc);
      lhs, after := FieldValue(fbfr, m, id, oc, after, fs);
      FreshIs(rhs, after);
      if !Fresh(rhs, after) {
        return Undefined, after;
      }
      AnyFromIs(m, fs, op, id, oc, rhs.v);
      var v := Compare(m, op, lhs.v, rhs.v);
      ComputedIs(v);
      if !v.Worth? || IsTrue(m, v.value) {
        return Computed(v), after;
      }
      oc := oc + 1;
    }
    FreshIs(rhs, after);
    AnyFromIs(m, fs, op, id, oc, rhs.v);
    ComputedIs(Worth(VLong(0)));
    r := Worth(Held(VLong(0), None));
  }

  lemma UsableIsValid(id: nat)
    requires UsableField(id)
    ensures ValidId(id)
  {
  }

  lemma CountIs(fbfr: FieldedBuffer.Fbfr32, id: nat)
    requires fbfr.Valid()
    ensures |Values(fbfr.Fields(), id)| == |Values(fbfr.recs, id)|
  {
    FieldedBuffer.ViewValues(fbfr.recs, id);
  }

  lemma FreshIs(h: Held, calls: nat)
    ensures Fresh(h, calls) <==> h.stamp == None || h.stamp == Some(calls)
  {
  }

  lemma PresentIs(fs: Fields, id: nat, oc: nat)
    ensures ValueAt(fs, id, oc).Some? <==> oc < |Values(fs, id)|
  {
  }

  lemma ComputedIs(v: Outcome<Value>)
    ensures v.Worth? ==> Computed(v) == Worth(Held(v.value, None))
  {
  }

  lemma AnyFromIs(m: Machine, fs: Fields, op: BinOp, id: nat, oc: nat, r: Value)
    requires IsCompare(op)
    ensures AnyFrom(m, fs, op, id, oc, r) ==
            if oc >= |Values(fs, id)| then Worth(VLong(0))
            else
              var v := Compare(m, op, OfField(m, fs, id, oc), r);
              if v.Worth? && !IsTrue(m, v.value) then AnyFrom(m, fs, op, id, oc + 1, r) else v
  {
  }

  lemma BinaryIsEvaluable(e: Expr)
    requires e.Binary? && Evaluable(e)
    ensures Evaluable(e.l) && Evaluable(e.r) && e == Binary(e.op, e.l, e.r)
    ensures !Any(e.op, e.l) || IsCompare(e.op)
    ensures Any(e.op, e.l) ==> e.l == FieldAny(e.l.id)
  {
  }

  lemma OperandsAt(tree: seq<byte>, p: nat, e: Expr)
    requires Holds(tree, p, Encode(e)) && e.Binary?
    ensures Holds(tree, p + 1, Encode(e.l))
    ensures Holds(tree, p + 1 + |Encode(e.l)|, Encode(e.r))
    ensures |Encode(e)| == 1 + |Encode(e.l)| + |Encode(e.r)|
  {
    ExprPrint.OperatorAt(tree, p, e);
  }

  /** Evaluates the tree whose flat form stands at `p`, and says where that form ends. */
  method Boolev(fbfr: FieldedBuffer.Fbfr32, m: Machine, tree: seq<byte>, p: nat, calls: nat, ghost fs: Fields, ghost e: Expr)
    returns (r: Outcome<Held>, q: nat, after: nat)
    requires fbfr.Valid() && fbfr.Fields() == fs
    requires Holds(tree, p, Encode(e)) && Evaluable(e)
    ensures Agrees(m, fs, e, r, calls, after)
    ensures r.Worth? ==> q == p + |Encode(e)|
    decreases e, 1
  {
    hide Holds, Encode, Agrees, ClobberFree, Looks, OfField, I64, I32, U32, ExprPrint.StrEnd, Values;
    EvaluableFits(e);
    ExprPrint.EncodingAt(tree, p, e);
    var op := tree[p];
    q, after := p, calls;
    if op < FIELD {
      r, q := Constant(m, tree, p, calls, fs, e);
    } else if op == FIELD {
      q := p + 9;
      var h;
      h, after := FieldValue(fbfr, m, U32(tree[p + 1..p + 5]), I32(tree[p + 5..q]), calls, fs);
      r := Worth(h);
      LeafAgrees(m, fs, e, h, calls, after);
    } else if op == FIELD_ANY {
      r := Unsupported;
      AnyAlone(m, fs, e.id, calls);
    } else if op <= BITWISE_NEGATION {
      r, q, after := Boolev(fbfr, m, tree, p + 1, calls, fs, e.e);
      UnaryAgrees(m, fs, e.uop, e.e, r, calls, after);
      if r.Worth? {
        r := Computed(Negate(m, op, r.value.v));
      }
    } else {
      r, q, after := BoolevBinary(fbfr, m, tree, p, calls, fs, e);
    }
  }

  method Constant(m: Machine, tree: seq<byte>, p: nat, ghost calls: nat, ghost fs: Fields, ghost e: Expr)
    returns (r: Outcome<Held>, q: nat)
    requires Holds(tree, p, Encode(e)) && Evaluable(e) && (e.Long? || e.Double? || e.Str?)
    ensures Agrees(m, fs, e, r, calls, calls)
    ensures r.Worth? ==> q == p + |Encode(e)|
  {
    hide Holds, Encode, Agrees, I64, ExprPrint.StrEnd;
    EvaluableFits(e);
    ExprPrint.EncodingAt(tree, p, e);
    var op := tree[p];
    q := p + 9;
    if op == CONST_LONG {
      r := Worth(Held(VLong(I64(tree[p + 1..q])), None));
    } else if op == CONST_DOUBLE {
      r := Worth(Held(VDouble(tree[p + 1..q]), None));
    } else {
      ExprPrint.StrEndIs(tree, p + 1, e.s);
      var end := ExprPrint.StrEnd(tree, p + 1);
      q := end + 1;
      r := Worth(Held(VText(tree[p + 1..end], true), None));
    }
    LeafAgrees(m, fs, e, r.value, calls, calls);
  }

  method BoolevBinary(fbfr: FieldedBuffer.Fbfr32, m: Machine, tree: seq<byte>, p: nat, calls: nat, ghost fs: Fields, ghost e: Expr)
    returns (r: Outcome<Held>, q: nat, after: nat)
    requires fbfr.Valid() && fbfr.Fields() == fs
    requires Holds(tree, p, Encode(e)) && Evaluable(e) && e.Binary?
    ensures Agrees(m, fs, e, r, calls, after)
    ensures r.Worth? ==> q == p + |Encode(e)|
    decreases e, 0
  {
    hide *;
    ghost var l, x := e.l, e.r;
    BinaryIsEvaluable(e);
    AnyShows(tree, p, e.op, l, x);
    OperandsAt(tree, p, e);
    var op := tree[p];
    if op >= LESS_THAN && tree[p + 1] == FIELD_ANY {
      var id := U32(tree[p + 2..p + 6]);
      r, q, after := Boolev(fbfr, m, tree, p + 6, calls, fs, e.r);
      AnyAgrees(m, fs, op, id, x, r, calls, after, after);
      if r.Worth? {
        ghost var rhs, mid := r, after;
        HeldIsFresh(m, fs, x, r.value, calls, after);
        r, after := BoolevAny(fbfr, m, op, id, r.value, after, fs);
        AnyAgrees(m, fs, op, id, x, rhs, calls, mid, after);
      }
    } else {
      var lhs;
      ghost var mid;
      lhs, q, after := Boolev(fbfr, m, tree, p + 1, calls, fs, e.l);
      mid := after;
      BinaryAgrees(m, fs, op, l, x, lhs, lhs, calls, mid, mid);
      if !lhs.Worth? {
        return lhs, q, after;
      }
      r, q, after := Boolev(fbfr, m, tree, q, after, fs, e.r);
      BinaryAgrees(m, fs, op, l, x, lhs, r, calls, mid, after);
      if r.Worth? {
        r := if Fresh(lhs.value, after) then Computed(Operate(m, op, lhs.value.v, r.value.v)) else Undefined;
      }
    }
  }

  // ---- whole expressions ----

  /** Evaluates a finished tree as a condition: any worth but zero is true. */
  method Fboolev(fbfr: FieldedBuffer.Fbfr32, m: Machine, tree: seq<byte>, ghost e: Expr) returns (r: Outcome<bool>)
    requires fbfr.Valid() && |tree| >= 4 && tree[4..] == Encode(e) && Evaluable(e)
    ensures var fs := fbfr.Fields();
            var v := Meaning(m, fs, e);
            if !ClobberFree(fs, e) then !r.Worth?
            else if v.Unsupported? then r == Unsupported
            else if v.Undefined? || !ToLong(m, v.value).Worth? then r == Undefined
            else r == Worth(IsTrue(m, v.value))
  {
    assert Holds(tree, 4, Encode(e));
    ghost var fs := fbfr.Fields();
    var v, _, _ := Boolev(fbfr, m, tree, 4, 0, fs, e);
    match v
    case Unsupported => r := Unsupported;
    case Undefined => r := Undefined;
    case Worth(h) =>
      var n := ToLong(m, h.v);
      r := if n.Worth? then Worth(n.value != 0) else Undefined;
  }

  method Ffloatev(fbfr: FieldedBuffer.Fbfr32, m: Machine, tree: seq<byte>, ghost e: Expr) returns (r: Outcome<Bits64>)
    requires fbfr.Valid() && |tree| >= 4 && tree[4..] == Encode(e) && Evaluable(e)
    ensures var fs := fbfr.Fields();
            var v := Meaning(m, fs, e);
            if !ClobberFree(fs, e) then !r.Worth?
            else if v.Unsupported? then r == Unsupported
            else if v.Undefined? then r == Undefined
            else r == Worth(ToDouble(m, v.value))
  {
    assert Holds(tree, 4, Encode(e));
    ghost var fs := fbfr.Fields();
    var v, _, _ := Boolev(fbfr, m, tree, 4, 0, fs, e);
    match v
    case Unsupported => r := Unsupported;
    case Undefined => r := Undefined;
    case Worth(h) => r := Worth(ToDouble(m, h.v));
  }

  /** An operator on two fields, the left one a text: the right conversion overwrites the left text
      if and only if both are there. */
  lemma TextsClash(fs: Fields, op: BinOp, a: nat, i: int, b: nat, j: int)
    requires IsText(a)
    ensures ClobberFree(fs, Binary(op, FieldAt(a, i), FieldAt(b, j))) <==> ValueAt(fs, a, i).None? || ValueAt(fs, b, j).None?
  {
  }

  /** So the evaluator has a worth for it only when one is missing, and then the one it means. */
  method CompareTexts(fbfr: FieldedBuffer.Fbfr32, m: Machine, op: BinOp, a: nat, i: int, b: nat, j: int) returns (r: Outcome<Value>)
    requires fbfr.Valid() && IsText(a) && UsableField(a) && UsableField(b) && IsInt32(i) && IsInt32(j)
    ensures var fs := fbfr.Fields();
            var v := Meaning(m, fs, Binary(op, FieldAt(a, i), FieldAt(b, j)));
            if ValueAt(fs, a, i).Some? && ValueAt(fs, b, j).Some? then !r.Worth? else r == v
  {
    ghost var e := Binary(op, FieldAt(a, i), FieldAt(b, j));
    var tree := Encode(Binary(op, FieldAt(a, i), FieldAt(b, j)));
    assert Holds(tree, 0, Encode(e));
    TextsClash(fbfr.Fields(), op, a, i, b, j);
    var h, _, _ := Boolev(fbfr, m, tree, 0, 0, fbfr.Fields(), e);
    match h
    case Unsupported => r := Unsupported;
    case Undefined => r := Undefined;
    case Worth(held) => r := Worth(held.v);
  }

  /** Two string fields that are there and differ: their comparison means 0, and the evaluator has
      no worth for it. */
  lemma TwoTextFieldsClash(m: Machine)
    ensures var id := FLD_STRING * 0x100_0000 + 1;
            var e := Binary(EQUAL, FieldAt(id, 0), FieldAt(id + 1, 0));
            var fs: Fields := [Field(id, [65, 0]), Field(id + 1, [66, 0])];
            Evaluable(e) && Meaning(m, fs, e) == Worth(VLong(0)) && !ClobberFree(fs, e)
  {
    var id := FLD_STRING * 0x100_0000 + 1;
    var a: Field<seq<byte>>, b: Field<seq<byte>> := Field(id, [65, 0]), Field(id + 1, [66, 0]);
    assert [a, b][..1] == [a] && [a][..0] == [];
    assert Values([a], id) == [[65, 0]] && Values([a], id + 1) == [];
    assert Values([a, b], id) == [[65, 0]] && Values([a, b], id + 1) == [[66, 0]];
    assert CText([65, 0]) == [65] by { CTextIs([65, 0], 1); }
    assert CText([66, 0]) == [66] by { CTextIs([66, 0], 1); }
  }

  lemma CTextIs(v: seq<byte>, n: nat)
    requires n < |v| && v[n] == 0 && 0 !in v[..n]
    ensures CText(v) == v[..n]
  {
    assert forall i :: 0 <= i < n ==> v[i] == v[..n][i];
    SpanIs(v, 0, n, (c: byte) => c != 0);
  }
}
