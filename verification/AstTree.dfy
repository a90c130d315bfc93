/** The growing block a flat tree is written into. */
module FlatTrees {
  import opened Bytes
  import opened Wrappers
  import opened Expressions

  const FIRST_SIZE: nat := 1024
  const HEADER_LEN: nat := 4

  function Sum(chunks: seq<nat>): (n: nat) {
    if chunks == [] then 0 else Sum(chunks[..|chunks| - 1]) + chunks[|chunks| - 1]
  }

  /** The size of the block after pieces of these sizes were inserted, nothing once one of them
      went past the block: a block that is too small is doubled, but only once for each piece. */
  function Room(chunks: seq<nat>): (size: Option<nat>)
    ensures size.Some? ==> HEADER_LEN + Sum(chunks) <= size.value && size.value >= FIRST_SIZE
  {
    if chunks == [] then Some(FIRST_SIZE)
    else
      var n := |chunks| - 1;
      match Room(chunks[..n])
      case None => None
      case Some(size) =>
        var len := HEADER_LEN + Sum(chunks[..n]);
        var grown := if size - len < chunks[n] then 2 * size else size;
        if len + chunks[n] <= grown then Some(grown) else None
  }

  /** No piece is longer than the block is at first. */
  ghost predicate AllSmall(chunks: seq<nat>) { forall i :: 0 <= i < |chunks| ==> chunks[i] <= FIRST_SIZE }

  /** Small pieces always fit, however many there are. */
  lemma {:induction false} SmallFits(chunks: seq<nat>)
    requires AllSmall(chunks)
    ensures Room(chunks).Some?
  {
    if chunks != [] {
      SmallFits(chunks[..|chunks| - 1]);
    }
  }

  /** The sizes of the pieces a leaf is inserted in. */
  function LeafChunks(e: Expr): (chunks: seq<nat>)
    requires !e.Unary? && !e.Binary?
    ensures Sum(chunks) == |Encode(e)|
  {
    match e
    case Str(s) => SumOfTwo(1, |s| + 1); [1, |s| + 1]
    case FieldAt(_, _) => SumOfThree(1, 4, 4); [1, 4, 4]
    case FieldAny(_) => SumOfTwo(1, 4); [1, 4]
    case Long(_) => SumOfTwo(1, 8); [1, 8]
    case Double(_) => SumOfTwo(1, 8); [1, 8]
  }

  lemma SumOfTwo(a: nat, b: nat)
    ensures Sum([a, b]) == a + b
  {
    assert [a, b][..1] == [a] && [a][..0] == [];
    assert Sum([a]) == Sum([a][..0]) + a;
  }

  lemma SumOfThree(a: nat, b: nat, c: nat)
    ensures Sum([a, b, c]) == a + b + c
  {
    assert [a, b, c][..2] == [a, b];
    SumOfTwo(a, b);
  }

  /** The sizes of the pieces a tree is inserted in, in the order of insertion: a unary operator in
      front of its operand, a binary one when both operands are there. */
  function Pieces(e: Expr): (chunks: seq<nat>) {
    match e
    case Unary(_, x) => [1] + Pieces(x)
    case Binary(_, l, r) => Pieces(l) + Pieces(r) + [1]
    case _ => LeafChunks(e)
  }

  lemma PiecesOfUnary(op: UnOp, x: Expr, was: seq<nat>)
    ensures was + [1] + Pieces(x) == was + Pieces(Unary(op, x))
  {
  }

  lemma PiecesOfBinary(op: BinOp, l: Expr, r: Expr, was: seq<nat>)
    ensures was + Pieces(l) + Pieces(r) + [1] == was + Pieces(Binary(op, l, r))
  {
  }

  lemma {:induction false} SumConcat(a: seq<nat>, b: seq<nat>)
    ensures Sum(a + b) == Sum(a) + Sum(b)
  {
    if b == [] {
      assert a + b == a;
    } else {
      SumConcat(a, b[..|b| - 1]);
      assert (a + b)[..|a + b| - 1] == a + b[..|b| - 1];
    }
  }

  /** The pieces are those of the flat tree. */
  lemma {:induction false} PiecesOfTree(e: Expr)
    ensures Sum(Pieces(e)) == |Encode(e)|
  {
    hide LeafChunks;
    match e
    case Unary(_, x) =>
      PiecesOfTree(x);
      SumConcat([1], Pieces(x));
      assert [1][..0] == [] && Sum([1]) == 1;
    case Binary(_, l, r) =>
      PiecesOfTree(l);
      PiecesOfTree(r);
      SumConcat(Pieces(l), Pieces(r));
      SumConcat(Pieces(l) + Pieces(r), [1]);
      assert [1][..0] == [] && Sum([1]) == 1;
    case _ =>
  }

  /** A literal alone fits if and only if it is not longer than this. */
  lemma LiteralRoom(s: seq<byte>)
    ensures Room(Pieces(Str(s))).Some? <==> |s| <= 2042
  {
    var c: seq<nat> := [1, |s| + 1];
    assert c[..1] == [1] && [1][..0] == [];
    assert Room([1]) == Some(FIRST_SIZE) && Sum([1]) == 1;
  }

  lemma RoomNext(chunks: seq<nat>, c: nat)
    ensures Sum(chunks + [c]) == Sum(chunks) + c
    ensures Room(chunks).Some? ==>
              var len, size := HEADER_LEN + Sum(chunks), Room(chunks).value;
              Room(chunks + [c]) == if c <= size - len then Some(size) else if len + c <= 2 * size then Some(2 * size) else None
    ensures c <= FIRST_SIZE ==> (Room(chunks + [c]).Some? <==> Room(chunks).Some?)
  {
    assert (chunks + [c])[..|chunks|] == chunks;
  }

  /** Behind a number there is less room for a literal than in front of it. */
  lemma LiteralOnRight(op: BinOp, n: int, s: seq<byte>)
    ensures Room(Pieces(Binary(op, Long(n), Str(s)))).Some? <==> |s| <= 2033
    ensures Room(Pieces(Binary(op, Str(s), Long(n)))).Some? <==> |s| <= 2042
  {
    hide Room, Sum;
    BehindNumber(|s| + 1);
    InFrontOfNumber(|s| + 1);
    assert Pieces(Binary(op, Long(n), Str(s))) == [] + [1] + [8] + [1] + [|s| + 1] + [1];
    assert Pieces(Binary(op, Str(s), Long(n))) == [] + [1] + [|s| + 1] + [1] + [8] + [1];
  }

  lemma BehindNumber(c: nat)
    ensures Room([] + [1] + [8] + [1] + [c] + [1]).Some? <==> HEADER_LEN + 10 + c <= 2 * FIRST_SIZE
  {
    hide Room, Sum;
    NoPieces();
    var a: seq<nat> := [] + [1];
    RoomNext([], 1);
    RoomNext(a, 8);
    RoomNext(a + [8], 1);
    RoomNext(a + [8] + [1], c);
    RoomNext(a + [8] + [1] + [c], 1);
  }

  lemma InFrontOfNumber(c: nat)
    ensures Room([] + [1] + [c] + [1] + [8] + [1]).Some? <==> HEADER_LEN + 1 + c <= 2 * FIRST_SIZE
  {
    hide Room, Sum;
    NoPieces();
    var a: seq<nat> := [] + [1];
    RoomNext([], 1);
    RoomNext(a, c);
    RoomNext(a + [c], 1);
    RoomNext(a + [c] + [1], 8);
    RoomNext(a + [c] + [1] + [8], 1);
  }

  lemma NoPieces()
    ensures Room([]) == Some(FIRST_SIZE) && Sum([]) == 0
  {
  }

  class AstTree {
    var bytes: seq<byte>          // what was written, as if nothing had been lost
    var size: nat
    var inside: bool              // no piece went past the block yet
    ghost var chunks: seq<nat>

    ghost predicate Valid()
      reads this
    {
      && |bytes| == HEADER_LEN + Sum(chunks)
      && Room(chunks) == if inside then Some(size) else None
    }

    constructor ()
      ensures Valid() && inside && bytes == [0, 0, 0, 0] && size == FIRST_SIZE && chunks == []
    {
      bytes, size, inside, chunks := [0, 0, 0, 0], FIRST_SIZE, true, [];
    }

    /** Inserts data in front of what starts at `where_`. It stays inside the block if and only if
        it fits what is free or what is free after doubling. */
    method Insert(where_: nat, data: seq<byte>)
      requires Valid() && where_ <= |bytes|
      modifies this
      ensures Valid() && chunks == old(chunks) + [|data|]
      ensures bytes == old(bytes[..where_]) + data + old(bytes[where_..])
      ensures old(inside) ==>
                && size == (if |data| <= old(size) - old(|bytes|) then old(size) else 2 * old(size))
                && (inside <==> |data| <= old(size) - old(|bytes|) || |data| <= 2 * old(size) - old(|bytes|))
      ensures !old(inside) ==> !inside
    {
      var more := chunks + [|data|];
      assert more[..|chunks|] == chunks;
      var free: int := size - |bytes|;
      if free < |data| {
        size := 2 * size;
      }
      inside := inside && |bytes| + |data| <= size;
      bytes := bytes[..where_] + data + bytes[where_..];
      chunks := more;
    }

    method Append(op: byte) returns (at: nat)
      requires Valid()
      modifies this
      ensures Valid() && at == old(|bytes|) && bytes == old(bytes) + [op] && chunks == old(chunks) + [1]
    {
      at := |bytes|;
      Insert(at, [op]);
    }

    method AppendData(op: byte, data: seq<byte>) returns (at: nat)
      requires Valid()
      modifies this
      ensures Valid() && at == old(|bytes|) && bytes == old(bytes) + ([op] + data)
      ensures chunks == old(chunks) + [1, |data|]
    {
      at := |bytes|;
      Insert(at, [op]);
      Insert(|bytes|, data);
    }

    method AppendField(id: nat, oc: int) returns (at: nat)
      requires Valid()
      modifies this
      ensures Valid() && at == old(|bytes|) && bytes == old(bytes) + Encode(FieldAt(id, oc))
      ensures chunks == old(chunks) + LeafChunks(FieldAt(id, oc))
    {
      at := |bytes|;
      Insert(at, [FIELD]);
      Insert(|bytes|, PutU32(id % UINT32_LIMIT));
      Insert(|bytes|, PutI32(oc));
    }

    /** Appends a field, a number or a string. */
    method AppendLeaf(e: Expr) returns (at: nat)
      requires Valid() && !e.Unary? && !e.Binary?
      modifies this
      ensures Valid() && at == old(|bytes|) && bytes == old(bytes) + Encode(e)
      ensures chunks == old(chunks) + LeafChunks(e)
    {
      match e
      case Long(n) => at := AppendData(CONST_LONG, PutI64(n));
      case Double(bits) => at := AppendData(CONST_DOUBLE, bits);
      case Str(s) =>
        at := AppendData(CONST_STRING, s + [0]);
        assert Encode(e) == [CONST_STRING] + (s + [0]);
      case FieldAt(id, oc) => at := AppendField(id, oc);
      case FieldAny(id) => at := AppendData(FIELD_ANY, PutU32(id % UINT32_LIMIT));
    }
  }
}
