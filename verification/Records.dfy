/** The byte layout of the records of a fielded buffer. */
module Records {
  import opened Bytes
  import opened FieldSeq

  const FLD_SHORT := 0
  const FLD_LONG := 1
  const FLD_CHAR := 2
  const FLD_FLOAT := 3
  const FLD_DOUBLE := 4
  const FLD_STRING := 5
  const FLD_CARRAY := 6
  const FLD_FML32 := 10

  /** Bytes of a buffer before its first record: two lengths and seven type offsets, aligned to 8. */
  const HEADER: nat := 40

  /** The longest value whose padded length is still a 32-bit number. */
  const MAX_VALUE: nat := 0xFFFF_FFF8

  function FldType(id: nat): nat { id / 0x100_0000 }

  predicate ValidType(type_: nat) { type_ <= FLD_CARRAY || type_ == FLD_FML32 }

  predicate ValidId(id: nat) { 0 < id < UINT32_LIMIT && ValidType(FldType(id)) }

  datatype StorageClass = Field8 | Field16 | FieldN

  function ClassOf(id: nat): StorageClass
    requires ValidId(id)
  {
    var t := FldType(id);
    if t == FLD_SHORT || t == FLD_CHAR || t == FLD_FLOAT then Field8
    else if t == FLD_LONG || t == FLD_DOUBLE then Field16
    else FieldN
  }

  /** The rank of a type in buffer order. */
  function TypeRank(type_: nat): (k: nat)
    requires ValidType(type_)
    ensures k <= 7
  {
    if type_ == FLD_FML32 then 7 else type_
  }

  /** The smallest id of the type of rank `k`; rank 8 is past all types. */
  function TypeBase(k: nat): nat
    requires k <= 8
  {
    if k < 7 then k * 0x100_0000 else (k + 3) * 0x100_0000
  }

  function RankOf(id: nat): (k: nat)
    requires ValidId(id)
    ensures k <= 7
  {
    TypeRank(FldType(id))
  }

  lemma RankIs(id: nat)
    requires ValidId(id)
    ensures ValidType(FldType(id)) && RankOf(id) == TypeRank(FldType(id))
  {
  }

  lemma RankBounds(id: nat, k: nat)
    requires ValidId(id) && k <= 8
    ensures id < TypeBase(k) <==> RankOf(id) < k
    ensures id < TypeBase(8)
  {
  }

  // ---- values ----

  /** The size of a fixed-length value. */
  function FixedLen(type_: nat): nat
    requires ValidType(type_) && type_ < FLD_STRING
  {
    if type_ == FLD_SHORT then 2
    else if type_ == FLD_CHAR then 1
    else if type_ == FLD_FLOAT then 4
    else 8
  }

  /** The position of the first NUL byte, the length of the whole when there is none. */
  function StrLen(s: seq<byte>): (n: nat)
    ensures n <= |s|
    ensures n < |s| ==> s[n] == 0
    ensures forall i :: 0 <= i < n ==> s[i] != 0
  {
    if s == [] || s[0] == 0 then 0 else 1 + StrLen(s[1..])
  }

  /** The memory at a value pointer is long enough for the length the type reads from it. */
  predicate Readable(type_: nat, mem: seq<byte>, flen: nat)
    requires ValidType(type_)
  {
    if type_ < FLD_STRING then |mem| >= FixedLen(type_)
    else if type_ == FLD_STRING then StrLen(mem) < |mem| && StrLen(mem) < MAX_VALUE
    else if type_ == FLD_CARRAY then flen <= |mem| && flen <= MAX_VALUE
    else |mem| >= HEADER && |mem| >= HEADER + U32(mem[4..8]) && HEADER + U32(mem[4..8]) <= MAX_VALUE
  }

  function ValueLen(type_: nat, mem: seq<byte>, flen: nat): (n: nat)
    requires ValidType(type_) && Readable(type_, mem, flen)
    ensures n <= |mem| && n <= MAX_VALUE
  {
    if type_ < FLD_STRING then FixedLen(type_)
    else if type_ == FLD_STRING then StrLen(mem) + 1
    else if type_ == FLD_CARRAY then flen
    else HEADER + U32(mem[4..8])
  }

  /** A nested buffer is trimmed to the space it uses: its length becomes its size. */
  function Trimmed(type_: nat, v: seq<byte>): (w: seq<byte>)
    requires type_ == FLD_FML32 ==> |v| >= HEADER
    ensures |w| == |v|
  {
    if type_ == FLD_FML32 then v[4..8] + v[4..] else v
  }

  /** What is stored for a value. */
  function Stored(type_: nat, mem: seq<byte>, flen: nat): (v: seq<byte>)
    requires ValidType(type_) && Readable(type_, mem, flen)
    ensures |v| == ValueLen(type_, mem, flen)
    ensures ValueOk(type_, v)
  {
    var v := mem[..ValueLen(type_, mem, flen)];
    var w := Trimmed(type_, v);
    ValueIsStorable(type_, mem, flen);
    w
  }

  lemma ValueIsStorable(type_: nat, mem: seq<byte>, flen: nat)
    requires ValidType(type_) && Readable(type_, mem, flen)
    ensures ValueOk(type_, Trimmed(type_, mem[..ValueLen(type_, mem, flen)]))
  {
    if type_ == FLD_STRING {
      StrLenOfPrefix(mem);
    } else if type_ == FLD_FML32 {
      NestedIsOk(mem);
    }
  }

  lemma {:induction false} StrLenOfPrefix(mem: seq<byte>)
    requires StrLen(mem) < |mem|
    ensures StrLen(mem[..StrLen(mem) + 1]) == StrLen(mem)
  {
    if mem[0] != 0 {
      StrLenOfPrefix(mem[1..]);
      assert mem[..StrLen(mem) + 1][1..] == mem[1..][..StrLen(mem[1..]) + 1];
    }
  }

  lemma NestedIsOk(mem: seq<byte>)
    requires Readable(FLD_FML32, mem, 0)
    ensures var n := HEADER + U32(mem[4..8]);
            var w := Trimmed(FLD_FML32, mem[..n]);
            |w| == n && n == HEADER + U32(w[4..8]) && w[..4] == w[4..8]
  {
    hide U32;
    var v := mem[..HEADER + U32(mem[4..8])];
    var w := v[4..8] + v[4..];
    assert v[4..8] == mem[4..8] && w[..4] == v[4..8] && w[4..8] == v[4..8];
  }

  predicate ValueOk(type_: nat, v: seq<byte>)
    requires ValidType(type_)
  {
    if type_ < FLD_STRING then |v| == FixedLen(type_)
    else
      && |v| <= MAX_VALUE
      && (type_ == FLD_STRING ==> |v| == StrLen(v) + 1)
      && (type_ == FLD_FML32 ==> |v| >= HEADER && |v| == HEADER + U32(v[4..8]) && v[..4] == v[4..8])
  }

  lemma StoredAgain(type_: nat, v: seq<byte>)
    requires ValidType(type_) && ValueOk(type_, v)
    ensures Readable(type_, v, |v|) && Stored(type_, v, |v|) == v
  {
  }

  /** What is stored, type by type: as many bytes as the number has, a string up to and with its
      NUL, as many bytes as the caller says, or a nested buffer as far as it is used, with that as
      its size. */
  lemma StoredMeans(type_: nat, mem: seq<byte>, flen: nat)
    requires ValidType(type_) && Readable(type_, mem, flen)
    ensures var v := Stored(type_, mem, flen);
            match type_
            case 0 => v == mem[..2]
            case 1 => v == mem[..8]
            case 2 => v == mem[..1]
            case 3 => v == mem[..4]
            case 4 => v == mem[..8]
            case 5 => v <= mem && v != [] && v[|v| - 1] == 0 && 0 !in v[..|v| - 1]
            case 6 => v == mem[..flen]
            case _ =>
              && type_ == 10 && |mem| >= 40 && |v| == 40 + U32(mem[4..8]) <= |mem|
              && v[..4] == mem[4..8] && v[4..] == mem[4..|v|]
  {
    hide U32;
    var v := Stored(type_, mem, flen);
    if type_ == FLD_FML32 {
      var used := mem[..|v|];
      assert v == used[4..8] + used[4..];
    }
  }

  // ---- records ----

  /** A record: its id and all bytes after the id, padding included. */
  type Rec = Field<seq<byte>>

  function Pad8(n: nat): (p: nat)
    ensures n <= p < n + 8 && p % 8 == 0
  {
    if n % 8 != 0 then n + 8 - n % 8 else n
  }

  /** The size of a record holding a value of `vlen` bytes. */
  function RecSize(id: nat, vlen: nat): (n: nat)
    requires ValidId(id)
    ensures n >= 8
  {
    match ClassOf(id)
    case Field8 => 8
    case Field16 => 16
    case FieldN => 8 + Pad8(vlen)
  }

  /** Short numbers and characters take 8 bytes with their id, long numbers 16, everything else its
      length and its bytes, up to the next multiple of 8. */
  lemma RecSizes(id: nat, vlen: nat)
    requires ValidId(id)
    ensures var n := RecSize(id, vlen);
            match FldType(id)
            case 0 => n == 8
            case 1 => n == 16
            case 2 => n == 8
            case 3 => n == 8
            case 4 => n == 16
            case _ => 8 + vlen <= n < 16 + vlen && n % 8 == 0
  {
  }

  predicate RecOk(r: Rec) {
    && ValidId(r.id)
    && var b := r.value;
       match ClassOf(r.id)
       case Field8 =>
         && |b| == 4
         && forall i :: FixedLen(FldType(r.id)) <= i < 4 ==> b[i] == 0
       case Field16 => |b| == 12
       case FieldN =>
         && |b| >= 4
         && |b| == 4 + Pad8(U32(b[..4]))
         && ValueOk(FldType(r.id), b[4..4 + U32(b[..4])])
  }

  /** The value inside a record. */
  function RecValue(r: Rec): (v: seq<byte>)
    requires RecOk(r)
    ensures ValueOk(FldType(r.id), v)
    ensures 4 + |r.value| == RecSize(r.id, |v|)
  {
    match ClassOf(r.id)
    case Field8 => r.value[..FixedLen(FldType(r.id))]
    case Field16 => r.value[4..]
    case FieldN => r.value[4..4 + U32(r.value[..4])]
  }

  /** The bytes of a record; ids are 32-bit numbers. */
  function Ser(r: Rec): (s: seq<byte>)
    ensures |s| == 4 + |r.value|
  {
    PutU32(r.id % UINT32_LIMIT) + r.value
  }

  /** A record byte by byte: its id, for all but numbers and characters the length of the value, the
      value behind 4 or 8 bytes. */
  lemma RecordBytes(r: Rec)
    requires RecOk(r)
    ensures var s, v := Ser(r), RecValue(r);
            && |s| >= 8 && s[..4] == PutU32(r.id)
            && match FldType(r.id)
               case 0 => |s| == 8 && v == s[4..6]
               case 1 => |s| == 16 && v == s[8..16]
               case 2 => |s| == 8 && v == s[4..5]
               case 3 => |s| == 8 && v == s[4..8]
               case 4 => |s| == 16 && v == s[8..16]
               case _ => |s| >= 8 + |v| && U32(s[4..8]) == |v| && v == s[8..8 + |v|]
  {
    hide U32, PutU32, ValueOk;
    var s := Ser(r);
    assert s == PutU32(r.id) + r.value;
    assert s[4..] == r.value && s[4..8] == r.value[..4];
  }

  lemma SerIs(id: nat, body: seq<byte>)
    requires id < UINT32_LIMIT
    ensures Ser(Field(id, body)) == PutU32(id) + body
  {
  }

  ghost predicate AllOk(rs: seq<Rec>) {
    forall i :: 0 <= i < |rs| ==> RecOk(rs[i])
  }

  /** The record chain. */
  function Flat(rs: seq<Rec>): seq<byte> {
    if rs == [] then [] else Flat(rs[..|rs| - 1]) + Ser(rs[|rs| - 1])
  }

  /** Where record `k` starts. */
  function Off(rs: seq<Rec>, k: nat): nat
    requires k <= |rs|
  {
    |Flat(rs[..k])|
  }

  /** The bytes taken by records with an id below `bound`. */
  function SizeBelow(rs: seq<Rec>, bound: nat): nat {
    if rs == [] then 0
    else
      var r := rs[|rs| - 1];
      SizeBelow(rs[..|rs| - 1], bound) + (if r.id < bound then |Ser(r)| else 0)
  }

  lemma {:induction false} FlatConcat(a: seq<Rec>, b: seq<Rec>)
    ensures Flat(a + b) == Flat(a) + Flat(b)
  {
    if b == [] {
      assert a + b == a;
    } else {
      hide *;
      var n := |b| - 1;
      FlatConcat(a, b[..n]);
      FlatLast(a + b);
      FlatLast(b);
      assert (a + b)[..|a + b| - 1] == a + b[..n];
    }
  }

  lemma FlatLast(rs: seq<Rec>)
    requires rs != []
    ensures Flat(rs) == Flat(rs[..|rs| - 1]) + Ser(rs[|rs| - 1])
  {
  }

  lemma FlatOne(r: Rec)
    ensures Flat([r]) == Ser(r)
  {
    assert [r][..0] == [];
  }

  lemma {:induction false} SizeConcat(a: seq<Rec>, b: seq<Rec>, bound: nat)
    ensures SizeBelow(a + b, bound) == SizeBelow(a, bound) + SizeBelow(b, bound)
  {
    if b == [] {
      assert a + b == a;
    } else {
      SizeConcat(a, b[..|b| - 1], bound);
      assert (a + b)[..|a + b| - 1] == a + b[..|b| - 1];
    }
  }

  lemma {:induction false} SizeAll(rs: seq<Rec>, bound: nat)
    requires forall i :: 0 <= i < |rs| ==> rs[i].id < bound
    ensures SizeBelow(rs, bound) == |Flat(rs)|
  {
    if rs != [] {
      SizeAll(rs[..|rs| - 1], bound);
    }
  }

  lemma {:induction false} SizeNone(rs: seq<Rec>, bound: nat)
    requires forall i :: 0 <= i < |rs| ==> rs[i].id >= bound
    ensures SizeBelow(rs, bound) == 0
  {
    if rs != [] {
      SizeNone(rs[..|rs| - 1], bound);
    }
  }

  lemma OffIs(rs: seq<Rec>, k: nat)
    requires k <= |rs|
    ensures Off(rs, k) == |Flat(rs[..k])|
  {
  }

  /** In a sorted chain the bytes below a bound end where the first other record starts. */
  lemma SizeIsOffset(rs: seq<Rec>, bound: nat)
    requires Sorted(rs)
    ensures SizeBelow(rs, bound) == Off(rs, Below(rs, bound))
  {
    hide *;
    var k := Below(rs, bound);
    BelowSplits(rs, bound);
    OffIs(rs, k);
    assert rs == rs[..k] + rs[k..];
    SizeConcat(rs[..k], rs[k..], bound);
    SizeAll(rs[..k], bound);
    SizeNone(rs[k..], bound);
  }

  /** Record `k` of the chain. */
  lemma RecordAt(rs: seq<Rec>, k: nat)
    requires k < |rs|
    ensures Off(rs, k + 1) == Off(rs, k) + |Ser(rs[k])|
    ensures Off(rs, k + 1) <= |Flat(rs)|
    ensures Flat(rs)[Off(rs, k)..Off(rs, k + 1)] == Ser(rs[k])
  {
    hide *;
    OffIs(rs, k);
    OffIs(rs, k + 1);
    var a, r, b := rs[..k], rs[k], rs[k + 1..];
    assert rs[..k + 1] == a + [r];
    assert rs == a + [r] + b;
    FlatConcat(a + [r], b);
    FlatConcat(a, [r]);
    FlatOne(r);
  }

  lemma {:induction false} OffMono(rs: seq<Rec>, j: nat, k: nat)
    requires j <= k <= |rs|
    ensures Off(rs, j) + 4 * (k - j) <= Off(rs, k)
    ensures Off(rs, |rs|) == |Flat(rs)|
  {
    assert rs[..|rs|] == rs;
    if j < k {
      OffMono(rs, j, k - 1);
      RecordAt(rs, k - 1);
    }
  }

  /** The chain can be read in only one way: its bytes determine its records. */
  lemma {:induction false} ChainIsUnique(a: seq<Rec>, b: seq<Rec>)
    requires AllOk(a) && AllOk(b)
    requires Flat(a) == Flat(b)
    ensures a == b
  {
    if a == [] || b == [] {
    } else {
      var s, t := a[1..], b[1..];
      assert a == [a[0]] + s && b == [b[0]] + t;
      hide Flat;
      FlatConcat([a[0]], s);
      FlatConcat([b[0]], t);
      FlatOne(a[0]);
      FlatOne(b[0]);
      SameHead(a[0], Flat(s), b[0], Flat(t));
      ChainIsUnique(s, t);
    }
  }

  lemma SameHead(r: Rec, s: seq<byte>, q: Rec, t: seq<byte>)
    requires RecOk(r) && RecOk(q)
    requires Ser(r) + s == Ser(q) + t
    ensures r == q && s == t
  {
    hide *;
    IdFits(r);
    IdFits(q);
    var p, p' := PutU32(r.id), PutU32(q.id);
    SerIs(r.id, r.value);
    SerIs(q.id, q.value);
    SameLength(r, s, q, t);
    assert Ser(r) + s == p + (r.value + s);
    assert Ser(q) + t == p' + (q.value + t);
    SamePrefix(p, r.value + s, p', q.value + t);
    SamePrefix(r.value, s, q.value, t);
  }

  lemma IdFits(r: Rec)
    requires RecOk(r)
    ensures r.id < UINT32_LIMIT && Field(r.id, r.value) == r
    ensures |PutU32(r.id)| == 4 && U32(PutU32(r.id)) == r.id
  {
  }

  /** A record's own bytes say how long it is. */
  lemma SameLength(r: Rec, s: seq<byte>, q: Rec, t: seq<byte>)
    requires RecOk(r) && RecOk(q)
    ensures r.id == q.id && r.value + s == q.value + t ==> |r.value| == |q.value|
  {
    hide ValueOk, FixedLen, ValidType;
    if r.id == q.id && r.value + s == q.value + t && ClassOf(r.id) == FieldN {
      assert (r.value + s)[..4] == r.value[..4];
      assert (q.value + t)[..4] == q.value[..4];
    }
  }

  lemma SamePrefix<T>(a: seq<T>, b: seq<T>, c: seq<T>, d: seq<T>)
    requires a + b == c + d && |a| == |c|
    ensures a == c && b == d
  {
    assert a == (a + b)[..|a|] && c == (c + d)[..|c|];
    assert b == (a + b)[|a|..] && d == (c + d)[|c|..];
  }
}
