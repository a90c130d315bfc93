/** The FML32 fielded buffer: one byte array of records sorted by field id, with
    a table of the offsets at which each field type starts. */
module FieldedBuffer {
  import opened Bytes
  import opened FieldSeq
  import opened Records
  import opened Wrappers

  const TYPES: nat := 7

  /** The representation invariant: the records tile the used bytes in id order
      and each entry of the offset table is the size of all smaller types. */
  ghost predicate Wf(d: seq<byte>, len: nat, offs: seq<int>, rs: seq<Rec>) {
    && len <= |d| < UINT32_LIMIT
    && d[..len] == Flat(rs)
    && AllOk(rs)
    && Sorted(rs)
    && OffsetsOk(offs, rs)
  }

  ghost predicate OffsetsOk(offs: seq<int>, rs: seq<Rec>) {
    && |offs| == TYPES
    && forall k :: 0 <= k < TYPES ==> offs[k] == SizeBelow(rs, TypeBase(k + 1))
  }

  ghost function ValueOf(r: Rec): seq<byte> {
    if RecOk(r) then RecValue(r) else []
  }

  /** The fields as their callers see them, without padding. */
  ghost function View(rs: seq<Rec>): (fs: seq<Field<seq<byte>>>)
    ensures |fs| == |rs|
    ensures forall i :: 0 <= i < |rs| ==> fs[i] == Field(rs[i].id, ValueOf(rs[i]))
  {
    seq(|rs|, i requires 0 <= i < |rs| => Field(rs[i].id, ValueOf(rs[i])))
  }

  /** The index `where` looks for: occurrence `oc` of `id`, or else the first larger id. */
  ghost function WhereIndex(rs: seq<Rec>, id: nat, oc: int): (k: nat)
    ensures k <= |rs|
  {
    var lo, hi := Below(rs, id), Below(rs, id + 1);
    if 0 <= oc < hi - lo then lo + oc else hi
  }

  /** The index past the last record of the type of `id`. */
  ghost function TypeEnd(rs: seq<Rec>, id: nat): (k: nat)
    requires ValidId(id)
    ensures k <= |rs|
  {
    Below(rs, TypeBase(RankOf(id) + 1))
  }

  lemma TypeRegion(rs: seq<Rec>, id: nat)
    requires ValidId(id) && Sorted(rs)
    ensures Below(rs, TypeBase(RankOf(id))) <= Below(rs, id) <= Below(rs, id + 1) <= TypeEnd(rs, id)
  {
    var t := RankOf(id);
    RankBounds(id, t);
    RankBounds(id, t + 1);
    BelowMono(rs, TypeBase(t), id);
    BelowMono(rs, id, id + 1);
    BelowMono(rs, id + 1, TypeBase(t + 1));
  }

  /** All records between the bounds of a type are of that type. */
  lemma RegionType(rs: seq<Rec>, id: nat, k: nat)
    requires ValidId(id) && Sorted(rs) && AllOk(rs)
    requires Below(rs, TypeBase(RankOf(id))) <= k < TypeEnd(rs, id)
    ensures FldType(rs[k].id) == FldType(id)
  {
    var t := RankOf(id);
    BelowSplits(rs, TypeBase(t));
    BelowSplits(rs, TypeBase(t + 1));
    assert RecOk(rs[k]);
    RankBounds(rs[k].id, t);
    RankBounds(rs[k].id, t + 1);
  }

  /** Fixed-size records of one type stand at equal distances. */
  lemma {:induction false} FixedRegion(rs: seq<Rec>, a: nat, n: nat, size: nat)
    requires a + n <= |rs|
    requires size == 8 || size == 16
    requires forall k :: a <= k < a + n ==> |Ser(rs[k])| == size
    ensures Off(rs, a + n) == Off(rs, a) + n * size
  {
    if n > 0 {
      FixedRegion(rs, a, n - 1, size);
      RecordAt(rs, a + n - 1);
      hide *;
      if size == 8 {
      } else {
      }
    }
  }

  /** The header of record `k`, read from the bytes. */
  lemma HeaderAt(d: seq<byte>, len: nat, rs: seq<Rec>, k: nat)
    requires AllOk(rs) && k < |rs| && len <= |d| && d[..len] == Flat(rs)
    ensures Off(rs, k) + 8 <= Off(rs, k + 1) <= len
    ensures Off(rs, k + 1) == Off(rs, k) + |Ser(rs[k])|
    ensures d[Off(rs, k)..Off(rs, k + 1)] == Ser(rs[k])
    ensures U32(d[Off(rs, k)..Off(rs, k) + 4]) == rs[k].id
    ensures d[Off(rs, k) + 4..Off(rs, k + 1)] == rs[k].value
  {
    RecordAt(rs, k);
    SerParts(rs[k]);
    hide *;
    Within(d, len, Off(rs, k), Off(rs, k + 1));
  }

  lemma SerParts(r: Rec)
    requires RecOk(r)
    ensures |Ser(r)| >= 8 && |Ser(r)| == 4 + |r.value|
    ensures U32(Ser(r)[..4]) == r.id
    ensures Ser(r)[4..] == r.value
  {
    hide ValueOk;
    var p := PutU32(r.id % UINT32_LIMIT);
    assert Ser(r) == p + r.value;
    assert Ser(r)[..4] == p;
    assert U32(p) == r.id;
  }

  /** The value of a record, read from its bytes. */
  lemma BodyValue(r: Rec, d: seq<byte>, p: nat, q: nat)
    requires RecOk(r) && p + 4 <= q <= |d| && d[p + 4..q] == r.value
    ensures match ClassOf(r.id)
            case Field8 => q == p + 8 && RecValue(r) == d[p + 4..p + 4 + FixedLen(FldType(r.id))]
            case Field16 => q == p + 16 && RecValue(r) == d[p + 8..p + 16]
            case FieldN =>
              && p + 8 <= q
              && p + 8 + U32(d[p + 4..p + 8]) <= q
              && RecValue(r) == d[p + 8..p + 8 + U32(d[p + 4..p + 8])]
  {
    hide ValueOk, U32, ValidType;
    match ClassOf(r.id)
    case Field8 => SliceOfSlice(d, p + 4, q, 0, FixedLen(FldType(r.id)));
    case Field16 => SliceOfSlice(d, p + 4, q, 4, 12);
    case FieldN =>
      SliceOfSlice(d, p + 4, q, 0, 4);
      SliceOfSlice(d, p + 4, q, 4, 4 + U32(r.value[..4]));
  }

  lemma SliceOfSlice<T>(d: seq<T>, a: nat, b: nat, i: nat, j: nat)
    requires a <= b <= |d| && i <= j <= b - a
    ensures d[a..b][i..j] == d[a + i..a + j]
  {
    var s := d[a..b];
    forall k | 0 <= k < j - i ensures s[i..j][k] == d[a + i..a + j][k] {
      assert s[i..j][k] == s[i + k];
      assert s[i + k] == d[a + (i + k)];
    }
  }

  lemma Within<T>(d: seq<T>, len: nat, p: nat, q: nat)
    requires p + 4 <= q <= len <= |d|
    ensures d[p..q] == d[..len][p..q]
    ensures d[p..p + 4] == d[..len][p..q][..4]
    ensures d[p + 4..q] == d[..len][p..q][4..]
  {
  }

  lemma OffIsInjective(rs: seq<Rec>, j: nat, k: nat)
    requires j <= |rs| && k <= |rs|
    ensures Off(rs, j) == Off(rs, k) <==> j == k
    ensures Off(rs, j) < Off(rs, k) <==> j < k
  {
    if j <= k { OffMono(rs, j, k); } else { OffMono(rs, k, j); }
  }

  // ---- the caller's view ----

  lemma ViewConcat(a: seq<Rec>, b: seq<Rec>)
    ensures View(a + b) == View(a) + View(b)
  {
    hide RecOk, RecValue, ValueOf;
  }

  lemma ViewLast(rs: seq<Rec>)
    requires AllOk(rs) && rs != []
    ensures var n := |rs| - 1;
            && AllOk(rs[..n])
            && RecOk(rs[n])
            && View(rs)[..n] == View(rs[..n])
            && View(rs)[n] == Field(rs[n].id, RecValue(rs[n]))
  {
    assert RecOk(rs[|rs| - 1]) && ValueOf(rs[|rs| - 1]) == RecValue(rs[|rs| - 1]);
    hide RecOk, RecValue, ValueOf;
  }

  lemma {:induction false} ViewBelow(rs: seq<Rec>, id: nat)
    ensures Below(View(rs), id) == Below(rs, id)
  {
    if rs != [] {
      ViewBelow(rs[..|rs| - 1], id);
      assert View(rs)[..|rs| - 1] == View(rs[..|rs| - 1]);
    }
  }

  lemma {:induction false} ViewValues(rs: seq<Rec>, id: nat)
    requires AllOk(rs)
    ensures |Values(View(rs), id)| == |Values(rs, id)|
    ensures forall j :: 0 <= j < |Values(rs, id)| ==>
              && RecOk(Field(id, Values(rs, id)[j]))
              && Values(View(rs), id)[j] == RecValue(Field(id, Values(rs, id)[j]))
  {
    if rs != [] {
      var n := |rs| - 1;
      ViewLast(rs);
      ViewValues(rs[..n], id);
      ValuesOfLast(rs);
      ValuesOfLast(View(rs));
      var before, view := Values(rs[..n], id), Values(View(rs[..n]), id);
      hide *;
      forall j | 0 <= j < |Values(rs, id)|
        ensures RecOk(Field(id, Values(rs, id)[j]))
        ensures Values(View(rs), id)[j] == RecValue(Field(id, Values(rs, id)[j]))
      {
        if j < |before| {
          assert Values(rs, id)[j] == before[j];
          assert Values(View(rs), id)[j] == view[j];
        } else {
          assert rs[n] == Field(id, Values(rs, id)[j]);
        }
      }
    }
  }

  lemma {:induction false} ViewSorted(rs: seq<Rec>)
    ensures Sorted(View(rs)) <==> Sorted(rs)
  {
    if |rs| > 1 {
      ViewSorted(rs[..|rs| - 1]);
      assert View(rs)[..|rs| - 1] == View(rs[..|rs| - 1]);
    }
  }

  lemma ViewPut(rs: seq<Rec>, id: nat, oc: int, body: seq<byte>)
    requires AllOk(rs) && RecOk(Field(id, body)) && Sorted(rs)
    ensures AllOk(Put(rs, id, oc, body))
    ensures View(Put(rs, id, oc, body)) == Put(View(rs), id, oc, RecValue(Field(id, body)))
  {
    hide *;
    var f := Field(id, body);
    ViewOne(f);
    ViewSorted(rs);
    ViewBelow(rs, id);
    ViewValues(rs, id);
    var k, rest := PutShape(rs, id, oc, body);
    var k', rest' := PutShape(View(rs), id, oc, RecValue(f));
    ViewSlice(rs, 0, k);
    ViewSlice(rs, rest, |rs|);
    OkSlices(rs, k, rest, f);
    ViewConcat(rs[..k], [f]);
    ViewConcat(rs[..k] + [f], rs[rest..]);
  }

  lemma ViewOne(f: Rec)
    requires RecOk(f)
    ensures View([f]) == [Field(f.id, RecValue(f))]
  {
    hide RecOk, RecValue;
    assert ValueOf(f) == RecValue(f);
  }

  lemma ViewSlice(rs: seq<Rec>, i: nat, j: nat)
    requires i <= j <= |rs|
    ensures View(rs[i..j]) == View(rs)[i..j]
    ensures rs[0..j] == rs[..j] && rs[i..|rs|] == rs[i..]
    ensures View(rs)[0..j] == View(rs)[..j] && View(rs)[i..|rs|] == View(rs)[i..]
  {
    hide *;
  }

  lemma OkSlices(rs: seq<Rec>, k: nat, rest: nat, f: Rec)
    requires AllOk(rs) && RecOk(f) && k <= rest <= |rs|
    ensures AllOk(rs[..k] + [f] + rs[rest..])
  {
    hide RecOk;
  }

  /** The bytes the record of a field takes. */
  ghost function FieldSize(f: Field<seq<byte>>): nat {
    if ValidId(f.id) then RecSize(f.id, |f.value|) else 0
  }

  /** The bytes the records of a buffer take, from what its callers see. */
  ghost function TotalSize(fs: seq<Field<seq<byte>>>): nat {
    if fs == [] then 0 else TotalSize(fs[..|fs| - 1]) + FieldSize(fs[|fs| - 1])
  }

  lemma {:induction false} ViewSize(rs: seq<Rec>)
    requires AllOk(rs)
    ensures TotalSize(View(rs)) == |Flat(rs)|
  {
    if rs != [] {
      var n := |rs| - 1;
      ViewSize(rs[..n]);
      ViewLast(rs);
      FlatLast(rs);
    }
  }

  lemma {:induction false} TotalConcat(a: seq<Field<seq<byte>>>, b: seq<Field<seq<byte>>>)
    ensures TotalSize(a + b) == TotalSize(a) + TotalSize(b)
  {
    if b == [] {
      assert a + b == a;
    } else {
      TotalConcat(a, b[..|b| - 1]);
      assert (a + b)[..|a + b| - 1] == a + b[..|b| - 1];
    }
  }

  lemma TotalOne(f: Field<seq<byte>>)
    ensures TotalSize([f]) == FieldSize(f)
  {
    assert [f][..0] == [];
  }

  lemma TotalPut(fs: seq<Field<seq<byte>>>, id: nat, oc: int, v: seq<byte>)
    requires Sorted(fs)
    ensures TotalSize(Put(fs, id, oc, v)) ==
            TotalSize(fs) + FieldSize(Field(id, v)) -
            (if 0 <= oc < |Values(fs, id)| then FieldSize(Field(id, Values(fs, id)[oc])) else 0)
  {
    hide *;
    ValuesAreARun(fs, id);
    var k, rest := PutShape(fs, id, oc, v);
    var a, m, b := fs[..k], fs[k..rest], fs[rest..];
    assert fs == a + m + b;
    TotalOfThree(a, m, b);
    TotalOfThree(a, [Field(id, v)], b);
    TotalOne(Field(id, v));
    if 0 <= oc < |Values(fs, id)| {
      IsAll(m, id, 0);
      assert m[0].value == Strip(fs[Below(fs, id)..Below(fs, id + 1)])[oc] == Values(fs, id)[oc];
      assert m == [Field(id, Values(fs, id)[oc])];
      TotalOne(Field(id, Values(fs, id)[oc]));
    } else {
      assert |m| == 0;
      TotalNone(m);
    }
  }

  lemma TotalOfThree(a: seq<Field<seq<byte>>>, m: seq<Field<seq<byte>>>, b: seq<Field<seq<byte>>>)
    ensures TotalSize(a + m + b) == TotalSize(a) + TotalSize(m) + TotalSize(b)
  {
    TotalConcat(a + m, b);
    TotalConcat(a, m);
  }

  lemma TotalNone(fs: seq<Field<seq<byte>>>)
    requires fs == []
    ensures TotalSize(fs) == 0
  {
  }

  lemma IsAll<V>(fs: seq<Field<V>>, id: nat, i: nat)
    requires AllAre(fs, id) && i < |fs|
    ensures fs[i].id == id
  {
  }

  lemma FillNext(fs: seq<Field<seq<byte>>>, id: nat, v: seq<byte>, n: nat)
    ensures Fill(fs, id, v, n + 1) == Put(Fill(fs, id, v, n), id, -1, v)
  {
  }

  /** Each further fill takes the room of one more record. */
  lemma {:induction false} TotalFill(fs: seq<Field<seq<byte>>>, id: nat, v: seq<byte>, m: nat, n: nat)
    requires Sorted(fs) && m <= n
    ensures TotalSize(Fill(fs, id, v, n + 1)) == TotalSize(Fill(fs, id, v, n)) + FieldSize(Field(id, v))
    ensures TotalSize(Fill(fs, id, v, m)) <= TotalSize(Fill(fs, id, v, n))
    decreases n - m
  {
    hide *;
    FillSorted(fs, id, v, n);
    FillNext(fs, id, v, n);
    TotalPut(Fill(fs, id, v, n), id, -1, v);
    if m < n {
      TotalFill(fs, id, v, m, n - 1);
    }
  }

  // ---- edits of the representation ----

  datatype Status = Done | NoSpace | NotPresent

  /** The offset table after `delta` more bytes of a type. */
  ghost function Shifted(offs: seq<int>, rank: nat, delta: int): (r: seq<int>)
    ensures |r| == |offs|
    ensures forall k :: 0 <= k < |offs| ==> r[k] == if k < rank then offs[k] else offs[k] + delta
  {
    seq(|offs|, k requires 0 <= k < |offs| => if k < rank then offs[k] else offs[k] + delta)
  }

  /** Exchanging records of one id keeps the table right when it is shifted by the change in size. */
  lemma ShiftedIsOk(offs: seq<int>, id: nat, a: seq<Rec>, m: seq<Rec>, m': seq<Rec>, b: seq<Rec>)
    requires ValidId(id) && AllAre(m, id) && AllAre(m', id)
    requires OffsetsOk(offs, a + m + b)
    ensures OffsetsOk(Shifted(offs, RankOf(id), |Flat(m')| - |Flat(m)|), a + m' + b)
  {
    hide SizeBelow, TypeBase, Flat, AllAre;
    var rank, delta := RankOf(id), |Flat(m')| - |Flat(m)|;
    forall k | 0 <= k < TYPES
      ensures Shifted(offs, rank, delta)[k] == SizeBelow(a + m' + b, TypeBase(k + 1))
    {
      SizeShift(id, a, m, m', b, k + 1);
    }
  }

  lemma SizeShift(id: nat, a: seq<Rec>, m: seq<Rec>, m': seq<Rec>, b: seq<Rec>, k: nat)
    requires ValidId(id) && AllAre(m, id) && AllAre(m', id) && k <= 8
    ensures SizeBelow(a + m' + b, TypeBase(k)) ==
            SizeBelow(a + m + b, TypeBase(k)) + (if RankOf(id) < k then |Flat(m')| - |Flat(m)| else 0)
  {
    hide *;
    var bound := TypeBase(k);
    RankBounds(id, k);
    SizeOfThree(a, m, b, bound);
    SizeOfThree(a, m', b, bound);
    SizeOfSame(m, id, bound);
    SizeOfSame(m', id, bound);
  }

  lemma SizeOfThree(a: seq<Rec>, m: seq<Rec>, b: seq<Rec>, bound: nat)
    ensures SizeBelow(a + m + b, bound) == SizeBelow(a, bound) + SizeBelow(m, bound) + SizeBelow(b, bound)
  {
    SizeConcat(a + m, b, bound);
    SizeConcat(a, m, bound);
  }

  lemma SizeOfSame(m: seq<Rec>, id: nat, bound: nat)
    requires AllAre(m, id)
    ensures SizeBelow(m, bound) == if id < bound then |Flat(m)| else 0
  {
    if id < bound { SizeAll(m, bound); } else { SizeNone(m, bound); }
  }

  lemma FlatOfThree(a: seq<Rec>, m: seq<Rec>, b: seq<Rec>)
    ensures Flat(a + m + b) == Flat(a) + Flat(m) + Flat(b)
  {
    FlatConcat(a + m, b);
    FlatConcat(a, m);
  }

  /** A record written between the kept parts of the chain gives the new chain. */
  lemma Rewritten(d: seq<byte>, len: nat, offs: seq<int>, d': seq<byte>, id: nat,
                  a: seq<Rec>, m: seq<Rec>, m': seq<Rec>, b: seq<Rec>)
    requires ValidId(id) && AllAre(m, id) && AllAre(m', id) && AllOk(m')
    requires Wf(d, len, offs, a + m + b) && Sorted(a + m' + b)
    requires PartsKept(d, len, d', |Flat(a)|, |Flat(m)|, Flat(m'))
    ensures Wf(d', len + |Flat(m')| - |Flat(m)|,
               Shifted(offs, RankOf(id), |Flat(m')| - |Flat(m)|), a + m' + b)
  {
    hide *;
    WfParts(d, len, offs, a + m + b);
    PartsBounds(d, len, d', |Flat(a)|, |Flat(m)|, Flat(m'));
    var offs' := Shifted(offs, RankOf(id), |Flat(m')| - |Flat(m)|);
    OkOfThree(a, m, b);
    OkOfThree(a, m', b);
    ShiftedIsOk(offs, id, a, m, m', b);
    ChainRewritten(d, len, d', a, m, m', b);
    WfParts(d', len + |Flat(m')| - |Flat(m)|, offs', a + m' + b);
  }

  lemma FixedSize(id: nat, n: nat)
    requires ValidId(id)
    ensures ClassOf(id) != FieldN ==> RecSize(id, n) == RecSize(id, 0)
  {
  }

  lemma PutAt(rs: seq<Rec>, id: nat, oc: int, body: seq<byte>, k: nat, rest: nat)
    requires RecOk(Field(id, body)) && Sorted(rs)
    requires k <= rest <= |rs| && k == WhereIndex(rs, id, oc)
    requires rest == if 0 <= oc < |Values(rs, id)| then k + 1 else k
    ensures AllAre([Field(id, body)], id) && AllOk([Field(id, body)])
    ensures Put(rs, id, oc, body) == rs[..k] + [Field(id, body)] + rs[rest..]
    ensures Sorted(Put(rs, id, oc, body))
  {
    PutKeepsSorted(rs, id, oc, body);
    ValuesAreARun(rs, id);
    hide Values, Below, Sorted, RecOk;
  }

  /** The fields around the place a record is put. */
  lemma PlaceOf(rs: seq<Rec>, id: nat, oc: int) returns (k: nat, rest: nat)
    requires Sorted(rs)
    ensures k <= rest <= |rs| && k == WhereIndex(rs, id, oc)
    ensures rest == if 0 <= oc < |Values(rs, id)| then k + 1 else k
    ensures rs == rs[..k] + rs[k..rest] + rs[rest..]
    ensures AllAre(rs[k..rest], id)
    ensures |Flat(rs[..k])| == Off(rs, k)
    ensures |Flat(rs[k..rest])| == if 0 <= oc < |Values(rs, id)| then 4 + |Values(rs, id)[oc]| else 0
  {
    hide Sorted, Below, Values;
    k := WhereIndex(rs, id, oc);
    ValuesAreARun(rs, id);
    RunBounds(rs, id);
    var lo, hi := Below(rs, id), Below(rs, id + 1);
    assert k == if 0 <= oc < hi - lo then lo + oc else hi;
    assert |Flat(rs[..k])| == Off(rs, k);
    rest := if 0 <= oc < hi - lo then k + 1 else k;
    var none: seq<Rec> := [];
    assert |Flat(none)| == 0;
    hide *;
    if 0 <= oc < hi - lo {
      assert rs[k] == rs[lo..hi][oc];
      assert rs[k..rest] == [rs[k]];
      FlatOne(rs[k]);
    } else {
      assert rs[k..rest] == none;
    }
  }

  /** Writing a record where it belongs, and only there, keeps the buffer in order. */
  lemma PutIsWf(d: seq<byte>, len: nat, offs: seq<int>, d': seq<byte>, rs: seq<Rec>,
                id: nat, oc: int, body: seq<byte>, oldSize: nat)
    requires ValidId(id) && RecOk(Field(id, body))
    requires Wf(d, len, offs, rs)
    requires oldSize == if 0 <= oc < |Values(rs, id)| then 4 + |Values(rs, id)[oc]| else 0
    requires PartsKept(d, len, d', Off(rs, WhereIndex(rs, id, oc)), oldSize, Ser(Field(id, body)))
    ensures len + |Ser(Field(id, body))| - oldSize >= 0
    ensures Wf(d', len + |Ser(Field(id, body))| - oldSize,
               Shifted(offs, RankOf(id), |Ser(Field(id, body))| - oldSize), Put(rs, id, oc, body))
  {
    hide *;
    var f := Field(id, body);
    WfParts(d, len, offs, rs);
    PartsBounds(d, len, d', Off(rs, WhereIndex(rs, id, oc)), oldSize, Ser(f));
    var k, rest := PlaceOf(rs, id, oc);
    PutAt(rs, id, oc, body, k, rest);
    FlatOne(f);
    Rewritten(d, len, offs, d', id, rs[..k], rs[k..rest], [f], rs[rest..]);
  }

  lemma WfParts(d: seq<byte>, len: nat, offs: seq<int>, rs: seq<Rec>)
    ensures Wf(d, len, offs, rs) <==>
              && len <= |d| < UINT32_LIMIT
              && d[..len] == Flat(rs)
              && AllOk(rs)
              && Sorted(rs)
              && OffsetsOk(offs, rs)
  {
  }

  lemma OneIsOk(rs: seq<Rec>, k: nat)
    requires AllOk(rs) && k < |rs|
    ensures RecOk(rs[k]) && ValidId(rs[k].id)
  {
  }

  lemma PartsBounds<T>(d: seq<T>, len: nat, d': seq<T>, p: nat, old_: nat, fm: seq<T>)
    requires PartsKept(d, len, d', p, old_, fm)
    ensures |d'| == |d| && 0 <= len + |fm| - old_ <= |d'|
  {
  }

  lemma ChainRewritten(d: seq<byte>, len: nat, d': seq<byte>, a: seq<Rec>, m: seq<Rec>, m': seq<Rec>, b: seq<Rec>)
    requires len <= |d| == |d'| && d[..len] == Flat(a + m + b)
    requires PartsKept(d, len, d', |Flat(a)|, |Flat(m)|, Flat(m'))
    ensures d'[..len + |Flat(m')| - |Flat(m)|] == Flat(a + m' + b)
  {
    FlatOfThree(a, m, b);
    FlatOfThree(a, m', b);
    hide Flat;
    KeptParts(d, len, Flat(a), Flat(m), Flat(b));
    JoinedParts(d, len, d', Flat(a), |Flat(m)|, Flat(m'), Flat(b));
  }

  lemma OkOfThree(a: seq<Rec>, m: seq<Rec>, b: seq<Rec>)
    ensures AllOk(a + m + b) <==> AllOk(a) && AllOk(m) && AllOk(b)
  {
    hide RecOk;
    var rs := a + m + b;
    if AllOk(rs) {
      forall i | 0 <= i < |a| ensures RecOk(a[i]) { assert RecOk(rs[i]); }
      forall i | 0 <= i < |m| ensures RecOk(m[i]) { assert RecOk(rs[|a| + i]); }
      forall i | 0 <= i < |b| ensures RecOk(b[i]) { assert RecOk(rs[|a| + |m| + i]); }
    }
  }

  /** `d'` has `fm` for the `old_` bytes of `d` that start at `p`, and the rest of the `len` used bytes as before. */
  ghost predicate PartsKept<T>(d: seq<T>, len: nat, d': seq<T>, p: nat, old_: nat, fm: seq<T>) {
    && |d'| == |d|
    && p + old_ <= len <= |d|
    && p + |fm| <= len + |fm| - old_ <= |d'|
    && d'[..p] == d[..p]
    && d'[p..p + |fm|] == fm
    && d'[p + |fm|..len + |fm| - old_] == d[p + old_..len]
  }

  lemma KeptThrough<T>(d: seq<T>, len: nat, g: seq<T>, d': seq<T>, p: nat, old_: nat, fm: seq<T>)
    requires |d| == |g| == |d'|
    requires p + old_ <= len <= |d| && len + |fm| - old_ <= |d|
    requires g[..p] == d[..p] && g[p + |fm|..len + |fm| - old_] == d[p + old_..len]
    requires d'[..p] == g[..p] && d'[p..p + |fm|] == fm && d'[p + |fm|..] == g[p + |fm|..]
    ensures PartsKept(d, len, d', p, old_, fm)
  {
    assert d'[p + |fm|..len + |fm| - old_] == d'[p + |fm|..][..len - old_ - p];
    assert g[p + |fm|..len + |fm| - old_] == g[p + |fm|..][..len - old_ - p];
  }

  lemma KeptParts<T>(d: seq<T>, len: nat, a: seq<T>, m: seq<T>, b: seq<T>)
    requires len <= |d| && d[..len] == a + m + b
    ensures len == |a| + |m| + |b|
    ensures d[..|a|] == a && d[|a| + |m|..len] == b
  {
    assert d[..|a|] == d[..len][..|a|];
    assert d[|a| + |m|..len] == d[..len][|a| + |m|..];
  }

  lemma JoinedParts<T>(d: seq<T>, len: nat, d': seq<T>, a: seq<T>, old_: nat, m': seq<T>, b: seq<T>)
    requires PartsKept(d, len, d', |a|, old_, m')
    requires d[..|a|] == a && d[|a| + old_..len] == b
    ensures d'[..len + |m'| - old_] == a + m' + b
  {
    var p, q', len' := |a|, |a| + |m'|, len + |m'| - old_;
    assert d'[..len'] == d'[..p] + d'[p..q'] + d'[q'..len'];
  }

  lemma PadBounds(n: nat)
    ensures n <= Pad8(n) < n + 8
  {
  }

  lemma BodyOfN(id: nat, v: seq<byte>, junk: seq<byte>) returns (body: seq<byte>)
    requires ValidId(id) && ClassOf(id) == FieldN && |v| <= MAX_VALUE
    requires FldType(id) == FLD_FML32 ==> |v| >= HEADER
    requires ValueOk(FldType(id), Trimmed(FldType(id), v))
    requires |junk| == Pad8(|v|) - |v|
    ensures id < UINT32_LIMIT && |v| < UINT32_LIMIT && (FldType(id) == FLD_FML32 ==> |v| >= 8)
    ensures RecOk(Field(id, body)) && RecValue(Field(id, body)) == Trimmed(FldType(id), v)
    ensures Ser(Field(id, body)) ==
            PutU32(id) + (PutU32(|v|) + (if FldType(id) == FLD_FML32 then v[4..8] + v[4..] else v) + junk)
    ensures |Ser(Field(id, body))| == 8 + Pad8(|v|)
  {
    hide ValueOk, RecOk, RecValue, PutU32, U32, Pad8;
    var w := Trimmed(FldType(id), v);
    body := PutU32(|v|) + w + junk;
    BodyN(id, w, junk);
    SerIs(id, body);
  }

  ghost predicate StandsAt<T>(d: seq<T>, pos: nat, s: seq<T>) {
    pos + |s| <= |d| && forall i :: pos <= i < pos + |s| ==> d[i] == s[i - pos]
  }

  lemma StandsSlice<T>(d: seq<T>, pos: nat, s: seq<T>)
    requires StandsAt(d, pos, s)
    ensures d[pos..pos + |s|] == s
  {
  }

  lemma ThreeParts<T>(d: seq<T>, pos: nat, a: seq<T>, b: seq<T>, c: seq<T>)
    requires pos + |a| + |b| + |c| <= |d|
    requires forall i :: 0 <= i < |a| ==> d[pos + i] == a[i]
    requires forall i :: 0 <= i < |b| ==> d[pos + |a| + i] == b[i]
    requires forall i :: 0 <= i < |c| ==> d[pos + |a| + |b| + i] == c[i]
    ensures StandsAt(d, pos, a + (b + c))
  {
  }

  lemma FourParts<T>(d: seq<T>, pos: nat, a: seq<T>, b: seq<T>, w: seq<T>, j: seq<T>)
    requires StandsAt(d, pos, a)
    requires StandsAt(d, pos + |a|, b)
    requires StandsAt(d, pos + |a| + |b|, w)
    requires StandsAt(d, pos + |a| + |b| + |w|, j)
    ensures StandsAt(d, pos, a + (b + w + j))
  {
  }

  lemma Body8(id: nat, v: seq<byte>, pad: seq<byte>)
    requires ValidId(id) && ClassOf(id) == Field8 && ValueOk(FldType(id), v)
    requires |v| + |pad| == 4 && forall i :: 0 <= i < |pad| ==> pad[i] == 0
    ensures RecOk(Field(id, v + pad)) && RecValue(Field(id, v + pad)) == v
  {
  }

  lemma Body16(id: nat, junk: seq<byte>, v: seq<byte>)
    requires ValidId(id) && ClassOf(id) == Field16 && |junk| == 4 && |v| == 8
    ensures RecOk(Field(id, junk + v)) && RecValue(Field(id, junk + v)) == v
  {
  }

  lemma BodyN(id: nat, v: seq<byte>, junk: seq<byte>)
    requires ValidId(id) && ClassOf(id) == FieldN && ValueOk(FldType(id), v)
    requires |junk| == Pad8(|v|) - |v|
    ensures RecOk(Field(id, PutU32(|v|) + v + junk)) && RecValue(Field(id, PutU32(|v|) + v + junk)) == v
  {
    assert |v| <= MAX_VALUE;
    hide ValueOk, PutU32, U32;
    var b := PutU32(|v|) + v + junk;
    assert b[..4] == PutU32(|v|);
    assert b[4..4 + |v|] == v;
  }

  /** Closing the gap over records of one id keeps the buffer in order. */
  lemma CutIsWf(d: seq<byte>, len: nat, offs: seq<int>, d': seq<byte>, rs: seq<Rec>,
                id: nat, lo: nat, hi: nat, p: nat, q: nat)
    requires ValidId(id) && Wf(d, len, offs, rs)
    requires lo <= hi <= |rs| && AllAre(rs[lo..hi], id)
    requires p == Off(rs, lo) && q == Off(rs, hi) && p <= q <= len
    requires |d'| == |d| && len <= |d|
    requires d'[..p] == d[..p] && d'[p..len - (q - p)] == d[q..len]
    ensures Wf(d', len - (q - p), Shifted(offs, RankOf(id), p - q), Cut(rs, lo, hi))
  {
    hide *;
    var a, m, b := rs[..lo], rs[lo..hi], rs[hi..];
    var none: seq<Rec> := [];
    OffIs(rs, lo);
    OffIs(rs, hi);
    WfParts(d, len, offs, rs);
    CutKeepsSorted(rs, lo, hi);
    CutIs(rs, id, lo, hi);
    InThree(rs, lo, hi);
    FlatConcat(a, m);
    NoRecords(id);
    ClosedGap(d, len, d', p, q - p);
    Rewritten(d, len, offs, d', id, a, m, none, b);
  }

  lemma InThree<T>(s: seq<T>, lo: nat, hi: nat)
    requires lo <= hi <= |s|
    ensures s == s[..lo] + s[lo..hi] + s[hi..]
    ensures s[..hi] == s[..lo] + s[lo..hi]
  {
  }

  lemma NoRecords(id: nat)
    ensures AllOk([]) && AllAre<seq<byte>>([], id) && Flat([]) == []
  {
  }

  /** What moved is as it was, from its `a`-th byte on, and so is what stands in front. */
  lemma Moved<T>(d: seq<T>, d': seq<T>, to: nat, from: nat, n: nat, k: nat, a: nat)
    requires |d| == |d'| && to + n <= |d| && from + n <= |d| && k <= to && a <= n
    requires forall i {:trigger d'[i]} :: 0 <= i < |d| ==>
               d'[i] == if to <= i < to + n then d[from + i - to] else d[i]
    ensures d'[..k] == d[..k]
    ensures d'[to + a..to + n] == d[from + a..from + n]
  {
  }

  lemma MovedDown<T>(d: seq<T>, d': seq<T>, from: nat, end: nat, len: nat)
    requires from <= end <= len <= |d| == |d'|
    requires forall i {:trigger d'[i]} :: 0 <= i < |d| ==>
               d'[i] == if from <= i < from + (len - end) then d[end + i - from] else d[i]
    ensures d'[..from] == d[..from]
    ensures d'[from..len - (end - from)] == d[end..len]
  {
  }

  /** After the move the bytes of the next record's id stand where the erased records began. */
  lemma HeaderMoved<T>(d: seq<T>, d': seq<T>, from: nat, end: nat, len: nat)
    requires from + 8 <= end <= len <= |d| == |d'|
    requires end == len || end + 8 <= len
    requires forall i {:trigger d'[i]} :: 0 <= i < |d| ==>
               d'[i] == if from <= i < from + (len - end) then d[end + i - from] else d[i]
    ensures end == len ==> d'[from..from + 4] == d[from..from + 4]
    ensures end < len ==> d'[from..from + 4] == d[end..end + 4]
  {
  }

  lemma NextRank(rs: seq<Rec>, id: nat, lo: nat, hi: nat)
    requires Sorted(rs) && ValidId(id) && lo < hi <= |rs| && AllAre(rs[lo..hi], id)
    requires hi < |rs| ==> ValidId(rs[hi].id)
    ensures var next := if hi == |rs| then id else rs[hi].id;
            RankOf(id) <= RankOf(next) && (RankOf(id) == RankOf(next) <==> FldType(id) == FldType(next))
  {
    hide Sorted;
    SortedIsOrdered(rs);
    if hi < |rs| {
      assert rs[lo..hi][0] == rs[lo];
      assert rs[lo].id <= rs[hi].id;
    }
  }

  lemma CutNothing<V>(fs: seq<Field<V>>, k: nat)
    requires k <= |fs|
    ensures Cut(fs, k, k) == fs
  {
  }

  lemma DropOneValues<V>(fs: seq<Field<V>>, id: nat)
    ensures Values(Drop(fs, {id}), id) == []
    ensures forall x :: x != id ==> Values(Drop(fs, {id}), x) == Values(fs, x)
  {
    hide *;
    KeepDropValues(fs, {id}, id);
    forall x | x != id ensures Values(Drop(fs, {id}), x) == Values(fs, x) {
      KeepDropValues(fs, {id}, x);
    }
  }

  lemma OffZero(rs: seq<Rec>)
    ensures Off(rs, 0) == 0
  {
  }

  /** The index of the field that follows occurrence `oc` of `id`. */
  ghost function NextIndex(rs: seq<Rec>, id: nat, oc: int): (k: nat)
    requires id == 0 || ValidId(id)
    ensures k <= |rs|
  {
    if id == 0 then 0
    else
      var k := WhereIndex(rs, id, oc);
      if k >= TypeEnd(rs, id) then |rs| else k + 1
  }

  /** Field `k` under the name callers have for it. */
  ghost function Key(rs: seq<Rec>, k: nat): (nat, int)
    requires k < |rs|
  {
    (rs[k].id, OccNo(rs, k))
  }

  /** From the key of a field `next` goes to the very next field, and names it by its key:
      starting from id 0 every field is visited once, in order. */
  lemma NextVisitsAll(rs: seq<Rec>, k: nat)
    requires AllOk(rs) && Sorted(rs) && k < |rs|
    ensures ValidId(rs[k].id)
    ensures NextIndex(rs, Key(rs, k).0, Key(rs, k).1) == k + 1
    ensures k + 1 < |rs| ==>
              Key(rs, k + 1) == (rs[k + 1].id, if rs[k + 1].id == rs[k].id then Key(rs, k).1 + 1 else 0)
    ensures Key(rs, 0) == (rs[0].id, 0) && NextIndex(rs, 0, 0) == 0
  {
    hide *;
    ValidAt(rs, k);
    KeyPlace(rs, k);
    TypeRegion(rs, rs[k].id);
    NextIs(rs, k);
    if k + 1 < |rs| {
      ValidAt(rs, k + 1);
      KeyPlace(rs, k + 1);
      SortedPair(rs, k, k + 1);
      BelowSplits(rs, rs[k + 1].id);
    }
    ValidAt(rs, 0);
    KeyPlace(rs, 0);
  }

  /** A value is copied when the caller gave a length and it is enough. */
  predicate Fits(maxLen: Option<nat>, v: seq<byte>) { maxLen.Some? && |v| <= maxLen.value }

  lemma FitsIs(maxLen: Option<nat>, v: seq<byte>)
    ensures Fits(maxLen, v) <==> maxLen.Some? && |v| <= maxLen.value
  {
  }

  predicate KeyBefore(a: (nat, int), b: (nat, int)) { a.0 < b.0 || (a.0 == b.0 && a.1 < b.1) }

  lemma StartKey(rs: seq<Rec>)
    ensures NextIndex(rs, 0, 0) == 0
  {
  }

  /** The keys of all fields ascend, and are those of all occurrences. */
  lemma KeysAscend(rs: seq<Rec>, keys: seq<(nat, int)>)
    requires Sorted(rs) && |keys| == |rs| && forall k :: 0 <= k < |keys| ==> keys[k] == Key(rs, k)
    ensures forall i, j :: 0 <= i < j < |keys| ==> KeyBefore(keys[i], keys[j])
    ensures forall id: nat, oc: int :: (id, oc) in keys <==> 0 <= oc < |Values(rs, id)|
  {
    hide *;
    forall i, j | 0 <= i < j < |keys| ensures KeyBefore(keys[i], keys[j]) {
      KeyPlace(rs, i);
      KeyPlace(rs, j);
      SortedPair(rs, i, j);
      IsBefore(keys[i], keys[j]);
    }
    forall id: nat, oc: int ensures (id, oc) in keys <==> 0 <= oc < |Values(rs, id)| {
      KeyOf(rs, keys, id, oc);
    }
  }

  lemma IsBefore(a: (nat, int), b: (nat, int))
    ensures KeyBefore(a, b) <==> a.0 < b.0 || (a.0 == b.0 && a.1 < b.1)
  {
  }

  lemma KeyOf(rs: seq<Rec>, keys: seq<(nat, int)>, id: nat, oc: int)
    requires Sorted(rs) && |keys| == |rs| && forall k :: 0 <= k < |keys| ==> keys[k] == Key(rs, k)
    ensures (id, oc) in keys <==> 0 <= oc < |Values(rs, id)|
  {
    hide *;
    ValuesAreARun(rs, id);
    if (id, oc) in keys {
      var k :| 0 <= k < |keys| && keys[k] == (id, oc);
      KeyPlace(rs, k);
    }
    if 0 <= oc < |Values(rs, id)| {
      var k := Below(rs, id) + oc;
      BelowSplits(rs, id);
      BelowSplits(rs, id + 1);
      KeyPlace(rs, k);
      assert keys[k] == (id, oc);
    }
  }

  lemma ValidAt(rs: seq<Rec>, k: nat)
    requires AllOk(rs) && k < |rs|
    ensures ValidId(rs[k].id) && rs[k].id != 0
  {
  }

  /** A field stands in the run of its id at its occurrence number. */
  lemma KeyPlace(rs: seq<Rec>, k: nat)
    requires Sorted(rs) && k < |rs|
    ensures Key(rs, k).0 == rs[k].id
    ensures Key(rs, k).1 == k - Below(rs, rs[k].id) >= 0
    ensures Below(rs, rs[k].id) <= k < Below(rs, rs[k].id + 1)
  {
    hide Below, Values, Sorted;
    BelowSplits(rs, rs[k].id);
    BelowSplits(rs, rs[k].id + 1);
    RunSplits(rs, rs[k].id, k);
  }

  lemma NextIs(rs: seq<Rec>, k: nat)
    requires k < |rs| && ValidId(rs[k].id)
    requires Key(rs, k).0 == rs[k].id
    requires 0 <= Key(rs, k).1 == k - Below(rs, rs[k].id)
    requires Below(rs, rs[k].id) <= k < Below(rs, rs[k].id + 1) <= TypeEnd(rs, rs[k].id)
    ensures NextIndex(rs, Key(rs, k).0, Key(rs, k).1) == k + 1
    ensures NextIndex(rs, 0, 0) == 0
  {
    hide Below, TypeEnd, Key;
  }

  /** A value read from a record is stored as it is. */
  ghost predicate Storable(id: nat, v: seq<byte>) {
    && ValidId(id)
    && Readable(FldType(id), v, |v|)
    && Stored(FldType(id), v, |v|) == v
  }

  lemma StorableValue(r: Rec)
    requires RecOk(r)
    ensures Storable(r.id, RecValue(r)) && ValueOf(r) == RecValue(r)
  {
    StoredAgain(FldType(r.id), RecValue(r));
  }

  lemma ClosedGap<T>(d: seq<T>, len: nat, d': seq<T>, p: nat, n: nat)
    requires |d'| == |d| && p + n <= len <= |d|
    requires d'[..p] == d[..p] && d'[p..len - n] == d[p + n..len]
    ensures PartsKept(d, len, d', p, n, [])
  {
  }

  /** The table has only one right value. */
  lemma ShiftedOtherwise(offs: seq<int>, r1: nat, r2: nat, delta: int, rs: seq<Rec>)
    requires |offs| == TYPES && r1 <= r2 <= 7 && delta != 0
    requires OffsetsOk(Shifted(offs, r1, delta), rs)
    ensures OffsetsOk(Shifted(offs, r2, delta), rs) <==> r1 == r2
  {
    hide SizeBelow, TypeBase;
    if r1 < r2 {
      assert Shifted(offs, r1, delta)[r1] != Shifted(offs, r2, delta)[r1];
    }
  }

  /** After records were cut out, shifting behind the type of the next record is right exactly
      when it is the type that was cut. */
  lemma CutShiftedAs(d: seq<byte>, len: nat, offs: seq<int>, d': seq<byte>, rs: seq<Rec>,
                     id: nat, lo: nat, hi: nat, p: nat, q: nat, next: nat)
    requires ValidId(id) && Wf(d, len, offs, rs)
    requires lo < hi <= |rs| && AllAre(rs[lo..hi], id)
    requires p == Off(rs, lo) && q == Off(rs, hi) && p < q <= len
    requires |d'| == |d| && len <= |d|
    requires d'[..p] == d[..p] && d'[p..len - (q - p)] == d[q..len]
    requires |offs| == TYPES && ValidId(next) && next == if hi == |rs| then id else rs[hi].id
    ensures Wf(d', len - (q - p), Shifted(offs, RankOf(next), p - q), Cut(rs, lo, hi)) <==>
            hi == |rs| || FldType(rs[hi].id) == FldType(id)
  {
    hide *;
    CutIsWf(d, len, offs, d', rs, id, lo, hi, p, q);
    WfParts(d, len, offs, rs);
    NextRank(rs, id, lo, hi);
    var len' := len - (q - p);
    WfParts(d', len', Shifted(offs, RankOf(id), p - q), Cut(rs, lo, hi));
    ShiftedOtherwise(offs, RankOf(id), RankOf(next), p - q, Cut(rs, lo, hi));
    WfParts(d', len', Shifted(offs, RankOf(next), p - q), Cut(rs, lo, hi));
  }

  const ZEROS: seq<byte> := [0, 0, 0, 0, 0, 0, 0, 0, 0, 0, 0, 0, 0, 0, 0, 0]

  lemma ZerosReadable(type_: nat)
    requires ValidType(type_) && type_ != FLD_FML32
    ensures Readable(type_, ZEROS, 0)
  {
    assert StrLen(ZEROS) == 0;
  }

  /** The value of the occurrences that fill a gap. */
  ghost function DefaultValue(id: nat): (v: seq<byte>)
    requires ValidId(id) && FldType(id) != FLD_FML32
    ensures ValueOk(FldType(id), v)
  {
    ZerosReadable(FldType(id));
    Stored(FldType(id), ZEROS, 0)
  }

  /** The number zero in the bytes of its type, the empty string with its NUL, no bytes at all. */
  predicate IsBlank(type_: nat, v: seq<byte>) {
    && (forall i :: 0 <= i < |v| ==> v[i] == 0)
    && match type_
       case 0 => |v| == 2
       case 1 => |v| == 8
       case 2 => |v| == 1
       case 3 => |v| == 4
       case 4 => |v| == 8
       case 5 => |v| == 1
       case _ => |v| == 0
  }

  lemma DefaultIsBlank(id: nat)
    requires ValidId(id) && FldType(id) != FLD_FML32
    ensures IsBlank(FldType(id), DefaultValue(id))
  {
    hide Stored, StrLen, Readable, ValueOk;
    ZerosReadable(FldType(id));
    StoredMeans(FldType(id), ZEROS, 0);
    var v := DefaultValue(id);
    assert forall i :: 0 <= i < |ZEROS| ==> ZEROS[i] == 0;
    assert |v| > 1 ==> v[..|v| - 1][0] == v[0];
  }

  /** `fs` with default occurrences of `id` up to number `oc`. */
  ghost function Filled(fs: seq<Field<seq<byte>>>, id: nat, oc: int): seq<Field<seq<byte>>>
    requires ValidId(id) && (FldType(id) == FLD_FML32 ==> oc <= |Values(fs, id)|)
  {
    if oc <= |Values(fs, id)| then fs else Fill(fs, id, DefaultValue(id), oc - |Values(fs, id)|)
  }

  /** What `chg` makes of a buffer. */
  ghost function Changed(fs: seq<Field<seq<byte>>>, id: nat, oc: int, v: seq<byte>): seq<Field<seq<byte>>>
    requires ValidId(id) && (FldType(id) == FLD_FML32 ==> oc <= |Values(fs, id)|)
  {
    Put(Filled(fs, id, oc), id, oc, v)
  }

  /** Occurrence `oc` is replaced, or comes after default values that fill the gap; a negative
      `oc` comes last. All other fields stay. */
  lemma ChangedValues(fs: seq<Field<seq<byte>>>, id: nat, oc: int, v: seq<byte>)
    requires Sorted(fs) && ValidId(id) && (FldType(id) == FLD_FML32 ==> oc <= |Values(fs, id)|)
    ensures Sorted(Changed(fs, id, oc, v))
    ensures var n := |Values(fs, id)|;
            Values(Changed(fs, id, oc, v), id) ==
            if 0 <= oc < n then Values(fs, id)[oc := v]
            else if oc <= n then Values(fs, id) + [v]
            else Values(fs, id) + seq(oc - n, _ => DefaultValue(id)) + [v]
    ensures var vs := Values(Changed(fs, id, oc, v), id);
            forall j :: |Values(fs, id)| <= j < oc ==> j < |vs| && IsBlank(FldType(id), vs[j])
    ensures forall x :: x != id ==> Values(Changed(fs, id, oc, v), x) == Values(fs, x)
  {
    hide Values, Put, Fill, Sorted, DefaultValue, IsBlank;
    if oc > |Values(fs, id)| {
      DefaultIsBlank(id);
      FillValues(fs, id, DefaultValue(id), oc - |Values(fs, id)|);
    }
    PutValues(Filled(fs, id, oc), id, oc, v);
  }

  /** Nothing but occurrence `oc` of `id` and new occurrences of `id` differ, padding included. */
  ghost predicate OthersKept(was: seq<Rec>, rs: seq<Rec>, id: nat, oc: int) {
    && (forall x :: x != id ==> Values(rs, x) == Values(was, x))
    && |Values(was, id)| <= |Values(rs, id)|
    && forall j :: 0 <= j < |Values(was, id)| && j != oc ==> Values(rs, id)[j] == Values(was, id)[j]
  }

  lemma KeptTrans(a: seq<Rec>, b: seq<Rec>, c: seq<Rec>, id: nat, o1: int, o2: int)
    requires OthersKept(a, b, id, o1) && o1 >= |Values(a, id)| && OthersKept(b, c, id, o2)
    ensures OthersKept(a, c, id, o2)
  {
    hide Values;
  }

  lemma KeptAtEnd(a: seq<Rec>, b: seq<Rec>, id: nat, o1: int, o2: int)
    requires OthersKept(a, b, id, o1) && o1 >= |Values(a, id)|
    ensures OthersKept(a, b, id, o2)
  {
    hide Values;
  }

  lemma PutPastEnd(fs: seq<Field<seq<byte>>>, id: nat, oc: int, v: seq<byte>)
    requires Sorted(fs) && !(0 <= oc < |Values(fs, id)|)
    ensures Put(fs, id, oc, v) == Put(fs, id, -1, v)
  {
    ValuesAreARun(fs, id);
  }

  lemma StoredIsOk(id: nat, mem: seq<byte>, flen: nat)
    requires ValidId(id) && Readable(FldType(id), mem, flen)
    ensures ValidType(FldType(id))
    ensures ValueOk(FldType(id), Stored(FldType(id), mem, flen))
    ensures FieldSize(Field(id, Stored(FldType(id), mem, flen))) == RecSize(id, ValueLen(FldType(id), mem, flen))
  {
    hide ValueOk, Readable, RecSize;
  }

  lemma PutGrows(fs: seq<Field<seq<byte>>>, id: nat, oc: nat, v: seq<byte>)
    requires Sorted(fs) && |Values(fs, id)| <= oc
    ensures |Values(Put(fs, id, oc, v), id)| == |Values(fs, id)| + 1
  {
    PutValues(fs, id, oc, v);
  }

  lemma FillNone(fs: seq<Field<seq<byte>>>, id: nat, v: seq<byte>)
    ensures Fill(fs, id, v, 0) == fs
  {
  }

  lemma FillOneMore(fs: seq<Field<seq<byte>>>, id: nat, v: seq<byte>, n: nat)
    requires Sorted(fs)
    ensures |Values(Fill(fs, id, v, n), id)| == |Values(fs, id)| + n
    ensures Sorted(Fill(fs, id, v, n))
    ensures Put(Fill(fs, id, v, n), id, |Values(fs, id)| + n, v) == Fill(fs, id, v, n + 1)
    ensures TotalSize(Fill(fs, id, v, n + 1)) == TotalSize(Fill(fs, id, v, n)) + FieldSize(Field(id, v))
  {
    hide *;
    FillValues(fs, id, v, n);
    TotalFill(fs, id, v, n, n);
    FillNext(fs, id, v, n);
    PutPastEnd(Fill(fs, id, v, n), id, |Values(fs, id)| + n, v);
  }

  lemma ChangedSize(fs: seq<Field<seq<byte>>>, id: nat, oc: int, v: seq<byte>)
    requires Sorted(fs) && ValidId(id) && (FldType(id) == FLD_FML32 ==> oc <= |Values(fs, id)|)
    ensures oc <= |Values(fs, id)| ==> Changed(fs, id, oc, v) == Put(fs, id, oc, v)
    ensures oc > |Values(fs, id)| ==>
              var gap, d := oc - |Values(fs, id)|, DefaultValue(id);
              && Changed(fs, id, oc, v) == Put(Fill(fs, id, d, gap), id, oc, v)
              && TotalSize(Changed(fs, id, oc, v)) == TotalSize(Fill(fs, id, d, gap)) + FieldSize(Field(id, v))
  {
    hide *;
    ChangedIs(fs, id, oc, v);
    if oc > |Values(fs, id)| {
      var gap, d := oc - |Values(fs, id)|, DefaultValue(id);
      FillOneMore(fs, id, d, gap);
      TotalPut(Fill(fs, id, d, gap), id, oc, v);
    }
  }

  lemma ChangedIs(fs: seq<Field<seq<byte>>>, id: nat, oc: int, v: seq<byte>)
    requires ValidId(id) && (FldType(id) == FLD_FML32 ==> oc <= |Values(fs, id)|)
    ensures Changed(fs, id, oc, v) ==
            if oc <= |Values(fs, id)| then Put(fs, id, oc, v)
            else Put(Fill(fs, id, DefaultValue(id), oc - |Values(fs, id)|), id, oc, v)
  {
  }

  lemma FullBuffer(fs: seq<Field<seq<byte>>>, id: nat, oc: int, v: seq<byte>, room: nat)
    requires Sorted(fs) && ValidId(id) && FldType(id) != FLD_FML32 && ValueOk(FldType(id), v)
    requires oc > |Values(fs, id)| && TotalSize(fs) + FieldSize(Field(id, DefaultValue(id))) > room
    ensures TotalSize(Changed(fs, id, oc, v)) > room
    ensures TotalSize(Put(fs, id, oc, v)) > room
    ensures forall f: nat :: f > 0 ==> TotalSize(Fill(fs, id, DefaultValue(id), f)) > room
  {
    hide *;
    var d := DefaultValue(id);
    DefaultIsSmallest(id, v);
    ChangedSize(fs, id, oc, v);
    TotalPut(fs, id, oc, v);
    FillNone(fs, id, d);
    TotalFill(fs, id, d, 0, 0);
    forall f: nat | f > 0 ensures TotalSize(Fill(fs, id, d, f)) > room {
      TotalFill(fs, id, d, 1, f);
    }
    TotalFill(fs, id, d, 0, oc - |Values(fs, id)|);
  }

  lemma FullGap(fs: seq<Field<seq<byte>>>, id: nat, at: nat, v: seq<byte>, filled: nat, room: nat)
    requires Sorted(fs) && ValidId(id) && FldType(id) != FLD_FML32 && ValueOk(FldType(id), v)
    requires |Values(fs, id)| + filled < at
    requires TotalSize(Fill(fs, id, DefaultValue(id), filled)) + FieldSize(Field(id, DefaultValue(id))) > room
    ensures TotalSize(Changed(fs, id, at, v)) > room
  {
    hide *;
    ChangedSize(fs, id, at, v);
    TotalFill(fs, id, DefaultValue(id), filled, filled);
    TotalFill(fs, id, DefaultValue(id), filled + 1, at - |Values(fs, id)|);
  }

  /** No value takes a smaller record than the default value. */
  lemma DefaultIsSmallest(id: nat, v: seq<byte>)
    requires ValidId(id) && FldType(id) != FLD_FML32 && ValueOk(FldType(id), v)
    ensures 8 <= FieldSize(Field(id, DefaultValue(id))) <= FieldSize(Field(id, v))
    ensures Readable(FldType(id), ZEROS, 0)
    ensures Stored(FldType(id), ZEROS, 0) == DefaultValue(id)
  {
    ZerosReadable(FldType(id));
    assert StrLen(ZEROS) == 0;
  }

  lemma SameKept(rs: seq<Rec>, id: nat, oc: int)
    ensures OthersKept(rs, rs, id, oc)
  {
  }

  lemma PutKeepsOthers(rs: seq<Rec>, id: nat, oc: int, body: seq<byte>)
    requires Sorted(rs)
    ensures OthersKept(rs, Put(rs, id, oc, body), id, oc)
  {
    PutValues(rs, id, oc, body);
  }

  class Fbfr32 {
    var len: nat
    const offsets: array<int>
    const data: array<byte>
    ghost var recs: seq<Rec>

    ghost predicate Valid()
      reads this, data, offsets
    {
      && offsets as object != data as object
      && Wf(data[..], len, offsets[..], recs)
    }

    ghost function Fields(): seq<Field<seq<byte>>>
      reads this
    {
      View(recs)
    }

    constructor (buflen: nat)
      requires HEADER <= buflen < UINT32_LIMIT
      ensures Valid() && fresh(data) && fresh(offsets)
      ensures recs == [] && Size() == buflen
    {
      len := 0;
      recs := [];
      data := new byte[buflen - HEADER](_ => 0);
      offsets := new int[TYPES](_ => 0);
    }

    /** A new buffer in `buflen` bytes, which have to hold its header. */
    static method Make(buflen: nat) returns (buf: Option<Fbfr32>)
      requires buflen < UINT32_LIMIT
      ensures buf.Some? <==> buflen >= HEADER
      ensures buf.Some? ==>
                && fresh(buf.value) && fresh(buf.value.data) && fresh(buf.value.offsets)
                && buf.value.Valid() && buf.value.recs == [] && buf.value.Size() == buflen
    {
      if buflen < HEADER {
        return None;
      }
      var made := new Fbfr32(buflen);
      return Some(made);
    }

    function Size(): nat { data.Length + HEADER }

    function Used(): nat reads this { len + HEADER }

    function Unused(): int reads this { data.Length - len }

    /** Forgets all fields. */
    method Init()
      requires Valid()
      modifies this, offsets
      ensures Valid() && recs == []
    {
      len := 0;
      recs := [];
      forall k | 0 <= k < TYPES {
        offsets[k] := 0;
      }
    }

    // ---- lookups ----

    function FirstByte(type_: nat): int
      requires ValidType(type_) && Valid()
      reads this, data, offsets
    {
      if TypeRank(type_) == 0 then 0 else offsets[TypeRank(type_) - 1]
    }

    function LastByte(type_: nat): int
      requires ValidType(type_) && Valid()
      reads this, data, offsets
    {
      if TypeRank(type_) == TYPES then len else offsets[TypeRank(type_)]
    }

    lemma TypeBytes(id: nat)
      requires Valid() && ValidId(id)
      ensures FirstByte(FldType(id)) == Off(recs, Below(recs, TypeBase(RankOf(id))))
      ensures LastByte(FldType(id)) == Off(recs, TypeEnd(recs, id))
    {
      hide *;
      IsSorted();
      SizeIsOffset(recs, TypeBase(RankOf(id)));
      SizeIsOffset(recs, TypeBase(RankOf(id) + 1));
      TypeSizes(id);
    }

    lemma TypeSizes(id: nat)
      requires Valid() && ValidId(id)
      ensures FirstByte(FldType(id)) == SizeBelow(recs, TypeBase(RankOf(id)))
      ensures LastByte(FldType(id)) == SizeBelow(recs, TypeBase(RankOf(id) + 1))
      ensures TypeEnd(recs, id) == Below(recs, TypeBase(RankOf(id) + 1))
    {
      hide Flat, Sorted, Below, RecOk, SizeBelow;
      var t := RankOf(id);
      assert forall k :: 0 <= k < TYPES ==> offsets[k] == offsets[..][k];
      if t == 0 {
        SizeNone(recs, TypeBase(0));
      }
      if t == TYPES {
        forall i | 0 <= i < |recs| ensures recs[i].id < TypeBase(8) {
          AtRecord(i);
          RankBounds(recs[i].id, 8);
        }
        SizeAll(recs, TypeBase(8));
        UsedIsFlat();
      }
    }

    function IdAt(pos: nat): nat
      requires pos + 4 <= data.Length
      reads data
    {
      U32(data[pos..pos + 4])
    }

    /** The size of the record that starts at `pos`. */
    function SizeAt(pos: nat): nat
      requires pos + 8 <= data.Length && ValidId(IdAt(pos))
      reads data
    {
      match ClassOf(IdAt(pos))
      case Field8 => 8
      case Field16 => 16
      case FieldN => 8 + Pad8(U32(data[pos + 4..pos + 8]))
    }

    lemma IsSorted()
      requires Valid()
      ensures Sorted(recs) && len <= data.Length && offsets.Length == TYPES
      ensures offsets as object != data as object
    {
      assert |offsets[..]| == TYPES;
    }

    lemma AtRecord(k: nat)
      requires Valid() && k < |recs|
      ensures RecOk(recs[k]) && ValidId(recs[k].id)
      ensures Off(recs, k) + 8 <= Off(recs, k + 1) <= len <= data.Length
      ensures IdAt(Off(recs, k)) == recs[k].id
      ensures Off(recs, k) + SizeAt(Off(recs, k)) == Off(recs, k + 1)
      ensures data[Off(recs, k) + 4..Off(recs, k + 1)] == recs[k].value
    {
      hide *;
      IsWf();
      WfParts(data[..], len, offsets[..], recs);
      HeaderAt(data[..], len, recs, k);
      OneIsOk(recs, k);
      HeaderBytes(Off(recs, k), Off(recs, k + 1), recs[k]);
    }

    lemma HeaderBytes(p: nat, q: nat, r: Rec)
      requires RecOk(r) && p + 8 <= q <= data.Length && q == p + |Ser(r)|
      requires U32(data[..][p..p + 4]) == r.id && data[..][p + 4..q] == r.value
      ensures ValidId(r.id) && IdAt(p) == r.id && p + SizeAt(p) == q && data[p + 4..q] == r.value
    {
      hide U32, Pad8, PutU32;
      assert data[p..p + 4] == data[..][p..p + 4];
      assert data[p + 4..q] == data[..][p + 4..q];
      assert data[p + 4..p + 8] == data[p + 4..q][..4];
    }

    lemma RegionSizes(id: nat, size: nat)
      requires Valid() && ValidId(id)
      requires size == (if ClassOf(id) == Field8 then 8 else 16) && ClassOf(id) != FieldN
      ensures forall k :: Below(recs, TypeBase(RankOf(id))) <= k < TypeEnd(recs, id) ==>
                |Ser(recs[k])| == size
    {
      forall k | Below(recs, TypeBase(RankOf(id))) <= k < TypeEnd(recs, id)
        ensures |Ser(recs[k])| == size
      {
        RegionType(recs, id, k);
        assert RecOk(recs[k]);
      }
    }

    /** What a search within the records of a type relies on. */
    lemma Region(id: nat) returns (a: nat, lo: nat, hi: nat, end: nat)
      requires Valid() && ValidId(id)
      ensures ValidType(FldType(id))
      ensures a == Below(recs, TypeBase(RankOf(id))) && end == TypeEnd(recs, id)
      ensures lo == Below(recs, id) && hi == Below(recs, id + 1)
      ensures a <= lo <= hi <= end <= |recs|
      ensures FirstByte(FldType(id)) == Off(recs, a) && LastByte(FldType(id)) == Off(recs, end)
      ensures forall oc :: WhereIndex(recs, id, oc) == if 0 <= oc < hi - lo then lo + oc else hi
    {
      a, end := Below(recs, TypeBase(RankOf(id))), TypeEnd(recs, id);
      lo, hi := Below(recs, id), Below(recs, id + 1);
      hide Wf, Below, Off, Flat, TypeEnd, Sorted;
      IsSorted();
      TypeBytes(id);
      TypeRegion(recs, id);
    }

    /** Record `k`, compared with `id`. */
    lemma Compare(id: nat, k: nat, end: nat)
      requires Valid() && ValidId(id) && k < end <= |recs|
      ensures Off(recs, k) + 8 <= Off(recs, k + 1) <= len <= data.Length && Off(recs, k) < Off(recs, end)
      ensures IdAt(Off(recs, k)) == recs[k].id && ValidId(recs[k].id)
      ensures Off(recs, k) + SizeAt(Off(recs, k)) == Off(recs, k + 1) && |Ser(recs[k])| == SizeAt(Off(recs, k))
      ensures recs[k].id < id <==> k < Below(recs, id)
      ensures recs[k].id <= id <==> k < Below(recs, id + 1)
    {
      hide *;
      IsSorted();
      AtRecord(k);
      RecordAt(recs, k);
      BelowSplits(recs, id);
      BelowSplits(recs, id + 1);
      OffIsInjective(recs, k, end);
    }

    /** Finds the first of `n` records of `size` bytes whose id is not below `id`. */
    method LowerBound(id: nat, first: nat, n: nat, size: nat, ghost a: nat) returns (i: nat)
      requires Valid() && ValidId(id) && a + n <= |recs| && first == Off(recs, a)
      requires size == 8 || size == 16
      requires forall k :: a <= k < a + n ==> |Ser(recs[k])| == size
      requires a <= Below(recs, id) <= a + n
      ensures i <= n && a + i == Below(recs, id)
    {
      hide *;
      i := 0;
      var count := n;
      while count > 0
        invariant i + count <= n
        invariant a + i <= Below(recs, id) <= a + i + count
      {
        var step := count / 2;
        var mid := i + step;
        FixedRegion(recs, a, mid, size);
        Compare(id, a + mid, |recs|);
        if IdAt(first + mid * size) < id {
          i, count := mid + 1, count - (step + 1);
        } else {
          count := step;
        }
      }
    }

    lemma Divides(n: nat, size: nat)
      requires size == 8 || size == 16
      ensures n * size / size == n
    {
    }

    /** Binary search among the fixed-size records of a type; -1 past the last of them. */
    method WhereFixed(id: nat, oc: int, size: nat) returns (pos: int)
      requires Valid() && ValidId(id)
      requires size == (if ClassOf(id) == Field8 then 8 else 16) && ClassOf(id) != FieldN
      ensures pos == if WhereIndex(recs, id, oc) == TypeEnd(recs, id) then -1
                     else Off(recs, WhereIndex(recs, id, oc))
    {
      hide *;
      ghost var a, lo, hi, end := Region(id);
      var first, last := FirstByte(FldType(id)), LastByte(FldType(id));
      OffIsInjective(recs, a, end);
      if first == last {
        return -1;
      }
      RegionSizes(id, size);
      FixedRegion(recs, a, end - a, size);
      Divides(end - a, size);
      var i := LowerBound(id, first, (last - first) / size, size, a);
      FixedRegion(recs, a, i, size);
      pos := first + i * size;
      var count := 0;
      ghost var k := a + i;
      OffIsInjective(recs, k, end);
      while pos < last
        invariant a <= k <= hi && pos == Off(recs, k)
        invariant k <= end && (pos < last <==> k < end) && (pos == last <==> k == end)
        invariant count == k - lo && (oc >= 0 ==> count <= oc)
        decreases end - k
      {
        Compare(id, k, end);
        if IdAt(pos) > id {
          break;
        } else if IdAt(pos) == id {
          if count == oc {
            break;
          }
          count := count + 1;
        }
        pos := pos + size;
        k := k + 1;
        OffIsInjective(recs, k, end);
      }
      if pos == last {
        pos := -1;
      }
    }

    /** Walks the variable-size records of a type; -1 past the last of them. */
    method WhereN(id: nat, oc: int) returns (pos: int)
      requires Valid() && ValidId(id)
      ensures pos == if WhereIndex(recs, id, oc) == TypeEnd(recs, id) then -1
                     else Off(recs, WhereIndex(recs, id, oc))
    {
      hide *;
      ghost var k, lo, hi, end := Region(id);
      pos := FirstByte(FldType(id));
      var last := LastByte(FldType(id));
      OffIsInjective(recs, k, end);
      if pos == last {
        return -1;
      }
      var count := 0;
      while pos < last
        invariant k <= hi && 0 <= pos == Off(recs, k)
        invariant k <= end && (pos < last <==> k < end) && (pos == last <==> k == end)
        invariant count == if k < lo then 0 else k - lo
        invariant oc >= 0 ==> count <= oc
        decreases end - k
      {
        Compare(id, k, end);
        if IdAt(pos) > id {
          break;
        } else if IdAt(pos) == id {
          if count == oc {
            break;
          }
          count := count + 1;
        }
        pos := pos + SizeAt(pos);
        k := k + 1;
        OffIsInjective(recs, k, end);
      }
      if pos == last {
        pos := -1;
      }
    }

    method Where(id: nat, oc: int) returns (pos: int)
      requires Valid() && ValidId(id)
      ensures pos == if WhereIndex(recs, id, oc) == TypeEnd(recs, id) then -1
                     else Off(recs, WhereIndex(recs, id, oc))
    {
      match ClassOf(id)
      case Field8 => pos := WhereFixed(id, oc, 8);
      case Field16 => pos := WhereFixed(id, oc, 16);
      case FieldN => pos := WhereN(id, oc);
    }

    /** What a position found by `Where` means. */
    lemma WhereFinds(id: nat, oc: int, pos: int)
      requires Valid() && ValidId(id)
      requires pos == if WhereIndex(recs, id, oc) == TypeEnd(recs, id) then -1
                      else Off(recs, WhereIndex(recs, id, oc))
      ensures WhereIndex(recs, id, oc) <= TypeEnd(recs, id) <= |recs|
      ensures pos != -1 ==> WhereIndex(recs, id, oc) < |recs| && 0 <= pos && pos + 8 <= data.Length && ValidId(IdAt(pos))
      ensures pos != -1 && IdAt(pos) == id <==> 0 <= oc < |Values(recs, id)|
    {
      WhereIndexIs(id, oc);
      var k := WhereIndex(recs, id, oc);
      if pos != -1 {
        AtRecord(k);
      }
      hide *;
    }

    lemma WhereIndexIs(id: nat, oc: int)
      requires Valid() && ValidId(id)
      ensures var k := WhereIndex(recs, id, oc);
              && k <= TypeEnd(recs, id) <= |recs|
              && (0 <= oc < |Values(recs, id)| ==>
                    k < TypeEnd(recs, id) && k == Scan(recs, id, oc) && recs[k] == Field(id, Values(recs, id)[oc]))
              && (!(0 <= oc < |Values(recs, id)|) ==>
                    Scan(recs, id, oc) == -1 && (k < |recs| ==> recs[k].id != id))
    {
      hide *;
      var k := WhereIndex(recs, id, oc);
      var a, lo, hi, end := Region(id);
      IsSorted();
      ScanFindsTheRun(recs, id, oc);
      RunMember(id, k);
    }

    /** The records of `id` are those of its run, in the order of its occurrences. */
    lemma RunMember(id: nat, k: nat)
      requires Valid() && ValidId(id)
      ensures Below(recs, id) + |Values(recs, id)| == Below(recs, id + 1) <= |recs|
      ensures k < |recs| ==> (recs[k].id == id <==> Below(recs, id) <= k < Below(recs, id + 1))
      ensures Below(recs, id) <= k < Below(recs, id + 1) ==>
                recs[k] == Field(id, Values(recs, id)[k - Below(recs, id)])
    {
      hide *;
      IsSorted();
      ValuesAreARun(recs, id);
      if k < |recs| {
        Compare(id, k, |recs|);
      }
      var lo, hi := Below(recs, id), Below(recs, id + 1);
      if lo <= k < hi {
        RunBounds(recs, id);
        assert recs[k] == recs[lo..hi][k - lo];
      }
    }

    /** The record after the one at `pos`; -1 at the end of the buffer. */
    method NextPos(pos: nat, ghost k: nat) returns (next: int)
      requires Valid() && k < |recs| && pos == Off(recs, k)
      ensures next == if k + 1 == |recs| then -1 else Off(recs, k + 1)
    {
      AtRecord(k);
      OffIsInjective(recs, k + 1, |recs|);
      OffMono(recs, 0, |recs|);
      UsedIsFlat();
      hide Wf, Off;
      next := pos + SizeAt(pos);
      if !(next < len) {
        next := -1;
      }
    }

    lemma UsedIsFlat()
      requires Valid()
      ensures len == |Flat(recs)|
    {
    }

    /** Standing in or right after the run of `id`. */
    lemma InRun(id: nat, k: nat)
      requires Valid() && ValidId(id) && Below(recs, id) <= k <= |recs|
      ensures WhereIndex(recs, id, 0) == Below(recs, id)
      ensures Below(recs, id) + |Values(recs, id)| == Below(recs, id + 1) <= TypeEnd(recs, id) <= |recs|
      ensures k < |recs| ==> Off(recs, k) + 8 <= data.Length
      ensures k < |recs| ==> (IdAt(Off(recs, k)) == id <==> k < Below(recs, id + 1))
    {
      hide *;
      var a, lo, hi, end := Region(id);
      RunMember(id, k);
      if k < |recs| {
        Compare(id, k, |recs|);
      }
    }

    method Occur(id: nat) returns (count: nat)
      requires Valid() && ValidId(id)
      ensures count == |Values(recs, id)|
    {
      hide *;
      ghost var lo, hi, k := Below(recs, id), Below(recs, id + 1), Below(recs, id);
      var pos := Where(id, 0);
      InRun(id, lo);
      count := 0;
      while pos != -1 && IdAt(pos) == id
        invariant lo <= k <= hi <= |recs| && count == k - lo
        invariant pos == -1 ==> k == hi
        invariant pos != -1 ==> k < |recs| && 0 <= pos && pos + 8 <= data.Length && pos == Off(recs, k)
        decreases hi - k
      {
        count := count + 1;
        InRun(id, k);
        pos := NextPos(pos, k);
        k := k + 1;
        InRun(id, k);
      }
      InRun(id, k);
    }

    method Pres(id: nat, oc: int) returns (there: bool)
      requires Valid() && ValidId(id)
      ensures there <==> 0 <= oc < |Values(recs, id)|
    {
      var pos := Where(id, oc);
      WhereFinds(id, oc, pos);
      there := pos != -1 && IdAt(pos) == id;
    }

    /** The value inside the record at `pos`. */
    function ValueAt(pos: nat): seq<byte>
      requires pos + 8 <= data.Length && ValidId(IdAt(pos)) && pos + SizeAt(pos) <= data.Length
      reads data
    {
      match ClassOf(IdAt(pos))
      case Field8 => data[pos + 4..pos + 4 + FixedLen(FldType(IdAt(pos)))]
      case Field16 => data[pos + 8..pos + 16]
      case FieldN =>
        var flen := U32(data[pos + 4..pos + 8]);
        data[pos + 8..pos + 8 + flen]
    }

    lemma AtValue(k: nat)
      requires Valid() && k < |recs|
      ensures Off(recs, k) + 8 <= data.Length
      ensures IdAt(Off(recs, k)) == recs[k].id && RecOk(recs[k])
      ensures Off(recs, k) + SizeAt(Off(recs, k)) == Off(recs, k + 1) <= data.Length
      ensures ValueAt(Off(recs, k)) == RecValue(recs[k])
    {
      hide *;
      AtRecord(k);
      ValueThere(recs[k], Off(recs, k), Off(recs, k + 1));
    }

    lemma ValueThere(r: Rec, p: nat, q: nat)
      requires RecOk(r) && p + 8 <= q <= data.Length
      requires IdAt(p) == r.id && p + SizeAt(p) == q && data[p + 4..q] == r.value
      ensures ValueAt(p) == RecValue(r)
    {
      hide RecOk, RecValue, U32;
      ValidIdOf(r);
      assert data[p + 4..q] == data[..][p + 4..q];
      BodyValue(r, data[..], p, q);
      assert data[p + 4..p + 8] == data[..][p + 4..p + 8];
    }

    lemma ValidIdOf(r: Rec)
      requires RecOk(r)
      ensures ValidId(r.id)
    {
    }

    /** The value of occurrence `oc`, the same as reading the whole record chain would find. */
    method Find(id: nat, oc: int) returns (value: Option<seq<byte>>)
      requires Valid() && ValidId(id)
      ensures var k := Scan(recs, id, oc);
              value == if k == -1 then None else Some(Fields()[k].value)
      ensures value == if 0 <= oc < |Values(Fields(), id)| then Some(Values(Fields(), id)[oc]) else None
    {
      var pos := Where(id, oc);
      WhereFinds(id, oc, pos);
      WhereIndexIs(id, oc);
      ViewValues(recs, id);
      if pos == -1 || IdAt(pos) != id {
        value := None;
      } else {
        AtValue(WhereIndex(recs, id, oc));
        hide Wf, Below, Values, Scan, Flat, RecOk, Sorted, RecValue;
        value := Some(ValueAt(pos));
      }
    }

    /** The last occurrence and its number. */
    method FindLast(id: nat) returns (value: Option<seq<byte>>, oc: nat)
      requires Valid() && ValidId(id)
      ensures value.None? <==> Values(Fields(), id) == []
      ensures value.Some? ==> oc + 1 == |Values(Fields(), id)| && value.value == Values(Fields(), id)[oc]
    {
      var count := Occur(id);
      ViewValues(recs, id);
      if count == 0 {
        return None, 0;
      }
      oc := count - 1;
      value := Find(id, oc);
    }

    // ---- edits ----

    /** Moves the bytes from `pos + used` on by `need`. */
    method OpenGap(pos: nat, need: int, used: nat)
      requires pos + used <= len <= data.Length && 0 <= used + need && len + need <= data.Length
      modifies data
      ensures data[..pos] == old(data[..pos])
      ensures data[pos + used + need..len + need] == old(data[pos + used..len])
    {
      hide *;
      if need < 0 {
        MoveBytes(pos + need + used, pos + used, len - (pos + used), pos, 0);
      } else {
        MoveBytes(pos + need, pos, len - pos, pos, used);
      }
    }

    /** Moves `n` bytes; those in front of `k` and all but the first `a` of the moved ones count. */
    method MoveBytes(to: nat, from: nat, n: nat, ghost k: nat, ghost a: nat)
      requires to + n <= data.Length && from + n <= data.Length && k <= to && a <= n
      modifies data
      ensures data[..k] == old(data[..k])
      ensures data[to + a..to + n] == old(data[from + a..from + n])
    {
      hide *;
      ghost var was := data[..];
      SlicesAre(k, from + a, from + n);
      MemMove(data, to, from, n);
      Moved(was, data[..], to, from, n, k, a);
      SlicesAre(k, to + a, to + n);
    }

    lemma SlicesAre(a: nat, b: nat, c: nat)
      requires a <= data.Length && b <= c <= data.Length
      ensures data[..a] == data[..][..a] && data[b..c] == data[..][b..c]
    {
    }

    /** Takes the bytes from `end` on down to `from`. */
    method MoveDown(from: nat, end: nat)
      requires from + 8 <= end <= len <= data.Length && (end == len || end + 8 <= len)
      modifies data
      ensures var was, now := old(data[..]), data[..];
              && now[..from] == was[..from] && now[from..len - (end - from)] == was[end..len]
              && (end == len ==> now[from..from + 4] == was[from..from + 4])
              && (end < len ==> now[from..from + 4] == was[end..end + 4])
    {
      hide *;
      ghost var was := data[..];
      MemMove(data, from, end, len - end);
      MovedDown(was, data[..], from, end, len);
      HeaderMoved(was, data[..], from, end, len);
    }

    /** Writes a record at `pos`; `body` is what then follows its id. */
    method WriteRecord(pos: nat, id: nat, mem: seq<byte>, flen: nat) returns (ghost body: seq<byte>)
      requires ValidId(id) && Readable(FldType(id), mem, flen)
      requires pos + RecSize(id, ValueLen(FldType(id), mem, flen)) <= data.Length
      modifies data
      ensures RecOk(Field(id, body)) && RecValue(Field(id, body)) == Stored(FldType(id), mem, flen)
      ensures var end := pos + RecSize(id, ValueLen(FldType(id), mem, flen));
              && data[..pos] == old(data[..pos])
              && data[pos..end] == Ser(Field(id, body))
              && data[end..] == old(data[end..])
    {
      var v := mem[..ValueLen(FldType(id), mem, flen)];
      assert Stored(FldType(id), mem, flen) == Trimmed(FldType(id), v);
      match ClassOf(id)
      case Field8 => body := Write8(pos, id, v);
      case Field16 => body := Write16(pos, id, v);
      case FieldN => body := WriteN(pos, id, v);
      StandsSlice(data[..], pos, Ser(Field(id, body)));
      hide *;
      assert data[pos..pos + |Ser(Field(id, body))|] == data[..][pos..pos + |Ser(Field(id, body))|];
    }

    method Write8(pos: nat, id: nat, v: seq<byte>) returns (ghost body: seq<byte>)
      requires ValidId(id) && ClassOf(id) == Field8 && ValueOk(FldType(id), v)
      requires pos + 8 <= data.Length
      modifies data
      ensures RecOk(Field(id, body)) && RecValue(Field(id, body)) == v
      ensures StandsAt(data[..], pos, Ser(Field(id, body))) && |Ser(Field(id, body))| == 8
      ensures forall i :: 0 <= i < data.Length && !(pos <= i < pos + 8) ==> data[i] == old(data[i])
    {
      var zeros: seq<byte> := [0, 0, 0, 0];
      body := v + zeros[|v|..];
      Body8(id, v, zeros[|v|..]);
      SerIs(id, body);
      hide *;
      CopyIn(data, pos, PutU32(id));
      CopyIn(data, pos + 4, zeros);
      CopyIn(data, pos + 4, v);
      ThreeParts(data[..], pos, PutU32(id), v, zeros[|v|..]);
    }

    method Write16(pos: nat, id: nat, v: seq<byte>) returns (ghost body: seq<byte>)
      requires ValidId(id) && ClassOf(id) == Field16 && ValueOk(FldType(id), v)
      requires pos + 16 <= data.Length
      modifies data
      ensures RecOk(Field(id, body)) && RecValue(Field(id, body)) == v
      ensures StandsAt(data[..], pos, Ser(Field(id, body))) && |Ser(Field(id, body))| == 16
      ensures forall i :: 0 <= i < data.Length && !(pos <= i < pos + 16) ==> data[i] == old(data[i])
    {
      ghost var junk := data[pos + 4..pos + 8];
      body := junk + v;
      Body16(id, junk, v);
      SerIs(id, body);
      hide *;
      CopyIn(data, pos, PutU32(id));
      CopyIn(data, pos + 8, v);
      ThreeParts(data[..], pos, PutU32(id), junk, v);
    }

    /** A nested buffer is given the size it uses, by copying its length over its size. */
    method WriteN(pos: nat, id: nat, v: seq<byte>) returns (ghost body: seq<byte>)
      requires ValidId(id) && ClassOf(id) == FieldN && |v| <= MAX_VALUE
      requires FldType(id) == FLD_FML32 ==> |v| >= HEADER
      requires ValueOk(FldType(id), Trimmed(FldType(id), v))
      requires pos + 8 + Pad8(|v|) <= data.Length
      modifies data
      ensures RecOk(Field(id, body))
      ensures RecValue(Field(id, body)) == Trimmed(FldType(id), v)
      ensures StandsAt(data[..], pos, Ser(Field(id, body)))
      ensures |Ser(Field(id, body))| == 8 + Pad8(|v|)
      ensures forall i :: 0 <= i < data.Length && !(pos <= i < pos + 8 + Pad8(|v|)) ==> data[i] == old(data[i])
    {
      hide *;
      PadBounds(|v|);
      ghost var junk := data[pos + 8 + |v|..pos + 8 + Pad8(|v|)];
      body := BodyOfN(id, v, junk);
      var nested := FldType(id) == FLD_FML32;
      CopyRecord(pos, PutU32(id), PutU32(|v|), v, nested);
      FourParts(data[..], pos, PutU32(id), PutU32(|v|), if nested then v[4..8] + v[4..] else v, junk);
    }

    method CopyRecord(pos: nat, id: seq<byte>, n: seq<byte>, v: seq<byte>, nested: bool)
      requires pos + 8 + |v| <= data.Length && |id| == |n| == 4 && (nested ==> |v| >= 8)
      modifies data
      ensures StandsAt(data[..], pos, id)
      ensures StandsAt(data[..], pos + 4, n)
      ensures StandsAt(data[..], pos + 8, if nested then v[4..8] + v[4..] else v)
      ensures forall i :: 0 <= i < data.Length && !(pos <= i < pos + 8 + |v|) ==> data[i] == old(data[i])
    {
      CopyIn(data, pos, id);
      CopyIn(data, pos + 4, n);
      CopyIn(data, pos + 8, v);
      if nested {
        CopyIn(data, pos + 8, data[pos + 12..pos + 16]);
      }
    }

    method Shift(type_: nat, delta: int)
      requires ValidType(type_) && offsets.Length == TYPES && offsets as object != data as object
      requires 0 <= len + delta
      modifies this`len, offsets
      ensures recs == old(recs)
      ensures len == old(len) + delta
      ensures offsets[..] == Shifted(old(offsets[..]), TypeRank(type_), delta)
    {
      len := len + delta;
      var off := TypeRank(type_);
      while off < TYPES
        invariant TypeRank(type_) <= off <= TYPES && len == old(len) + delta
        invariant forall k :: 0 <= k < TYPES ==>
                    offsets[k] == if TypeRank(type_) <= k < off then old(offsets[k]) + delta else old(offsets[k])
      {
        offsets[off] := offsets[off] + delta;
        off := off + 1;
      }
    }

    /** Makes room for a record of a different size and writes it over `oldSize` bytes. */
    method PutRecord(pos: nat, need: int, used: nat, id: nat, mem: seq<byte>, flen: nat, ghost oldSize: nat)
      returns (ghost body: seq<byte>)
      requires ValidId(id) && Readable(FldType(id), mem, flen)
      requires pos + oldSize <= len && len + need <= data.Length
      requires need == RecSize(id, ValueLen(FldType(id), mem, flen)) - oldSize
      requires need == 0 || used == oldSize
      requires len <= data.Length
      modifies data
      ensures RecOk(Field(id, body)) && RecValue(Field(id, body)) == Stored(FldType(id), mem, flen)
      ensures PartsKept(old(data[..]), len, data[..], pos, oldSize, Ser(Field(id, body)))
      ensures |Ser(Field(id, body))| == need + oldSize
    {
      hide *;
      if need != 0 {
        OpenGap(pos, need, used);
      }
      ghost var gapped := data[..];
      assert gapped[..pos] == old(data[..])[..pos];
      assert gapped[pos + oldSize + need..len + need] == old(data[..])[pos + oldSize..len];
      body := WriteRecord(pos, id, mem, flen);
      KeptThrough(old(data[..]), len, gapped, data[..], pos, oldSize, Ser(Field(id, body)));
    }

    /** Where a record goes, how many bytes stand there now and by how much the buffer grows. */
    method Place(id: nat, oc: int, size: nat) returns (pos: nat, need: int, used: nat, ghost oldSize: nat)
      requires Valid() && ValidId(id) && (ClassOf(id) != FieldN ==> size == RecSize(id, 0))
      ensures pos == Off(recs, WhereIndex(recs, id, oc))
      ensures oldSize == if 0 <= oc < |Values(recs, id)| then 4 + |Values(recs, id)[oc]| else 0
      ensures need == size - oldSize && (need == 0 || used == oldSize)
      ensures pos + oldSize <= len <= data.Length
    {
      var at := Where(id, oc);
      ghost var k := WhereIndex(recs, id, oc);
      WhereFinds(id, oc, at);
      WhereIndexIs(id, oc);
      TypeBytes(id);
      OffIsInjective(recs, k, |recs|);
      OffMono(recs, 0, |recs|);
      UsedIsFlat();
      IsSorted();
      need, used, oldSize := size, 0, 0;
      if at == -1 {
        hide *;
        pos := LastByte(FldType(id));
      } else {
        AtRecord(k);
        hide Wf, Values, Off, WhereIndex, TypeEnd, Sorted, Scan, RecOk, Flat;
        pos := at;
        if IdAt(pos) == id {
          oldSize := SizeAt(pos);
          if ClassOf(id) != FieldN {
            need := 0;
          } else {
            used := SizeAt(pos);
            need := need - used;
          }
        }
      }
    }

    /** The moves and writes of a store that fits. */
    method StoreAt(id: nat, oc: int, mem: seq<byte>, flen: nat, pos: nat, need: int, used: nat, ghost oldSize: nat)
      returns (ghost body: seq<byte>)
      requires Valid() && ValidId(id) && Readable(FldType(id), mem, flen)
      requires pos == Off(recs, WhereIndex(recs, id, oc))
      requires oldSize == if 0 <= oc < |Values(recs, id)| then 4 + |Values(recs, id)[oc]| else 0
      requires need == RecSize(id, ValueLen(FldType(id), mem, flen)) - oldSize && (need == 0 || used == oldSize)
      requires pos + oldSize <= len && len + need <= data.Length
      modifies this, data, offsets
      ensures Valid()
      ensures RecOk(Field(id, body)) && RecValue(Field(id, body)) == Stored(FldType(id), mem, flen)
      ensures recs == Put(old(recs), id, oc, body)
      ensures len == old(len) + need
    {
      hide *;
      ghost var was, offs, rs := data[..], offsets[..], recs;
      IsSorted();
      IsWf();
      body := PutRecord(pos, need, used, id, mem, flen, oldSize);
      PutIsWf(was, len, offs, data[..], rs, id, oc, body, oldSize);
      RankIs(id);
      Commit(FldType(id), need, Put(rs, id, oc, body));
    }

    /** Shifts the offset table once the bytes are those of the records `rs`. */
    method Commit(type_: nat, delta: int, ghost rs: seq<Rec>)
      requires ValidType(type_) && offsets.Length == TYPES && offsets as object != data as object
      requires 0 <= len + delta
      requires Wf(data[..], len + delta, Shifted(offsets[..], TypeRank(type_), delta), rs)
      modifies this, offsets
      ensures Valid() && recs == rs && len == old(len) + delta
    {
      hide Wf, Shifted, TypeRank;
      Shift(type_, delta);
      recs := rs;
    }

    /** Stores a value as occurrence `oc` of `id`, or after its last occurrence. */
    method Store(id: nat, oc: int, mem: seq<byte>, flen: nat) returns (status: Status, ghost body: seq<byte>)
      requires Valid() && ValidId(id) && Readable(FldType(id), mem, flen)
      modifies this, data, offsets
      ensures Valid()
      ensures var size := RecSize(id, ValueLen(FldType(id), mem, flen));
              var oldSize := if 0 <= oc < |Values(old(recs), id)| then 4 + |Values(old(recs), id)[oc]| else 0;
              if old(len) + size - oldSize <= data.Length then
                && status == Done
                && RecOk(Field(id, body)) && RecValue(Field(id, body)) == Stored(FldType(id), mem, flen)
                && recs == Put(old(recs), id, oc, body)
                && len == old(len) + size - oldSize
              else
                && status == NoSpace
                && recs == old(recs) && data[..] == old(data[..]) && len == old(len)
    {
      var size := RecSize(id, ValueLen(FldType(id), mem, flen));
      hide *;
      FixedSize(id, ValueLen(FldType(id), mem, flen));
      var pos, need, used, oldSize := Place(id, oc, size);
      if need != 0 && len + need > data.Length {
        return NoSpace, [];
      }
      body := StoreAt(id, oc, mem, flen, pos, need, used, oldSize);
      status := Done;
    }

    /** Store, as callers see it. */
    method StoreField(id: nat, oc: int, mem: seq<byte>, flen: nat) returns (status: Status)
      requires Valid() && ValidId(id) && Readable(FldType(id), mem, flen)
      modifies this, data, offsets
      ensures Valid()
      ensures var goal := Put(old(Fields()), id, oc, Stored(FldType(id), mem, flen));
              if TotalSize(goal) <= data.Length
              then status == Done && Fields() == goal
              else status == NoSpace && recs == old(recs) && data[..] == old(data[..]) && Fields() == old(Fields()) && len == old(len)
      ensures OthersKept(old(recs), recs, id, oc)
    {
      hide *;
      StoredIsOk(id, mem, flen);
      ghost var rs, fs, v := recs, Fields(), Stored(FldType(id), mem, flen);
      ViewsAgree(id);
      TotalPut(fs, id, oc, v);
      PresentSize(id, oc);
      FieldsIs();
      ghost var body;
      status, body := Store(id, oc, mem, flen);
      if status == Done {
        ViewPut(rs, id, oc, body);
        PutKeepsOthers(rs, id, oc, body);
        FieldsIs();
      } else {
        FieldsIs();
        SameKept(rs, id, oc);
      }
    }

    lemma FieldsIs()
      ensures Fields() == View(recs)
    {
    }

    lemma ViewsAgree(id: nat)
      requires Valid()
      ensures AllOk(recs) && Sorted(recs) && Sorted(Fields())
      ensures TotalSize(Fields()) == len <= data.Length
      ensures |Values(Fields(), id)| == |Values(recs, id)|
    {
      ViewValues(recs, id);
      ViewSorted(recs);
      ViewSize(recs);
    }

    lemma PresentSize(id: nat, oc: int)
      requires Valid() && ValidId(id)
      ensures |Values(Fields(), id)| == |Values(recs, id)|
      ensures 0 <= oc < |Values(recs, id)| ==>
                FieldSize(Field(id, Values(Fields(), id)[oc])) == 4 + |Values(recs, id)[oc]|
    {
      ViewValues(recs, id);
      hide Wf, Values;
    }

    lemma GapGoal(id: nat, o: nat)
      requires Valid() && ValidId(id) && FldType(id) != FLD_FML32 && |Values(recs, id)| <= o
      ensures var fs, d := Fields(), DefaultValue(id);
              var full := len + FieldSize(Field(id, d)) > data.Length;
              && |Values(fs, id)| == |Values(recs, id)|
              && (|Values(recs, id)| == o ==>
                    Changed(fs, id, o, d) == Put(fs, id, o, d) && (full <==> TotalSize(Put(fs, id, o, d)) > data.Length))
              && (|Values(recs, id)| < o && full ==>
                    && TotalSize(Changed(fs, id, o, d)) > data.Length
                    && forall f: nat :: f > 0 ==> TotalSize(Fill(fs, id, d, f)) > data.Length)
    {
      hide *;
      var fs, d := Fields(), DefaultValue(id);
      ViewsAgree(id);
      ChangedSize(fs, id, o, d);
      TotalPut(fs, id, o, d);
      if |Values(recs, id)| < o && len + FieldSize(Field(id, d)) > data.Length {
        FullBuffer(fs, id, o, d, data.Length);
      }
    }

    /** Adds default occurrences until `id` has `at` of them or no more fit. */
    method FillGap(id: nat, count: nat, at: nat) returns (ghost filled: nat)
      requires Valid() && ValidId(id) && FldType(id) != FLD_FML32
      requires count == |Values(recs, id)| <= at
      modifies this, data, offsets
      ensures Valid() && filled <= at - count
      ensures Fields() == Fill(old(Fields()), id, DefaultValue(id), filled)
      ensures filled == 0 ==> recs == old(recs) && data[..] == old(data[..])
      ensures filled < at - count ==> len + FieldSize(Field(id, DefaultValue(id))) > data.Length
      ensures OthersKept(old(recs), recs, id, at)
      decreases at, 0
    {
      hide *;
      ghost var rs, fs, d := recs, Fields(), DefaultValue(id);
      var o := count;
      filled := 0;
      ViewsAgree(id);
      SameKept(recs, id, at);
      FillNone(fs, id, d);
      while o < at
        invariant Valid() && count <= o <= at && filled <= o - count
        invariant Fields() == Fill(fs, id, d, filled)
        invariant |Values(recs, id)| == count + filled
        invariant filled == 0 ==> recs == rs && data[..] == old(data[..])
        invariant filled < o - count ==> len + FieldSize(Field(id, d)) > data.Length
        invariant OthersKept(rs, recs, id, at)
      {
        ghost var before := recs;
        FillOneMore(fs, id, d, filled);
        ghost var more := FillOne(id, o);
        KeptTrans(rs, before, recs, id, at, o);
        KeptAtEnd(rs, recs, id, o, at);
        filled := filled + more;
        o := o + 1;
      }
    }

    /** One turn of the gap loop: a default occurrence at `o` when all before it were added. */
    method FillOne(id: nat, o: nat) returns (ghost more: nat)
      requires Valid() && ValidId(id) && FldType(id) != FLD_FML32
      requires |Values(recs, id)| <= o
      requires |Values(recs, id)| < o ==> len + FieldSize(Field(id, DefaultValue(id))) > data.Length
      modifies this, data, offsets
      ensures Valid() && more <= 1
      ensures |Values(recs, id)| == |Values(old(recs), id)| + more
      ensures more == 1 ==> Fields() == Put(old(Fields()), id, o, DefaultValue(id)) && o == |Values(old(recs), id)|
      ensures more == 0 ==> recs == old(recs) && data[..] == old(data[..]) && Fields() == old(Fields())
      ensures more == 0 ==> len + FieldSize(Field(id, DefaultValue(id))) > data.Length
      ensures OthersKept(old(recs), recs, id, o)
      decreases o, 2
    {
      ghost var fs, d := Fields(), DefaultValue(id);
      DefaultIsSmallest(id, d);
      hide *;
      GapGoal(id, o);
      ViewsAgree(id);
      PutGrows(fs, id, o, d);
      var status;
      ghost var filled;
      status, filled := Chg(id, o, ZEROS, 0);
      ViewsAgree(id);
      more := if status == Done then 1 else 0;
    }

    /** Changes occurrence `oc` of `id`, or adds it, after default occurrences where some are missing;
        a negative `oc` adds an occurrence. */
    method Chg(id: nat, oc: int, mem: seq<byte>, flen: nat) returns (status: Status, ghost filled: nat)
      requires Valid() && ValidId(id) && Readable(FldType(id), mem, flen)
      requires FldType(id) == FLD_FML32 ==> oc <= |Values(recs, id)|
      modifies this, data, offsets
      ensures Valid()
      ensures var fs, gap := old(Fields()), oc - |Values(old(recs), id)|;
              |Values(fs, id)| == |Values(old(recs), id)| &&
              var goal := Changed(fs, id, oc, Stored(FldType(id), mem, flen));
              if TotalSize(goal) <= data.Length then
                status == Done && Fields() == goal
              else
                && status == NoSpace
                && (filled > 0 ==> filled <= gap && Fields() == Fill(fs, id, DefaultValue(id), filled))
                && (filled == 0 ==> recs == old(recs) && data[..] == old(data[..]) && Fields() == fs)
                && (filled < gap ==> len + FieldSize(Field(id, DefaultValue(id))) > data.Length)
      ensures OthersKept(old(recs), recs, id, oc)
      decreases if oc < 0 then 0 else oc, 1
    {
      hide *;
      StoredIsOk(id, mem, flen);
      ghost var rs, fs, v := recs, Fields(), Stored(FldType(id), mem, flen);
      var count := Occur(id);
      var at := if oc == -1 then count else oc;
      filled := 0;
      ViewsAgree(id);
      ChangedSize(fs, id, oc, v);
      PutPastEnd(fs, id, count, v);
      PutPastEnd(fs, id, -1, v);
      if at > count {
        filled := FillGap(id, count, at);
        FillOneMore(fs, id, DefaultValue(id), filled);
        FillNone(fs, id, DefaultValue(id));
        ViewsAgree(id);
        if filled < at - count {
          FullBuffer(Fields(), id, at, v, data.Length);
          FullGap(fs, id, at, v, filled, data.Length);
        }
      }
      ghost var before := recs;
      status := StoreField(id, at, mem, flen);
      if at > count {
        KeptTrans(rs, before, recs, id, at, at);
      } else if at == count {
        KeptAtEnd(rs, recs, id, at, oc);
      }
    }

    // ---- removals ----

    /** Removes the records from `from` up to `to`, -1 standing for the end of the buffer.
        The type whose offsets move is read before the bytes do. */
    method Erase(from: nat, to: int, ghost id: nat, ghost lo: nat, ghost hi: nat)
      requires Valid() && ValidId(id) && lo < hi <= |recs| && AllAre(recs[lo..hi], id)
      requires from == Off(recs, lo) && to == if hi == |recs| then -1 else Off(recs, hi)
      modifies this, data, offsets
      ensures Valid() && recs == Cut(old(recs), lo, hi)
    {
      hide *;
      IsWf();
      EraseBounds(id, lo, hi);
      var end := if to == -1 then len else to;
      var type_ := FldType(IdAt(from));
      ghost var was := data[..];
      MoveDown(from, end);
      CutIsWf(was, len, offsets[..], data[..], recs, id, lo, hi, from, end);
      RankIs(id);
      Commit(type_, from - end, Cut(recs, lo, hi));
    }

    lemma IsWf()
      requires Valid()
      ensures Wf(data[..], len, offsets[..], recs)
    {
      hide Wf;
    }

    lemma EraseBounds(id: nat, lo: nat, hi: nat)
      requires Valid() && lo < hi <= |recs| && AllAre(recs[lo..hi], id)
      ensures Off(recs, lo) + 8 <= Off(recs, hi) <= len <= data.Length
      ensures hi == |recs| ==> Off(recs, hi) == len
      ensures IdAt(Off(recs, lo)) == recs[lo].id == id
      ensures hi < |recs| ==> Off(recs, hi) + 8 <= len && IdAt(Off(recs, hi)) == recs[hi].id && ValidId(recs[hi].id)
      ensures offsets.Length == TYPES && offsets as object != data as object
      ensures U32(data[..][Off(recs, lo)..Off(recs, lo) + 4]) == id
      ensures hi < |recs| ==> U32(data[..][Off(recs, hi)..Off(recs, hi) + 4]) == recs[hi].id
    {
      hide Wf, Flat, Off;
      IdBytes(Off(recs, lo));
      IsSorted();
      AtRecord(lo);
      OffMono(recs, lo + 1, hi);
      OffMono(recs, hi, |recs|);
      UsedIsFlat();
      assert recs[lo..hi][0] == recs[lo];
      if hi < |recs| {
        AtRecord(hi);
        IdBytes(Off(recs, hi));
      }
    }

    lemma IdBytes(pos: nat)
      ensures pos + 4 <= data.Length ==> IdAt(pos) == U32(data[..][pos..pos + 4])
    {
      if pos + 4 <= data.Length {
        assert data[pos..pos + 4] == data[..][pos..pos + 4];
      }
    }

    /** The removal as it is coded: the type whose offsets move is read from where the erased
        records were, after the bytes moved there. */
    method EraseAsWritten(from: nat, to: int, ghost id: nat, ghost lo: nat, ghost hi: nat) returns (type_: nat)
      requires Valid() && ValidId(id) && lo < hi <= |recs| && AllAre(recs[lo..hi], id)
      requires from == Off(recs, lo) && to == if hi == |recs| then -1 else Off(recs, hi)
      modifies this, data, offsets
      ensures recs == Cut(old(recs), lo, hi)
      ensures type_ == FldType(if hi == |old(recs)| then id else old(recs)[hi].id)
      ensures Valid() <==> type_ == FldType(id)
    {
      hide *;
      IsWf();
      IsSorted();
      EraseBounds(id, lo, hi);
      var end := if to == -1 then len else to;
      ghost var was, offs, rs := data[..], offsets[..], recs;
      MoveDown(from, end);
      type_ := FldType(IdAt(from));
      ghost var next := if hi == |recs| then id else recs[hi].id;
      IdBytes(from);
      RankIs(next);
      CutShiftedAs(was, len, offs, data[..], rs, id, lo, hi, from, end, next);
      Shift(type_, from - end);
      recs := Cut(rs, lo, hi);
      ValidIsWf();
    }

    lemma ValidIsWf()
      requires offsets as object != data as object
      ensures Valid() <==> Wf(data[..], len, offsets[..], recs)
    {
      hide Wf;
    }

    /** Removes occurrence `oc` of `id`; the later ones are renumbered. */
    method Del(id: nat, oc: int) returns (status: Status)
      requires Valid() && ValidId(id)
      modifies this, data, offsets
      ensures Valid()
      ensures var was := Values(old(recs), id);
              if 0 <= oc < |was| then
                && status == Done
                && Values(recs, id) == was[..oc] + was[oc + 1..]
                && (forall x :: x != id ==> Values(recs, x) == Values(old(recs), x))
              else
                status == NotPresent && recs == old(recs) && data[..] == old(data[..])
      ensures 0 <= oc < |Values(old(recs), id)| ==>
                var k := Below(old(recs), id) + oc;
                k < |old(recs)| && recs == Cut(old(recs), k, k + 1)
    {
      hide *;
      ghost var k, rs := WhereIndex(recs, id, oc), recs;
      var pos := Where(id, oc);
      WhereFinds(id, oc, pos);
      if pos == -1 || IdAt(pos) != id {
        return NotPresent;
      }
      OneRecord(id, oc);
      var next := NextPos(pos, k);
      Erase(pos, next, id, k, k + 1);
      status := Done;
      CutOneValues(rs, id, oc);
    }

    /** Del, with the removal as it is coded, and the type whose offsets it moved. */
    method DelAsWritten(id: nat, oc: int) returns (status: Status, type_: nat)
      requires Valid() && ValidId(id)
      modifies this, data, offsets
      ensures var k := Below(old(recs), id) + oc;
              if 0 <= oc < |Values(old(recs), id)| then
                && status == Done && k < |old(recs)| && recs == Cut(old(recs), k, k + 1)
                && type_ == FldType(if k + 1 == |old(recs)| then id else old(recs)[k + 1].id)
                && (Valid() <==> type_ == FldType(id))
              else
                Valid() && type_ == FldType(id) && status == NotPresent && recs == old(recs) && data[..] == old(data[..])
    {
      hide *;
      ghost var k := WhereIndex(recs, id, oc);
      var pos := Where(id, oc);
      WhereFinds(id, oc, pos);
      if pos == -1 || IdAt(pos) != id {
        return NotPresent, FldType(id);
      }
      OneRecord(id, oc);
      var next := NextPos(pos, k);
      type_ := EraseAsWritten(pos, next, id, k, k + 1);
      status := Done;
    }

    lemma OneRecord(id: nat, oc: int)
      requires Valid() && ValidId(id) && 0 <= oc < |Values(recs, id)|
      ensures var k := WhereIndex(recs, id, oc);
              && k == Below(recs, id) + oc
              && k < TypeEnd(recs, id) <= |recs| && AllAre(recs[k..k + 1], id)
      ensures Sorted(recs)
    {
      hide Wf, Below, Values, Sorted, Flat, TypeEnd, Scan;
      IsSorted();
      WhereIndexIs(id, oc);
      ValuesAreARun(recs, id);
      var k := WhereIndex(recs, id, oc);
      assert recs[k..k + 1] == [recs[k]];
    }

    /** Where the occurrences of `id` start and end; twice the same when there are none. */
    method RunOf(id: nat) returns (pos: int, next: int)
      requires Valid() && ValidId(id)
      ensures var lo, hi := Below(recs, id), Below(recs, id + 1);
              && lo <= hi <= |recs| && Drop(recs, {id}) == Cut(recs, lo, hi)
              && if Values(recs, id) == [] then lo == hi && next == pos
                 else
                   && lo < hi && AllAre(recs[lo..hi], id)
                   && pos == Off(recs, lo) && next == (if hi == |recs| then -1 else Off(recs, hi)) && next != pos
    {
      hide *;
      ghost var lo, hi, k := Below(recs, id), Below(recs, id + 1), Below(recs, id);
      pos := Where(id, 0);
      WhereFinds(id, 0, pos);
      IsSorted();
      CutAllIsDrop(recs, id);
      InRun(id, lo);
      next := pos;
      if pos == -1 || IdAt(pos) != id {
        return;
      }
      while next != -1 && IdAt(next) == id
        invariant lo <= k <= hi <= |recs|
        invariant next == -1 ==> k == |recs|
        invariant next != -1 ==> k < |recs| && 0 <= next && next + 8 <= data.Length && next == Off(recs, k)
        modifies {}
        decreases hi - k
      {
        InRun(id, k);
        next := NextPos(next, k);
        k := k + 1;
        InRun(id, k);
      }
      InRun(id, k);
      RunBounds(recs, id);
      OffIsInjective(recs, lo, hi);
    }

    /** Removes every occurrence of `id`. */
    method DelAll(id: nat) returns (status: Status)
      requires Valid() && ValidId(id)
      modifies this, data, offsets
      ensures Valid()
      ensures status == if Values(old(recs), id) == [] then NotPresent else Done
      ensures recs == Drop(old(recs), {id})
      ensures status == NotPresent ==> data[..] == old(data[..]) && recs == old(recs)
      ensures Values(recs, id) == [] && forall x :: x != id ==> Values(recs, x) == Values(old(recs), x)
    {
      hide *;
      ghost var lo, hi, rs := Below(recs, id), Below(recs, id + 1), recs;
      DropOneValues(recs, id);
      var pos, next := RunOf(id);
      if next == pos {
        CutNothing(recs, lo);
        return NotPresent;
      }
      Erase(pos, next, id, lo, hi);
      status := Done;
    }

    /** DelAll, with the removal as it is coded, and the type whose offsets it moved. */
    method DelAllAsWritten(id: nat) returns (status: Status, type_: nat)
      requires Valid() && ValidId(id)
      modifies this, data, offsets
      ensures recs == Drop(old(recs), {id})
      ensures var hi := Below(old(recs), id + 1);
              if Values(old(recs), id) == [] then
                Valid() && status == NotPresent && recs == old(recs) && data[..] == old(data[..])
              else
                && status == Done
                && type_ == FldType(if hi == |old(recs)| then id else old(recs)[hi].id)
                && (Valid() <==> type_ == FldType(id))
    {
      hide *;
      ghost var lo, hi, rs := Below(recs, id), Below(recs, id + 1), recs;
      DropOneValues(recs, id);
      var pos, next := RunOf(id);
      if next == pos {
        CutNothing(recs, lo);
        return NotPresent, FldType(id);
      }
      type_ := EraseAsWritten(pos, next, id, lo, hi);
      status := Done;
    }

    // ---- iteration ----

    /** Record `k`, as a loop over the buffer reads it. */
    lemma Current(k: nat)
      requires Valid() && k < |recs|
      ensures |Fields()| == |recs|
      ensures Off(recs, k) + 8 <= Off(recs, k + 1) <= len <= data.Length
      ensures IdAt(Off(recs, k)) == recs[k].id == Fields()[k].id && ValidId(recs[k].id)
      ensures Off(recs, k) + SizeAt(Off(recs, k)) == Off(recs, k + 1)
      ensures ValueAt(Off(recs, k)) == Fields()[k].value
      ensures Storable(recs[k].id, ValueAt(Off(recs, k)))
    {
      hide Wf, Flat, Off, RecValue, RecOk, Readable, Stored, ValueOk;
      AtRecord(k);
      AtValue(k);
      StorableValue(recs[k]);
    }

    lemma SameCount(id: nat)
      requires Valid()
      ensures |Values(Fields(), id)| == |Values(recs, id)| && Sorted(Fields())
      ensures TotalSize(Fields()) == len <= data.Length
    {
      hide *;
      ViewsAgree(id);
    }

    /** The first record to read, and where a loop over the buffer ends. */
    lemma Ends()
      requires Valid()
      ensures Off(recs, 0) == 0 && Off(recs, |recs|) == len && |Fields()| == |recs|
      ensures forall k :: 0 <= k <= |recs| ==> (Off(recs, k) < len <==> k < |recs|)
      ensures Sorted(recs) && Sorted(Fields()) && TotalSize(Fields()) == len <= data.Length
      ensures Fields() == View(recs)
    {
      hide Wf, Flat, TotalSize, Sorted, RecOk, Values;
      OffMono(recs, 0, |recs|);
      UsedIsFlat();
      OffZero(recs);
      IsSorted();
      ViewsAgree(0);
      forall k | 0 <= k <= |recs| ensures Off(recs, k) < len <==> k < |recs| {
        OffIsInjective(recs, k, |recs|);
      }
    }

    /** The field after occurrence `oc` of `id`, the first field for id 0. `rc` is 1 when there is one;
        when its value is longer than `maxLen` the cursor moves but the value is not given. Without
        a length there is no value either, nor when it is not `wanted`. */
    method Next(id: nat, oc: int, wanted: bool, maxLen: Option<nat>)
      returns (rc: int, id': nat, oc': int, flen: Option<nat>, value: Option<seq<byte>>)
      requires Valid() && (id == 0 || ValidId(id))
      ensures var k := NextIndex(recs, id, oc);
              if k == |recs| then
                rc == 0 && id' == id && oc' == oc && flen == maxLen && value == None
              else
                && id' == Fields()[k].id
                && oc' == (if id' == id then oc + 1 else 0)
                && var v := Fields()[k].value;
                   && rc == (if Fits(maxLen, v) || maxLen.None? then 1 else -1)
                   && flen == (if maxLen.None? then None else Some(|v|))
                   && value == if wanted && Fits(maxLen, v) then Some(v) else None
    {
      hide *;
      Ends();
      var pos: int := 0;
      ghost var k := 0;
      NextStart(id, oc);
      if id != 0 {
        k := WhereIndex(recs, id, oc);
        pos := Where(id, oc);
        WhereFinds(id, oc, pos);
        if pos != -1 && pos < len {
          pos := NextPos(pos, k);
          k := k + 1;
        }
      }
      if pos != -1 && pos < len {
        Current(k);
        id', oc' := IdAt(pos), if IdAt(pos) == id then oc + 1 else 0;
        FitsIs(maxLen, Fields()[k].value);
        if maxLen.None? {
          return 1, id', oc', None, None;
        }
        var v := ValueAt(pos);
        if maxLen.value < |v| {
          return -1, id', oc', Some(|v|), None;
        }
        return 1, id', oc', Some(|v|), if wanted then Some(v) else None;
      }
      return 0, id, oc, maxLen, None;
    }

    /** The loop of callers: from id 0 until there is no next field. Whatever length they give, it
        visits every occurrence of every field once, in order of id and then of number. */
    method Visit(wanted: bool, maxLen: Option<nat>) returns (keys: seq<(nat, int)>, values: seq<Option<seq<byte>>>)
      requires Valid()
      ensures |keys| == |values| == |recs| == |Fields()|
      ensures forall k :: 0 <= k < |keys| ==> keys[k] == Key(recs, k)
      ensures forall k :: 0 <= k < |keys| ==>
                values[k] == if wanted && Fits(maxLen, Fields()[k].value) then Some(Fields()[k].value) else None
      ensures forall i, j :: 0 <= i < j < |keys| ==> KeyBefore(keys[i], keys[j])
      ensures forall id: nat, oc: int :: (id, oc) in keys <==> 0 <= oc < |Values(recs, id)|
    {
      hide *;
      IsSorted();
      IsWf();
      AllAreOk();
      FieldsIs();
      ViewsAgree(0);
      keys, values := [], [];
      var id: nat, oc, rc := 0, 0, 1;
      StartKey(recs);
      while rc != 0
        invariant id == 0 || ValidId(id)
        invariant |keys| == |values| <= |recs|
        invariant rc != 0 ==> NextIndex(recs, id, oc) == |keys|
        invariant keys != [] ==> (id, oc) == Key(recs, |keys| - 1)
        invariant keys == [] ==> id == 0 && oc == 0
        invariant rc == 0 ==> |keys| == |recs|
        invariant forall k :: 0 <= k < |keys| ==> keys[k] == Key(recs, k)
        invariant forall k :: 0 <= k < |keys| ==>
                    values[k] == if wanted && Fits(maxLen, Fields()[k].value) then Some(Fields()[k].value) else None
        decreases |recs| - |keys|, if rc == 0 then 0 else 1
      {
        var flen, value;
        ghost var k := |keys|;
        rc, id, oc, flen, value := Next(id, oc, wanted, maxLen);
        if rc != 0 {
          if k > 0 {
            NextVisitsAll(recs, k - 1);
            KeyPlace(recs, k - 1);
          }
          NextVisitsAll(recs, k);
          Current(k);
          keys, values := keys + [(id, oc)], values + [value];
        }
      }
      KeysAscend(recs, keys);
    }

    lemma EmptyLength()
      requires Valid() && recs == []
      ensures len == 0
    {
    }

    lemma AllAreOk()
      requires Valid()
      ensures AllOk(recs)
    {
    }

    lemma NextStart(id: nat, oc: int)
      requires Valid() && (id == 0 || ValidId(id))
      ensures id == 0 ==> NextIndex(recs, id, oc) == 0
      ensures id != 0 ==>
                var k := WhereIndex(recs, id, oc);
                && k <= TypeEnd(recs, id) <= |recs|
                && NextIndex(recs, id, oc) == if k == TypeEnd(recs, id) then |recs| else k + 1
    {
      hide Wf, WhereIndex, TypeEnd, Flat;
      if id != 0 {
        WhereIndexIs(id, oc);
      }
    }
  }

  const SHORT_ID: nat := 1
  const LONG_ID: nat := 0x100_0001

  /** A buffer with one SHORT and one LONG field: when the SHORT field is removed as it is coded,
      the table still says that the LONG field starts where it was. */
  method EraseBreaksOffsets(buf: Fbfr32)
    requires buf.Valid() && buf.recs == [] && buf.data.Length >= 24
    modifies buf, buf.data, buf.offsets
    ensures |buf.recs| == 1 && buf.recs[0].id == LONG_ID
    ensures !buf.Valid()
  {
    hide Wf, Flat, Readable, Stored, RecOk, RecValue, Values, Below;
    NoneOf(SHORT_ID);
    ReadableFixed(SHORT_ID, [1, 0]);
    ReadableFixed(LONG_ID, [1, 0, 0, 0, 0, 0, 0, 0]);
    buf.EmptyLength();
    var stored, a := buf.Store(SHORT_ID, 0, [1, 0], 2);
    assert buf.recs == [Field(SHORT_ID, a)];
    OneRecordPlaces(Field(SHORT_ID, a), LONG_ID);
    ghost var b;
    stored, b := buf.Store(LONG_ID, 0, [1, 0, 0, 0, 0, 0, 0, 0], 8);
    assert buf.recs == [Field(SHORT_ID, a), Field(LONG_ID, b)];
    TwoRecordPlaces(Field(SHORT_ID, a), Field(LONG_ID, b));
    var status, type_ := buf.DelAsWritten(SHORT_ID, 0);
  }

  lemma NoneOf(id: nat)
    ensures Values<seq<byte>>([], id) == [] && Below<seq<byte>>([], id) == 0 && Below<seq<byte>>([], id + 1) == 0
  {
  }

  lemma ReadableFixed(id: nat, v: seq<byte>)
    requires ValidId(id) && FldType(id) < FLD_STRING && |v| == FixedLen(FldType(id))
    ensures Readable(FldType(id), v, |v|)
    ensures RecSize(id, ValueLen(FldType(id), v, |v|)) <= 16
    ensures FldType(id) == FLD_SHORT ==> RecSize(id, ValueLen(FldType(id), v, |v|)) == 8
  {
  }

  /** A buffer of one record, seen from a larger id. */
  lemma OneRecordPlaces(r: Rec, id: nat)
    requires r.id < id
    ensures Values([r], r.id) == [r.value] && Below([r], r.id) == 0 && Below([r], r.id + 1) == 1
    ensures Values([r], id) == [] && Below([r], id) == 1 && Below([r], id + 1) == 1
  {
    assert [r][..0] == [];
    NoneOf(r.id);
    NoneOf(id);
  }

  lemma TwoRecordPlaces(a: Rec, b: Rec)
    requires a.id < b.id
    ensures Values([a, b], a.id) == [a.value] && Below([a, b], a.id) == 0 && Below([a, b], a.id + 1) == 1
  {
    assert [a, b][..1] == [a];
    OneRecordPlaces(a, b.id);
  }
}
