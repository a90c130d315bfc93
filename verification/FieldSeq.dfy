/** The abstract content of a fielded buffer: a sequence of fields ordered by
    field id, read as a map from field id to the sequence of its occurrences. */
module FieldSeq {

  datatype Field<V> = Field(id: nat, value: V)

  ghost predicate Sorted<V>(fs: seq<Field<V>>) {
    |fs| <= 1 || (fs[|fs| - 2].id <= fs[|fs| - 1].id && Sorted(fs[..|fs| - 1]))
  }

  ghost predicate Ordered<V>(fs: seq<Field<V>>) {
    forall i, j :: 0 <= i < j < |fs| ==> fs[i].id <= fs[j].id
  }

  lemma {:induction false} SortedIsOrdered<V>(fs: seq<Field<V>>)
    ensures Sorted(fs) <==> Ordered(fs)
  {
    if |fs| > 1 {
      var n := |fs| - 1;
      SortedIsOrdered(fs[..n]);
      if Sorted(fs) {
        forall i, j | 0 <= i < j < |fs| ensures fs[i].id <= fs[j].id {
          assert fs[..n][n - 1] == fs[n - 1];
          if i < n - 1 { assert fs[..n][i].id <= fs[..n][n - 1].id; }
          if j < n { assert fs[..n][i].id <= fs[..n][j].id; }
        }
      }
      if Ordered(fs) {
        assert Ordered(fs[..n]);
      }
    }
  }

  /** All occurrences of `id`, in buffer order. */
  function Values<V>(fs: seq<Field<V>>, id: nat): seq<V> {
    if fs == [] then []
    else Values(fs[..|fs| - 1], id) + (if fs[|fs| - 1].id == id then [fs[|fs| - 1].value] else [])
  }

  /** How many fields have an id smaller than `bound`. */
  function Below<V>(fs: seq<Field<V>>, bound: nat): (n: nat)
    ensures n <= |fs|
  {
    if fs == [] then 0
    else Below(fs[..|fs| - 1], bound) + (if fs[|fs| - 1].id < bound then 1 else 0)
  }

  /** The index of occurrence `oc` of `id` found by reading every field, or -1. */
  function Scan<V>(fs: seq<Field<V>>, id: nat, oc: int): (k: int)
    ensures -1 <= k < |fs|
  {
    if fs == [] then -1
    else if fs[0].id == id && oc == 0 then 0
    else
      var k := Scan(fs[1..], id, if fs[0].id == id then oc - 1 else oc);
      if k == -1 then -1 else k + 1
  }

  /** Replaces occurrence `oc` of `id` when there is one, adds a last occurrence otherwise. */
  function Put<V>(fs: seq<Field<V>>, id: nat, oc: int, v: V): seq<Field<V>> {
    var lo, hi := Below(fs, id), Below(fs, id + 1);
    if 0 <= oc < hi - lo then fs[lo + oc := Field(id, v)]
    else fs[..hi] + [Field(id, v)] + fs[hi..]
  }

  /** Adds `n` last occurrences of `id`. */
  function Fill<V>(fs: seq<Field<V>>, id: nat, v: V, n: nat): seq<Field<V>> {
    if n == 0 then fs else Put(Fill(fs, id, v, n - 1), id, -1, v)
  }

  /** What is left without the fields `lo` to `hi`. */
  function Cut<V>(fs: seq<Field<V>>, lo: nat, hi: nat): seq<Field<V>>
    requires lo <= hi <= |fs|
  {
    fs[..lo] + fs[hi..]
  }

  function Keep<V>(fs: seq<Field<V>>, ids: set<nat>): seq<Field<V>> {
    if fs == [] then []
    else Keep(fs[..|fs| - 1], ids) + (if fs[|fs| - 1].id in ids then [fs[|fs| - 1]] else [])
  }

  function Drop<V>(fs: seq<Field<V>>, ids: set<nat>): seq<Field<V>> {
    if fs == [] then []
    else Drop(fs[..|fs| - 1], ids) + (if fs[|fs| - 1].id in ids then [] else [fs[|fs| - 1]])
  }

  /** The occurrence number of field `k`. */
  function OccNo<V>(fs: seq<Field<V>>, k: nat): nat
    requires k < |fs|
  {
    |Values(fs[..k], fs[k].id)|
  }

  /** One field's occurrences after storing `s` over `d`: all of `s`, then what `d` has beyond it. */
  function Over<V>(s: seq<V>, d: seq<V>): (r: seq<V>)
    ensures |r| >= |d|
  {
    if |s| < |d| then s + d[|s|..] else s
  }

  lemma OverOneMore<V>(s: seq<V>, d: seq<V>, v: V)
    ensures Over(s + [v], d) == if |s| < |d| then Over(s, d)[|s| := v] else Over(s, d) + [v]
    ensures Over(s + [v], d)[..|d|] == if |s| < |d| then Over(s, d)[..|d|][|s| := v] else Over(s, d)[..|d|]
  {
  }

  /** `dst` with every occurrence of `src` stored under its own number. */
  function Overlay<V>(dst: seq<Field<V>>, src: seq<Field<V>>): seq<Field<V>> {
    if src == [] then dst
    else
      var n := |src| - 1;
      Put(Overlay(dst, src[..n]), src[n].id, OccNo(src, n), src[n].value)
  }

  /** As Overlay, for the occurrences `dst` already has. */
  function OverlayPresent<V>(dst: seq<Field<V>>, src: seq<Field<V>>): seq<Field<V>> {
    if src == [] then dst
    else
      var n := |src| - 1;
      var acc := OverlayPresent(dst, src[..n]);
      if OccNo(src, n) < |Values(acc, src[n].id)|
      then Put(acc, src[n].id, OccNo(src, n), src[n].value)
      else acc
  }

  /** `dst` with every field of `src` added as a last occurrence. */
  function Append<V>(dst: seq<Field<V>>, src: seq<Field<V>>): seq<Field<V>> {
    if src == [] then dst
    else
      var n := |src| - 1;
      Put(Append(dst, src[..n]), src[n].id, -1, src[n].value)
  }

  // ---- positions ----

  lemma {:induction false} BelowConcat<V>(a: seq<Field<V>>, b: seq<Field<V>>, bound: nat)
    ensures Below(a + b, bound) == Below(a, bound) + Below(b, bound)
  {
    if b == [] {
      assert a + b == a;
    } else {
      BelowConcat(a, b[..|b| - 1], bound);
      assert (a + b)[..|a + b| - 1] == a + b[..|b| - 1];
    }
  }

  lemma {:induction false} BelowMono<V>(fs: seq<Field<V>>, x: nat, y: nat)
    requires x <= y
    ensures Below(fs, x) <= Below(fs, y)
  {
    if fs != [] {
      BelowMono(fs[..|fs| - 1], x, y);
    }
  }

  /** In a sorted buffer the fields below a bound are exactly the first ones. */
  lemma {:induction false} BelowSplits<V>(fs: seq<Field<V>>, bound: nat)
    requires Sorted(fs)
    ensures forall i :: 0 <= i < |fs| ==> (i < Below(fs, bound) <==> fs[i].id < bound)
  {
    if fs != [] {
      var n := |fs| - 1;
      BelowSplits(fs[..n], bound);
      BelowLast(fs, bound);
      hide Below, Sorted;
      forall i | 0 <= i < n ensures i < Below(fs, bound) <==> fs[i].id < bound {
        assert fs[..n][i] == fs[i];
      }
    }
  }

  /** The last field counts only when all others do. */
  lemma BelowLast<V>(fs: seq<Field<V>>, bound: nat)
    requires Sorted(fs) && fs != []
    requires var p := fs[..|fs| - 1];
             forall i :: 0 <= i < |p| ==> (i < Below(p, bound) <==> p[i].id < bound)
    ensures Below(fs, bound) == if fs[|fs| - 1].id < bound then |fs| else Below(fs[..|fs| - 1], bound)
  {
    var n := |fs| - 1;
    if n > 0 {
      assert fs[..n][n - 1] == fs[n - 1];
    }
  }

  lemma BelowIs<V>(fs: seq<Field<V>>, bound: nat, k: nat)
    requires Sorted(fs)
    requires k <= |fs|
    requires k > 0 ==> fs[k - 1].id < bound
    requires k < |fs| ==> fs[k].id >= bound
    ensures Below(fs, bound) == k
  {
    BelowSplits(fs, bound);
  }

  lemma SortedParts<V>(fs: seq<Field<V>>, k: nat)
    requires Sorted(fs) && k <= |fs|
    ensures Sorted(fs[..k]) && Sorted(fs[k..])
  {
    SortedIsOrdered(fs);
    SortedIsOrdered(fs[..k]);
    SortedIsOrdered(fs[k..]);
  }

  // ---- occurrences ----

  lemma {:induction false} ValuesConcat<V>(a: seq<Field<V>>, b: seq<Field<V>>, id: nat)
    ensures Values(a + b, id) == Values(a, id) + Values(b, id)
  {
    if b == [] {
      assert a + b == a;
    } else {
      ValuesConcat(a, b[..|b| - 1], id);
      assert (a + b)[..|a + b| - 1] == a + b[..|b| - 1];
    }
  }

  lemma ValuesOne<V>(f: Field<V>, id: nat)
    ensures Values([f], id) == if f.id == id then [f.value] else []
  {
    assert [f][..0] == [];
  }

  lemma ValuesOfThree<V>(a: seq<Field<V>>, m: seq<Field<V>>, b: seq<Field<V>>, id: nat)
    ensures Values(a + m + b, id) == Values(a, id) + Values(m, id) + Values(b, id)
  {
    ValuesConcat(a + m, b, id);
    ValuesConcat(a, m, id);
  }

  function Strip<V>(fs: seq<Field<V>>): (vs: seq<V>)
    ensures |vs| == |fs|
    ensures forall i :: 0 <= i < |fs| ==> vs[i] == fs[i].value
  {
    seq(|fs|, i requires 0 <= i < |fs| => fs[i].value)
  }

  ghost predicate AllAre<V>(fs: seq<Field<V>>, id: nat) {
    forall i :: 0 <= i < |fs| ==> fs[i].id == id
  }

  ghost predicate NoneIs<V>(fs: seq<Field<V>>, id: nat) {
    forall i :: 0 <= i < |fs| ==> fs[i].id != id
  }

  lemma {:induction false} ValuesOfSame<V>(fs: seq<Field<V>>, id: nat)
    requires AllAre(fs, id)
    ensures Values(fs, id) == Strip(fs)
  {
    if fs != [] {
      ValuesOfSame(fs[..|fs| - 1], id);
    }
  }

  lemma {:induction false} ValuesOfOthers<V>(fs: seq<Field<V>>, id: nat)
    requires NoneIs(fs, id)
    ensures Values(fs, id) == []
  {
    if fs != [] {
      ValuesOfOthers(fs[..|fs| - 1], id);
    }
  }

  /** Where the fields of `id` stand in a sorted buffer. */
  lemma RunBounds<V>(fs: seq<Field<V>>, id: nat)
    requires Sorted(fs)
    ensures Below(fs, id) <= Below(fs, id + 1)
    ensures NoneIs(fs[..Below(fs, id)], id)
    ensures NoneIs(fs[Below(fs, id + 1)..], id)
    ensures forall k, l :: Below(fs, id) <= k <= l <= Below(fs, id + 1) ==> AllAre(fs[k..l], id)
  {
    BelowMono(fs, id, id + 1);
    BelowSplits(fs, id);
    BelowSplits(fs, id + 1);
  }

  /** The occurrences of `id` are the fields from Below(id) up to Below(id + 1). */
  lemma ValuesAreARun<V>(fs: seq<Field<V>>, id: nat)
    requires Sorted(fs)
    ensures Below(fs, id) <= Below(fs, id + 1)
    ensures Values(fs, id) == Strip(fs[Below(fs, id)..Below(fs, id + 1)])
  {
    hide *;
    var lo, hi := Below(fs, id), Below(fs, id + 1);
    RunBounds(fs, id);
    assert fs == fs[..lo] + fs[lo..hi] + fs[hi..];
    ValuesOfThree(fs[..lo], fs[lo..hi], fs[hi..], id);
    ValuesOfOthers(fs[..lo], id);
    ValuesOfSame(fs[lo..hi], id);
    ValuesOfOthers(fs[hi..], id);
  }

  /** Both searches agree: the run of a sorted buffer and the scan of all of it. */
  lemma {:induction false} ScanFindsTheRun<V>(fs: seq<Field<V>>, id: nat, oc: int)
    requires Sorted(fs)
    ensures Scan(fs, id, oc) ==
            if 0 <= oc < Below(fs, id + 1) - Below(fs, id) then Below(fs, id) + oc else -1
  {
    if fs != [] {
      SortedParts(fs, 1);
      ScanFindsTheRun(fs[1..], id, if fs[0].id == id then oc - 1 else oc);
      BelowFirst(fs, id);
      BelowFirst(fs, id + 1);
      BelowMono(fs[1..], id, id + 1);
      hide Below, Sorted;
    }
  }

  lemma BelowFirst<V>(fs: seq<Field<V>>, bound: nat)
    requires Sorted(fs) && fs != []
    ensures Below(fs, bound) == Below(fs[1..], bound) + (if fs[0].id < bound then 1 else 0)
    ensures fs[0].id >= bound ==> Below(fs, bound) == 0
  {
    assert fs == fs[..1] + fs[1..];
    BelowConcat(fs[..1], fs[1..], bound);
    assert fs[..1] == [fs[0]] && [fs[0]][..0] == [];
    BelowSplits(fs, bound);
  }

  // ---- updates ----

  /** Around field `k` of a run: the occurrences before it and those from it on. */
  lemma RunSplits<V>(fs: seq<Field<V>>, id: nat, k: nat)
    requires Sorted(fs)
    requires Below(fs, id) <= k <= Below(fs, id + 1)
    ensures k - Below(fs, id) <= |Values(fs, id)|
    ensures Values(fs[..k], id) == Values(fs, id)[..k - Below(fs, id)]
    ensures Values(fs[k..], id) == Values(fs, id)[k - Below(fs, id)..]
  {
    hide *;
    var lo, hi := Below(fs, id), Below(fs, id + 1);
    RunBounds(fs, id);
    assert fs == fs[..k] + fs[k..];
    ValuesConcat(fs[..k], fs[k..], id);
    assert |Values(fs[..k], id)| == k - lo by {
      assert fs[..k] == fs[..lo] + fs[lo..k];
      ValuesConcat(fs[..lo], fs[lo..k], id);
      ValuesOfOthers(fs[..lo], id);
      ValuesOfSame(fs[lo..k], id);
    }
  }

  /** Exchanging fields of one id for other fields of that id is not seen by other ids. */
  lemma OthersUnchanged<V>(a: seq<Field<V>>, m: seq<Field<V>>, m': seq<Field<V>>, b: seq<Field<V>>, id: nat)
    requires AllAre(m, id) && AllAre(m', id)
    ensures forall x :: x != id ==> Values(a + m + b, x) == Values(a + m' + b, x)
  {
    forall x | x != id ensures Values(a + m + b, x) == Values(a + m' + b, x) {
      assert NoneIs(m, x) && NoneIs(m', x);
      hide *;
      ValuesOfThree(a, m, b, x);
      ValuesOfThree(a, m', b, x);
      ValuesOfOthers(m, x);
      ValuesOfOthers(m', x);
    }
  }

  /** Put with the fields it leaves alone on either side. */
  lemma PutShape<V>(fs: seq<Field<V>>, id: nat, oc: int, v: V) returns (k: nat, rest: nat)
    requires Sorted(fs)
    ensures Below(fs, id) <= k <= rest <= Below(fs, id + 1)
    ensures Put(fs, id, oc, v) == fs[..k] + [Field(id, v)] + fs[rest..]
    ensures if 0 <= oc < |Values(fs, id)| then k == Below(fs, id) + oc && rest == k + 1
            else k == rest == Below(fs, id) + |Values(fs, id)|
    ensures AllAre(fs[k..rest], id)
  {
    var lo, hi := Below(fs, id), Below(fs, id + 1);
    k := if 0 <= oc < hi - lo then lo + oc else hi;
    rest := if 0 <= oc < hi - lo then k + 1 else k;
    assert Put(fs, id, oc, v) == fs[..k] + [Field(id, v)] + fs[rest..];
    RunBounds(fs, id);
    hide *;
    ValuesAreARun(fs, id);
  }

  lemma ReplaceOne<T>(s: seq<T>, j: nat, v: T)
    ensures j < |s| ==> s[..j] + [v] + s[j + 1..] == s[j := v]
    ensures s[..|s|] + [v] + s[|s|..] == s + [v]
  {
  }

  lemma PutValues<V>(fs: seq<Field<V>>, id: nat, oc: int, v: V)
    requires Sorted(fs)
    ensures Sorted(Put(fs, id, oc, v))
    ensures Values(Put(fs, id, oc, v), id) ==
            if 0 <= oc < |Values(fs, id)| then Values(fs, id)[oc := v] else Values(fs, id) + [v]
    ensures forall x :: x != id ==> Values(Put(fs, id, oc, v), x) == Values(fs, x)
  {
    hide *;
    PutKeepsSorted(fs, id, oc, v);
    OneIs(Field(id, v));
    var k, rest := PutShape(fs, id, oc, v);
    PutOthers(fs, id, k, rest, [Field(id, v)]);
    ValuesAroundRun(fs, id, k, rest, [Field(id, v)]);
    ValuesOne(Field(id, v), id);
    ReplaceOne(Values(fs, id), k - Below(fs, id), v);
  }

  lemma OneIs<V>(f: Field<V>)
    ensures AllAre([f], f.id)
  {
  }

  lemma PutOthers<V>(fs: seq<Field<V>>, id: nat, k: nat, rest: nat, m: seq<Field<V>>)
    requires k <= rest <= |fs| && AllAre(fs[k..rest], id) && AllAre(m, id)
    ensures forall x :: x != id ==> Values(fs[..k] + m + fs[rest..], x) == Values(fs, x)
  {
    hide *;
    assert fs == fs[..k] + fs[k..rest] + fs[rest..];
    OthersUnchanged(fs[..k], fs[k..rest], m, fs[rest..], id);
  }

  lemma ValuesAroundRun<V>(fs: seq<Field<V>>, id: nat, k: nat, rest: nat, m: seq<Field<V>>)
    requires Sorted(fs)
    requires Below(fs, id) <= k <= rest <= Below(fs, id + 1)
    ensures rest - Below(fs, id) <= |Values(fs, id)|
    ensures Values(fs[..k] + m + fs[rest..], id) ==
            Values(fs, id)[..k - Below(fs, id)] + Values(m, id) + Values(fs, id)[rest - Below(fs, id)..]
  {
    hide *;
    ValuesOfThree(fs[..k], m, fs[rest..], id);
    RunSplits(fs, id, k);
    RunSplits(fs, id, rest);
  }

  lemma PutKeepsSorted<V>(fs: seq<Field<V>>, id: nat, oc: int, v: V)
    requires Sorted(fs)
    ensures Sorted(Put(fs, id, oc, v))
  {
    SortedIsOrdered(fs);
    SortedIsOrdered(Put(fs, id, oc, v));
    BelowSplits(fs, id);
    BelowSplits(fs, id + 1);
    hide Below, Sorted;
  }

  lemma SortedPair<V>(fs: seq<Field<V>>, i: nat, j: nat)
    requires Sorted(fs) && i < j < |fs|
    ensures fs[i].id <= fs[j].id
  {
    SortedIsOrdered(fs);
  }

  lemma {:induction false} FillSorted<V>(fs: seq<Field<V>>, id: nat, v: V, n: nat)
    requires Sorted(fs)
    ensures Sorted(Fill(fs, id, v, n))
  {
    if n > 0 {
      FillSorted(fs, id, v, n - 1);
      PutKeepsSorted(Fill(fs, id, v, n - 1), id, -1, v);
    }
  }

  lemma {:induction false} FillValues<V>(fs: seq<Field<V>>, id: nat, v: V, n: nat)
    requires Sorted(fs)
    ensures Sorted(Fill(fs, id, v, n))
    ensures Values(Fill(fs, id, v, n), id) == Values(fs, id) + seq(n, _ => v)
    ensures forall x :: x != id ==> Values(Fill(fs, id, v, n), x) == Values(fs, x)
  {
    hide Values, Put, Sorted;
    if n > 0 {
      FillValues(fs, id, v, n - 1);
      PutValues(Fill(fs, id, v, n - 1), id, -1, v);
      assert seq(n, _ => v) == seq(n - 1, _ => v) + [v];
    }
  }

  lemma {:induction false} OverlayValues<V>(dst: seq<Field<V>>, src: seq<Field<V>>)
    requires Sorted(dst)
    ensures Sorted(Overlay(dst, src))
    ensures forall id :: Values(Overlay(dst, src), id) == Over(Values(src, id), Values(dst, id))
  {
    if src == [] {
      assert Overlay(dst, src) == dst;
      assert forall id :: Values(src, id) == [];
    } else {
      var n := |src| - 1;
      OverlayValues(dst, src[..n]);
      ValuesOfLast(src);
      assert Overlay(dst, src) == Put(Overlay(dst, src[..n]), src[n].id, OccNo(src, n), src[n].value);
      var s, id := Values(src[..n], src[n].id), src[n].id;
      assert OccNo(src, n) == |s|;
      hide *;
      PutValues(Overlay(dst, src[..n]), id, |s|, src[n].value);
      OverOneMore(s, Values(dst, id), src[n].value);
    }
  }

  lemma {:induction false} OverlayPresentValues<V>(dst: seq<Field<V>>, src: seq<Field<V>>)
    requires Sorted(dst)
    ensures Sorted(OverlayPresent(dst, src))
    ensures forall id :: Values(OverlayPresent(dst, src), id) ==
              Over(Values(src, id), Values(dst, id))[..|Values(dst, id)|]
  {
    hide *;
    OverlayPresentIs(dst, src);
    if src != [] {
      var n := |src| - 1;
      OverlayPresentValues(dst, src[..n]);
      ValuesOfLast(src);
      var acc, s, id, v := OverlayPresent(dst, src[..n]), Values(src[..n], src[n].id), src[n].id, src[n].value;
      if |s| < |Values(acc, id)| {
        PutValues(acc, id, |s|, v);
      }
      OverOneMore(s, Values(dst, id), v);
    }
  }

  lemma OverlayPresentIs<V>(dst: seq<Field<V>>, src: seq<Field<V>>)
    ensures src == [] ==>
              && OverlayPresent(dst, src) == dst
              && forall id :: Values(dst, id) == Over(Values(src, id), Values(dst, id))[..|Values(dst, id)|]
    ensures src != [] ==>
              var n := |src| - 1;
              var acc, s := OverlayPresent(dst, src[..n]), Values(src[..n], src[n].id);
              OverlayPresent(dst, src) ==
              if |s| < |Values(acc, src[n].id)| then Put(acc, src[n].id, |s|, src[n].value) else acc
  {
    hide Put, Sorted, Below;
    if src == [] {
      OverNothing(dst);
    }
  }

  lemma OverNothing<V>(dst: seq<Field<V>>)
    ensures forall id :: Values(dst, id) == Over(Values([], id), Values(dst, id))[..|Values(dst, id)|]
  {
  }

  lemma {:induction false} AppendValues<V>(dst: seq<Field<V>>, src: seq<Field<V>>)
    requires Sorted(dst)
    ensures Sorted(Append(dst, src))
    ensures forall id :: Values(Append(dst, src), id) == Values(dst, id) + Values(src, id)
  {
    hide *;
    if src == [] {
      AppendNothing(dst);
    } else {
      var n := |src| - 1;
      var acc, f := Append(dst, src[..n]), src[n];
      AppendLast(dst, src);
      AppendValues(dst, src[..n]);
      ValuesOfLast(src);
      PutValues(acc, f.id, -1, f.value);
      forall id ensures Values(Append(dst, src), id) == Values(dst, id) + Values(src, id) {
        if id == f.id {
          assert Values(dst, id) + Values(src[..n], id) + [f.value] == Values(dst, id) + (Values(src[..n], id) + [f.value]);
        }
      }
    }
  }

  lemma AppendLast<V>(dst: seq<Field<V>>, src: seq<Field<V>>)
    requires src != []
    ensures var n := |src| - 1;
            Append(dst, src) == Put(Append(dst, src[..n]), src[n].id, -1, src[n].value)
  {
  }

  lemma AppendNothing<V>(dst: seq<Field<V>>)
    ensures Append(dst, []) == dst
    ensures forall id :: Values(dst, id) + Values([], id) == Values(dst, id)
  {
  }

  lemma {:induction false} KeepDropMembers<V>(fs: seq<Field<V>>, ids: set<nat>)
    ensures forall f :: f in Keep(fs, ids) ==> f in fs
    ensures forall f :: f in Drop(fs, ids) ==> f in fs
  {
    if fs != [] {
      KeepDropMembers(fs[..|fs| - 1], ids);
    }
  }

  lemma {:induction false} KeepDropSorted<V>(fs: seq<Field<V>>, ids: set<nat>)
    requires Sorted(fs)
    ensures Sorted(Keep(fs, ids)) && Sorted(Drop(fs, ids))
  {
    hide *;
    KeepDropLast(fs, ids);
    if fs != [] {
      var n := |fs| - 1;
      SortedParts(fs, n);
      KeepDropSorted(fs[..n], ids);
      KeepDropBounded(fs, ids);
      SortedPlusOne(Keep(fs[..n], ids), fs[n]);
      SortedPlusOne(Drop(fs[..n], ids), fs[n]);
    }
  }

  lemma KeepDropLast<V>(fs: seq<Field<V>>, ids: set<nat>)
    ensures fs == [] ==> Keep(fs, ids) == [] && Drop(fs, ids) == [] && Sorted(fs)
    ensures fs != [] ==>
              var n := |fs| - 1;
              && Keep(fs, ids) == (if fs[n].id in ids then Keep(fs[..n], ids) + [fs[n]] else Keep(fs[..n], ids))
              && Drop(fs, ids) == (if fs[n].id in ids then Drop(fs[..n], ids) else Drop(fs[..n], ids) + [fs[n]])
  {
  }

  lemma KeepDropBounded<V>(fs: seq<Field<V>>, ids: set<nat>)
    requires Sorted(fs) && fs != []
    ensures forall g :: g in Keep(fs[..|fs| - 1], ids) ==> g.id <= fs[|fs| - 1].id
    ensures forall g :: g in Drop(fs[..|fs| - 1], ids) ==> g.id <= fs[|fs| - 1].id
  {
    hide Keep, Drop, Sorted;
    SortedIsOrdered(fs);
    KeepDropMembers(fs[..|fs| - 1], ids);
  }

  lemma SortedPlusOne<V>(fs: seq<Field<V>>, f: Field<V>)
    requires Sorted(fs) && forall g :: g in fs ==> g.id <= f.id
    ensures Sorted(fs + [f])
  {
    assert (fs + [f])[..|fs|] == fs;
  }

  lemma {:induction false} KeepDropValues<V>(fs: seq<Field<V>>, ids: set<nat>, id: nat)
    ensures Values(Keep(fs, ids), id) == if id in ids then Values(fs, id) else []
    ensures Values(Drop(fs, ids), id) == if id in ids then [] else Values(fs, id)
  {
    hide *;
    KeepDropLast(fs, ids);
    if fs == [] {
      ValuesOfOthers(fs, id);
      ValuesOfOthers(Keep(fs, ids), id);
    } else {
      var n := |fs| - 1;
      KeepDropValues(fs[..n], ids, id);
      ValuesOfLast(fs);
      ValuesConcat(Keep(fs[..n], ids), [fs[n]], id);
      ValuesConcat(Drop(fs[..n], ids), [fs[n]], id);
      ValuesOne(fs[n], id);
    }
  }

  /** Removing one occurrence renumbers the later ones of its id and nothing else. */
  lemma CutOneValues<V>(fs: seq<Field<V>>, id: nat, oc: nat)
    requires Sorted(fs)
    requires oc < |Values(fs, id)|
    ensures Below(fs, id) + oc < |fs|
    ensures var k := Below(fs, id) + oc;
            && Sorted(Cut(fs, k, k + 1))
            && Values(Cut(fs, k, k + 1), id) == Values(fs, id)[..oc] + Values(fs, id)[oc + 1..]
            && forall x :: x != id ==> Values(Cut(fs, k, k + 1), x) == Values(fs, x)
  {
    hide *;
    var k := Below(fs, id) + oc;
    ValuesAreARun(fs, id);
    RunBounds(fs, id);
    CutIs(fs, id, k, k + 1);
    CutKeepsSorted(fs, k, k + 1);
    PutOthers(fs, id, k, k + 1, []);
    ValuesAroundRun(fs, id, k, k + 1, []);
  }

  lemma CutIs<V>(fs: seq<Field<V>>, id: nat, lo: nat, hi: nat)
    requires lo <= hi <= |fs|
    ensures Cut(fs, lo, hi) == fs[..lo] + fs[hi..]
    ensures Cut(fs, lo, hi) == fs[..lo] + [] + fs[hi..]
    ensures AllAre<V>([], id) && Values<V>([], id) == []
  {
  }

  lemma CutKeepsSorted<V>(fs: seq<Field<V>>, lo: nat, hi: nat)
    requires Sorted(fs) && lo <= hi <= |fs|
    ensures Sorted(Cut(fs, lo, hi))
  {
    SortedIsOrdered(fs);
    SortedIsOrdered(Cut(fs, lo, hi));
    hide Sorted;
  }

  lemma CutAllIsDrop<V>(fs: seq<Field<V>>, id: nat)
    requires Sorted(fs)
    ensures Below(fs, id) <= Below(fs, id + 1)
    ensures Cut(fs, Below(fs, id), Below(fs, id + 1)) == Drop(fs, {id})
  {
    hide *;
    var lo, hi := Below(fs, id), Below(fs, id + 1);
    RunBounds(fs, id);
    CutIs(fs, id, lo, hi);
    assert fs == fs[..hi] + fs[hi..];
    assert fs[..hi] == fs[..lo] + fs[lo..hi];
    DropConcat(fs[..hi], fs[hi..], {id});
    DropConcat(fs[..lo], fs[lo..hi], {id});
    DropNone(fs[..lo], id);
    DropAll(fs[lo..hi], id);
    DropNone(fs[hi..], id);
  }

  lemma {:induction false} DropConcat<V>(a: seq<Field<V>>, b: seq<Field<V>>, ids: set<nat>)
    ensures Drop(a + b, ids) == Drop(a, ids) + Drop(b, ids)
  {
    if b == [] {
      assert a + b == a;
    } else {
      DropConcat(a, b[..|b| - 1], ids);
      assert (a + b)[..|a + b| - 1] == a + b[..|b| - 1];
    }
  }

  lemma {:induction false} DropNone<V>(fs: seq<Field<V>>, id: nat)
    requires NoneIs(fs, id)
    ensures Drop(fs, {id}) == fs
  {
    hide Drop, Keep, Sorted, Values;
    KeepDropLast(fs, {id});
    if fs != [] {
      var n := |fs| - 1;
      DropNone(fs[..n], id);
      assert fs == fs[..n] + [fs[n]];
    }
  }

  lemma {:induction false} DropAll<V>(fs: seq<Field<V>>, id: nat)
    requires AllAre(fs, id)
    ensures Drop(fs, {id}) == []
  {
    if fs != [] {
      DropAll(fs[..|fs| - 1], id);
    }
  }

  /** Keep and Drop split a buffer: each is the other for the complementary ids. */
  lemma {:induction false} KeepIsDropOfTheRest<V>(fs: seq<Field<V>>, ids: set<nat>, rest: set<nat>)
    requires forall f :: f in fs ==> (f.id in ids <==> f.id !in rest)
    ensures Keep(fs, ids) == Drop(fs, rest)
  {
    if fs != [] {
      var n := |fs| - 1;
      assert fs[n] in fs;
      KeepIsDropOfTheRest(fs[..n], ids, rest);
    }
  }

  /** A sorted buffer is determined by the occurrences of its fields. */
  lemma {:induction false} SortedByValues<V>(a: seq<Field<V>>, b: seq<Field<V>>)
    requires Sorted(a) && Sorted(b)
    requires forall id :: Values(a, id) == Values(b, id)
    ensures a == b
  {
    if a == [] || b == [] {
      if a != [] { LastHasValue(a); assert false; }
      if b != [] { LastHasValue(b); assert false; }
    } else {
      var m, n := |a| - 1, |b| - 1;
      SameLast(a, b, a[..m], b[..n]);
      SortedParts(a, m);
      SortedParts(b, n);
      hide *;
      SortedByValues(a[..m], b[..n]);
      assert a == a[..m] + [a[m]];
      assert b == b[..n] + [b[n]];
    }
  }

  lemma SameLast<V>(a: seq<Field<V>>, b: seq<Field<V>>, a': seq<Field<V>>, b': seq<Field<V>>)
    requires Sorted(a) && Sorted(b) && a != [] && b != []
    requires a' == a[..|a| - 1] && b' == b[..|b| - 1]
    requires forall id :: Values(a, id) == Values(b, id)
    ensures a[|a| - 1] == b[|b| - 1]
    ensures forall id :: Values(a', id) == Values(b', id)
  {
    var m, n := |a| - 1, |b| - 1;
    LastHasValue(a);
    LastHasValue(b);
    LastIsGreatest(b, a[m].id);
    LastIsGreatest(a, b[n].id);
    ValuesOfLast(a);
    ValuesOfLast(b);
    hide *;
    var x := a[m].id;
    SameEnds(Values(a', x), a[m].value, Values(b', x), b[n].value);
    forall id ensures Values(a', id) == Values(b', id) {
      assert Values(a, id) == Values(b, id);
    }
  }

  lemma SameEnds<T>(a: seq<T>, x: T, b: seq<T>, y: T)
    requires a + [x] == b + [y]
    ensures a == b && x == y
  {
    assert a == (a + [x])[..|a|] && b == (b + [y])[..|b|];
    assert (a + [x])[|a|] == x && (b + [y])[|b|] == y;
  }

  lemma ValuesOfLast<V>(fs: seq<Field<V>>)
    requires fs != []
    ensures var n := |fs| - 1;
            forall id :: Values(fs, id) ==
              if fs[n].id == id then Values(fs[..n], id) + [fs[n].value] else Values(fs[..n], id)
  {
  }

  lemma LastHasValue<V>(fs: seq<Field<V>>)
    requires fs != []
    ensures Values(fs, fs[|fs| - 1].id) != []
  {
  }

  lemma {:induction false} LastIsGreatest<V>(fs: seq<Field<V>>, id: nat)
    requires Sorted(fs) && Values(fs, id) != []
    ensures fs != [] && id <= fs[|fs| - 1].id
  {
    var n := |fs| - 1;
    if fs[n].id != id {
      LastIsGreatest(fs[..n], id);
      assert fs[n - 1].id <= fs[n].id;
    }
  }

  /** Storing the same source twice changes nothing the second time. */
  lemma OverlayIdempotent<V>(dst: seq<Field<V>>, src: seq<Field<V>>)
    requires Sorted(dst)
    ensures Overlay(Overlay(dst, src), src) == Overlay(dst, src)
  {
    var once := Overlay(dst, src);
    OverlayValues(dst, src);
    OverlayValues(once, src);
    hide Values, Overlay;
    forall id ensures Values(Overlay(once, src), id) == Values(once, id) {
      var s, d := Values(src, id), Values(dst, id);
      assert Over(s, Over(s, d)) == Over(s, d);
    }
    SortedByValues(Overlay(once, src), once);
  }

  /** Adding a field no smaller than all others puts it last. */
  lemma PutLast<V>(fs: seq<Field<V>>, id: nat, v: V)
    requires Sorted(fs)
    requires fs != [] ==> fs[|fs| - 1].id <= id
    ensures Put(fs, id, -1, v) == fs + [Field(id, v)]
  {
    hide *;
    BelowIs(fs, id + 1, |fs|);
    ValuesAreARun(fs, id);
    var k, rest := PutShape(fs, id, -1, v);
    assert fs[rest..] == [];
  }
}
