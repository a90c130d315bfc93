/** Operations over whole fielded buffers: each reads a source buffer record by
    record, or deletes from a buffer while iterating over it. */
module BufferBulk {
  import opened Bytes
  import opened FieldSeq
  import opened Records
  import opened FieldedBuffer

  /** The two buffers share no memory. */
  ghost predicate Apart(dst: Fbfr32, src: Fbfr32) {
    && dst != src
    && dst.data != src.data
    && dst.offsets != src.offsets
    && dst.data as object != src.offsets as object
    && dst.offsets as object != src.data as object
  }

  lemma AreApart(dst: Fbfr32, src: Fbfr32)
    requires Apart(dst, src)
    ensures dst != src && dst.data != src.data && dst.offsets != src.offsets
    ensures dst.data as object != src.offsets as object && dst.offsets as object != src.data as object
  {
  }

  /** The occurrence counter kept while iterating is the occurrence number. */
  lemma CountsOccurrences<V>(fs: seq<Field<V>>, k: nat, prev: nat, oc: nat)
    requires Sorted(fs) && k < |fs|
    requires if k == 0 then prev == 0 else prev == fs[k - 1].id && oc == OccNo(fs, k - 1)
    requires fs[k].id != 0
    ensures OccNo(fs, k) == if fs[k].id != prev then 0 else oc + 1
  {
    var id := fs[k].id;
    if k > 0 && fs[k - 1].id == id {
      ValuesOfLast(fs[..k]);
      assert fs[..k][..k - 1] == fs[..k - 1];
    } else {
      SortedIsOrdered(fs);
      assert NoneIs(fs[..k], id) by {
        hide Values, Sorted;
        if k > 0 {
          assert forall i :: 0 <= i < k ==> fs[i].id <= fs[k - 1].id <= id;
        }
      }
      ValuesOfOthers(fs[..k], id);
    }
  }

  /** One turn of the loop that overlays `src`: the gap before the occurrence is never open. */
  lemma OverlayStep(dst: seq<Field<seq<byte>>>, src: seq<Field<seq<byte>>>, k: nat)
    requires Sorted(dst) && k < |src|
    ensures var acc := Overlay(dst, src[..k]);
            && OccNo(src, k) <= |Values(acc, src[k].id)|
            && Overlay(dst, src[..k + 1]) == Put(acc, src[k].id, OccNo(src, k), src[k].value)
  {
    hide *;
    OverlayValues(dst, src[..k]);
    OccNoIs(src, k);
    OverlayNext(dst, src, k);
  }

  lemma OverlayNext(dst: seq<Field<seq<byte>>>, src: seq<Field<seq<byte>>>, k: nat)
    requires k < |src|
    ensures Overlay(dst, src[..k + 1]) == Put(Overlay(dst, src[..k]), src[k].id, OccNo(src, k), src[k].value)
    ensures forall s: seq<seq<byte>>, d: seq<seq<byte>> :: |s| <= |Over(s, d)|
  {
    var p := src[..k + 1];
    assert p[..k] == src[..k] && p[k] == src[k];
    hide Put, Values;
  }

  lemma OccNoIs<V>(fs: seq<Field<V>>, k: nat)
    requires k < |fs|
    ensures OccNo(fs, k) == |Values(fs[..k], fs[k].id)|
  {
  }

  /** Stores every occurrence of `src` under its own number; `done` source fields were stored. */
  method Update(dst: Fbfr32, src: Fbfr32) returns (status: Status, ghost done: nat)
    requires dst.Valid() && src.Valid() && Apart(dst, src)
    modifies dst, dst.data, dst.offsets
    ensures dst.Valid() && done <= |src.Fields()|
    ensures dst.Fields() == Overlay(old(dst.Fields()), src.Fields()[..done])
    ensures status == Done <==> done == |src.Fields()|
    ensures status != Done ==>
              && status == NoSpace && done < |src.Fields()|
              && TotalSize(Overlay(old(dst.Fields()), src.Fields()[..done + 1])) > dst.data.Length
  {
    hide *;
    AreApart(dst, src);
    ghost var fs, from := dst.Fields(), src.Fields();
    src.Ends();
    dst.Ends();
    OverlayNone(fs, from);
    var pos, prev, oc := 0, 0, 0;
    done := 0;
    while pos != -1 && pos < src.len
      invariant dst.Valid() && src.Valid() && src.Fields() == from && src.recs == old(src.recs)
      invariant done <= |from| == |src.recs|
      invariant pos == if done == |from| && done > 0 then -1 else Off(src.recs, done)
      invariant done > 0 ==> prev == from[done - 1].id && oc == OccNo(from, done - 1)
      invariant done == 0 ==> prev == 0
      invariant dst.Fields() == Overlay(fs, from[..done])
      decreases |from| - done
    {
      src.Ends();
      src.Current(done);
      NotZero(from[done].id);
      CountsOccurrences(from, done, prev, oc);
      var id := src.IdAt(pos);
      if id != prev {
        oc, prev := 0, id;
      } else {
        oc := oc + 1;
      }
      OverlayStep(fs, from, done);
      var v := src.ValueAt(pos);
      ReadBack(id, v);
      ghost var filled;
      dst.SameCount(id);
      ChangedSize(dst.Fields(), id, oc, v);
      status, filled := dst.Chg(id, oc, v, |v|);
      if status != Done {
        return;
      }
      pos := src.NextPos(pos, done);
      done := done + 1;
    }
    src.Ends();
    status := Done;
    assert from[..done] == from;
  }

  lemma OverlayPresentStep(dst: seq<Field<seq<byte>>>, src: seq<Field<seq<byte>>>, k: nat)
    requires k < |src|
    ensures var acc := OverlayPresent(dst, src[..k]);
            OverlayPresent(dst, src[..k + 1]) ==
            if OccNo(src, k) < |Values(acc, src[k].id)| then Put(acc, src[k].id, OccNo(src, k), src[k].value) else acc
    ensures OverlayPresent(dst, src[..0]) == dst
  {
    var p := src[..k + 1];
    assert p[..k] == src[..k] && p[k] == src[k];
    hide Put, Values;
  }

  /** Overwrites the occurrences that both buffers have; `done` source fields were looked at. */
  method OJoin(dst: Fbfr32, src: Fbfr32) returns (status: Status, ghost done: nat)
    requires dst.Valid() && src.Valid() && Apart(dst, src)
    modifies dst, dst.data, dst.offsets
    ensures dst.Valid() && done <= |src.Fields()|
    ensures dst.Fields() == OverlayPresent(old(dst.Fields()), src.Fields()[..done])
    ensures status == Done <==> done == |src.Fields()|
    ensures status != Done ==>
              && status == NoSpace && done < |src.Fields()|
              && TotalSize(OverlayPresent(old(dst.Fields()), src.Fields()[..done + 1])) > dst.data.Length
  {
    hide *;
    AreApart(dst, src);
    ghost var fs, from := dst.Fields(), src.Fields();
    src.Ends();
    OverlayNone(fs, from);
    var pos, prev, oc := 0, 0, 0;
    done := 0;
    while pos != -1 && pos < src.len
      invariant dst.Valid() && src.Valid() && src.Fields() == from && src.recs == old(src.recs)
      invariant done <= |from| == |src.recs|
      invariant pos == if done == |from| && done > 0 then -1 else Off(src.recs, done)
      invariant done > 0 ==> prev == from[done - 1].id && oc == OccNo(from, done - 1)
      invariant done == 0 ==> prev == 0
      invariant dst.Fields() == OverlayPresent(fs, from[..done])
      decreases |from| - done
    {
      src.Ends();
      src.Current(done);
      NotZero(from[done].id);
      CountsOccurrences(from, done, prev, oc);
      var id := src.IdAt(pos);
      if id != prev {
        oc, prev := 0, id;
      } else {
        oc := oc + 1;
      }
      OverlayPresentStep(fs, from, done);
      dst.SameCount(id);
      var there := dst.Pres(id, oc);
      if there {
        var v := src.ValueAt(pos);
        ReadBack(id, v);
        ghost var filled;
        ChangedSize(dst.Fields(), id, oc, v);
        status, filled := dst.Chg(id, oc, v, |v|);
        if status != Done {
          return;
        }
      }
      pos := src.NextPos(pos, done);
      done := done + 1;
    }
    src.Ends();
    status := Done;
    assert from[..done] == from;
  }

  lemma AppendStep(dst: seq<Field<seq<byte>>>, src: seq<Field<seq<byte>>>, k: nat)
    requires Sorted(dst) && k < |src|
    ensures Append(dst, src[..0]) == dst
    ensures Append(dst, src[..k + 1]) == Put(Append(dst, src[..k]), src[k].id, -1, src[k].value)
    ensures TotalSize(Append(dst, src[..k + 1])) == TotalSize(Append(dst, src[..k])) + FieldSize(src[k])
    ensures TotalSize(src[..k + 1]) == TotalSize(src[..k]) + FieldSize(src[k])
  {
    AppendValues(dst, src[..k]);
    TotalPut(Append(dst, src[..k]), src[k].id, -1, src[k].value);
    var p := src[..k + 1];
    assert p[..k] == src[..k] && p[k] == src[k];
    hide Put, Values, FieldSize, Sorted;
  }

  lemma {:induction false} PrefixSize(fs: seq<Field<seq<byte>>>, k: nat)
    requires k <= |fs|
    ensures TotalSize(fs[..k]) <= TotalSize(fs)
    ensures fs[..|fs|] == fs && TotalSize(fs[..0]) == 0
  {
    assert fs[..|fs|] == fs;
    if k < |fs| {
      PrefixSize(fs[..|fs| - 1], k);
      assert fs[..|fs| - 1][..k] == fs[..k];
    }
  }

  /** Adds every field of `src` behind the fields of the same id. Nothing is changed unless all
      of them fit, with room for another buffer header to spare. */
  method Concat(dst: Fbfr32, src: Fbfr32) returns (status: Status)
    requires dst.Valid() && src.Valid() && Apart(dst, src)
    modifies dst, dst.data, dst.offsets
    ensures dst.Valid()
    ensures if old(dst.Unused()) < src.Used() then
              status == NoSpace && dst.recs == old(dst.recs) && dst.data[..] == old(dst.data[..])
            else
              && status == Done
              && dst.Fields() == Append(old(dst.Fields()), src.Fields())
              && dst.len == old(dst.len) + src.len
  {
    hide *;
    AreApart(dst, src);
    ghost var fs, from := dst.Fields(), src.Fields();
    src.Ends();
    dst.Ends();
    Rooms(dst, src);
    if dst.Unused() < src.Used() {
      return NoSpace;
    }
    PrefixSize(from, 0);
    var pos := 0;
    ghost var done := 0;
    AppendNone(fs, from);
    while pos != -1 && pos < src.len
      invariant dst.Valid() && src.Valid() && src.Fields() == from && src.recs == old(src.recs)
      invariant src.len == old(src.len)
      invariant done <= |from| == |src.recs|
      invariant pos == if done == |from| && done > 0 then -1 else Off(src.recs, done)
      invariant dst.Fields() == Append(fs, from[..done])
      invariant TotalSize(Append(fs, from[..done])) == TotalSize(fs) + TotalSize(from[..done])
      decreases |from| - done
    {
      src.Ends();
      src.Current(done);
      AppendStep(fs, from, done);
      PrefixSize(from, done + 1);
      var id, v := src.IdAt(pos), src.ValueAt(pos);
      ReadBack(id, v);
      dst.SameCount(id);
      var count := dst.Occur(id);
      ChangedSize(dst.Fields(), id, count, v);
      PutPastEnd(dst.Fields(), id, count, v);
      ghost var filled;
      status, filled := dst.Chg(id, count, v, |v|);
      pos := src.NextPos(pos, done);
      done := done + 1;
    }
    src.Ends();
    PrefixSize(from, done);
    dst.Ends();
    status := Done;
  }

  lemma Rooms(dst: Fbfr32, src: Fbfr32)
    ensures dst.Unused() == dst.data.Length - dst.len && src.Used() == src.len + HEADER
  {
  }

  lemma AppendNone(fs: seq<Field<seq<byte>>>, from: seq<Field<seq<byte>>>)
    ensures Append(fs, from[..0]) == fs
  {
  }

  lemma KeepStep(from: seq<Field<seq<byte>>>, ids: set<nat>, k: nat)
    requires Sorted(from) && k < |from|
    ensures Keep(from[..0], ids) == []
    ensures Sorted(Keep(from[..k], ids))
    ensures from[k].id in ids ==> Keep(from[..k + 1], ids) == Put(Keep(from[..k], ids), from[k].id, -1, from[k].value)
    ensures from[k].id !in ids ==> Keep(from[..k + 1], ids) == Keep(from[..k], ids)
  {
    hide *;
    SortedParts(from, k);
    SortedParts(from, k + 1);
    KeepDropSorted(from[..k], ids);
    var p := from[..k + 1];
    assert p[..k] == from[..k] && p[k] == from[k];
    KeepDropLast(p, ids);
    KeepDropLast(from[..0], ids);
    KeepDropBounded(p, ids);
    var kept := Keep(from[..k], ids);
    assert kept != [] ==> kept[|kept| - 1] in kept;
    PutLast(kept, from[k].id, from[k].value);
    assert Field(from[k].id, from[k].value) == from[k];
  }

  lemma {:induction false} KeepSize(from: seq<Field<seq<byte>>>, ids: set<nat>, k: nat)
    requires k <= |from|
    ensures TotalSize(Keep(from[..k], ids)) <= TotalSize(Keep(from, ids))
  {
    hide *;
    if k < |from| {
      var n := |from| - 1;
      KeepSize(from[..n], ids, k);
      assert from[..n][..k] == from[..k];
      KeepDropLast(from, ids);
      TotalConcat(Keep(from[..n], ids), [from[n]]);
    } else {
      assert from[..k] == from;
    }
  }

  /** Copies the listed fields into an emptied buffer. */
  method ProjCpy(dst: Fbfr32, src: Fbfr32, ids: set<nat>) returns (status: Status, ghost done: nat)
    requires dst.Valid() && src.Valid() && Apart(dst, src)
    modifies dst, dst.data, dst.offsets
    ensures dst.Valid() && done <= |src.Fields()|
    ensures dst.Fields() == Keep(src.Fields()[..done], ids)
    ensures status == Done <==> done == |src.Fields()|
    ensures status == Done ==> dst.Fields() == Keep(src.Fields(), ids)
    ensures status == Done <==> TotalSize(Keep(src.Fields(), ids)) <= dst.data.Length
    ensures status != Done ==>
              && status == NoSpace && done < |src.Fields()|
              && TotalSize(Keep(src.Fields()[..done + 1], ids)) > dst.data.Length
  {
    hide *;
    AreApart(dst, src);
    ghost var from := src.Fields();
    src.Ends();
    dst.Init();
    var pos := 0;
    done := 0;
    Emptied(dst, from, ids);
    while pos != -1 && pos < src.len
      invariant dst.Valid() && src.Valid() && src.Fields() == from && src.recs == old(src.recs)
      invariant src.len == old(src.len)
      invariant done <= |from| == |src.recs|
      invariant pos == if done == |from| && done > 0 then -1 else Off(src.recs, done)
      invariant dst.Fields() == Keep(from[..done], ids)
      decreases |from| - done
    {
      src.Ends();
      src.Current(done);
      KeepStep(from, ids, done);
      KeepSize(from, ids, done + 1);
      var id, v := src.IdAt(pos), src.ValueAt(pos);
      if id in ids {
        ReadBack(id, v);
        dst.SameCount(id);
        var count := dst.Occur(id);
        ChangedSize(dst.Fields(), id, count, v);
        PutPastEnd(dst.Fields(), id, count, v);
        ghost var filled;
        status, filled := dst.Chg(id, count, v, |v|);
        if status != Done {
          return;
        }
      }
      pos := src.NextPos(pos, done);
      done := done + 1;
    }
    src.Ends();
    dst.Ends();
    assert from[..done] == from;
    status := Done;
  }

  lemma Emptied(dst: Fbfr32, from: seq<Field<seq<byte>>>, ids: set<nat>)
    requires dst.recs == []
    ensures dst.Fields() == Keep(from[..0], ids)
  {
  }

  lemma OverlayNone(fs: seq<Field<seq<byte>>>, from: seq<Field<seq<byte>>>)
    ensures Overlay(fs, from[..0]) == fs && OverlayPresent(fs, from[..0]) == fs
  {
  }

  // ---- deleting while iterating ----

  ghost predicate AllIn<V>(fs: seq<Field<V>>, ids: set<nat>) {
    forall i :: 0 <= i < |fs| ==> fs[i].id in ids
  }

  lemma {:induction false} KeepAll<V>(fs: seq<Field<V>>, ids: set<nat>)
    requires AllIn(fs, ids)
    ensures Keep(fs, ids) == fs
  {
    if fs != [] {
      var n := |fs| - 1;
      KeepAll(fs[..n], ids);
      assert fs == fs[..n] + [fs[n]];
    }
  }

  lemma {:induction false} KeepOfDrop<V>(fs: seq<Field<V>>, ids: set<nat>, id: nat)
    requires id !in ids
    ensures Keep(Drop(fs, {id}), ids) == Keep(fs, ids)
  {
    hide *;
    KeepDropLast(fs, {id});
    KeepDropLast(fs, ids);
    if fs != [] {
      var n := |fs| - 1;
      KeepOfDrop(fs[..n], ids, id);
      if fs[n].id != id {
        var d := Drop(fs[..n], {id});
        KeepDropLast(d + [fs[n]], ids);
        assert (d + [fs[n]])[..|d|] == d;
      }
    }
  }

  /** Deleting the field a loop stands on leaves what is before the loop's position alone. */
  lemma DeleteHere(rs: seq<Rec>, k: nat, ids: set<nat>)
    requires Sorted(rs) && k < |rs| && AllIn(rs[..k], ids) && rs[k].id !in ids
    ensures var out := Drop(rs, {rs[k].id});
            && k <= |out| < |rs|
            && out[..k] == rs[..k]
            && Off(out, k) == Off(rs, k)
            && Keep(out, ids) == Keep(rs, ids)
  {
    hide *;
    var id := rs[k].id;
    KeepOfDrop(rs, ids, id);
    CutAllIsDrop(rs, id);
    FirstOfRun(rs, k, ids);
    CutBehind(rs, k, Below(rs, id + 1));
    SameFront(rs, Drop(rs, {id}), k);
  }

  lemma CutBehind(rs: seq<Rec>, k: nat, hi: nat)
    requires k < hi <= |rs|
    ensures k <= |Cut(rs, k, hi)| < |rs| && Cut(rs, k, hi)[..k] == rs[..k]
  {
  }

  lemma SameFront(rs: seq<Rec>, out: seq<Rec>, k: nat)
    requires k <= |rs| && k <= |out| && out[..k] == rs[..k]
    ensures Off(out, k) == Off(rs, k)
  {
    hide Flat;
  }

  /** Removes, in place, the fields that are not listed. */
  method Proj(buf: Fbfr32, ids: set<nat>)
    requires buf.Valid()
    modifies buf, buf.data, buf.offsets
    ensures buf.Valid()
    ensures buf.recs == Keep(old(buf.recs), ids)
    ensures buf.Fields() == Keep(old(buf.Fields()), ids)
  {
    hide *;
    ghost var all := buf.recs;
    buf.Ends();
    var pos := 0;
    ghost var k := 0;
    NoneYet(buf.recs, ids);
    while pos != -1 && pos < buf.len
      invariant buf.Valid() && k <= |buf.recs|
      invariant pos == (if pos == -1 then -1 else Off(buf.recs, k)) && (pos == -1 ==> k == |buf.recs|)
      invariant AllIn(buf.recs[..k], ids)
      invariant Keep(buf.recs, ids) == Keep(all, ids)
      decreases |buf.recs| - k
    {
      buf.Ends();
      buf.Current(k);
      var id := buf.IdAt(pos);
      if id !in ids {
        DeleteHere(buf.recs, k, ids);
        var status := buf.DelAll(id);
      } else {
        pos := buf.NextPos(pos, k);
        k := k + 1;
        OneMoreIn(buf.recs, k, ids);
      }
    }
    buf.Ends();
    assert buf.recs[..k] == buf.recs;
    KeepAll(buf.recs, ids);
    ViewKeep(all, ids);
  }

  lemma NoneYet(rs: seq<Rec>, ids: set<nat>)
    ensures AllIn(rs[..0], ids)
  {
  }

  lemma OneMoreIn(rs: seq<Rec>, k: nat, ids: set<nat>)
    requires 0 < k <= |rs| && AllIn(rs[..k - 1], ids) && rs[k - 1].id in ids
    ensures AllIn(rs[..k], ids)
  {
    assert rs[..k] == rs[..k - 1] + [rs[k - 1]];
  }

  lemma {:induction false} ViewKeep(rs: seq<Rec>, ids: set<nat>)
    ensures View(Keep(rs, ids)) == Keep(View(rs), ids)
    ensures View(Drop(rs, ids)) == Drop(View(rs), ids)
  {
    hide *;
    KeepDropLast(rs, ids);
    KeepDropLast(View(rs), ids);
    if rs != [] {
      var n := |rs| - 1;
      ViewKeep(rs[..n], ids);
      ViewSlice(rs, 0, n);
      ViewSlice(rs, n, |rs|);
      ViewConcat(Keep(rs[..n], ids), [rs[n]]);
      ViewConcat(Drop(rs[..n], ids), [rs[n]]);
      assert rs[n..] == [rs[n]];
      assert View(rs)[n..] == [View(rs)[n]];
    } else {
      assert View(rs) == [];
    }
  }

  ghost function IdsOf(rs: seq<Rec>): (ids: set<nat>)
    ensures AllIn(rs, ids)
  {
    set i | 0 <= i < |rs| :: rs[i].id
  }

  lemma DropStaysIn(rs: seq<Rec>, id: nat, ids: set<nat>)
    requires AllIn(rs, ids)
    ensures AllIn(Drop(rs, {id}), ids)
  {
    KeepDropMembers(rs, {id});
    hide Drop;
    forall i | 0 <= i < |Drop(rs, {id})| ensures Drop(rs, {id})[i].id in ids {
      assert Drop(rs, {id})[i] in rs;
    }
  }

  lemma KeepTheRest(rs: seq<Rec>, ids: set<nat>)
    ensures Keep(rs, IdsOf(rs) - ids) == Drop(rs, ids)
  {
    hide Keep, Drop;
    forall f | f in rs ensures f.id in IdsOf(rs) - ids <==> f.id !in ids {
      var i :| 0 <= i < |rs| && rs[i] == f;
      assert rs[i].id in IdsOf(rs);
    }
    KeepIsDropOfTheRest(rs, IdsOf(rs) - ids, ids);
  }

  /** Removes, in place, the listed fields. */
  method XDelete(buf: Fbfr32, ids: set<nat>)
    requires buf.Valid()
    modifies buf, buf.data, buf.offsets
    ensures buf.Valid()
    ensures buf.recs == Drop(old(buf.recs), ids)
    ensures buf.Fields() == Drop(old(buf.Fields()), ids)
  {
    hide *;
    ghost var all := buf.recs;
    ghost var any := IdsOf(all);
    ghost var rest := any - ids;
    buf.Ends();
    var pos := 0;
    ghost var k := 0;
    NoneYet(buf.recs, rest);
    while pos != -1 && pos < buf.len
      invariant buf.Valid() && k <= |buf.recs|
      invariant pos == (if pos == -1 then -1 else Off(buf.recs, k)) && (pos == -1 ==> k == |buf.recs|)
      invariant AllIn(buf.recs[..k], rest) && AllIn(buf.recs, any)
      invariant Keep(buf.recs, rest) == Keep(all, rest)
      decreases |buf.recs| - k
    {
      buf.Ends();
      buf.Current(k);
      var id := buf.IdAt(pos);
      IsIn(buf.recs, any, k);
      if id in ids {
        DeleteHere(buf.recs, k, rest);
        DropStaysIn(buf.recs, id, any);
        var status := buf.DelAll(id);
      } else {
        pos := buf.NextPos(pos, k);
        k := k + 1;
        OneMoreIn(buf.recs, k, rest);
      }
    }
    buf.Ends();
    assert buf.recs[..k] == buf.recs;
    KeepAll(buf.recs, rest);
    KeepTheRest(all, ids);
    ViewKeep(all, ids);
  }

  // ---- the removal as it is coded ----

  /** Up to record `m`: behind a field that goes, a field of the same type follows, or none. */
  ghost predicate EndInType(rs: seq<Rec>, ids: set<nat>, listed: bool, m: nat) {
    forall k :: 0 < k < |rs| && k <= m && rs[k - 1].id != rs[k].id && Goes(rs[k - 1].id, ids, listed) ==>
      FldType(rs[k].id) == FldType(rs[k - 1].id)
  }

  predicate Goes(id: nat, ids: set<nat>, listed: bool) { (id in ids) == listed }

  function Remaining(rs: seq<Rec>, ids: set<nat>, listed: bool): seq<Rec> {
    if listed then Drop(rs, ids) else Keep(rs, ids)
  }

  /** Proj, and XDelete when `listed`, with the removal as it is coded, up to the first one that
      leaves the offset table wrong. There is none if and only if each field that goes is followed
      by one of its own type or is the last. */
  method RemoveAsWritten(buf: Fbfr32, ids: set<nat>, listed: bool) returns (right: bool)
    requires buf.Valid()
    modifies buf, buf.data, buf.offsets
    ensures right <==> buf.Valid()
    ensures right <==> EndInType(old(buf.recs), ids, listed, |old(buf.recs)|)
    ensures right ==> buf.recs == Remaining(old(buf.recs), ids, listed)
  {
    hide *;
    ghost var all := buf.recs;
    buf.Ends();
    var pos := 0;
    ghost var k := 0;
    NothingRemoved(all, ids, listed);
    while pos != -1 && pos < buf.len
      invariant buf.Valid() && k <= |buf.recs|
      invariant pos == (if pos == -1 then -1 else Off(buf.recs, k)) && (pos == -1 ==> k == |buf.recs|)
      invariant RemovedTo(buf.recs, all, k, ids, listed)
      decreases |buf.recs| - k
    {
      buf.Ends();
      buf.Current(k);
      var id := buf.IdAt(pos);
      GoesIs(id, ids, listed);
      if (id in ids) == listed {
        RemoveRun(buf.recs, all, k, ids, listed);
        var status, type_ := buf.DelAllAsWritten(id);
        if type_ != FldType(id) {
          return false;
        }
      } else {
        LeaveOne(buf.recs, all, k, ids, listed);
        pos := buf.NextPos(pos, k);
        k := k + 1;
      }
    }
    buf.Ends();
    AllRemoved(buf.recs, all, ids, listed);
    right := true;
  }

  ghost function Staying(all: seq<Rec>, ids: set<nat>, listed: bool): set<nat> {
    set id | id in IdsOf(all) && !Goes(id, ids, listed)
  }

  /** The loop stands on record `k`: what is in front of it stays, what is behind is as it was. */
  ghost predicate RemovedTo(rs: seq<Rec>, all: seq<Rec>, k: nat, ids: set<nat>, listed: bool) {
    && k <= |rs| <= |all|
    && AllIn(rs[..k], Staying(all, ids, listed)) && AllIn(rs, IdsOf(all))
    && Keep(rs, Staying(all, ids, listed)) == Keep(all, Staying(all, ids, listed))
    && rs[k..] == all[|all| - |rs| + k..]
    && EndInType(all, ids, listed, |all| - |rs| + k)
  }

  lemma NothingRemoved(all: seq<Rec>, ids: set<nat>, listed: bool)
    ensures RemovedTo(all, all, 0, ids, listed)
  {
    hide Keep, IdsOf;
  }

  lemma LeaveOne(rs: seq<Rec>, all: seq<Rec>, k: nat, ids: set<nat>, listed: bool)
    requires RemovedTo(rs, all, k, ids, listed) && k < |rs| && !Goes(rs[k].id, ids, listed)
    ensures RemovedTo(rs, all, k + 1, ids, listed)
  {
    hide Keep, IdsOf, Goes, EndInType;
    TailAt(rs, all, k, k + 1);
    IsIn(rs, IdsOf(all), k);
    OneMoreIn(rs, k + 1, Staying(all, ids, listed));
    NextStays(all, |all| - |rs| + k, ids, listed);
  }

  lemma RemoveRun(rs: seq<Rec>, all: seq<Rec>, k: nat, ids: set<nat>, listed: bool)
    requires Sorted(rs) && RemovedTo(rs, all, k, ids, listed) && k < |rs| && Goes(rs[k].id, ids, listed)
    ensures var id, hi, out := rs[k].id, Below(rs, rs[k].id + 1), Drop(rs, {rs[k].id});
            && hi <= |rs| && Values(rs, id) != [] && k <= |out| < |rs| && Off(out, k) == Off(rs, k)
            && var same := FldType(if hi == |rs| then id else rs[hi].id) == FldType(id);
               && (same ==> RemovedTo(out, all, k, ids, listed))
               && (!same ==> !EndInType(all, ids, listed, |all|))
  {
    hide Keep, Drop, IdsOf, Goes, EndInType, Below, Values, Sorted, FldType, Flat;
    var rest := Staying(all, ids, listed);
    DeleteHere(rs, k, rest);
    DropStaysIn(rs, rs[k].id, IdsOf(all));
    RunIsChecked(rs, all, k, ids, listed, rest);
  }

  lemma AllRemoved(rs: seq<Rec>, all: seq<Rec>, ids: set<nat>, listed: bool)
    requires RemovedTo(rs, all, |rs|, ids, listed)
    ensures rs == Remaining(all, ids, listed) && EndInType(all, ids, listed, |all|)
  {
    hide Keep, Drop, IdsOf, Goes, EndInType, Remaining;
    assert rs[..|rs|] == rs;
    KeepAll(rs, Staying(all, ids, listed));
    StayingIsRemaining(all, ids, listed, Staying(all, ids, listed));
  }

  lemma GoesIs(id: nat, ids: set<nat>, listed: bool)
    ensures Goes(id, ids, listed) <==> (id in ids) == listed
  {
  }

  lemma StayingIsRemaining(rs: seq<Rec>, ids: set<nat>, listed: bool, rest: set<nat>)
    requires forall id :: id in rest <==> id in IdsOf(rs) && !Goes(id, ids, listed)
    ensures Keep(rs, rest) == Remaining(rs, ids, listed)
  {
    hide Keep, Drop, IdsOf;
    if listed {
      assert rest == IdsOf(rs) - ids;
      KeepTheRest(rs, ids);
    } else {
      forall f | f in rs ensures f.id in rest <==> f.id in ids {
        var i :| 0 <= i < |rs| && rs[i] == f;
        IsIn(rs, IdsOf(rs), i);
      }
      KeepSame(rs, rest, ids);
    }
  }

  lemma {:induction false} KeepSame(rs: seq<Rec>, a: set<nat>, b: set<nat>)
    requires forall f :: f in rs ==> (f.id in a <==> f.id in b)
    ensures Keep(rs, a) == Keep(rs, b)
  {
    hide *;
    KeepDropLast(rs, a);
    KeepDropLast(rs, b);
    if rs != [] {
      var n := |rs| - 1;
      assert rs[n] in rs;
      KeepSame(rs[..n], a, b);
    }
  }

  /** A record that stays has nothing to be checked behind it. */
  lemma NextStays(all: seq<Rec>, m: nat, ids: set<nat>, listed: bool)
    requires m < |all| && EndInType(all, ids, listed, m) && !Goes(all[m].id, ids, listed)
    ensures EndInType(all, ids, listed, m + 1)
  {
  }

  /** The run that goes starts at `k`: what there is to check is the record behind it. */
  lemma RunIsChecked(rs: seq<Rec>, all: seq<Rec>, k: nat, ids: set<nat>, listed: bool, rest: set<nat>)
    requires Sorted(rs) && k < |rs| <= |all| && AllIn(rs[..k], rest) && rs[k].id !in rest
    requires rs[k..] == all[|all| - |rs| + k..]
    requires EndInType(all, ids, listed, |all| - |rs| + k) && Goes(rs[k].id, ids, listed)
    ensures var hi := Below(rs, rs[k].id + 1);
            var out := Drop(rs, {rs[k].id});
            && hi <= |rs| && Values(rs, rs[k].id) != [] && |out| == |rs| - hi + k
            && out[k..] == all[|all| - |out| + k..]
            && var same := FldType(if hi == |rs| then rs[k].id else rs[hi].id) == FldType(rs[k].id);
               && (same ==> EndInType(all, ids, listed, |all| - |rs| + hi))
               && (!same ==> !EndInType(all, ids, listed, |all|))
  {
    hide *;
    var id := rs[k].id;
    var hi, d := Below(rs, id + 1), |all| - |rs|;
    var out := Drop(rs, {id});
    FirstOfRun(rs, k, rest);
    CutAllIsDrop(rs, id);
    CutTail(rs, k, hi);
    TailAt(rs, all, k, hi);
    CheckRun(all, ids, listed, d + k, d + hi);
  }

  lemma FirstOfRun(rs: seq<Rec>, k: nat, rest: set<nat>)
    requires Sorted(rs) && k < |rs| && AllIn(rs[..k], rest) && rs[k].id !in rest
    ensures var id, hi := rs[k].id, Below(rs, rs[k].id + 1);
            && Below(rs, id) == k < hi <= |rs| && Values(rs, id) != []
            && (forall i :: k <= i < hi ==> rs[i].id == id) && (hi < |rs| ==> rs[hi].id != id)
  {
    hide Below, Sorted, Values;
    var id := rs[k].id;
    var lo := Below(rs, id);
    ValuesAreARun(rs, id);
    BelowSplits(rs, id);
    BelowSplits(rs, id + 1);
    InFront(rs, k, rest);
    assert lo <= k && rs[lo].id == id;
  }

  lemma InFront(rs: seq<Rec>, k: nat, ids: set<nat>)
    requires k <= |rs| && AllIn(rs[..k], ids)
    ensures forall i :: 0 <= i < k ==> rs[i].id in ids
  {
    forall i | 0 <= i < k ensures rs[i].id in ids {
      assert rs[..k][i] == rs[i];
    }
  }

  lemma CutTail(rs: seq<Rec>, k: nat, hi: nat)
    requires k <= hi <= |rs|
    ensures |Cut(rs, k, hi)| == |rs| - hi + k && Cut(rs, k, hi)[k..] == rs[hi..]
  {
  }

  lemma TailAt(rs: seq<Rec>, all: seq<Rec>, k: nat, hi: nat)
    requires k <= hi <= |rs| <= |all| && rs[k..] == all[|all| - |rs| + k..]
    ensures rs[hi..] == all[|all| - |rs| + hi..]
    ensures forall i :: k <= i < |rs| ==> all[|all| - |rs| + i] == rs[i]
  {
    forall i | k <= i < |rs| ensures all[|all| - |rs| + i] == rs[i] {
      assert rs[k..][i - k] == all[|all| - |rs| + k..][i - k];
    }
  }

  lemma CheckRun(all: seq<Rec>, ids: set<nat>, listed: bool, m: nat, n: nat)
    requires m < n <= |all| && EndInType(all, ids, listed, m) && Goes(all[m].id, ids, listed)
    requires forall i :: m <= i < n ==> all[i].id == all[m].id
    requires n < |all| ==> all[n].id != all[m].id
    ensures var same := n == |all| || FldType(all[n].id) == FldType(all[m].id);
            && (same ==> EndInType(all, ids, listed, n))
            && (!same ==> !EndInType(all, ids, listed, |all|))
  {
    hide FldType, Goes;
    assert all[n - 1].id == all[m].id;
  }

  lemma IsIn(rs: seq<Rec>, ids: set<nat>, k: nat)
    requires AllIn(rs, ids) && k < |rs|
    ensures rs[k].id in ids
  {
  }

  lemma NotZero(id: nat)
    requires ValidId(id)
    ensures id != 0
  {
  }

  lemma ReadBack(id: nat, v: seq<byte>)
    requires Storable(id, v)
    ensures ValidId(id) && ValidType(FldType(id)) && Readable(FldType(id), v, |v|)
    ensures Stored(FldType(id), v, |v|) == v
  {
  }
}
