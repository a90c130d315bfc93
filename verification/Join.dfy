/** Join: its first loop deletes while it iterates, and keeps counting after a deletion. The
    deletions are those of the removal as it is coded. */
module BufferJoin {
  import opened Bytes
  import opened Wrappers
  import opened FieldSeq
  import opened Records
  import opened FieldedBuffer
  import opened BufferBulk

  /** No field has two occurrences more than the other buffer has. */
  ghost predicate AtMostOneMore(rs: seq<Rec>, theirs: seq<Rec>) {
    forall id :: |Values(rs, id)| <= |Values(theirs, id)| + 1
  }

  /** What is left of a field: the occurrences that the other buffer has too. */
  function Common<V>(mine: seq<V>, theirs: seq<V>): (r: seq<V>) {
    if |mine| <= |theirs| then mine else mine[..|theirs|]
  }

  /** Some fields have lost their one occurrence too many. */
  ghost predicate SurplusGone(rs: seq<Rec>, all: seq<Rec>, theirs: seq<Rec>) {
    forall id ::
      || Values(rs, id) == Values(all, id)
      || (|Values(all, id)| == |Values(theirs, id)| + 1 && Values(rs, id) == Values(all, id)[..|Values(theirs, id)|])
  }

  /** Up to record `m`: behind a field with an occurrence too many comes one of its type, or none. */
  ghost predicate SurplusInType(all: seq<Rec>, theirs: seq<Rec>, m: nat) {
    forall k :: 0 < k < |all| && k <= m && all[k - 1].id != all[k].id
                && |Values(all, all[k - 1].id)| > |Values(theirs, all[k - 1].id)| ==>
      FldType(all[k].id) == FldType(all[k - 1].id)
  }

  /** From record `k` on everything is as it was. */
  ghost predicate Untouched(rs: seq<Rec>, all: seq<Rec>, k: nat) {
    && k <= |rs| <= |all|
    && rs[k..] == all[|all| - |rs| + k..]
    && forall j :: k <= j < |rs| ==> Values(rs, rs[j].id) == Values(all, rs[j].id)
  }

  /** The records in front of `k` are occurrences that the other buffer has too. */
  ghost predicate AllCommon(rs: seq<Rec>, k: nat, theirs: seq<Rec>)
    requires k <= |rs|
  {
    forall i :: 0 <= i < k ==> OccNo(rs, i) < |Values(theirs, rs[i].id)|
  }

  /** The counter gives record `k` its right number. */
  ghost predicate Ready(rs: seq<Rec>, k: nat, prev: nat, oc: nat) {
    k < |rs| ==>
      if rs[k].id == prev then k > 0 && rs[k - 1].id == prev && oc == OccNo(rs, k - 1)
      else k == 0 || rs[k - 1].id < rs[k].id
  }

  /** Record `k` is one too many, and the counter is past it for good. */
  ghost predicate Stuck(rs: seq<Rec>, k: nat, prev: nat, oc: nat, theirs: seq<Rec>) {
    k < |rs| && rs[k].id == prev && OccNo(rs, k) == |Values(theirs, prev)| <= oc
  }

  /** The loop stands on record `k` and gets on. */
  ghost predicate Going(rs: seq<Rec>, all: seq<Rec>, k: nat, prev: nat, oc: nat, theirs: seq<Rec>) {
    && k <= |rs| <= |all|
    && Ready(rs, k, prev, oc) && AllCommon(rs, k, theirs) && SurplusGone(rs, all, theirs)
    && Untouched(rs, all, k) && SurplusInType(all, theirs, |all| - |rs| + k)
  }

  lemma OccNoIsPlace(rs: seq<Rec>, k: nat)
    requires Sorted(rs) && k < |rs|
    ensures var id := rs[k].id;
            k == Below(rs, id) + OccNo(rs, k) < Below(rs, id) + |Values(rs, id)| <= |rs|
    ensures forall i :: Below(rs, rs[k].id) <= i < Below(rs, rs[k].id) + |Values(rs, rs[k].id)| ==> rs[i].id == rs[k].id
    ensures forall i :: 0 <= i < |rs| && !(Below(rs, rs[k].id) <= i < Below(rs, rs[k].id) + |Values(rs, rs[k].id)|) ==>
              rs[i].id != rs[k].id
  {
    hide *;
    var id := rs[k].id;
    OccNoIs(rs, k);
    SortedParts(rs, k);
    RunSize(rs, id);
    BelowSplits(rs, id);
    BelowSplits(rs, id + 1);
    RunSize(rs[..k], id);
    PrefixBelow(rs, k);
  }

  lemma PrefixBelow(rs: seq<Rec>, k: nat)
    requires Sorted(rs) && k < |rs|
    ensures Below(rs[..k], rs[k].id) == Below(rs, rs[k].id) && Below(rs[..k], rs[k].id + 1) == k
  {
    hide Below, Sorted;
    var id := rs[k].id;
    SortedIsOrdered(rs);
    SortedParts(rs, k);
    BelowSplits(rs, id);
    var b := Below(rs, id);
    assert rs[..k + 1][k] == rs[k];
    BelowIs(rs[..k], id, b);
    BelowIs(rs[..k], id + 1, k);
  }

  lemma RunSize(rs: seq<Rec>, id: nat)
    requires Sorted(rs)
    ensures Below(rs, id) + |Values(rs, id)| == Below(rs, id + 1) <= |rs|
  {
    hide *;
    ValuesAreARun(rs, id);
  }

  lemma ReadyCounts(rs: seq<Rec>, k: nat, prev: nat, oc: nat)
    requires Sorted(rs) && k < |rs| && Ready(rs, k, prev, oc)
    ensures OccNo(rs, k) == if rs[k].id != prev then 0 else oc + 1
  {
    hide Sorted, Values, Below;
    OccNoIsPlace(rs, k);
    if k > 0 {
      OccNoIsPlace(rs, k - 1);
    }
  }

  /** A record that stays. */
  lemma StepOver(rs: seq<Rec>, all: seq<Rec>, k: nat, prev: nat, oc: nat, theirs: seq<Rec>)
    requires Sorted(rs) && k < |rs| && Going(rs, all, k, prev, oc, theirs)
    requires OccNo(rs, k) < |Values(theirs, rs[k].id)|
    ensures Going(rs, all, k + 1, rs[k].id, OccNo(rs, k), theirs)
  {
    hide Values, OccNo, Sorted, SurplusGone, SurplusInType, Untouched;
    CommonNext(rs, k, theirs);
    TypeNext(rs, all, k, theirs);
    assert Untouched(rs, all, k + 1) by { UntouchedNext(rs, all, k); }
  }

  lemma CommonNext(rs: seq<Rec>, k: nat, theirs: seq<Rec>)
    requires Sorted(rs) && k < |rs| && AllCommon(rs, k, theirs) && OccNo(rs, k) < |Values(theirs, rs[k].id)|
    ensures Ready(rs, k + 1, rs[k].id, OccNo(rs, k)) && AllCommon(rs, k + 1, theirs)
  {
    hide Values, OccNo;
    SortedIsOrdered(rs);
  }

  lemma UntouchedNext(rs: seq<Rec>, all: seq<Rec>, k: nat)
    requires Untouched(rs, all, k) && k < |rs|
    ensures Untouched(rs, all, k + 1)
    ensures all[|all| - |rs| + k] == rs[k] && (k + 1 < |rs| ==> all[|all| - |rs| + k + 1] == rs[k + 1])
  {
    hide Values;
    TailAt(rs, all, k, k + 1);
  }

  /** The last record of a field that stays is not the last of too many. */
  lemma TypeNext(rs: seq<Rec>, all: seq<Rec>, k: nat, theirs: seq<Rec>)
    requires Sorted(rs) && k < |rs| && Untouched(rs, all, k) && SurplusInType(all, theirs, |all| - |rs| + k)
    requires OccNo(rs, k) < |Values(theirs, rs[k].id)|
    ensures SurplusInType(all, theirs, |all| - |rs| + k + 1)
  {
    hide Values, OccNo, Sorted, Below;
    UntouchedNext(rs, all, k);
    OccNoIsPlace(rs, k);
    if k + 1 < |rs| && rs[k + 1].id != rs[k].id {
      assert |Values(rs, rs[k].id)| == OccNo(rs, k) + 1;
    }
  }

  /** A record that is one too many is the first such one of its field. */
  lemma FirstTooMany(rs: seq<Rec>, k: nat, theirs: seq<Rec>)
    requires Sorted(rs) && k < |rs| && AllCommon(rs, k, theirs) && OccNo(rs, k) >= |Values(theirs, rs[k].id)|
    ensures OccNo(rs, k) == |Values(theirs, rs[k].id)|
  {
    hide Sorted, Values, Below;
    OccNoIsPlace(rs, k);
    if OccNo(rs, k) > 0 {
      OccNoIsPlace(rs, k - 1);
    }
  }

  lemma SamePrefixNumbers(rs: seq<Rec>, now: seq<Rec>, k: nat)
    requires k <= |rs| && k <= |now| && rs[..k] == now[..k]
    ensures forall i :: 0 <= i < k ==> now[i] == rs[i] && OccNo(now, i) == OccNo(rs, i)
    ensures k < |rs| && k < |now| && rs[k].id == now[k].id ==> OccNo(now, k) == OccNo(rs, k)
  {
    hide Values;
    forall i | 0 <= i < k ensures now[i] == rs[i] && OccNo(now, i) == OccNo(rs, i) {
      assert rs[..k][i] == now[..k][i];
      assert rs[..i] == rs[..k][..i] && now[..i] == now[..k][..i];
    }
  }

  /** Taking record `k` out: either the next field follows, or the loop never gets on. */
  lemma TakeOut(rs: seq<Rec>, k: nat, all: seq<Rec>, prev: nat, oc: nat, theirs: seq<Rec>)
    requires Sorted(rs) && k < |rs| && Going(rs, all, k, prev, oc, theirs)
    requires OccNo(rs, k) == |Values(theirs, rs[k].id)|
    ensures k == Below(rs, rs[k].id) + OccNo(rs, k) && OccNo(rs, k) < |Values(rs, rs[k].id)|
    ensures var id, now := rs[k].id, Cut(rs, k, k + 1);
            var same := k + 1 == |rs| || FldType(rs[k + 1].id) == FldType(id);
            && Sorted(now)
            && if |Values(rs, id)| == OccNo(rs, k) + 1 then
                 if same then Going(now, all, k, id, OccNo(rs, k), theirs) else !SurplusInType(all, theirs, |all|)
               else
                 same && Stuck(now, k, id, OccNo(rs, k), theirs) && !AtMostOneMore(all, theirs)
  {
    hide *;
    GoingIs(rs, all, k, prev, oc, theirs);
    TakeOutCounts(rs, k, all, theirs);
    var id := rs[k].id;
    if |Values(rs, id)| == OccNo(rs, k) + 1 {
      TakeOutTypes(rs, k, all, theirs);
      CutOne(rs, k);
      GoingIs(Cut(rs, k, k + 1), all, k, id, OccNo(rs, k), theirs);
    }
  }

  lemma GoingIs(rs: seq<Rec>, all: seq<Rec>, k: nat, prev: nat, oc: nat, theirs: seq<Rec>)
    ensures Going(rs, all, k, prev, oc, theirs) <==>
            && k <= |rs| <= |all|
            && Ready(rs, k, prev, oc) && AllCommon(rs, k, theirs) && SurplusGone(rs, all, theirs)
            && Untouched(rs, all, k) && SurplusInType(all, theirs, |all| - |rs| + k)
  {
  }

  lemma TakeOutTypes(rs: seq<Rec>, k: nat, all: seq<Rec>, theirs: seq<Rec>)
    requires Sorted(rs) && k < |rs| && Untouched(rs, all, k) && SurplusInType(all, theirs, |all| - |rs| + k)
    requires OccNo(rs, k) == |Values(theirs, rs[k].id)| && |Values(rs, rs[k].id)| == OccNo(rs, k) + 1
    ensures var now := Cut(rs, k, k + 1);
            && |now| == |rs| - 1 && Untouched(now, all, k)
            && if k + 1 == |rs| || FldType(rs[k + 1].id) == FldType(rs[k].id) then SurplusInType(all, theirs, |all| - |now| + k)
               else !SurplusInType(all, theirs, |all|)
  {
    hide Values, OccNo, Sorted, Below, FldType;
    var id, now, d := rs[k].id, Cut(rs, k, k + 1), |all| - |rs|;
    UntouchedNext(rs, all, k);
    TailAt(rs, all, k, k + 1);
    OccNoIsPlace(rs, k);
    CutOneValues(rs, id, OccNo(rs, k));
    assert now[k..] == rs[k + 1..];
    forall j | k <= j < |now| ensures Values(now, now[j].id) == Values(all, now[j].id) {
      assert now[j] == rs[j + 1] && rs[j + 1].id != id;
    }
    if k + 1 < |rs| {
      assert all[d + k + 1].id != all[d + k].id;
    }
  }

  lemma TakeOutCounts(rs: seq<Rec>, k: nat, all: seq<Rec>, theirs: seq<Rec>)
    requires Sorted(rs) && k < |rs| && AllCommon(rs, k, theirs) && SurplusGone(rs, all, theirs)
    requires OccNo(rs, k) == |Values(theirs, rs[k].id)|
    ensures k == Below(rs, rs[k].id) + OccNo(rs, k) && OccNo(rs, k) < |Values(rs, rs[k].id)|
    ensures var id, now := rs[k].id, Cut(rs, k, k + 1);
            && Sorted(now) && AllCommon(now, k, theirs)
            && if |Values(rs, id)| == OccNo(rs, k) + 1 then
                 Ready(now, k, id, OccNo(rs, k)) && SurplusGone(now, all, theirs)
               else
                 && k + 1 < |rs| && rs[k + 1].id == id
                 && Stuck(now, k, id, OccNo(rs, k), theirs) && !AtMostOneMore(all, theirs)
  {
    hide Sorted, Values, Below, OccNo;
    var id, c, now := rs[k].id, OccNo(rs, k), Cut(rs, k, k + 1);
    OccNoIsPlace(rs, k);
    CutOneValues(rs, id, c);
    assert now[..k] == rs[..k];
    SamePrefixNumbers(rs, now, k);
    if k + 1 < |rs| {
      assert now[k] == rs[k + 1];
    }
    if |Values(rs, id)| == c + 1 {
      assert Values(now, id) == Values(rs, id)[..c];
      if k < |now| {
        AfterTheRun(rs, k);
      }
    } else {
      assert rs[k + 1].id == id;
      assert |Values(all, id)| >= |Values(rs, id)|;
    }
  }

  lemma AfterTheRun(rs: seq<Rec>, k: nat)
    requires Sorted(rs) && k + 1 < |rs| && |Values(rs, rs[k].id)| == OccNo(rs, k) + 1
    ensures rs[k].id < rs[k + 1].id && (k > 0 ==> rs[k - 1].id <= rs[k].id)
  {
    hide Values, Below, OccNo, Sorted;
    OccNoIsPlace(rs, k);
    SortedIsOrdered(rs);
  }

  /** Once stuck, a further turn deletes behind record `k` or nothing at all. */
  lemma StaysStuck(rs: seq<Rec>, k: nat, prev: nat, oc: nat, theirs: seq<Rec>)
    requires Sorted(rs) && Stuck(rs, k, prev, oc, theirs)
    ensures var i := Below(rs, prev) + oc + 1;
            && Stuck(rs, k, prev, oc + 1, theirs)
            && (oc + 1 < |Values(rs, prev)| ==> i < |rs| && Sorted(Cut(rs, i, i + 1)) && Stuck(Cut(rs, i, i + 1), k, prev, oc + 1, theirs))
  {
    hide Sorted, Values, Below, OccNo;
    OccNoIsPlace(rs, k);
    if oc + 1 < |Values(rs, prev)| {
      var i := Below(rs, prev) + oc + 1;
      CutOneValues(rs, prev, oc + 1);
      var now := Cut(rs, i, i + 1);
      assert now[..k] == rs[..k] && now[k] == rs[k];
      SamePrefixNumbers(rs, now, k);
    }
  }

  /** When every record is one that the other buffer has too, there was at most one more. */
  lemma AtTheEnd(rs: seq<Rec>, all: seq<Rec>, theirs: seq<Rec>)
    requires Sorted(rs) && AllCommon(rs, |rs|, theirs) && SurplusGone(rs, all, theirs)
    ensures AtMostOneMore(all, theirs)
    ensures forall id :: Values(rs, id) == Common(Values(all, id), Values(theirs, id))
  {
    hide Sorted, Values, Below, OccNo;
    forall id ensures |Values(rs, id)| <= |Values(theirs, id)| {
      LastOfRun(rs, id);
    }
    forall id
      ensures |Values(all, id)| <= |Values(theirs, id)| + 1 && Values(rs, id) == Common(Values(all, id), Values(theirs, id))
    {
      assert |Values(rs, id)| <= |Values(theirs, id)|;
    }
  }

  lemma LastOfRun(rs: seq<Rec>, id: nat)
    requires Sorted(rs)
    ensures Values(rs, id) != [] ==>
              exists i :: 0 <= i < |rs| && rs[i].id == id && OccNo(rs, i) == |Values(rs, id)| - 1
  {
    hide Sorted, Values, Below, OccNo;
    RunSize(rs, id);
    if Values(rs, id) != [] {
      var i := Below(rs, id + 1) - 1;
      BelowSplits(rs, id);
      BelowSplits(rs, id + 1);
      assert rs[i].id == id;
      OccNoIsPlace(rs, i);
    }
  }

  lemma Begin(rs: seq<Rec>, theirs: seq<Rec>)
    ensures Ready(rs, 0, 0, 0) || (rs != [] && rs[0].id == 0)
    ensures AllCommon(rs, 0, theirs) && SurplusGone(rs, rs, theirs)
    ensures Untouched(rs, rs, 0) && SurplusInType(rs, theirs, 0)
  {
  }

  /** The first loop of join, for at most `turns` turns and up to the first removal that leaves the
      offset table wrong. It is through after as many turns as there are records if no field has two
      occurrences more than the other buffer has, and behind each field with one more comes a field
      of its type or none; otherwise it never is. */
  method DropSurplus(dst: Fbfr32, src: Fbfr32, turns: nat) returns (through: bool, right: bool)
    requires dst.Valid() && src.Valid() && Apart(dst, src)
    modifies dst, dst.data, dst.offsets
    ensures right <==> dst.Valid()
    ensures AtMostOneMore(old(dst.recs), src.recs) && SurplusInType(old(dst.recs), src.recs, |old(dst.recs)|) ==> right
    ensures through <==>
            && AtMostOneMore(old(dst.recs), src.recs) && SurplusInType(old(dst.recs), src.recs, |old(dst.recs)|)
            && turns >= |old(dst.recs)|
    ensures through ==> forall id :: Values(dst.recs, id) == Common(Values(old(dst.recs), id), Values(src.recs, id))
  {
    hide *;
    AreApart(dst, src);
    ghost var all, theirs := dst.recs, src.recs;
    dst.Ends();
    Begin(all, theirs);
    var pos, prev, oc, turn := 0, 0, 0, 0;
    ghost var k: nat, stuck := 0, false;
    if all != [] {
      dst.Current(0);
      NotZero(all[0].id);
    }
    right := true;
    GoingIs(all, all, 0, 0, 0, theirs);
    StateIs(all, all, 0, 0, 0, theirs, false);
    while right && pos != -1 && pos < dst.len && turn < turns
      invariant right <==> dst.Valid()
      invariant src.Valid() && src.recs == theirs
      invariant k <= |dst.recs| && turn <= turns
      invariant pos == (if pos == -1 then -1 else Off(dst.recs, k)) && (pos == -1 ==> k == |dst.recs|)
      invariant right ==> State(dst.recs, all, k, prev, oc, theirs, stuck)
      invariant right && !stuck ==> turn + |dst.recs| - k == |all|
      invariant !right ==> !(AtMostOneMore(all, theirs) && SurplusInType(all, theirs, |all|))
      decreases turns - turn
    {
      dst.Ends();
      turn := turn + 1;
      pos, prev, oc, right, k, stuck := Turn(dst, src, pos, prev, oc, k, stuck, all);
    }
    if right {
      dst.Ends();
      StateIs(dst.recs, all, k, prev, oc, theirs, stuck);
      if stuck {
        StuckIs(dst.recs, k, prev, oc, theirs);
      } else if k == |dst.recs| {
        GoingIs(dst.recs, all, k, prev, oc, theirs);
        AtTheEnd(dst.recs, all, theirs);
      }
    }
    through := right && !(pos != -1 && pos < dst.len);
  }

  /** The loop gets on, or never will. */
  ghost predicate State(rs: seq<Rec>, all: seq<Rec>, k: nat, prev: nat, oc: nat, theirs: seq<Rec>, stuck: bool) {
    if stuck then Stuck(rs, k, prev, oc, theirs) && !AtMostOneMore(all, theirs) else Going(rs, all, k, prev, oc, theirs)
  }

  lemma StateIs(rs: seq<Rec>, all: seq<Rec>, k: nat, prev: nat, oc: nat, theirs: seq<Rec>, stuck: bool)
    ensures State(rs, all, k, prev, oc, theirs, stuck) <==>
            if stuck then Stuck(rs, k, prev, oc, theirs) && !AtMostOneMore(all, theirs) else Going(rs, all, k, prev, oc, theirs)
  {
  }

  lemma StuckIs(rs: seq<Rec>, k: nat, prev: nat, oc: nat, theirs: seq<Rec>)
    requires Stuck(rs, k, prev, oc, theirs)
    ensures k < |rs| && rs[k].id == prev && OccNo(rs, k) == |Values(theirs, prev)| <= oc
  {
  }

  method Turn(dst: Fbfr32, src: Fbfr32, pos: nat, prev: nat, oc: nat, ghost k: nat, ghost stuck: bool, ghost all: seq<Rec>)
    returns (pos': int, prev': nat, oc': nat, right: bool, ghost k': nat, ghost stuck': bool)
    requires dst.Valid() && src.Valid() && Apart(dst, src)
    requires k < |dst.recs| && pos == Off(dst.recs, k)
    requires State(dst.recs, all, k, prev, oc, src.recs, stuck)
    modifies dst, dst.data, dst.offsets
    ensures right <==> dst.Valid()
    ensures src.Valid() && src.recs == old(src.recs)
    ensures k' <= |dst.recs|
    ensures pos' == (if pos' == -1 then -1 else Off(dst.recs, k')) && (pos' == -1 ==> k' == |dst.recs|)
    ensures right ==> State(dst.recs, all, k', prev', oc', src.recs, stuck')
    ensures right && !stuck' ==> !stuck && |dst.recs| - k' == |old(dst.recs)| - k - 1
    ensures !right ==> !(AtMostOneMore(all, src.recs) && SurplusInType(all, src.recs, |all|))
  {
    hide *;
    AreApart(dst, src);
    dst.Ends();
    dst.Current(k);
    ghost var rs, theirs := dst.recs, src.recs;
    var id := dst.IdAt(pos);
    pos', k', stuck', right := pos, k, stuck, true;
    if id != prev {
      prev', oc' := id, 0;
    } else {
      prev', oc' := prev, oc + 1;
    }
    StateIs(rs, all, k, prev, oc, theirs, stuck);
    if stuck {
      StuckIs(rs, k, prev, oc, theirs);
      StaysStuck(rs, k, prev, oc, theirs);
    } else {
      GoingIs(rs, all, k, prev, oc, theirs);
      ReadyCounts(rs, k, prev, oc);
    }
    var there := src.Pres(id, oc');
    if there {
      StepOver(rs, all, k, prev, oc, theirs);
      pos' := dst.NextPos(pos, k);
      k' := k + 1;
    } else {
      if !stuck {
        FirstTooMany(rs, k, theirs);
        TakeOut(rs, k, all, prev, oc, theirs);
        stuck' := |Values(rs, id)| != OccNo(rs, k) + 1;
        CutOne(rs, k);
      }
      var status, type_ := dst.DelAsWritten(id, oc');
      right := type_ == FldType(id);
      if stuck {
        StuckIs(rs, k, prev, oc, theirs);
        StuckCut(rs, dst.recs, k, prev, oc);
      }
      SameOff(rs, dst.recs, k);
    }
    StateIs(dst.recs, all, k', prev', oc', theirs, stuck');
  }

  lemma CutOne(rs: seq<Rec>, k: nat)
    requires k < |rs|
    ensures |Cut(rs, k, k + 1)| == |rs| - 1 && Cut(rs, k, k + 1)[..k] == rs[..k]
  {
  }

  lemma StuckCut(rs: seq<Rec>, now: seq<Rec>, k: nat, prev: nat, oc: nat)
    requires Sorted(rs) && k < |rs| && rs[k].id == prev && OccNo(rs, k) <= oc
    requires now == rs || (var i := Below(rs, prev) + oc + 1; i < |rs| && now == Cut(rs, i, i + 1))
    ensures k <= |now| && now[..k] == rs[..k]
  {
    hide Sorted, Values, Below, OccNo;
    OccNoIsPlace(rs, k);
  }

  lemma SameOff(rs: seq<Rec>, now: seq<Rec>, k: nat)
    requires k <= |rs| && k <= |now| && rs[..k] == now[..k]
    ensures Off(rs, k) == Off(now, k)
  {
    hide Flat;
  }

  /** What both buffers have of every field, with the values of `src`; nothing when the first loop
      is not through after `turns` turns, or has left the offset table wrong. */
  method Join(dst: Fbfr32, src: Fbfr32, turns: nat) returns (status: Option<Status>, ghost left: seq<Rec>, ghost done: nat)
    requires dst.Valid() && src.Valid() && Apart(dst, src)
    modifies dst, dst.data, dst.offsets
    ensures status.Some? ==> dst.Valid()
    ensures status.Some? <==>
            && AtMostOneMore(old(dst.recs), src.recs) && SurplusInType(old(dst.recs), src.recs, |old(dst.recs)|)
            && turns >= |old(dst.recs)|
    ensures status == Some(Done) ==>
              forall id ::
                Values(dst.Fields(), id) == Common(Values(src.Fields(), id), Values(old(dst.Fields()), id))
    ensures status.Some? ==>
              && (forall id :: Values(left, id) == Common(Values(old(dst.recs), id), Values(src.recs, id)))
              && done <= |src.Fields()| && dst.Fields() == OverlayPresent(View(left), src.Fields()[..done])
              && (status == Some(Done) <==> done == |src.Fields()|)
    ensures status.Some? && status != Some(Done) ==>
              && status == Some(NoSpace) && done < |src.Fields()|
              && TotalSize(OverlayPresent(View(left), src.Fields()[..done + 1])) > dst.data.Length
  {
    hide *;
    AreApart(dst, src);
    ghost var mine, theirs, rs := dst.Fields(), src.Fields(), dst.recs;
    forall id ensures |Values(mine, id)| == |Values(rs, id)| && |Values(theirs, id)| == |Values(src.recs, id)| {
      dst.SameCount(id);
      src.SameCount(id);
    }
    var through, _ := DropSurplus(dst, src, turns);
    left, done := dst.recs, 0;
    if !through {
      status := None;
      return;
    }
    dst.FieldsIs();
    ghost var mid := dst.Fields();
    forall id ensures |Values(mid, id)| == |Values(dst.recs, id)| {
      dst.SameCount(id);
    }
    dst.SameCount(0);
    var joined;
    joined, done := OJoin(dst, src);
    status := Some(joined);
    assert theirs[..|theirs|] == theirs;
    OverlayPresentValues(mid, theirs);
    forall id ensures joined == Done ==> Values(dst.Fields(), id) == Common(Values(theirs, id), Values(mine, id)) {
      CommonSize(Values(rs, id), Values(src.recs, id));
      OverIsCommon(Values(theirs, id), Values(mid, id), Values(mine, id));
    }
  }

  lemma CommonSize<V>(mine: seq<V>, theirs: seq<V>)
    ensures |Common(mine, theirs)| == if |mine| <= |theirs| then |mine| else |theirs|
  {
  }

  lemma OverIsCommon<V>(s: seq<V>, left: seq<V>, mine: seq<V>)
    requires |left| == if |mine| <= |s| then |mine| else |s|
    ensures |left| <= |Over(s, left)| && Over(s, left)[..|left|] == Common(s, mine)
  {
  }

  /** Two occurrences too many: whatever the number of turns, the first loop is not through. */
  method NeverThrough(dst: Fbfr32, src: Fbfr32, turns: nat) returns (through: bool)
    requires dst.Valid() && src.Valid() && Apart(dst, src)
    requires dst.recs == [] && src.recs == [] && dst.data.Length >= 16
    modifies dst, dst.data, dst.offsets
    ensures !through
  {
    hide Wf, Flat, Readable, Stored, RecOk, RecValue, Values, Below;
    NoneOf(SHORT_ID);
    ReadableFixed(SHORT_ID, [1, 0]);
    dst.EmptyLength();
    var stored, a := dst.Store(SHORT_ID, 0, [1, 0], 2);
    assert dst.recs == [Field(SHORT_ID, a)];
    OneRecordPlaces(Field(SHORT_ID, a), LONG_ID);
    ghost var b;
    stored, b := dst.Store(SHORT_ID, 1, [1, 0], 2);
    assert dst.recs == [Field(SHORT_ID, a), Field(SHORT_ID, b)];
    TwoOfOne(Field(SHORT_ID, a), Field(SHORT_ID, b));
    var right;
    through, right := DropSurplus(dst, src, turns);
  }

  lemma TwoOfOne(a: Rec, b: Rec)
    requires a.id == b.id
    ensures |Values([a, b], a.id)| == 2
  {
    assert [a, b][..1] == [a];
    OneRecordPlaces(a, a.id + 1);
  }
}
