/** The shared table of global transactions and the groups that joined them. */
module Transactions {
  import opened Wrappers
  import opened Bytes

  /** The parts of a transaction identifier; -1 is the format of none. */
  datatype Xid = Xid(format: int, gtrid: seq<byte>, bqual: seq<byte>)

  datatype Entry = Entry(xid: Xid, groups: seq<bool>)

  datatype Error = OutOfRange

  predicate Free(e: Entry) { e.xid.format == -1 }

  const NO_XID := Xid(-1, [], [])

  function Nobody(n: nat): (g: seq<bool>)
    ensures |g| == n
    ensures forall k :: 0 <= k < n ==> !g[k]
  {
    seq(n, _ => false)
  }

  /** The entry that stands for `xid`: the first one that has it. */
  function Find(es: seq<Entry>, xid: Xid): (i: Option<nat>)
    ensures i.Some? ==> i.value < |es| && es[i.value].xid == xid
    ensures i.Some? ==> forall j :: 0 <= j < i.value ==> es[j].xid != xid
    ensures i.None? ==> forall j :: 0 <= j < |es| ==> es[j].xid != xid
  {
    if es == [] then None
    else if es[0].xid == xid then Some(0)
    else
      match Find(es[1..], xid)
      case None => None
      case Some(k) =>
        assert forall j :: 0 < j < |es| ==> es[j] == es[1..][j - 1];
        Some(k + 1)
  }

  /** The groups that joined the transaction `xid`. */
  function Joined(es: seq<Entry>, xid: Xid): (groups: set<nat>) {
    match Find(es, xid)
    case None => {}
    case Some(i) => set k | 0 <= k < |es[i].groups| && es[i].groups[k]
  }

  /** No two transactions that are going on have the same identifier. */
  ghost predicate Unique(es: seq<Entry>) {
    forall i, j :: 0 <= i < j < |es| && !Free(es[i]) ==> es[i].xid != es[j].xid
  }

  /** One group out of `groups`, none if there is no such group. */
  function Only(group: nat, groups: nat): (g: seq<bool>)
    ensures |g| == groups
    ensures forall k :: 0 <= k < groups ==> g[k] == (k == group)
  {
    if group < groups then Nobody(groups)[group := true] else Nobody(groups)
  }

  /** The entries after a transaction starts in slot `i`. */
  function Started(es: seq<Entry>, i: nat, xid: Xid, group: nat, groups: nat): seq<Entry>
    requires i <= |es|
  {
    es[..i] + [Entry(xid, Only(group, groups))] + (if i < |es| then es[i + 1..] else [])
  }

  /** The slot for a new transaction: the first free one or a new one, if there is room. */
  function Slot(es: seq<Entry>, size: nat): (i: Option<nat>)
    ensures i.Some? ==> i.value <= |es| && (i.value < |es| ==> Free(es[i.value])) && (i.value == |es| ==> |es| < size)
    ensures i.Some? ==> forall j :: 0 <= j < i.value ==> !Free(es[j])
    ensures i.None? ==> |es| >= size && forall j :: 0 <= j < |es| ==> !Free(es[j])
  {
    if es == [] then if size > 0 then Some(0) else None
    else if Free(es[0]) then Some(0)
    else
      assert forall j :: 0 < j < |es| ==> es[j] == es[1..][j - 1];
      match Slot(es[1..], if size > 0 then size - 1 else 0)
      case None => None
      case Some(k) => Some(k + 1)
  }

  function JoinedBy(es: seq<Entry>, i: nat, group: nat): seq<Entry>
    requires i < |es| && group < |es[i].groups|
  {
    es[i := es[i].(groups := es[i].groups[group := true])]
  }

  lemma SlotIs(es: seq<Entry>, size: nat, i: nat)
    requires i <= |es| && (i < |es| ==> Free(es[i])) && (i == |es| ==> |es| < size)
    requires forall j :: 0 <= j < i ==> !Free(es[j])
    ensures Slot(es, size) == Some(i)
  {
  }

  lemma NoSlot(es: seq<Entry>, size: nat)
    requires |es| == size && forall j :: 0 <= j < |es| ==> !Free(es[j])
    ensures Slot(es, size) == None
  {
  }

  class TransactionTable {
    const maxGroups: nat
    const entry: array<Entry>
    var len: nat

    ghost predicate Valid()
      reads this, entry
    {
      && len <= entry.Length
      && forall i :: 0 <= i < entry.Length ==> |entry[i].groups| == maxGroups
    }

    ghost function Entries(): (es: seq<Entry>)
      requires Valid()
      reads this, entry
    {
      entry[..len]
    }

    constructor (transactions: nat, groups: nat)
      ensures Valid() && fresh(entry) && entry.Length == transactions && maxGroups == groups && Entries() == []
    {
      maxGroups := groups;
      entry := new Entry[transactions](_ => Entry(Xid(0, [], []), Nobody(groups)));
      len := 0;
    }

    method Join(transaction: nat, group: nat) returns (r: Result<Xid, Error>)
      requires Valid()
      modifies entry
      ensures Valid()
      ensures r.Ok? <==> group < maxGroups && transaction < entry.Length
      ensures r.Err? ==> entry[..] == old(entry[..])
      ensures r.Ok? ==> r.value == old(entry[transaction].xid)
      ensures r.Ok? ==> entry[..] == JoinedBy(old(entry[..]), transaction, group)
    {
      if group >= maxGroups || transaction >= entry.Length {
        return Err(OutOfRange);
      }
      var t := entry[transaction];
      entry[transaction] := t.(groups := t.groups[group := true]);
      r := Ok(t.xid);
    }

    method HasJoined(transaction: nat, group: nat) returns (r: Result<bool, Error>)
      requires Valid()
      ensures r == if group < maxGroups && transaction < entry.Length then Ok(entry[transaction].groups[group])
                   else Err(OutOfRange)
    {
      if group >= maxGroups || transaction >= entry.Length {
        return Err(OutOfRange);
      }
      r := Ok(entry[transaction].groups[group]);
    }

    /** Takes a slot for a new transaction; one started by a group there is none of keeps it. */
    method Start(xid: Xid, group: nat) returns (r: Result<nat, Error>)
      requires Valid()
      modifies this, entry
      ensures Valid()
      ensures match Slot(old(Entries()), entry.Length)
              case None => r == Err(OutOfRange) && Entries() == old(Entries())
              case Some(i) =>
                && r == (if group < maxGroups then Ok(i) else Err(OutOfRange))
                && Entries() == Started(old(Entries()), i, xid, group, maxGroups)
    {
      hide Slot;
      var i := FirstFree();
      if i == len {
        if len == entry.Length {
          return Err(OutOfRange);
        }
        len := len + 1;
      }
      r := Init(i, xid, group);
    }

    /** The first free slot, the end of the entries when there is none. */
    method FirstFree() returns (i: nat)
      requires Valid()
      ensures i <= len && Slot(Entries(), entry.Length) == if i < entry.Length then Some(i) else None
    {
      ghost var es := Entries();
      i := 0;
      while i < len && entry[i].xid.format != -1
        invariant i <= len && forall j :: 0 <= j < i ==> !Free(es[j])
      {
        i := i + 1;
      }
      if i < entry.Length {
        SlotIs(es, entry.Length, i);
      } else {
        NoSlot(es, entry.Length);
      }
    }

    method Init(i: nat, xid: Xid, group: nat) returns (r: Result<nat, Error>)
      requires Valid() && i < entry.Length
      modifies entry
      ensures Valid()
      ensures r == if group < maxGroups then Ok(i) else Err(OutOfRange)
      ensures entry[..] == old(entry[..])[i := Entry(xid, Only(group, maxGroups))]
    {
      entry[i] := Entry(xid, Nobody(maxGroups));
      var joined := Join(i, group);
      if joined.Err? {
        return Err(OutOfRange);
      }
      r := Ok(i);
    }

    method FindXid(xid: Xid) returns (r: Result<nat, Error>)
      requires Valid()
      ensures r == match Find(Entries(), xid) case Some(i) => Ok(i) case None => Err(OutOfRange)
    {
      for i := 0 to len
        invariant forall j :: 0 <= j < i ==> entry[j].xid != xid
      {
        if entry[i].xid == xid {
          assert Entries()[i] == entry[i];
          return Ok(i);
        }
      }
      r := Err(OutOfRange);
    }

    method End(transaction: nat) returns (r: Result<(), Error>)
      requires Valid()
      modifies entry
      ensures Valid()
      ensures r.Ok? <==> transaction < entry.Length
      ensures entry[..] == if r.Ok? then old(entry[..])[transaction := Entry(NO_XID, Nobody(maxGroups))] else old(entry[..])
    {
      if transaction >= entry.Length {
        return Err(OutOfRange);
      }
      entry[transaction] := Entry(NO_XID, Nobody(maxGroups));
      r := Ok(());
    }
  }

  /** What happens in one slot does not touch the transactions in others. */
  lemma OthersAreKept(es: seq<Entry>, now: seq<Entry>, i: nat, x: Xid)
    requires i <= |es| && |now| == if i < |es| then |es| else |es| + 1
    requires forall j :: 0 <= j < |es| && j != i ==> now[j] == es[j]
    requires now[i].xid != x && (i < |es| ==> es[i].xid != x)
    ensures Joined(now, x) == Joined(es, x)
  {
    match Find(es, x)
    case Some(k) => assert now[k].xid == x;
    case None =>
  }

  lemma StartedParts(es: seq<Entry>, i: nat, xid: Xid, group: nat, groups: nat)
    requires i <= |es|
    ensures var now := Started(es, i, xid, group, groups);
            && |now| == (if i < |es| then |es| else |es| + 1)
            && now[i] == Entry(xid, Only(group, groups))
            && forall j :: 0 <= j < |es| && j != i ==> now[j] == es[j]
  {
  }

  /** A new transaction is found where it was started, with one group, and no other changes. */
  lemma StartedIsFound(es: seq<Entry>, size: nat, xid: Xid, group: nat, groups: nat)
    requires Unique(es) && Slot(es, size).Some? && group < groups
    requires xid.format != -1 && Find(es, xid) == None
    ensures var i := Slot(es, size).value;
            var now := Started(es, i, xid, group, groups);
            && Unique(now) && Find(now, xid) == Some(i) && Joined(now, xid) == {group}
            && forall x :: x != xid && x.format != -1 ==> Joined(now, x) == Joined(es, x)
  {
    hide Slot, Started, Only, Find, Joined;
    var i := Slot(es, size).value;
    var now := Started(es, i, xid, group, groups);
    StartedParts(es, i, xid, group, groups);
    forall x | x != xid && x.format != -1 ensures Joined(now, x) == Joined(es, x) {
      OthersAreKept(es, now, i, x);
    }
    JoinedIs(now, xid, i);
  }

  /** The members of a transaction that only entry `i` can stand for. */
  lemma JoinedIs(es: seq<Entry>, xid: Xid, i: nat)
    requires i < |es| && es[i].xid == xid && forall j :: 0 <= j < i ==> es[j].xid != xid
    ensures Find(es, xid) == Some(i)
    ensures Joined(es, xid) == set k | 0 <= k < |es[i].groups| && es[i].groups[k]
  {
  }

  /** A group that joins is a member from then on, and no other transaction changes. */
  lemma JoinAddsOne(es: seq<Entry>, i: nat, group: nat)
    requires Unique(es) && i < |es| && !Free(es[i]) && group < |es[i].groups|
    ensures var now := JoinedBy(es, i, group);
            && Unique(now)
            && Joined(now, es[i].xid) == Joined(es, es[i].xid) + {group}
            && forall x :: x != es[i].xid ==> Joined(now, x) == Joined(es, x)
  {
    hide Find, Joined;
    var now := JoinedBy(es, i, group);
    assert forall j :: 0 <= j < |es| ==> now[j].xid == es[j].xid;
    forall x | x != es[i].xid ensures Joined(now, x) == Joined(es, x) {
      OthersAreKept(es, now, i, x);
    }
    UniqueIsFirst(es, i);
    JoinedIs(es, es[i].xid, i);
    JoinedIs(now, es[i].xid, i);
  }

  lemma UniqueIsFirst(es: seq<Entry>, i: nat)
    requires Unique(es) && i < |es| && !Free(es[i])
    ensures forall j :: 0 <= j < |es| && j != i ==> es[j].xid != es[i].xid
  {
  }

  /** A transaction that ended has no members, and no other transaction changes. */
  lemma EndForgets(es: seq<Entry>, i: nat, groups: nat)
    requires Unique(es) && i < |es| && !Free(es[i])
    ensures var now := es[i := Entry(NO_XID, Nobody(groups))];
            && Unique(now) && Joined(now, es[i].xid) == {}
            && forall x :: x != es[i].xid && x.format != -1 ==> Joined(now, x) == Joined(es, x)
  {
    hide Find, Joined;
    var now := es[i := Entry(NO_XID, Nobody(groups))];
    assert forall j :: 0 <= j < |es| && j != i ==> now[j] == es[j];
    UniqueIsFirst(es, i);
    NobodyJoined(now, es[i].xid);
    forall x | x != es[i].xid && x.format != -1 ensures Joined(now, x) == Joined(es, x) {
      OthersAreKept(es, now, i, x);
    }
  }

  lemma NobodyJoined(es: seq<Entry>, xid: Xid)
    requires forall j :: 0 <= j < |es| ==> es[j].xid != xid
    ensures Joined(es, xid) == {}
  {
  }
}
