/** The calls that begin, commit and roll back the transaction of a thread, chained or not. */
module TxCalls {
  import opened Wrappers
  import opened Transactions
  import opened Demarcation
  import opened TwoPhase

  /** The transaction manager of the group answered that the group can commit or has nothing to. */
  ghost predicate VotedYes(branches: seq<Branch>, sends: seq<int>, replies: seq<Reply>, grpno: nat) {
    exists k :: 0 <= k < |branches| <= |sends| && branches[k].grpno == grpno &&
                (Answered(replies, sends[k], XA_OK) || Answered(replies, sends[k], XA_RDONLY))
  }

  /** The branches of the groups that joined `xid`. */
  function BranchesOf(es: seq<Entry>, grpnos: seq<nat>, xid: Xid): (branches: seq<Branch>)
    ensures |branches| <= |grpnos|
  {
    match Find(es, xid)
    case None => []
    case Some(i) => if |es[i].groups| == |grpnos| then GroupsOf(es[i].groups, grpnos) else []
  }

  /** When all branches voted yes, so did every group that joined. */
  lemma EveryMemberVoted(es: seq<Entry>, grpnos: seq<nat>, xid: Xid, sends: seq<int>, replies: seq<Reply>)
    requires forall i :: 0 <= i < |es| ==> |es[i].groups| == |grpnos|
    requires |sends| == |grpnos|
    requires var n := |BranchesOf(es, grpnos, xid)|; AllVotedYes(n, sends[..n], replies)
    ensures forall g :: g in Joined(es, xid) ==> g < |grpnos| && VotedYes(BranchesOf(es, grpnos, xid), sends, replies, grpnos[g])
  {
    hide Answered, GroupsOf, Sent;
    var branches := BranchesOf(es, grpnos, xid);
    forall g | g in Joined(es, xid) ensures g < |grpnos| && VotedYes(branches, sends, replies, grpnos[g]) {
      var i := Find(es, xid).value;
      EveryGroup(es[i].groups, grpnos);
      assert Branch(grpnos[g], 0, XA_OK) in branches;
      var k :| 0 <= k < |branches| && branches[k] == Branch(grpnos[g], 0, XA_OK);
      assert sends[..|branches|][k] == sends[k];
    }
  }

  lemma NothingTold()
    ensures forall f :: !Tells([], f)
  {
  }

  // ---- begin ----

  /** The identifier a new transaction gets, and what the resource manager says to its start. */
  datatype Begin = Begin(xid: Xid, xarc: int)

  predicate HasRoom(es: seq<Entry>, size: nat, group: nat, groups: nat) { Slot(es, size).Some? && group < groups }

  /** The table after a transaction was entered, or there was no slot for it. */
  function WithNew(es: seq<Entry>, size: nat, xid: Xid, group: nat, groups: nat): seq<Entry> {
    match Slot(es, size)
    case None => es
    case Some(i) => Started(es, i, xid, group, groups)
  }

  function BeginOutcome(room: bool, b: Begin): Outcome {
    if room then Returned(StartError(b.xarc)) else Exception
  }

  /** Enters a new transaction and starts an association with it. */
  method TxBegin(t: TxThread, table: TransactionTable, group: nat, b: Begin) returns (r: Outcome)
    requires table.Valid()
    modifies t, table, table.entry
    ensures table.Valid()
    ensures table.Entries() == WithNew(old(table.Entries()), table.entry.Length, b.xid, group, table.maxGroups)
    ensures var room := HasRoom(old(table.Entries()), table.entry.Length, group, table.maxGroups);
            if room && Outside(old(t.state)) then
              && r == Returned(StartError(b.xarc))
              && t.xid == b.xid && t.calls == old(t.calls) + [Start(b.xid, NoFlags, b.xarc)]
              && t.state == if b.xarc == XA_OK then Entered(old(t.state)) else old(t.state)
            else
              && r == (if room then Returned(TX_PROTOCOL_ERROR) else Exception)
              && t.xid == old(t.xid) && t.calls == old(t.calls) && t.state == old(t.state)
  {
    hide Slot, Started;
    var started := table.Start(b.xid, group);
    if started.Err? {
      return Exception;
    }
    var rc := t.StartAssociation(Some(b.xid), NoFlags, b.xarc);
    r := Returned(rc);
  }

  /** The end of a call: after a success a thread is outside its transaction, and in chained mode
      in a new one if that can be started. */
  method ChangeState(t: TxThread, table: TransactionTable, group: nat, rc: int, b: Begin) returns (r: Outcome)
    requires table.Valid()
    modifies t, table, table.entry
    ensures table.Valid()
    ensures rc != TX_OK || old(t.state) != S4 ==>
              && r == Returned(rc) && table.Entries() == old(table.Entries())
              && t.xid == old(t.xid) && t.calls == old(t.calls)
              && t.state == if rc == TX_OK && old(t.state) == S3 then S1 else old(t.state)
    ensures rc == TX_OK && old(t.state) == S4 ==>
              var room := HasRoom(old(table.Entries()), table.entry.Length, group, table.maxGroups);
              && r == BeginOutcome(room, b)
              && table.Entries() == WithNew(old(table.Entries()), table.entry.Length, b.xid, group, table.maxGroups)
              && t.xid == (if room then b.xid else old(t.xid))
              && t.calls == old(t.calls) + (if room then [Start(b.xid, NoFlags, b.xarc)] else [])
              && t.state == if room && b.xarc == XA_OK then S4 else S2
  {
    hide WithNew, HasRoom;
    r := Returned(rc);
    if rc == TX_OK {
      if t.state == S3 {
        t.state := S1;
      } else if t.state == S4 {
        t.state := S2;
        r := TxBegin(t, table, group, b);
      }
    }
  }

  // ---- commit and rollback ----

  /** The table after the association ended: in chained mode with the next transaction. */
  function AfterEnd(es: seq<Entry>, size: nat, state: State, xarc: int, b: Begin, group: nat, groups: nat): seq<Entry> {
    if state == S4 && xarc == XA_OK then WithNew(es, size, b.xid, group, groups) else es
  }

  /** How the end of the association comes out: in chained mode it is the start of the next one. */
  function EndOutcome(es: seq<Entry>, size: nat, state: State, xarc: int, b: Begin, group: nat, groups: nat): Outcome {
    if !Inside(state) then Returned(TX_PROTOCOL_ERROR)
    else if xarc != XA_OK then Returned(TX_FAIL)
    else if state == S3 then Returned(TX_OK)
    else BeginOutcome(HasRoom(es, size, group, groups), b)
  }

  /** The state and the calls after the end of the association. */
  ghost predicate Ended(was: State, xid: Xid, calls: seq<XaCall>, t: TxThread, room: bool, xarc: int, b: Begin)
    reads t
  {
    if !Inside(was) then t.state == was && t.xid == xid && t.calls == calls
    else if xarc != XA_OK then t.state == was && t.xid == NO_XID && t.calls == calls + [End(xid, Success, xarc)]
    else if was == S3 then t.state == S1 && t.xid == NO_XID && t.calls == calls + [End(xid, Success, xarc)]
    else if room then
      && t.state == (if b.xarc == XA_OK then S4 else S2) && t.xid == b.xid
      && t.calls == calls + [End(xid, Success, xarc), Start(b.xid, NoFlags, b.xarc)]
    else t.state == S2 && t.xid == NO_XID && t.calls == calls + [End(xid, Success, xarc)]
  }

  /** Ends the association of a thread and changes its state, which in chained mode begins the next
      transaction before anything is done about this one. */
  method TxEnd(t: TxThread, table: TransactionTable, group: nat, xarc: int, b: Begin) returns (r: Outcome, info: Xid)
    requires table.Valid()
    modifies t, table, table.entry
    ensures table.Valid()
    ensures var es, size, groups := old(table.Entries()), table.entry.Length, table.maxGroups;
            && r == EndOutcome(es, size, old(t.state), xarc, b, group, groups)
            && table.Entries() == AfterEnd(es, size, old(t.state), xarc, b, group, groups)
            && Ended(old(t.state), old(t.xid), old(t.calls), t, HasRoom(es, size, group, groups), xarc, b)
    ensures Inside(old(t.state)) ==> info == old(t.xid)
  {
    hide WithNew, HasRoom;
    var rc;
    rc, info := t.EndAssociation(Success, true, xarc);
    r := ChangeState(t, table, group, rc, b);
  }

  /** Commits the transaction of a thread. What the resource manager says to the end and to the
      starts of associations, the sends and the replies are given. */
  method TxCommit(t: TxThread, table: TransactionTable, grpnos: seq<nat>, group: nat, xarc: int, sends: seq<int>,
                  replies: seq<Reply>, sends2: seq<int>, replies2: seq<Reply>, b1: Begin, b2: Begin)
    returns (r: Outcome, log: seq<Request>, ghost decision: Option<Outcome>)
    requires table.Valid() && |grpnos| == table.maxGroups
    requires |sends| == |grpnos| == |sends2| && Descriptors(sends) && Descriptors(sends2)
    requires OnceEach(replies) && OnceEach(replies2)
    modifies t, table, table.entry
    ensures table.Valid()
    // No phase is run unless the end of the association comes out well, and the transaction is known.
    ensures var es, size, groups := old(table.Entries()), table.entry.Length, table.maxGroups;
            var end := EndOutcome(es, size, old(t.state), xarc, b1, group, groups);
            var now := AfterEnd(es, size, old(t.state), xarc, b1, group, groups);
            && (decision.Some? <==> end == Returned(TX_OK) && Find(now, old(t.xid)).Some?)
            && (decision.None? ==>
                  && log == [] && r == (if end == Returned(TX_OK) then Exception else end)
                  && table.Entries() == now
                  && Ended(old(t.state), old(t.xid), old(t.calls), t, HasRoom(es, size, group, groups), xarc, b1))
    ensures decision.Some? ==>
              var es := AfterEnd(old(table.Entries()), table.entry.Length, old(t.state), xarc, b1, group, table.maxGroups);
              var branches := BranchesOf(es, grpnos, old(t.xid));
              TwoPhaseOutcome(branches, sends[..|branches|], replies, sends2[..|branches|], replies2) == (decision.value, log)
    // Agreement.
    ensures !(Tells(log, Commit) && Tells(log, Rollback))
    ensures Tells(log, Commit) || decision == Some(Returned(TX_OK)) ==>
              var es := AfterEnd(old(table.Entries()), table.entry.Length, old(t.state), xarc, b1, group, table.maxGroups);
              forall g :: g in Joined(es, old(t.xid)) ==>
                g < |grpnos| && VotedYes(BranchesOf(es, grpnos, old(t.xid)), sends, replies, grpnos[g])
    ensures decision == Some(Returned(TX_FAIL)) ==> !Tells(log, Commit)
    // What the caller hears, and where the thread is left.
    ensures decision.Some? && (decision != Some(Returned(TX_OK)) || old(t.state) == S3) ==>
              var es, size, groups := old(table.Entries()), table.entry.Length, table.maxGroups;
              && r == decision.value
              && table.Entries() == AfterEnd(es, size, old(t.state), xarc, b1, group, groups)
              && Ended(old(t.state), old(t.xid), old(t.calls), t, HasRoom(es, size, group, groups), xarc, b1)
    ensures decision == Some(Returned(TX_OK)) && old(t.state) == S4 ==>
              var size, groups := table.entry.Length, table.maxGroups;
              var now := WithNew(old(table.Entries()), size, b1.xid, group, groups);
              ChainedTwice(old(t.xid), old(t.calls), t, now, table.Entries(), size, group, groups, b1, b2, r)
  {
    hide TwoPhaseOutcome, Phase, Answered, OnceEach, Descriptors, Sent, Find, GroupsOf, Tells, AllVotedYes, Joined, VotedYes, Slot, Started, HasRoom, WithNew;
    NothingTold();
    var end, xid := TxEnd(t, table, group, xarc, b1);
    decision := None;
    if end != Returned(TX_OK) {
      return end, [], None;
    }
    ghost var es := table.Entries();
    var collected := Collect(table, grpnos, xid);
    if collected.Err? {
      return Exception, [], None;
    }
    var branches := collected.value;
    var n := |branches|;
    assert branches == BranchesOf(es, grpnos, xid);
    DescriptorsPrefix(sends, n);
    DescriptorsPrefix(sends2, n);
    r, log := TwoPhases(branches, sends[..n], replies, sends2[..n], replies2);
    decision := Some(r);
    if Tells(log, Commit) || r == Returned(TX_OK) {
      EveryMemberVoted(es, grpnos, xid, sends, replies);
    }
    if r.Returned? {
      r := ChangeState(t, table, group, r.rc, b2);
    }
  }

  /** A commit in chained mode has begun two transactions: one when the association ended, and
      another one, in its place, when the commit was through. */
  ghost predicate ChainedTwice(xid: Xid, calls: seq<XaCall>, t: TxThread, es: seq<Entry>, now: seq<Entry>, size: nat, group: nat,
                               groups: nat, b1: Begin, b2: Begin, r: Outcome)
    reads t
  {
    var room := HasRoom(es, size, group, groups);
    && r == BeginOutcome(room, b2)
    && now == WithNew(es, size, b2.xid, group, groups)
    && t.state == (if room && b2.xarc == XA_OK then S4 else S2)
    && t.xid == (if room then b2.xid else b1.xid)
    && t.calls == calls + [End(xid, Success, XA_OK), Start(b1.xid, NoFlags, XA_OK)]
                  + (if room then [Start(b2.xid, NoFlags, b2.xarc)] else [])
  }

  /** Rolls the transaction of a thread back; no group is asked to prepare. */
  method TxRollback(t: TxThread, table: TransactionTable, grpnos: seq<nat>, group: nat, xarc: int, sends: seq<int>,
                    replies: seq<Reply>, b1: Begin, b2: Begin)
    returns (r: Outcome, log: seq<Request>, ghost through: bool)
    requires table.Valid() && |grpnos| == table.maxGroups
    requires |sends| == |grpnos| && Descriptors(sends) && OnceEach(replies)
    modifies t, table, table.entry
    ensures table.Valid()
    ensures var es, size, groups := old(table.Entries()), table.entry.Length, table.maxGroups;
            var end := EndOutcome(es, size, old(t.state), xarc, b1, group, groups);
            var now := AfterEnd(es, size, old(t.state), xarc, b1, group, groups);
            var branches := if end == Returned(TX_OK) then BranchesOf(now, grpnos, old(t.xid)) else [];
            && log == Requests(branches[..Sent(sends[..|branches|])], Rollback)
            && (through <==>
                  end == Returned(TX_OK) && Find(now, old(t.xid)).Some? && Phase(branches, sends[..|branches|], replies).0.Done?)
            && if through && old(t.state) == S4 then
                 ChainedTwice(old(t.xid), old(t.calls), t, now, table.Entries(), size, group, groups, b1, b2, r)
               else
                 && (if through || end != Returned(TX_OK) then r == end
                     else if Find(now, old(t.xid)).None? then r == Exception
                     else r == Stopped(Phase(branches, sends[..|branches|], replies).0))
                 && table.Entries() == now
                 && Ended(old(t.state), old(t.xid), old(t.calls), t, HasRoom(es, size, group, groups), xarc, b1)
  {
    hide TwoPhaseOutcome, Phase, Answered, OnceEach, Descriptors, Sent, Find, GroupsOf, Joined, Slot, Started, HasRoom, WithNew;
    var end, xid := TxEnd(t, table, group, xarc, b1);
    if end != Returned(TX_OK) {
      return end, [], false;
    }
    var collected := Collect(table, grpnos, xid);
    if collected.Err? {
      return Exception, [], false;
    }
    var branches := collected.value;
    DescriptorsPrefix(sends, |branches|);
    var _, told, ending := Command(branches, Rollback, sends[..|branches|], replies);
    log := told;
    if !ending.Done? {
      return if ending.Waiting? then Blocked else Exception, log, false;
    }
    r := ChangeState(t, table, group, TX_OK, b2);
    through := true;
  }

  // ---- chained mode ----

  lemma FindStarted(es: seq<Entry>, size: nat, xid: Xid, group: nat, groups: nat, x: Xid)
    requires x.format != -1 && x != xid
    ensures var now := WithNew(es, size, xid, group, groups);
            && Find(now, x) == Find(es, x)
            && (Find(es, x).Some? ==> now[Find(es, x).value] == es[Find(es, x).value])
  {
    hide Slot, Started, Find, Only;
    if Slot(es, size).Some? {
      StartedParts(es, Slot(es, size).value, xid, group, groups);
    }
  }

  /** The next transaction does not change who takes part in this one. */
  lemma SameBranches(es: seq<Entry>, grpnos: seq<nat>, size: nat, state: State, xarc: int, b: Begin, group: nat, x: Xid)
    requires forall i :: 0 <= i < |es| ==> |es[i].groups| == |grpnos|
    requires x.format != -1 && x != b.xid
    ensures var now := AfterEnd(es, size, state, xarc, b, group, |grpnos|);
            && (forall i :: 0 <= i < |now| ==> |now[i].groups| == |grpnos|)
            && Joined(now, x) == Joined(es, x) && BranchesOf(now, grpnos, x) == BranchesOf(es, grpnos, x)
  {
    hide Slot, Started, Find, Only, GroupsOf;
    FindStarted(es, size, b.xid, group, |grpnos|, x);
    if state == S4 && xarc == XA_OK && Slot(es, size).Some? {
      StartedParts(es, Slot(es, size).value, b.xid, group, |grpnos|);
    }
  }

  /** A commit in chained mode leaves a transaction behind: the first of the two it has begun is in
      the table, with the group of the thread in it, and the thread is in the second. */
  lemma ChainedLeavesOneOpen(es: seq<Entry>, size: nat, group: nat, groups: nat, x1: Xid, x2: Xid)
    requires Unique(es) && HasRoom(es, size, group, groups) && x1.format != -1 && x2.format != -1 && x1 != x2
    requires Find(es, x1) == None && Find(es, x2) == None
    ensures var one := WithNew(es, size, x1, group, groups);
            HasRoom(one, size, group, groups) ==>
              var two := WithNew(one, size, x2, group, groups);
              && Unique(two) && Joined(two, x1) == {group} && Joined(two, x2) == {group}
              && forall x :: x != x1 && x != x2 && x.format != -1 ==> Joined(two, x) == Joined(es, x)
  {
    hide Slot, Started, Find, Joined, Unique;
    StartedIsFound(es, size, x1, group, groups);
    FindStarted(es, size, x1, group, groups, x2);
    var one := WithNew(es, size, x1, group, groups);
    if HasRoom(one, size, group, groups) {
      StartedIsFound(one, size, x2, group, groups);
    }
  }
}
