/** The transaction state of a thread, and the guards that suspend it around a call. */
module Demarcation {
  import opened Wrappers
  import opened Transactions

  const XA_OK := 0
  const XA_RDONLY := 3
  const XAER_RMERR := -3
  const XAER_INVAL := -5
  const XAER_PROTO := -6
  const XAER_RMFAIL := -7
  const XAER_DUPID := -8
  const XAER_OUTSIDE := -9
  const TMER_TMERR := -1

  const TX_OK := 0
  const TX_OUTSIDE := -1
  const TX_PROTOCOL_ERROR := -5
  const TX_ERROR := -6
  const TX_FAIL := -7

  /** No resource manager opened; opened and outside or inside a transaction, unchained or chained. */
  datatype State = S0 | S1 | S2 | S3 | S4

  predicate Outside(s: State) { s == S1 || s == S2 }

  predicate Inside(s: State) { s == S3 || s == S4 }

  function Entered(s: State): State { if s == S1 then S3 else if s == S2 then S4 else s }

  function Left(s: State): State { if s == S3 then S1 else if s == S4 then S2 else s }

  /** The states of a thread that has opened its resource manager, and how it enters and leaves. */
  lemma States(s: State)
    ensures Outside(s) <==> s in {S1, S2}
    ensures Inside(s) <==> s in {S3, S4}
    ensures Entered(S1) == S3 && Entered(S2) == S4 && Left(S3) == S1 && Left(S4) == S2
  {
  }

  /** The codes of the XA and TX interfaces. */
  lemma Codes()
    ensures [XA_OK, XA_RDONLY, XAER_RMERR, XAER_INVAL, XAER_PROTO, XAER_RMFAIL, XAER_DUPID, XAER_OUTSIDE] == [0, 3, -3, -5, -6, -7, -8, -9]
    ensures [TX_OK, TX_OUTSIDE, TX_PROTOCOL_ERROR, TX_ERROR, TX_FAIL, TMER_TMERR] == [0, -1, -5, -6, -7, -1]
    ensures NO_XID.format == -1
  {
  }

  datatype Flag = NoFlags | Join | Resume | Success | Fail | Suspend

  /** A call that reached the resource manager, and what it answered. */
  datatype XaCall = Start(xid: Xid, flag: Flag, xarc: int) | End(xid: Xid, flag: Flag, xarc: int)

  /** What xa_start's answer means to the caller. */
  function StartError(xarc: int): (rc: int)
    ensures rc == TX_OK <==> xarc == XA_OK
    ensures rc == TX_OUTSIDE <==> xarc == XAER_OUTSIDE
    ensures rc == TX_ERROR <==> xarc in {XAER_RMERR, XAER_DUPID, XAER_PROTO}
    ensures rc in {TX_OK, TX_OUTSIDE, TX_ERROR, TX_FAIL}
  {
    if xarc == XA_OK then TX_OK
    else if xarc == XAER_RMERR || xarc == XAER_DUPID || xarc == XAER_PROTO then TX_ERROR
    else if xarc == XAER_OUTSIDE then TX_OUTSIDE
    else TX_FAIL
  }

  class TxThread {
    var state: State
    var xid: Xid
    var calls: seq<XaCall>

    constructor ()
      ensures state == S0 && xid == NO_XID && calls == []
    {
      state, xid, calls := S0, NO_XID, [];
    }

    predicate Transactional()
      reads this
    {
      xid.format != -1
    }

    /** Ends or suspends the association; the identifier is handed over when it is asked for. */
    method EndAssociation(flag: Flag, take: bool, xarc: int) returns (rc: int, info: Xid)
      modifies this
      ensures state == old(state)
      ensures !Inside(old(state)) ==> rc == TX_PROTOCOL_ERROR && xid == old(xid) && calls == old(calls)
      ensures Inside(old(state)) ==>
                && rc == (if xarc == XA_OK then TX_OK else TX_FAIL)
                && info == old(xid) && xid == (if take then NO_XID else old(xid))
                && calls == old(calls) + [End(old(xid), flag, xarc)]
    {
      info := xid;
      if !Inside(state) {
        return TX_PROTOCOL_ERROR, info;
      }
      calls := calls + [End(xid, flag, xarc)];
      if take {
        xid := NO_XID;
      }
      rc := if xarc == XA_OK then TX_OK else TX_FAIL;
    }

    method StartAssociation(info: Option<Xid>, flag: Flag, xarc: int) returns (rc: int)
      modifies this
      ensures !Outside(old(state)) ==>
                rc == TX_PROTOCOL_ERROR && state == old(state) && xid == old(xid) && calls == old(calls)
      ensures Outside(old(state)) ==>
                && xid == (if info.Some? then info.value else old(xid))
                && calls == old(calls) + [Start(xid, flag, xarc)]
                && rc == StartError(xarc)
                && state == if xarc == XA_OK then Entered(old(state)) else old(state)
    {
      if !Outside(state) {
        return TX_PROTOCOL_ERROR;
      }
      if info.Some? {
        xid := info.value;
      }
      calls := calls + [Start(xid, flag, xarc)];
      if xarc == XA_OK {
        state := Entered(state);
      }
      rc := StartError(xarc);
    }

    /** Suspends and keeps the identifier, so that the thread still counts as transactional. */
    method SuspendInPlace(xarc: int) returns (rc: int)
      modifies this
      ensures xid == old(xid)
      ensures rc == if !Inside(old(state)) then TX_PROTOCOL_ERROR else if xarc == XA_OK then TX_OK else TX_FAIL
      ensures Inside(old(state)) ==>
                && calls == old(calls) + [End(xid, Suspend, xarc)]
                && state == if xarc == XA_OK then Left(old(state)) else old(state)
      ensures !Inside(old(state)) ==> state == old(state) && calls == old(calls)
    {
      var info;
      rc, info := EndAssociation(Suspend, false, xarc);
      if rc == TX_OK {
        state := Left(state);
      }
    }

    method ResumeInPlace(xarc: int) returns (rc: int)
      modifies this
      ensures xid == old(xid)
      ensures rc == if !Outside(old(state)) then TX_PROTOCOL_ERROR else StartError(xarc)
      ensures Outside(old(state)) ==>
                && calls == old(calls) + [Start(xid, Resume, xarc)]
                && state == if xarc == XA_OK then Entered(old(state)) else old(state)
      ensures !Outside(old(state)) ==> state == old(state) && calls == old(calls)
    {
      rc := StartAssociation(None, Resume, xarc);
    }

    /** Whether the thread is inside its transaction, and how many calls were made. */
    ghost function At(): Point
      reads this
    {
      Point(Inside(state), |calls|)
    }

    /** Opens a guard, runs the guards inside it and closes it. */
    method RunGuard(g: Guard, answers: nat -> int)
      requires Transactional() && state != S0
      modifies this
      ensures Ran(old(state), old(xid), old(calls), this)
      ensures forall i :: old(|calls|) <= i < |calls| ==> calls[i].xarc == answers(i)
      ensures g.suspend && Resumes(old(|calls|), calls) && old(|calls|) <= |calls| ==> Inside(state)
      ensures old(Inside(state)) && Resumes(old(|calls|), calls) ==> Inside(state)
      ensures AfterGuard(g, old(At()), answers) == At()
      decreases g
    {
      hide Walk;
      ghost var n, start := |calls|, At();
      var suspended := g.suspend && Transactional();
      if suspended {
        var _ := SuspendInPlace(answers(|calls|));
      }
      ghost var mid := calls;
      WalkNone(Inside(old(state)));
      WalkOne(Inside(old(state)), mid[n..]);
      RunGuards(g.inner, answers);
      WalkJoin(Inside(old(state)), old(calls), mid, calls, n);
      ghost var late, inside := calls, Inside(state);
      if suspended {
        var _ := ResumeInPlace(answers(|calls|));
      }
      WalkNone(inside);
      WalkOne(inside, calls[|late|..]);
      WalkJoin(Inside(old(state)), old(calls), late, calls, n);
    }

    method RunGuards(gs: seq<Guard>, answers: nat -> int)
      requires Transactional() && state != S0
      modifies this
      ensures Ran(old(state), old(xid), old(calls), this)
      ensures forall i :: old(|calls|) <= i < |calls| ==> calls[i].xarc == answers(i)
      ensures old(Inside(state)) && Resumes(old(|calls|), calls) ==> Inside(state)
      ensures AfterGuards(gs, old(At()), answers) == At()
      decreases gs
    {
      ghost var n, start := |calls|, At();
      assert gs[0..] == gs;
      for i := 0 to |gs|
        invariant AfterGuards(gs[i..], At(), answers) == AfterGuards(gs, start, answers)
        invariant Ran(old(state), old(xid), old(calls), this)
        invariant forall i :: n <= i < |calls| ==> calls[i].xarc == answers(i)
        invariant old(Inside(state)) && Resumes(n, calls) ==> Inside(state)
      {
        ghost var mid := calls;
        assert gs[i..][0] == gs[i] && gs[i..][1..] == gs[i + 1..];
        RunGuard(gs[i], answers);
        WalkJoin(Inside(old(state)), old(calls), mid, calls, n);
      }
    }
  }

  /** Guards opened inside a transaction, when every call succeeds: the thread is where it was,
      and the resource manager saw suspend, resume, suspend, resume, to the end. */
  method RunInTransaction(t: TxThread, gs: seq<Guard>, answers: nat -> int)
    requires t.Transactional() && Inside(t.state) && forall n :: answers(n) == XA_OK
    modifies t
    ensures t.state == old(t.state) && t.xid == old(t.xid) && old(t.calls) <= t.calls
    ensures var seen := t.calls[old(|t.calls|)..];
            && |seen| == 2 * Innermost(gs)
            && forall i :: 0 <= i < |seen| ==>
                 seen[i] == if i % 2 == 0 then End(t.xid, Suspend, XA_OK) else XaCall.Start(t.xid, Resume, XA_OK)
  {
    ghost var n := |t.calls|;
    OneTurnEach(gs, t.At(), answers);
    t.RunGuards(gs, answers);
    ghost var seen := t.calls[n..];
    assert forall i :: 0 <= i < |seen| ==> seen[i] == t.calls[n + i];
    StrictTurns(seen);
  }

  /** A guard and the guards that are opened and closed while it is open; one may be told not
      to suspend. */
  datatype Guard = Guard(suspend: bool, inner: seq<Guard>)

  datatype Point = Point(active: bool, n: nat)

  /** Where a guard leaves an active or inactive thread: it suspends an active one when it is opened
      and resumes an inactive one when it is closed; call `n` is answered with `answers(n)`. */
  function AfterGuard(g: Guard, p: Point, answers: nat -> int): (q: Point)
    decreases g
  {
    var open := if g.suspend && p.active then Point(answers(p.n) != XA_OK, p.n + 1) else p;
    var late := AfterGuards(g.inner, open, answers);
    if g.suspend && !late.active then Point(answers(late.n) == XA_OK, late.n + 1) else late
  }

  function AfterGuards(gs: seq<Guard>, p: Point, answers: nat -> int): (q: Point)
    decreases gs
  {
    if gs == [] then p else AfterGuards(gs[1..], AfterGuard(gs[0], p, answers), answers)
  }

  /** How many suspending guards there are that have no suspending guard inside. */
  function Innermost(gs: seq<Guard>): (n: nat)
    decreases gs
  {
    if gs == [] then 0 else InnermostOf(gs[0]) + Innermost(gs[1..])
  }

  function InnermostOf(g: Guard): (n: nat)
    decreases g
  {
    if g.suspend && Innermost(g.inner) == 0 then 1 else Innermost(g.inner)
  }

  /** With calls that succeed an active thread is suspended and resumed once for each innermost
      suspending guard. An inactive one is resumed by the first of them, and none of the guards
      around that one finds it inactive again. */
  lemma {:induction false} OneTurnEach(gs: seq<Guard>, p: Point, answers: nat -> int)
    requires forall n :: answers(n) == XA_OK
    ensures var k := Innermost(gs);
            AfterGuards(gs, p, answers) ==
            if p.active then Point(true, p.n + 2 * k) else if k == 0 then p else Point(true, p.n + 2 * k - 1)
    decreases gs
  {
    if gs != [] {
      OneTurn(gs[0], p, answers);
      OneTurnEach(gs[1..], AfterGuard(gs[0], p, answers), answers);
    }
  }

  lemma {:induction false} OneTurn(g: Guard, p: Point, answers: nat -> int)
    requires forall n :: answers(n) == XA_OK
    ensures var k := InnermostOf(g);
            AfterGuard(g, p, answers) ==
            if p.active then Point(true, p.n + 2 * k) else if k == 0 then p else Point(true, p.n + 2 * k - 1)
    decreases g
  {
    var open := if g.suspend && p.active then Point(answers(p.n) != XA_OK, p.n + 1) else p;
    OneTurnEach(g.inner, open, answers);
  }

  /** Follows suspend and resume calls: a suspend only while active, a resume only while not. */
  function Walk(active: bool, calls: seq<XaCall>): (after: Option<bool>)
    decreases |calls|
  {
    if calls == [] then Some(active)
    else
      match calls[0]
      case End(_, f, xarc) => if active && f == Suspend then Walk(xarc != XA_OK, calls[1..]) else None
      case Start(_, f, xarc) => if !active && f == Resume then Walk(xarc == XA_OK, calls[1..]) else None
  }

  /** No resume from call `n` on failed. */
  predicate Resumes(n: nat, calls: seq<XaCall>) {
    forall i :: n <= i < |calls| && calls[i].Start? ==> calls[i].xarc == XA_OK
  }

  /** What running guards leaves: the same identifier and control mode, and calls that take turns. */
  ghost predicate Ran(state: State, xid: Xid, calls: seq<XaCall>, now: TxThread)
    reads now
  {
    && now.xid == xid && now.state != S0 && Entered(now.state) == Entered(state)
    && calls <= now.calls
    && (forall i :: |calls| <= i < |now.calls| ==> now.calls[i].xid == xid)
    && Walk(Inside(state), now.calls[|calls|..]) == Some(Inside(now.state))
  }

  lemma {:induction false} WalkConcat(active: bool, a: seq<XaCall>, b: seq<XaCall>)
    requires Walk(active, a).Some?
    ensures Walk(active, a + b) == Walk(Walk(active, a).value, b)
    decreases |a|
  {
    if a == [] {
      assert a + b == b;
    } else {
      assert (a + b)[1..] == a[1..] + b;
      WalkConcat(AfterFirst(active, a), a[1..], b);
    }
  }

  function AfterFirst(active: bool, a: seq<XaCall>): bool
    requires a != []
  {
    if a[0].End? then a[0].xarc != XA_OK else a[0].xarc == XA_OK
  }

  lemma WalkNone(active: bool)
    ensures Walk(active, []) == Some(active)
  {
  }

  lemma WalkOne(active: bool, calls: seq<XaCall>)
    ensures |calls| == 1 && calls[0].End? && calls[0].flag == Suspend && active ==>
              Walk(active, calls) == Some(calls[0].xarc != XA_OK)
    ensures |calls| == 1 && calls[0].Start? && calls[0].flag == Resume && !active ==>
              Walk(active, calls) == Some(calls[0].xarc == XA_OK)
  {
  }

  lemma WalkJoin(active: bool, old_: seq<XaCall>, mid: seq<XaCall>, now: seq<XaCall>, n: nat)
    requires n == |old_| && old_ <= mid <= now
    ensures Walk(active, mid[n..]).Some? ==>
              Walk(active, now[n..]) == Walk(Walk(active, mid[n..]).value, now[|mid|..])
  {
    assert now[n..] == mid[n..] + now[|mid|..];
    if Walk(active, mid[n..]).Some? {
      WalkConcat(active, mid[n..], now[|mid|..]);
    }
  }

  /** Calls that all succeed and lead back to where they began strictly take turns: a suspend
      first, a resume last. */
  lemma {:induction false} StrictTurns(calls: seq<XaCall>)
    requires Walk(true, calls) == Some(true) && forall i :: 0 <= i < |calls| ==> calls[i].xarc == XA_OK
    ensures |calls| % 2 == 0
    ensures forall i :: 0 <= i < |calls| ==> (calls[i].End? <==> i % 2 == 0)
    ensures forall i :: 0 <= i < |calls| ==> calls[i].flag == if i % 2 == 0 then Suspend else Resume
    decreases |calls|
  {
    if calls != [] {
      assert calls[0].End? && calls[1..] != [];
      var rest := calls[2..];
      assert calls[1..][1..] == rest && calls[1..][0] == calls[1];
      assert Walk(false, calls[1..]) == Some(true);
      StrictTurns(rest);
      forall i | 2 <= i < |calls|
        ensures (calls[i].End? <==> i % 2 == 0) && calls[i].flag == if i % 2 == 0 then Suspend else Resume
      {
        assert calls[i] == rest[i - 2];
      }
    }
  }
}
