/** Two-phase commit: requests to the groups of a transaction, and replies in any order. */
module TwoPhase {
  import opened Wrappers
  import opened Transactions
  import opened Demarcation

  datatype Branch = Branch(grpno: nat, cd: int, result: int)

  datatype Func = Prepare | Commit | Rollback

  /** A request that was sent to the transaction manager of a group. */
  datatype Request = Request(func: Func, grpno: nat)

  /** What comes out of the reply queue: a reply to a call with the answer in it, if there is
      one, or the message that ends the wait. */
  datatype Reply = Reply(cd: int, answer: Option<int>) | TimeOut

  /** How a wait ends: all replies came, none comes any more, or a reply had no answer in it. */
  datatype Ending = Done | Waiting | Thrown

  // ---- sending ----

  /** How many requests are sent before the first one that fails. */
  function Sent(sends: seq<int>): (n: nat)
    ensures n <= |sends|
    ensures forall k :: 0 <= k < n ==> sends[k] != -1
    ensures n < |sends| ==> sends[n] == -1
  {
    if sends == [] || sends[0] == -1 then 0 else 1 + Sent(sends[1..])
  }

  lemma SentIs(sends: seq<int>, n: nat)
    requires n <= |sends| && (forall k :: 0 <= k < n ==> sends[k] != -1) && (n < |sends| ==> sends[n] == -1)
    ensures Sent(sends) == n
  {
  }

  /** Descriptors are positive, and no two calls have the same one. */
  predicate Descriptors(sends: seq<int>) {
    && (forall k :: 0 <= k < |sends| ==> sends[k] == -1 || sends[k] > 0)
    && forall i, j :: 0 <= i < j < |sends| && sends[i] != -1 ==> sends[i] != sends[j]
  }

  /** No call is answered twice. */
  predicate OnceEach(replies: seq<Reply>) {
    && (forall j :: 0 <= j < |replies| && replies[j].Reply? ==> replies[j].cd > 0)
    && forall i, j :: 0 <= i < j < |replies| && replies[i].Reply? && replies[j].Reply? ==> replies[i].cd != replies[j].cd
  }

  /** The reply to `cd` is among the first `n`. */
  predicate Came(replies: seq<Reply>, n: nat, cd: int)
    requires n <= |replies|
  {
    exists j :: 0 <= j < n && replies[j].Reply? && replies[j].cd == cd
  }

  /** The request to the manager of `cd` was answered with `answer`. */
  predicate Answered(replies: seq<Reply>, cd: int, answer: int) {
    Reply(cd, Some(answer)) in replies
  }

  ghost predicate HasAnswer(replies: seq<Reply>, cd: int) { exists a :: Answered(replies, cd, a) }

  /** The branches that no one of the first `n` replies is for. */
  function Open(branches: seq<Branch>, replies: seq<Reply>, n: nat): (open: set<nat>)
    requires n <= |replies|
    ensures forall k :: k in open <==> 0 <= k < |branches| && !Came(replies, n, branches[k].cd)
  {
    set k | 0 <= k < |branches| && !Came(replies, n, branches[k].cd)
  }

  /** Every branch waits for a reply of its own. */
  predicate AllWait(branches: seq<Branch>) {
    && (forall k :: 0 <= k < |branches| ==> branches[k].cd > 0)
    && forall i, j :: 0 <= i < j < |branches| ==> branches[i].cd != branches[j].cd
  }

  /** Sends the same request to every group, up to the first that cannot be sent. */
  method SendAll(branches: seq<Branch>, func: Func, sends: seq<int>) returns (after: seq<Branch>, log: seq<Request>)
    requires |sends| == |branches| && Descriptors(sends)
    ensures |after| == |branches|
    ensures var n := Sent(sends);
            && log == Requests(branches[..n], func)
            && (forall k :: 0 <= k < n ==> after[k] == branches[k].(cd := sends[k]))
            && (n < |branches| ==> after[n] == branches[n].(cd := -1, result := TMER_TMERR))
            && forall k :: n < k < |branches| ==> after[k] == branches[k]
  {
    after, log := branches, [];
    for k := 0 to |branches|
      invariant |after| == |branches| && log == Requests(branches[..k], func)
      invariant forall i :: 0 <= i < k ==> sends[i] != -1 && after[i] == branches[i].(cd := sends[i])
      invariant forall i :: k <= i < |branches| ==> after[i] == branches[i]
    {
      after := after[k := after[k].(cd := sends[k])];
      if sends[k] == -1 {
        after := after[k := after[k].(result := TMER_TMERR)];
        SentIs(sends, k);
        return;
      }
      log := log + [Request(func, branches[k].grpno)];
      RequestsNext(branches, func, k);
    }
    SentIs(sends, |branches|);
    assert branches[..|branches|] == branches;
  }

  function Requests(branches: seq<Branch>, func: Func): (log: seq<Request>)
    ensures |log| == |branches|
    ensures forall k :: 0 <= k < |branches| ==> log[k] == Request(func, branches[k].grpno)
  {
    seq(|branches|, k requires 0 <= k < |branches| => Request(func, branches[k].grpno))
  }

  lemma RequestsNext(branches: seq<Branch>, func: Func, k: nat)
    requires k < |branches|
    ensures Requests(branches[..k + 1], func) == Requests(branches[..k], func) + [Request(func, branches[k].grpno)]
  {
  }

  // ---- replies ----

  /** Every branch that waits for `cd` gets the answer. */
  method Deliver(branches: seq<Branch>, cd: int, answer: Option<int>, pending: int)
    returns (after: seq<Branch>, left: int, thrown: bool)
    ensures |after| == |branches|
    ensures thrown <==> answer.None? && exists k :: 0 <= k < |branches| && branches[k].cd == cd
    ensures !thrown ==> forall k :: 0 <= k < |branches| ==>
              after[k] == if branches[k].cd == cd then branches[k].(result := answer.value) else branches[k]
    ensures !thrown ==> left == pending - Waiters(branches, cd)
  {
    after, left, thrown := branches, pending, false;
    assert branches[..0] == [];
    for k := 0 to |branches|
      invariant |after| == |branches| && left == pending - Waiters(branches[..k], cd)
      invariant forall i :: k <= i < |branches| ==> after[i] == branches[i]
      invariant forall i :: 0 <= i < k && branches[i].cd == cd ==> answer.Some?
      invariant forall i :: 0 <= i < k ==>
                  after[i] == if branches[i].cd == cd then branches[i].(result := answer.value) else branches[i]
    {
      assert branches[..k + 1][..k] == branches[..k];
      if after[k].cd == cd {
        if answer.None? {
          return after, left, true;
        }
        after := after[k := after[k].(result := answer.value)];
        left := left - 1;
      }
    }
    assert branches[..|branches|] == branches;
  }

  function Waiters(branches: seq<Branch>, cd: int): (n: nat) {
    if branches == [] then 0
    else
      var k := |branches| - 1;
      Waiters(branches[..k], cd) + if branches[k].cd == cd then 1 else 0
  }

  lemma {:induction false} WaitersIsOne(branches: seq<Branch>, k: nat)
    requires k < |branches| && forall i :: 0 <= i < |branches| && i != k ==> branches[i].cd != branches[k].cd
    ensures Waiters(branches, branches[k].cd) == 1
  {
    var n := |branches| - 1;
    if k == n {
      WaitersIsNone(branches[..n], branches[k].cd);
    } else {
      WaitersIsOne(branches[..n], k);
    }
  }

  lemma {:induction false} WaitersIsNone(branches: seq<Branch>, cd: int)
    requires forall i :: 0 <= i < |branches| ==> branches[i].cd != cd
    ensures Waiters(branches, cd) == 0
  {
    if branches != [] {
      WaitersIsNone(branches[..|branches| - 1], cd);
    }
  }

  /** A reply closes the branch that waits for it, and no other one. */
  lemma OpenNext(branches: seq<Branch>, replies: seq<Reply>, n: nat)
    requires n < |replies| && AllWait(branches) && OnceEach(replies)
    ensures replies[n].TimeOut? ==> Open(branches, replies, n + 1) == Open(branches, replies, n)
    ensures forall k :: replies[n].Reply? && 0 <= k < |branches| && branches[k].cd == replies[n].cd ==>
              k in Open(branches, replies, n) && Open(branches, replies, n + 1) == Open(branches, replies, n) - {k}
    ensures replies[n].Reply? && (forall k :: 0 <= k < |branches| ==> branches[k].cd != replies[n].cd) ==>
              Open(branches, replies, n + 1) == Open(branches, replies, n)
  {
    forall k | 0 <= k < |branches|
      ensures Came(replies, n + 1, branches[k].cd) <==>
              Came(replies, n, branches[k].cd) || (replies[n].Reply? && replies[n].cd == branches[k].cd)
    {
      if replies[n].Reply? && replies[n].cd == branches[k].cd {
        assert Came(replies, n + 1, branches[k].cd);
      } else if Came(replies, n, branches[k].cd) {
        var j :| 0 <= j < n && replies[j].Reply? && replies[j].cd == branches[k].cd;
        assert j < n + 1;
      }
    }
  }

  lemma WaitersAre(branches: seq<Branch>, now: seq<Branch>, cd: int)
    requires AllWait(branches) && |now| == |branches| && forall k :: 0 <= k < |now| ==> now[k].cd == branches[k].cd
    ensures (exists k :: 0 <= k < |now| && now[k].cd == cd) ==> Waiters(now, cd) == 1
    ensures (forall k :: 0 <= k < |now| ==> now[k].cd != cd) ==> Waiters(now, cd) == 0
  {
    if k :| 0 <= k < |now| && now[k].cd == cd {
      WaitersIsOne(now, k);
    } else {
      WaitersIsNone(now, cd);
    }
  }

  /** What is known while replies come in: who waits still, and the answers of the others. */
  ghost predicate Progress(branches: seq<Branch>, now: seq<Branch>, replies: seq<Reply>, n: nat, pending: int)
    requires n <= |replies|
  {
    && |now| == |branches|
    && (forall k :: 0 <= k < |now| ==> now[k].grpno == branches[k].grpno && now[k].cd == branches[k].cd)
    && pending == |Open(branches, replies, n)|
    && forall k :: 0 <= k < |now| && k !in Open(branches, replies, n) ==> Answered(replies, now[k].cd, now[k].result)
  }

  lemma ProgressNext(branches: seq<Branch>, was: seq<Branch>, now: seq<Branch>, replies: seq<Reply>, n: nat,
                     pending: int, left: int)
    requires n < |replies| && AllWait(branches) && OnceEach(replies) && Progress(branches, was, replies, n, pending)
    requires |now| == |was|
    requires var cd := if replies[n].Reply? then replies[n].cd else 0;
             && left == pending - Waiters(was, cd)
             && (forall k :: 0 <= k < |was| && was[k].cd != cd ==> now[k] == was[k])
             && forall k :: 0 <= k < |was| && was[k].cd == cd ==>
                  replies[n].Reply? && replies[n].answer.Some? && now[k] == was[k].(result := replies[n].answer.value)
    ensures Progress(branches, now, replies, n + 1, left)
  {
    OpenNext(branches, replies, n);
    var cd := if replies[n].Reply? then replies[n].cd else 0;
    WaitersAre(branches, was, cd);
    if k :| 0 <= k < |was| && was[k].cd == cd {
      assert branches[k].cd == cd;
      assert Answered(replies, now[k].cd, now[k].result) by { assert replies[n] in replies; }
      assert |Open(branches, replies, n) - {k}| == |Open(branches, replies, n)| - 1;
    }
  }

  /** How a wait for `pending` answers goes on with these replies: each gives its answer to the branches
      of its call, or the last answer there was if it is the end of the wait; a reply without an answer
      ends it. */
  function Waits(now: seq<Branch>, pending: int, stale: Option<int>, replies: seq<Reply>): (r: (Ending, seq<Branch>))
    ensures |r.1| <= |now|
    decreases |replies|
  {
    if pending <= 0 then (Done, now)
    else if replies == [] then (Waiting, now)
    else
      var cd := if replies[0].Reply? then replies[0].cd else 0;
      var answer := if replies[0].Reply? then replies[0].answer else stale;
      if answer.None? && exists k :: 0 <= k < |now| && now[k].cd == cd then (Thrown, [])
      else Waits(AnswerAll(now, cd, answer), pending - Waiters(now, cd), answer, replies[1..])
  }

  function AnswerAll(now: seq<Branch>, cd: int, answer: Option<int>): (after: seq<Branch>)
    ensures |after| == |now|
    ensures forall k :: 0 <= k < |now| ==>
              after[k] == if now[k].cd == cd && answer.Some? then now[k].(result := answer.value) else now[k]
  {
    seq(|now|, k requires 0 <= k < |now| =>
      if now[k].cd == cd && answer.Some? then now[k].(result := answer.value) else now[k])
  }

  lemma WaitsNext(now: seq<Branch>, pending: int, stale: Option<int>, replies: seq<Reply>)
    ensures pending <= 0 ==> Waits(now, pending, stale, replies) == (Done, now)
    ensures pending > 0 && replies == [] ==> Waits(now, pending, stale, replies) == (Waiting, now)
    ensures pending > 0 && replies != [] ==>
              var cd := if replies[0].Reply? then replies[0].cd else 0;
              var answer := if replies[0].Reply? then replies[0].answer else stale;
              Waits(now, pending, stale, replies) ==
              if answer.None? && exists k :: 0 <= k < |now| && now[k].cd == cd then (Thrown, [])
              else Waits(AnswerAll(now, cd, answer), pending - Waiters(now, cd), answer, replies[1..])
  {
  }

  /** Takes replies until as many came as were asked for. A message that ends the wait counts
      as an answer of the branches that were never asked. */
  method Receive(branches: seq<Branch>, asked: int, replies: seq<Reply>) returns (now: seq<Branch>, end: Ending)
    requires OnceEach(replies)
    ensures |now| == |branches|
    ensures !end.Thrown? ==> forall k :: 0 <= k < |now| ==> now[k].grpno == branches[k].grpno && now[k].cd == branches[k].cd
    ensures !end.Thrown? ==> forall k :: 0 <= k < |now| && branches[k].cd < 0 ==> now[k] == branches[k]
    ensures AllWait(branches) && asked == |branches| ==>
              && (end.Done? ==> forall k :: 0 <= k < |now| ==> Answered(replies, now[k].cd, now[k].result))
              && ((forall k :: 0 <= k < |branches| ==> HasAnswer(replies, branches[k].cd)) ==> end.Done?)
    ensures Waits(branches, asked, None, replies) == (end, if end.Thrown? then [] else now)
  {
    hide Waits;
    now := branches;
    var pending, stale, n := asked, None, 0;
    ghost var all := AllWait(branches) && asked == |branches|;
    if all {
      OpenAtFirst(branches, replies);
    }
    while pending > 0
      invariant n <= |replies| && |now| == |branches|
      invariant forall k :: 0 <= k < |now| ==> now[k].grpno == branches[k].grpno && now[k].cd == branches[k].cd
      invariant forall k :: 0 <= k < |now| && branches[k].cd < 0 ==> now[k] == branches[k]
      invariant all ==> Progress(branches, now, replies, n, pending)
      invariant Waits(branches, asked, None, replies) == Waits(now, pending, stale, replies[n..])
      decreases |replies| - n
    {
      WaitsNext(now, pending, stale, replies[n..]);
      if n == |replies| {
        if all {
          SomeoneUnanswered(branches, replies);
        }
        return now, Waiting;
      }
      ghost var was, before := now, pending;
      var cd, thrown := 0, false;
      if replies[n].Reply? {
        cd, stale := replies[n].cd, replies[n].answer;
      }
      now, pending, thrown := Deliver(now, cd, stale, pending);
      if thrown {
        if all {
          NotAnswered(branches, was, replies, n);
        }
        return now, Thrown;
      }
      if all {
        ProgressNext(branches, was, now, replies, n, before, pending);
      }
      assert now == AnswerAll(was, cd, stale);
      assert replies[n..][1..] == replies[n + 1..];
      n := n + 1;
    }
    WaitsNext(now, pending, stale, replies[n..]);
    if all {
      NobodyOpen(branches, replies, n);
    }
    end := Done;
  }

  lemma OpenAtFirst(branches: seq<Branch>, replies: seq<Reply>)
    ensures |Open(branches, replies, 0)| == |branches|
    ensures forall k :: 0 <= k < |branches| ==> k in Open(branches, replies, 0)
  {
    assert Open(branches, replies, 0) == UpTo(|branches|);
  }

  function UpTo(n: nat): (r: set<nat>)
    ensures |r| == n
    ensures forall k :: k in r <==> 0 <= k < n
  {
    if n == 0 then {} else UpTo(n - 1) + {n - 1}
  }

  lemma NobodyOpen(branches: seq<Branch>, replies: seq<Reply>, n: nat)
    requires n <= |replies|
    ensures |Open(branches, replies, n)| <= 0 ==> forall k :: 0 <= k < |branches| ==> k !in Open(branches, replies, n)
  {
    if k :| k in Open(branches, replies, n) {
      assert |Open(branches, replies, n) - {k}| < |Open(branches, replies, n)|;
    }
  }

  lemma AnsweredCame(replies: seq<Reply>, cd: int, answer: int)
    requires Answered(replies, cd, answer)
    ensures Came(replies, |replies|, cd)
  {
    var j :| 0 <= j < |replies| && replies[j] == Reply(cd, Some(answer));
    assert replies[j].Reply?;
  }

  lemma SomeoneUnanswered(branches: seq<Branch>, replies: seq<Reply>)
    requires |Open(branches, replies, |replies|)| > 0
    ensures exists k :: 0 <= k < |branches| && !HasAnswer(replies, branches[k].cd)
  {
    var k :| k in Open(branches, replies, |replies|);
    forall a ensures !Answered(replies, branches[k].cd, a) {
      if Answered(replies, branches[k].cd, a) {
        AnsweredCame(replies, branches[k].cd, a);
      }
    }
  }

  lemma NotAnswered(branches: seq<Branch>, was: seq<Branch>, replies: seq<Reply>, n: nat)
    requires n < |replies| && OnceEach(replies) && AllWait(branches)
    requires |was| == |branches| && forall k :: 0 <= k < |was| ==> was[k].cd == branches[k].cd
    requires var cd := if replies[n].Reply? then replies[n].cd else 0;
             && (replies[n].Reply? ==> replies[n].answer.None?)
             && exists k :: 0 <= k < |was| && was[k].cd == cd
    ensures exists k :: 0 <= k < |branches| && !HasAnswer(replies, branches[k].cd)
  {
    var cd := if replies[n].Reply? then replies[n].cd else 0;
    var k :| 0 <= k < |was| && was[k].cd == cd;
    assert branches[k].cd == cd;
  }

  // ---- one phase ----

  /** The branches once the requests went out: those asked with their call, the first that could not be
      asked marked as failed. */
  function Asked(branches: seq<Branch>, sends: seq<int>): (asked: seq<Branch>)
    requires |sends| == |branches|
    ensures |asked| == |branches|
    ensures forall k :: 0 <= k < |asked| ==>
              asked[k] == if k < Sent(sends) then branches[k].(cd := sends[k])
                          else if k == Sent(sends) then branches[k].(cd := -1, result := TMER_TMERR)
                          else branches[k]
  {
    var n := Sent(sends);
    seq(|branches|, k requires 0 <= k < |branches| =>
      if k < n then branches[k].(cd := sends[k]) else if k == n then branches[k].(cd := -1, result := TMER_TMERR)
      else branches[k])
  }

  /** How one phase ends, and with which results. */
  function Phase(branches: seq<Branch>, sends: seq<int>, replies: seq<Reply>): (r: (Ending, seq<Branch>))
    requires |sends| == |branches|
    ensures |r.1| <= |branches|
  {
    Waits(Asked(branches, sends), Sent(sends), None, replies)
  }

  /** Sends a request to every branch and waits for the replies. */
  method Command(branches: seq<Branch>, func: Func, sends: seq<int>, replies: seq<Reply>)
    returns (now: seq<Branch>, log: seq<Request>, end: Ending)
    requires |sends| == |branches| && Descriptors(sends) && OnceEach(replies)
    ensures log == Requests(branches[..Sent(sends)], func)
    ensures !end.Thrown? ==> |now| == |branches| && forall k :: 0 <= k < |now| ==> now[k].grpno == branches[k].grpno
    ensures !end.Thrown? && Sent(sends) < |branches| ==> now[Sent(sends)].result == TMER_TMERR
    ensures Sent(sends) == |branches| ==>
              && (end.Done? ==> forall k :: 0 <= k < |now| ==> Answered(replies, sends[k], now[k].result))
              && ((forall k :: 0 <= k < |sends| ==> HasAnswer(replies, sends[k])) ==> end.Done?)
    ensures Phase(branches, sends, replies) == (end, if end.Thrown? then [] else now)
  {
    hide Answered, OnceEach, Requests, Waits;
    var asked;
    asked, log := SendAll(branches, func, sends);
    ghost var n := Sent(sends);
    assert asked == Asked(branches, sends);
    assert n == |branches| ==> AllWait(asked);
    now, end := Receive(asked, |log|, replies);
    if n < |branches| {
      assert asked[n].cd < 0;
    } else {
      assert forall k :: 0 <= k < |sends| ==> asked[k].cd == sends[k];
    }
  }

  // ---- commit ----

  /** The group numbers of the groups that joined, in order. */
  function GroupsOf(joined: seq<bool>, grpnos: seq<nat>): (branches: seq<Branch>)
    requires |joined| == |grpnos|
    ensures |branches| <= |joined|
    ensures forall k :: 0 <= k < |branches| ==> branches[k].cd == 0 && branches[k].result == XA_OK
  {
    if joined == [] then []
    else
      var n := |joined| - 1;
      GroupsOf(joined[..n], grpnos[..n]) + if joined[n] then [Branch(grpnos[n], 0, XA_OK)] else []
  }

  /** Every group that joined is there, and no other. */
  lemma {:induction false} EveryGroup(joined: seq<bool>, grpnos: seq<nat>)
    requires |joined| == |grpnos|
    ensures forall k :: 0 <= k < |joined| && joined[k] ==> Branch(grpnos[k], 0, XA_OK) in GroupsOf(joined, grpnos)
    ensures forall b :: b in GroupsOf(joined, grpnos) ==>
              exists k :: 0 <= k < |joined| && joined[k] && b == Branch(grpnos[k], 0, XA_OK)
  {
    if joined != [] {
      var n := |joined| - 1;
      EveryGroup(joined[..n], grpnos[..n]);
      forall k | 0 <= k < |joined| && joined[k] ensures Branch(grpnos[k], 0, XA_OK) in GroupsOf(joined, grpnos) {
        if k < n {
          assert joined[..n][k] && grpnos[..n][k] == grpnos[k];
        }
      }
      forall b | b in GroupsOf(joined, grpnos)
        ensures exists k :: 0 <= k < |joined| && joined[k] && b == Branch(grpnos[k], 0, XA_OK)
      {
        if b in GroupsOf(joined[..n], grpnos[..n]) {
          var k :| 0 <= k < n && joined[..n][k] && b == Branch(grpnos[..n][k], 0, XA_OK);
          assert joined[k] && b == Branch(grpnos[k], 0, XA_OK);
        } else {
          assert joined[n];
        }
      }
    }
  }

  method Collect(table: TransactionTable, grpnos: seq<nat>, xid: Xid) returns (r: Result<seq<Branch>, Transactions.Error>)
    requires table.Valid() && |grpnos| == table.maxGroups
    ensures match Find(table.Entries(), xid)
            case None => r == Err(OutOfRange)
            case Some(i) => r == Ok(GroupsOf(table.Entries()[i].groups, grpnos))
  {
    var i := table.FindXid(xid);
    if i.Err? {
      return Err(i.error);
    }
    var joined := table.entry[i.value].groups;
    var branches := [];
    assert joined[..0] == [] && grpnos[..0] == [];
    for group := 0 to table.maxGroups
      invariant branches == GroupsOf(joined[..group], grpnos[..group])
    {
      assert joined[..group + 1][..group] == joined[..group];
      assert grpnos[..group + 1][..group] == grpnos[..group];
      if joined[group] {
        branches := branches + [Branch(grpnos[group], 0, XA_OK)];
      }
    }
    assert joined[..|joined|] == joined && grpnos[..|grpnos|] == grpnos;
    r := Ok(branches);
  }

  /** The branches that take part in the second phase. */
  function Interested(branches: seq<Branch>): (rest: seq<Branch>)
    ensures |rest| <= |branches|
    ensures forall b :: b in rest ==> b in branches && b.result != XA_RDONLY
  {
    if branches == [] then []
    else
      var n := |branches| - 1;
      Interested(branches[..n]) + if branches[n].result == XA_RDONLY then [] else [branches[n]]
  }

  predicate AllYes(branches: seq<Branch>) {
    forall k :: 0 <= k < |branches| ==> branches[k].result == XA_OK || branches[k].result == XA_RDONLY
  }

  method Decide(branches: seq<Branch>) returns (commit: bool, rest: seq<Branch>)
    ensures commit == AllYes(branches) && rest == Interested(branches)
  {
    hide AllYes, Interested;
    commit, rest := true, [];
    NobodyYet(branches);
    for k := 0 to |branches|
      invariant commit == AllYes(branches[..k]) && rest == Interested(branches[..k])
    {
      OneMoreVote(branches, k);
      if branches[k].result != XA_RDONLY {
        if branches[k].result != XA_OK {
          commit := false;
        }
        rest := rest + [branches[k]];
      }
    }
    assert branches[..|branches|] == branches;
  }

  lemma NobodyYet(branches: seq<Branch>)
    ensures AllYes(branches[..0]) && Interested(branches[..0]) == []
  {
  }

  lemma OneMoreVote(branches: seq<Branch>, k: nat)
    requires k < |branches|
    ensures var r := branches[k].result;
            && AllYes(branches[..k + 1]) == (AllYes(branches[..k]) && (r == XA_OK || r == XA_RDONLY))
            && Interested(branches[..k + 1]) == Interested(branches[..k]) + if r == XA_RDONLY then [] else [branches[k]]
  {
    var more := branches[..k + 1];
    assert more[..k] == branches[..k] && more[k] == branches[k];
  }

  /** How a call ends: it returns, it waits for a reply that does not come, or an exception
      leaves it. */
  datatype Outcome = Returned(rc: int) | Blocked | Exception

  /** All groups were asked to prepare, and each answered that it can commit or has nothing to. */
  predicate AllVotedYes(n: nat, sends: seq<int>, replies: seq<Reply>) {
    && n <= |sends| && Sent(sends[..n]) == n
    && forall k :: 0 <= k < n ==> Answered(replies, sends[k], XA_OK) || Answered(replies, sends[k], XA_RDONLY)
  }

  predicate ToMember(branches: seq<Branch>, grpno: nat) {
    exists k :: 0 <= k < |branches| && branches[k].grpno == grpno
  }

  /** The group voted to commit. */
  predicate ToVoter(branches: seq<Branch>, sends: seq<int>, replies: seq<Reply>, grpno: nat)
    requires |sends| == |branches|
  {
    exists k :: 0 <= k < |branches| && branches[k].grpno == grpno && Answered(replies, sends[k], XA_OK)
  }

  predicate Tells(log: seq<Request>, func: Func) { exists i :: 0 <= i < |log| && log[i].func == func }

  /** How the two phases end, and all that was told. */
  function TwoPhaseOutcome(branches: seq<Branch>, sends: seq<int>, replies: seq<Reply>, sends2: seq<int>, replies2: seq<Reply>):
    (Outcome, seq<Request>)
    requires |sends| == |branches| <= |sends2|
  {
    var first := Requests(branches[..Sent(sends)], Prepare);
    var (end, now) := Phase(branches, sends, replies);
    if !end.Done? then (Stopped(end), first)
    else
      var rest := Interested(now);
      var commit := AllYes(now);
      var (end2, _) := Phase(rest, sends2[..|rest|], replies2);
      (if end2.Done? then Returned(if commit then TX_OK else TX_FAIL) else Stopped(end2),
       first + Requests(rest[..Sent(sends2[..|rest|])], if commit then Commit else Rollback))
  }

  function Stopped(end: Ending): Outcome { if end.Waiting? then Blocked else Exception }

  /** The two phases for the groups of a transaction. */
  method TwoPhases(branches: seq<Branch>, sends: seq<int>, replies: seq<Reply>, sends2: seq<int>, replies2: seq<Reply>)
    returns (r: Outcome, log: seq<Request>)
    requires |sends| == |branches| <= |sends2| && Descriptors(sends) && Descriptors(sends2)
    requires OnceEach(replies) && OnceEach(replies2)
    ensures Tells(log, Commit) ==> AllVotedYes(|branches|, sends, replies)
    ensures !(Tells(log, Commit) && Tells(log, Rollback))
    ensures forall i :: 0 <= i < |log| && log[i].func == Commit ==>
              ToVoter(branches, sends, replies, log[i].grpno)
    ensures forall i :: 0 <= i < |log| ==> ToMember(branches, log[i].grpno)
    ensures r == Returned(TX_OK) ==> AllVotedYes(|branches|, sends, replies) && !Tells(log, Rollback)
    ensures AllVotedYes(|branches|, sends, replies) ==> !Tells(log, Rollback)
    ensures r.Returned? ==> r.rc == if AllVotedYes(|branches|, sends, replies) then TX_OK else TX_FAIL
    ensures Sent(sends) == |sends| && Sent(sends2) == |sends2| && (r.Returned? || AllVotedYes(|branches|, sends, replies)) ==>
              forall k :: 0 <= k < |branches| && !Answered(replies, sends[k], XA_RDONLY) ==>
                Request(if AllVotedYes(|branches|, sends, replies) then Commit else Rollback, branches[k].grpno) in log
    ensures TwoPhaseOutcome(branches, sends, replies, sends2, replies2) == (r, log)
  {
    hide Answered, OnceEach, Descriptors, Sent, Phase;
    var now, end;
    now, log, end := Command(branches, Prepare, sends, replies);
    WholeIs(sends);
    FirstPhase(branches, log, Sent(sends));
    YesIsAnswered(sends, replies);
    if !end.Done? {
      return if end.Waiting? then Blocked else Exception, log;
    }
    var commit, rest := Decide(now);
    Votes(now, sends, replies);
    DescriptorsPrefix(sends2, |rest|);
    var func := if commit then Commit else Rollback;
    ghost var first := log;
    var _, more, end2 := Command(rest, func, sends2[..|rest|], replies2);
    log := log + more;
    SecondPhase(branches, now, sends, replies, func, more, Sent(sends2[..|rest|]));
    TellsBoth(first, more);
    AllSentPrefix(sends2, |rest|);
    EveryoneIsTold(branches, now, sends, replies, func, more, Sent(sends2[..|rest|]));
    if !end2.Done? {
      return if end2.Waiting? then Blocked else Exception, log;
    }
    r := Returned(if commit then TX_OK else TX_FAIL);
  }

  lemma WholeIs(sends: seq<int>)
    ensures sends[..|sends|] == sends && Sent(sends) <= |sends|
  {
  }

  lemma FirstPhase(branches: seq<Branch>, log: seq<Request>, n: nat)
    requires n <= |branches| && log == Requests(branches[..n], Prepare)
    ensures !Tells(log, Commit) && !Tells(log, Rollback)
    ensures forall i :: 0 <= i < |log| ==>
              log[i].func == Prepare && ToMember(branches, log[i].grpno)
  {
    forall i | 0 <= i < |log| ensures ToMember(branches, log[i].grpno) {
      assert branches[i].grpno == log[i].grpno;
    }
  }

  /** Once the first phase is through, the results say yes exactly when all groups voted yes. */
  lemma Votes(now: seq<Branch>, sends: seq<int>, replies: seq<Reply>)
    requires |now| == |sends| && OnceEach(replies) && Descriptors(sends)
    requires Sent(sends) < |sends| ==> now[Sent(sends)].result == TMER_TMERR
    requires Sent(sends) == |sends| ==> forall k :: 0 <= k < |now| ==> Answered(replies, sends[k], now[k].result)
    ensures AllYes(now) <==> AllVotedYes(|now|, sends, replies)
    ensures AllYes(now) ==> forall k :: 0 <= k < |now| ==> Answered(replies, sends[k], now[k].result)
  {
    hide OnceEach, Descriptors, Sent, Answered;
    WholeIs(sends);
    if AllVotedYes(|now|, sends, replies) {
      forall k | 0 <= k < |now| ensures now[k].result == XA_OK || now[k].result == XA_RDONLY {
        OneAnswer(replies, sends[k], now[k].result, XA_OK);
        OneAnswer(replies, sends[k], now[k].result, XA_RDONLY);
      }
    }
  }

  lemma OneAnswer(replies: seq<Reply>, cd: int, a: int, b: int)
    requires OnceEach(replies)
    ensures Answered(replies, cd, a) && Answered(replies, cd, b) ==> a == b
  {
    if Answered(replies, cd, a) && Answered(replies, cd, b) {
      var i :| 0 <= i < |replies| && replies[i] == Reply(cd, Some(a));
      var j :| 0 <= j < |replies| && replies[j] == Reply(cd, Some(b));
      assert i == j;
    }
  }

  lemma DescriptorsPrefix(sends: seq<int>, n: nat)
    requires Descriptors(sends) && n <= |sends|
    ensures Descriptors(sends[..n])
  {
  }

  lemma SecondPhase(branches: seq<Branch>, now: seq<Branch>, sends: seq<int>, replies: seq<Reply>, func: Func,
                    more: seq<Request>, n: nat)
    requires |now| == |branches| == |sends| && n <= |Interested(now)|
    requires forall k :: 0 <= k < |now| ==> now[k].grpno == branches[k].grpno
    requires more == Requests(Interested(now)[..n], func)
    requires func == Commit ==> AllYes(now) && forall k :: 0 <= k < |now| ==> Answered(replies, sends[k], now[k].result)
    ensures forall i :: 0 <= i < |more| ==>
              && more[i].func == func
              && ToMember(branches, more[i].grpno)
              && (func == Commit ==> ToVoter(branches, sends, replies, more[i].grpno))
    ensures Tells(more, func) <==> more != []
    ensures forall f :: f != func ==> !Tells(more, f)
  {
    hide Answered;
    forall i | 0 <= i < |more|
      ensures ToMember(branches, more[i].grpno)
      ensures func == Commit ==> ToVoter(branches, sends, replies, more[i].grpno)
    {
      var b := Interested(now)[i];
      assert b in Interested(now);
      var k :| 0 <= k < |now| && now[k] == b;
      assert branches[k].grpno == more[i].grpno;
    }
    if more != [] {
      assert more[0].func == func;
    }
  }

  lemma TellsBoth(first: seq<Request>, more: seq<Request>)
    ensures forall f :: Tells(first + more, f) <==> Tells(first, f) || Tells(more, f)
  {
    forall f ensures Tells(first + more, f) <==> Tells(first, f) || Tells(more, f) {
      if i :| 0 <= i < |more| && more[i].func == f {
        assert (first + more)[|first| + i] == more[i];
      }
      if i :| 0 <= i < |first| && first[i].func == f {
        assert (first + more)[i] == first[i];
      }
    }
  }

  lemma YesIsAnswered(sends: seq<int>, replies: seq<Reply>)
    ensures AllVotedYes(|sends|, sends, replies) ==> forall k :: 0 <= k < |sends| ==> HasAnswer(replies, sends[k])
  {
  }

  lemma AllSentPrefix(sends: seq<int>, n: nat)
    requires n <= |sends|
    ensures Sent(sends) == |sends| ==> Sent(sends[..n]) == n
  {
    if Sent(sends) == |sends| {
      SentIs(sends[..n], n);
    }
  }

  lemma {:induction false} InterestedHas(branches: seq<Branch>, k: nat)
    requires k < |branches| && branches[k].result != XA_RDONLY
    ensures branches[k] in Interested(branches)
  {
    var n := |branches| - 1;
    if k < n {
      assert branches[..n][k] == branches[k];
      InterestedHas(branches[..n], k);
    }
  }

  /** With every request sent, every group but those with nothing to do hears the decision. */
  lemma EveryoneIsTold(branches: seq<Branch>, now: seq<Branch>, sends: seq<int>, replies: seq<Reply>, func: Func,
                       more: seq<Request>, n: nat)
    requires |now| == |branches| == |sends| && n <= |Interested(now)|
    requires forall k :: 0 <= k < |now| ==> now[k].grpno == branches[k].grpno
    requires more == Requests(Interested(now)[..n], func)
    requires Sent(sends) == |sends| ==> forall k :: 0 <= k < |now| ==> Answered(replies, sends[k], now[k].result)
    ensures Sent(sends) == |sends| && n == |Interested(now)| ==>
              forall k :: 0 <= k < |branches| && !Answered(replies, sends[k], XA_RDONLY) ==>
                Request(func, branches[k].grpno) in more
  {
    hide Answered, Sent, Interested;
    if Sent(sends) == |sends| && n == |Interested(now)| {
      forall k | 0 <= k < |branches| && !Answered(replies, sends[k], XA_RDONLY)
        ensures Request(func, branches[k].grpno) in more
      {
        InterestedHas(now, k);
        var i :| 0 <= i < |Interested(now)| && Interested(now)[i] == now[k];
        assert more[i] == Request(func, branches[k].grpno);
      }
    }
  }
}
