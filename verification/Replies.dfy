/** Call descriptors, and replies that come in any order. */
module Replies {
  import opened Wrappers

  const INT_MAX := 0x7FFF_FFFF

  /** Allocation fails while more calls than this are open. */
  const MAX_OPEN := 1024

  /** A message in the reply queue: a reply, or the one that ends a wait. */
  datatype Message<P> = Reply(cd: int, payload: P) | Unblock

  /** An open call: its reply may have come while another one was waited for. */
  datatype Slot<P> = Expected | Buffered(cd: int, payload: P)

  datatype Result<P> = Delivered(cd: int, payload: P) | TimedOut | BadDescriptor | NothingYet

  /** The descriptors of the replies in a queue. */
  function Queued<P>(queue: seq<Message<P>>): (cds: seq<int>) {
    if queue == [] then []
    else (if queue[0].Reply? then [queue[0].cd] else []) + Queued(queue[1..])
  }

  predicate Distinct(s: seq<int>) { forall i, j :: 0 <= i < j < |s| ==> s[i] != s[j] }

  lemma {:induction false} QueuedConcat<P>(a: seq<Message<P>>, b: seq<Message<P>>)
    ensures Queued(a + b) == Queued(a) + Queued(b)
  {
    hide *;
    if a == [] {
      assert a + b == b;
      NothingQueued<P>();
    } else {
      assert (a + b)[1..] == a[1..] + b && (a + b)[0] == a[0];
      QueuedConcat(a[1..], b);
      QueuedIs(a);
      QueuedIs(a + b);
      var one := if a[0].Reply? then [a[0].cd] else [];
      assert one + (Queued(a[1..]) + Queued(b)) == one + Queued(a[1..]) + Queued(b);
    }
  }

  lemma QueuedIs<P>(queue: seq<Message<P>>)
    requires queue != []
    ensures Queued(queue) == (if queue[0].Reply? then [queue[0].cd] else []) + Queued(queue[1..])
  {
  }

  lemma NothingQueued<P>()
    ensures Queued<P>([]) == [] && forall s: seq<int> :: [] + s == s
  {
  }

  lemma {:induction false} QueuedHas<P>(queue: seq<Message<P>>, k: nat)
    requires k < |queue| && queue[k].Reply?
    ensures queue[k].cd in Queued(queue)
  {
    if k > 0 {
      QueuedHas(queue[1..], k - 1);
    }
  }

  /** The first message that ends a wait for `cd`: its reply or the end of the wait. */
  function FirstFor<P>(queue: seq<Message<P>>, cd: int): (k: nat)
    ensures k <= |queue|
    ensures forall j :: 0 <= j < k ==> queue[j].Reply? && queue[j].cd != cd
    ensures k < |queue| ==> queue[k].Unblock? || queue[k].cd == cd
  {
    if queue == [] || queue[0].Unblock? || queue[0].cd == cd then 0 else 1 + FirstFor(queue[1..], cd)
  }

  /** A buffered reply is delivered at once. Otherwise the first message that is the reply or the end
      of the wait decides, and all up to it are taken; without one nothing is known yet. */
  ghost predicate WaitedFor<P>(cd: int, calls: map<int, Slot<P>>, queue: seq<Message<P>>, r: Result<P>, left: seq<Message<P>>)
    requires cd in calls
  {
    if calls[cd].Buffered? then r == Delivered(calls[cd].cd, calls[cd].payload) && left == queue
    else
      var k := FirstFor(queue, cd);
      if k == |queue| then r.NothingYet? && left == []
      else
        && left == queue[k + 1..]
        && r == if queue[k].Unblock? then TimedOut else Delivered(cd, queue[k].payload)
  }

  /** The buffered reply with the smallest descriptor is delivered. Otherwise the next message decides. */
  ghost predicate WaitedForAny<P>(calls: map<int, Slot<P>>, queue: seq<Message<P>>, r: Result<P>, left: seq<Message<P>>) {
    if BufferedIn(calls) != {} then
      && r.Delivered? && r.cd in BufferedIn(calls) && (forall cd :: cd in BufferedIn(calls) ==> r.cd <= cd)
      && r.payload == calls[r.cd].payload && left == queue
    else if queue == [] then r.NothingYet? && left == []
    else
      && left == queue[1..]
      && r == if queue[0].Unblock? then TimedOut else Delivered(queue[0].cd, queue[0].payload)
  }

  lemma FirstIs<P>(queue: seq<Message<P>>, cd: int, k: nat)
    requires k <= |queue| && forall j :: 0 <= j < k ==> queue[j].Reply? && queue[j].cd != cd
    requires k < |queue| ==> queue[k].Unblock? || queue[k].cd == cd
    ensures FirstFor(queue, cd) == k
  {
  }

  function BufferedIn<P>(calls: map<int, Slot<P>>): (cds: set<int>) {
    set cd | cd in calls && calls[cd].Buffered?
  }

  lemma NothingBuffered<P>(calls: map<int, Slot<P>>, cd: int)
    requires cd !in calls
    ensures BufferedIn(calls[cd := Expected]) == BufferedIn(calls)
  {
  }

  /** Each open call is in one place: with the server, in the queue or in the buffer, and
      what is in the queue and in the buffer is what was sent for that call. */
  ghost predicate InPlace<P>(calls: map<int, Slot<P>>, seqno: int, queue: seq<Message<P>>, unanswered: set<int>, answers: map<int, P>) {
    && 0 <= seqno < INT_MAX
    && (forall cd :: cd in calls ==> 0 < cd < INT_MAX)
    && Distinct(Queued(queue))
    && (forall cd :: cd in calls <==> cd in unanswered || cd in Queued(queue) || cd in BufferedIn(calls))
    && (forall cd :: cd in Queued(queue) ==> cd !in unanswered && cd !in BufferedIn(calls))
    && unanswered !! BufferedIn(calls)
    && (forall cd :: cd in BufferedIn(calls) ==> calls[cd].cd == cd && cd in answers && calls[cd].payload == answers[cd])
    && forall k :: 0 <= k < |queue| && queue[k].Reply? ==>
         queue[k].cd in answers && queue[k].payload == answers[queue[k].cd]
  }

  /** The descriptors come in a cycle that leaves out 0. */
  function NextCd(seqno: int): int { if seqno + 1 == INT_MAX then 1 else seqno + 1 }

  /** A call under the next descriptor, whether it could be sent or not. */
  lemma NextCall<P>(calls: map<int, Slot<P>>, seqno: int, queue: seq<Message<P>>, unanswered: set<int>, answers: map<int, P>)
    requires InPlace(calls, seqno, queue, unanswered, answers)
    ensures var cd := NextCd(seqno);
            && 0 < cd < INT_MAX
            && InPlace(calls, cd, queue, unanswered, answers)
            && (cd !in calls ==>
                  && calls[cd := Expected] - {cd} == calls && calls[cd := Expected].Keys == calls.Keys + {cd}
                  && BufferedIn(calls[cd := Expected]) == BufferedIn(calls)
                  && InPlace(calls[cd := Expected], cd, queue, unanswered + {cd}, answers))
  {
    hide Queued, Distinct, BufferedIn;
    var cd := NextCd(seqno);
    if cd !in calls {
      NothingBuffered(calls, cd);
    }
  }

  lemma SizeWith<P>(calls: map<int, Slot<P>>, cd: int)
    ensures |calls[cd := Expected]| == |calls| + if cd in calls then 0 else 1
  {
    if cd in calls {
      assert calls[cd := Expected].Keys == calls.Keys;
    } else {
      assert calls[cd := Expected].Keys == calls.Keys + {cd};
    }
  }

  class Client<P(!new)> {
    var calls: map<int, Slot<P>>
    var seqno: int
    var queue: seq<Message<P>>
    var unanswered: set<int>             // calls whose reply the servers have not sent yet
    ghost var answers: map<int, P>       // every reply that was sent

    ghost predicate Valid()
      reads this
    {
      InPlace(calls, seqno, queue, unanswered, answers)
    }

    /** The calls whose reply has come and was not delivered. */
    ghost function Received(): set<int>
      reads this
    {
      (set cd | cd in Queued(queue)) + BufferedIn(calls)
    }

    constructor ()
      ensures Valid() && calls == map[] && queue == [] && Received() == {} && seqno == 0
    {
      calls, seqno, queue := map[], 0, [];
      unanswered, answers := {}, map[];
    }

    method NextSeq() returns (cd: int)
      modifies this`seqno
      ensures cd == seqno == NextCd(old(seqno))
    {
      seqno := seqno + 1;
      if seqno == INT_MAX {
        seqno := 1;
      }
      cd := seqno;
    }

    /** The next descriptor. One that came round to a call that is still open is taken from it. */
    method Allocate() returns (cd: int)
      modifies this`seqno, this`calls
      ensures old(|calls|) > 1024 ==> cd == -1 && calls == old(calls) && seqno == old(seqno)
      ensures old(|calls|) <= 1024 ==>
                cd == seqno == NextCd(old(seqno)) && calls == old(calls)[cd := Expected]
      ensures cd != -1 ==> |calls| == old(|calls|) + if cd in old(calls) then 0 else 1
    {
      if |calls| > MAX_OPEN {
        return -1;
      }
      cd := NextSeq();
      SizeWith(calls, cd);
      calls := calls[cd := Expected];
    }

    /** The next call takes the descriptor of one that is still open. */
    predicate Comes()
      reads this
    {
      |calls| <= MAX_OPEN && NextCd(seqno) in calls
    }

    /** Sends a request that wants a reply; a descriptor that could not be sent is released. */
    method Call(sent: bool) returns (cd: int)
      requires Valid() && !Comes()
      modifies this
      ensures Valid() && queue == old(queue) && answers == old(answers) && Received() == old(Received())
      ensures seqno == if old(|calls|) <= MAX_OPEN then NextCd(old(seqno)) else old(seqno)
      ensures cd == if old(|calls|) <= MAX_OPEN && sent then seqno else -1
      ensures cd != -1 ==>
                && cd !in old(calls) && calls == old(calls)[cd := Expected] && calls.Keys == old(calls.Keys) + {cd}
                && unanswered == old(unanswered) + {cd}
      ensures cd == -1 ==> calls == old(calls) && unanswered == old(unanswered)
      ensures cd != -1 <==> old(|calls|) <= MAX_OPEN && sent
    {
      hide InPlace;
      NextCall(calls, seqno, queue, unanswered, answers);
      cd := Allocate();
      if cd == -1 {
        return;
      }
      if sent {
        unanswered := unanswered + {cd};
      } else {
        Release(cd);
        cd := -1;
      }
    }

    /** The server answers a call, once. */
    method Answer(cd: int, payload: P)
      requires Valid() && cd in unanswered
      modifies this
      ensures Valid() && calls == old(calls) && unanswered == old(unanswered) - {cd} && seqno == old(seqno)
      ensures Received() == old(Received()) + {cd} && answers == old(answers)[cd := payload]
    {
      QueuedConcat(queue, [Reply(cd, payload)]);
      assert Queued([Reply(cd, payload)]) == [cd] by { assert [Reply(cd, payload)][1..] == []; }
      forall k | 0 <= k < |queue| && queue[k].Reply? ensures queue[k].cd != cd {
        QueuedHas(queue, k);
      }
      queue := queue + [Reply(cd, payload)];
      unanswered := unanswered - {cd};
      answers := answers[cd := payload];
    }

    /** The wait has been long enough. */
    method SendUnblock()
      requires Valid()
      modifies this`queue
      ensures Valid() && queue == old(queue) + [Unblock] && Received() == old(Received())
    {
      var last: seq<Message<P>> := [Unblock];
      QueuedConcat(queue, last);
      assert Queued(last) == [] by { assert last[1..] == []; }
      queue := queue + last;
      assert Queued(queue) == old(Queued(queue));
    }

    /** Takes the first message out of the queue. */
    method Pop() returns (m: Message<P>)
      requires queue != []
      modifies this`queue
      ensures m == old(queue)[0] && queue == old(queue)[1..]
    {
      m := queue[0];
      queue := queue[1..];
    }

    method Buffer(m: Message<P>)
      requires m.Reply?
      modifies this`calls
      ensures calls == old(calls)[m.cd := Buffered(m.cd, m.payload)]
    {
      calls := calls[m.cd := Buffered(m.cd, m.payload)];
    }

    method Release(cd: int)
      modifies this`calls
      ensures calls == old(calls) - {cd}
    {
      calls := calls - {cd};
    }

    /** What a wait leaves of the calls it was not for. */
    ghost predicate Kept(unanswered0: set<int>, answers0: map<int, P>, calls0: map<int, Slot<P>>, received0: set<int>,
                         delivered: set<int>)
      reads this
    {
      && unanswered == unanswered0 && answers == answers0
      && calls.Keys == calls0.Keys - delivered
      && Received() == received0 - delivered
    }

    /** Waits for the reply to `cd`. */
    method GetReply(cd: int) returns (r: Result<P>)
      requires Valid()
      modifies this`calls, this`queue
      ensures Valid()
      ensures r.BadDescriptor? <==> cd !in old(calls)
      ensures r.Delivered? ==> r.cd == cd && cd in old(Received()) && cd in answers && r.payload == answers[cd]
      ensures r.TimedOut? ==> Unblock in old(queue)
      ensures r.NothingYet? ==> cd in unanswered && queue == []
      ensures cd !in old(calls) ==> queue == old(queue) && calls == old(calls)
      ensures cd in old(calls) ==> WaitedFor(cd, old(calls), old(queue), r, queue)
      ensures Kept(old(unanswered), old(answers), old(calls), old(Received()), if r.Delivered? then {cd} else {})
    {
      hide FirstFor, Queued, Distinct;
      if cd !in calls {
        return BadDescriptor;
      }
      if calls[cd].Buffered? {
        r := TakeBuffered(cd);
        return;
      }
      ghost var n := 0;
      while queue != []
        invariant Valid() && cd in calls && !calls[cd].Buffered?
        invariant Kept(old(unanswered), old(answers), old(calls), old(Received()), {})
        invariant n <= |old(queue)| && queue == old(queue)[n..]
        invariant forall j :: 0 <= j < n ==> old(queue)[j].Reply? && old(queue)[j].cd != cd
        decreases |queue|
      {
        ghost var m := queue[0];
        assert m == old(queue)[n];
        r := TakeNext(cd);
        if !r.NothingYet? {
          FirstIs(old(queue), cd, n);
          return;
        }
        n := n + 1;
      }
      FirstIs(old(queue), cd, n);
      NothingQueued<P>();
      r := NothingYet;
    }

    method TakeBuffered(cd: int) returns (r: Result<P>)
      requires Valid() && cd in BufferedIn(calls)
      modifies this`calls
      ensures Valid() && cd in answers && r == Delivered(cd, answers[cd]) && r == Delivered(cd, old(calls)[cd].payload)
      ensures calls == old(calls) - {cd} && Received() == old(Received()) - {cd}
    {
      ghost var was := calls;
      r := Delivered(calls[cd].cd, calls[cd].payload);
      Release(cd);
      assert BufferedIn(calls) == BufferedIn(was) - {cd};
    }

    /** One message: the end of the wait, the reply to `cd`, or one to keep for another call. */
    method TakeNext(cd: int) returns (r: Result<P>)
      requires Valid() && queue != [] && cd in calls && !calls[cd].Buffered?
      modifies this`calls, this`queue
      ensures Valid() && queue == old(queue)[1..]
      ensures r.TimedOut? <==> old(queue)[0].Unblock?
      ensures r.Delivered? <==> old(queue)[0].Reply? && old(queue)[0].cd == cd
      ensures r.Delivered? ==> r == Delivered(cd, old(queue)[0].payload)
      ensures r.TimedOut? ==> calls == old(calls) && Received() == old(Received())
      ensures r.Delivered? ==> cd in answers && r == Delivered(cd, answers[cd]) && cd in old(Received())
      ensures r.Delivered? ==> calls == old(calls) - {cd} && Received() == old(Received()) - {cd}
      ensures r.NothingYet? ==> calls.Keys == old(calls.Keys) && !calls[cd].Buffered? && Received() == old(Received())
      ensures !r.BadDescriptor?
    {
      hide Queued, Distinct;
      ghost var calls0 := calls;
      QueuedParts(queue);
      var m := Pop();
      if m.Unblock? {
        return TimedOut;
      }
      if m.cd != cd {
        Buffer(m);
        assert BufferedIn(calls) == BufferedIn(calls0) + {m.cd};
        return NothingYet;
      }
      Release(cd);
      assert BufferedIn(calls) == BufferedIn(calls0);
      r := Delivered(m.cd, m.payload);
    }

    /** Waits for any reply: the buffered one with the smallest descriptor, or the next to come. */
    method GetAny() returns (r: Result<P>)
      requires Valid()
      modifies this`calls, this`queue
      ensures Valid() && !r.BadDescriptor?
      ensures r.Delivered? ==> r.cd in old(Received()) && r.cd in answers && r.payload == answers[r.cd]
      ensures r.TimedOut? ==> Unblock in old(queue)
      ensures r.NothingYet? ==> Received() == {}
      ensures WaitedForAny(old(calls), old(queue), r, queue)
      ensures Kept(old(unanswered), old(answers), old(calls), old(Received()), if r.Delivered? then {r.cd} else {})
    {
      ghost var was := calls;
      var c := AnyBuffered();
      if c.Some? {
        r := TakeBuffered(c.value);
        return;
      }
      if queue == [] {
        return NothingYet;
      }
      assert queue[0] in queue;
      QueuedParts(queue);
      var m := Pop();
      if m.Unblock? {
        return TimedOut;
      }
      Release(m.cd);
      assert BufferedIn(calls) == BufferedIn(was);
      r := Delivered(m.cd, m.payload);
    }

    /** The smallest descriptor with a buffered reply. */
    method AnyBuffered() returns (c: Option<int>)
      requires Valid()
      ensures c.None? <==> BufferedIn(calls) == {}
      ensures c.Some? ==> c.value in BufferedIn(calls) && forall cd :: cd in BufferedIn(calls) ==> c.value <= cd
    {
      c := None;
      for cd := 1 to INT_MAX
        invariant forall d :: d in BufferedIn(calls) ==> cd <= d
      {
        if cd in calls && calls[cd].Buffered? {
          assert cd in BufferedIn(calls);
          return Some(cd);
        }
      }
      assert forall d :: d in BufferedIn(calls) ==> d in calls;
      assert BufferedIn(calls) == {};
    }
  }

  lemma QueuedParts<P>(queue: seq<Message<P>>)
    requires queue != []
    ensures Queued(queue) == (if queue[0].Reply? then [queue[0].cd] else []) + Queued(queue[1..])
    ensures queue[0].Reply? && Distinct(Queued(queue)) ==>
              queue[0].cd !in Queued(queue[1..]) && Distinct(Queued(queue[1..])) && queue[0].cd in Queued(queue)
    ensures queue[0].Unblock? ==> Queued(queue) == Queued(queue[1..])
  {
    assert [] + Queued(queue[1..]) == Queued(queue[1..]);
    if queue[0].Reply? {
      var s := Queued(queue);
      assert s[0] == queue[0].cd && s[1..] == Queued(queue[1..]);
    }
  }

  // ---- runs ----

  /** A call, the answer to one, the end of a wait, and the two ways to ask for a reply. */
  datatype Step<P> = Call(sent: bool) | Answer(cd: int, payload: P) | Wake | Get(cd: int) | GetAny

  function Cds<P>(delivered: seq<(int, P)>): (cds: seq<int>)
    ensures |cds| == |delivered| && forall i :: 0 <= i < |cds| ==> cds[i] == delivered[i].0
  {
    seq(|delivered|, i requires 0 <= i < |delivered| => delivered[i].0)
  }

  /** The replies that came and were not delivered. */
  ghost function Waiting<P(!new)>(received: set<int>, answers: map<int, P>): set<(int, P)>
    requires received <= answers.Keys
  {
    set cd | cd in received :: (cd, answers[cd])
  }

  /** Where a run stands: every call that was made is delivered, once, or still open, and every
      reply that was sent is delivered, once and as it was sent, or waits. */
  ghost predicate Accounted<P(!new)>(c: Client<P>, made: seq<int>, sent: seq<(int, P)>, delivered: seq<(int, P)>)
    reads c
  {
    && c.Valid() && c.Received() <= c.answers.Keys
    && multiset(made) == multiset(Cds(delivered)) + multiset(c.calls.Keys)
    && multiset(sent) == multiset(delivered) + multiset(Waiting(c.Received(), c.answers))
  }

  lemma ReceivedHasAnswers<P(!new)>(c: Client<P>)
    requires c.Valid()
    ensures c.Received() <= c.answers.Keys && c.Received() <= c.calls.Keys && c.Received() !! c.unanswered
  {
    hide Queued;
    forall cd | cd in c.Received() ensures cd in c.answers && cd in c.calls && cd !in c.unanswered {
      if cd in Queued(c.queue) {
        QueuedFrom(c.queue, cd);
      }
    }
  }

  lemma {:induction false} QueuedFrom<P>(queue: seq<Message<P>>, cd: int)
    requires cd in Queued(queue)
    ensures exists k :: 0 <= k < |queue| && queue[k].Reply? && queue[k].cd == cd
  {
    if !(queue[0].Reply? && queue[0].cd == cd) {
      QueuedFrom(queue[1..], cd);
      var k :| 0 <= k < |queue[1..]| && queue[1..][k].Reply? && queue[1..][k].cd == cd;
      assert queue[k + 1] == queue[1..][k];
    }
  }

  lemma OneKey(keys: set<int>, cd: int)
    ensures cd !in keys ==> multiset(keys + {cd}) == multiset(keys) + multiset{cd}
    ensures cd in keys ==> multiset(keys) == multiset(keys - {cd}) + multiset{cd}
  {
  }

  /** One more reply waits, or one less. */
  lemma OneWaiting<P(!new)>(received: set<int>, answers: map<int, P>, cd: int, payload: P)
    requires received <= answers.Keys
    ensures cd !in received ==>
              multiset(Waiting(received + {cd}, answers[cd := payload])) == multiset(Waiting(received, answers)) + multiset{(cd, payload)}
    ensures cd in received && payload == answers[cd] ==>
              multiset(Waiting(received, answers)) == multiset(Waiting(received - {cd}, answers)) + multiset{(cd, payload)}
  {
    var w := Waiting(received, answers);
    if cd !in received {
      assert Waiting(received + {cd}, answers[cd := payload]) == w + {(cd, payload)};
      assert (cd, payload) !in w;
    } else if payload == answers[cd] {
      assert Waiting(received - {cd}, answers) == w - {(cd, payload)};
      assert (cd, payload) in w;
    }
  }

  lemma CdsOfMore<P>(delivered: seq<(int, P)>, cd: int, payload: P)
    ensures Cds(delivered + [(cd, payload)]) == Cds(delivered) + [cd]
  {
  }

  /** A delivered reply joins the others; nothing else comes of asking for one. */
  method Deliver<P(!new)>(c: Client<P>, r: Result<P>, ghost made: seq<int>, ghost sent: seq<(int, P)>, delivered: seq<(int, P)>,
                          ghost keys: set<int>, ghost received: set<int>)
    returns (after: seq<(int, P)>)
    requires c.Valid() && received <= c.answers.Keys && received <= keys
    requires multiset(made) == multiset(Cds(delivered)) + multiset(keys)
    requires multiset(sent) == multiset(delivered) + multiset(Waiting(received, c.answers))
    requires r.Delivered? ==> r.cd in received && r.payload == c.answers[r.cd]
    requires c.calls.Keys == keys - (if r.Delivered? then {r.cd} else {})
    requires c.Received() == received - (if r.Delivered? then {r.cd} else {})
    ensures Accounted(c, made, sent, after)
    ensures after == if r.Delivered? then delivered + [(r.cd, r.payload)] else delivered
  {
    hide InPlace, Cds, Waiting;
    after := delivered;
    if r.Delivered? {
      OneKey(keys, r.cd);
      OneWaiting(received, c.answers, r.cd, r.payload);
      CdsOfMore(delivered, r.cd, r.payload);
      after := delivered + [(r.cd, r.payload)];
      assert multiset(after) == multiset(delivered) + multiset{(r.cd, r.payload)};
      assert multiset(Cds(after)) == multiset(Cds(delivered)) + multiset{r.cd};
    } else {
      assert c.calls.Keys == keys && c.Received() == received;
    }
  }

  method CallStep<P(!new)>(c: Client<P>, ok: bool, ghost made: seq<int>, ghost sent: seq<(int, P)>, ghost delivered: seq<(int, P)>)
    returns (ghost now: seq<int>)
    requires Accounted(c, made, sent, delivered) && !c.Comes()
    modifies c
    ensures Accounted(c, now, sent, delivered)
    ensures if old(|c.calls|) <= MAX_OPEN && ok then
              now == made + [NextCd(old(c.seqno))] && c.calls.Keys == old(c.calls.Keys) + {NextCd(old(c.seqno))}
            else now == made && c.calls == old(c.calls)
    ensures c.seqno == if old(|c.calls|) <= MAX_OPEN then NextCd(old(c.seqno)) else old(c.seqno)
  {
    hide InPlace, Cds, Waiting;
    ghost var keys := c.calls.Keys;
    var cd := c.Call(ok);
    now := if cd == -1 then made else made + [cd];
    OneKey(keys, cd);
  }

  method AnswerStep<P(!new)>(c: Client<P>, cd: int, payload: P, ghost made: seq<int>, ghost sent: seq<(int, P)>, ghost delivered: seq<(int, P)>)
    returns (ghost now: seq<(int, P)>)
    requires Accounted(c, made, sent, delivered)
    modifies c
    ensures Accounted(c, made, now, delivered) && c.seqno == old(c.seqno) && c.calls == old(c.calls)
    ensures now == if cd in old(c.unanswered) then sent + [(cd, payload)] else sent
  {
    hide InPlace, Cds, Waiting;
    now := sent;
    if cd in c.unanswered {
      ReceivedHasAnswers(c);
      OneWaiting(c.Received(), c.answers, cd, payload);
      c.Answer(cd, payload);
      now := sent + [(cd, payload)];
    }
  }

  /** A reply is asked for: to one call or to any. */
  method GetStep<P(!new)>(c: Client<P>, cd: Option<int>, ghost made: seq<int>, ghost sent: seq<(int, P)>, delivered: seq<(int, P)>)
    returns (after: seq<(int, P)>)
    requires Accounted(c, made, sent, delivered)
    modifies c
    ensures Accounted(c, made, sent, after) && c.seqno == old(c.seqno) && c.calls.Keys <= old(c.calls.Keys)
    ensures delivered <= after
  {
    hide InPlace, Cds, Waiting, WaitedFor, WaitedForAny;
    ReceivedHasAnswers(c);
    ghost var keys, received := c.calls.Keys, c.Received();
    var r;
    if cd.Some? {
      r := c.GetReply(cd.value);
    } else {
      r := c.GetAny();
    }
    after := Deliver(c, r, made, sent, delivered, keys, received);
  }

  /** How many descriptors ago `cd` was given. */
  function Age(seqno: int, cd: int): int { if cd <= seqno then seqno - cd else seqno - cd + INT_MAX - 1 }

  lemma AgesGrow(seqno: int, keys: set<int>, k: nat)
    requires 0 <= seqno < INT_MAX && forall cd :: cd in keys ==> 0 < cd < INT_MAX && Age(seqno, cd) < k
    ensures forall cd :: cd in keys ==> Age(seqno, cd) < k + 1
    ensures NextCd(seqno) !in keys ==> forall cd :: cd in keys ==> Age(NextCd(seqno), cd) < k + 1
    ensures Age(NextCd(seqno), NextCd(seqno)) == 0
    ensures k < INT_MAX - 1 ==> NextCd(seqno) !in keys
  {
    if seqno > 0 {
      assert Age(seqno, NextCd(seqno)) == INT_MAX - 2;
    } else if NextCd(seqno) in keys {
      assert Age(seqno, 1) == INT_MAX - 2;
    }
  }

  /** In any run every call is delivered once or still open, and every reply that is sent reaches
      its own descriptor once or waits. A run ends early only when a descriptor comes round to a
      call that is still open, which takes as many steps as there are descriptors. */
  method Run<P(!new)>(c: Client<P>, steps: seq<Step<P>>)
    returns (delivered: seq<(int, P)>, done: nat, ghost made: seq<int>, ghost sent: seq<(int, P)>)
    requires c.Valid() && c.calls == map[]
    modifies c
    ensures Accounted(c, made, sent, delivered)
    ensures done <= |steps| && (done < |steps| ==> steps[done].Call? && c.Comes())
    ensures |steps| < 0x7FFF_FFFE ==> done == |steps|
  {
    hide InPlace, Cds, Waiting, WaitedFor, WaitedForAny;
    delivered, made, sent, done := [], [], [], 0;
    NothingYetAccounted(c);
    while done < |steps|
      invariant done <= |steps| && Accounted(c, made, sent, delivered)
      invariant forall cd :: cd in c.calls.Keys ==> Age(c.seqno, cd) < done
    {
      CdRange(c);
      AgesGrow(c.seqno, c.calls.Keys, done);
      match steps[done] {
        case Call(ok) =>
          if c.Comes() {
            return;
          }
          made := CallStep(c, ok, made, sent, delivered);
        case Answer(cd, payload) =>
          sent := AnswerStep(c, cd, payload, made, sent, delivered);
        case Wake => c.SendUnblock();
        case Get(cd) => delivered := GetStep(c, Some(cd), made, sent, delivered);
        case GetAny => delivered := GetStep(c, None, made, sent, delivered);
      }
      done := done + 1;
    }
  }

  lemma CdRange<P(!new)>(c: Client<P>)
    requires c.Valid()
    ensures 0 <= c.seqno < INT_MAX && forall cd :: cd in c.calls.Keys ==> 0 < cd < INT_MAX
  {
  }

  lemma NothingYetAccounted<P(!new)>(c: Client<P>)
    requires c.Valid() && c.calls == map[]
    ensures Accounted(c, [], [], [])
  {
    ReceivedHasAnswers(c);
    assert c.Received() == {};
  }
}
