/** The queues a client keeps for each service it called, and how it picks among them. */
module ServiceCache {
  import opened Wrappers
  import opened Services

  datatype Entry = Entry(queues: seq<QueueEntry>, current: nat, cachedRevision: nat, service: nat)

  /** An entry is not ahead of the table, and one as new as the table holds its queues. */
  ghost predicate Coherent(e: Entry, ads: seq<Advert>, services: seq<Service>, msqids: seq<int>, grpnos: seq<int>) {
    && e.service < |services|
    && e.cachedRevision <= services[e.service].revision
    && (e.cachedRevision == services[e.service].revision ==> e.queues == QueuesOf(ads, e.service, msqids, grpnos))
  }

  /** Whatever is announced to the table leaves every cached entry coherent. */
  lemma StaysCoherent(e: Entry, ads: seq<Advert>, services: seq<Service>, ads': seq<Advert>, services': seq<Service>,
                      msqids: seq<int>, grpnos: seq<int>)
    requires Coherent(e, ads, services, msqids, grpnos) && Announced(ads, services, ads', services', msqids, grpnos)
    ensures Coherent(e, ads', services', msqids, grpnos)
    ensures services'[e.service].name == services[e.service].name
  {
    hide QueuesOf;
  }

  predicate FirstOf(queues: seq<QueueEntry>, grpno: int, k: nat) {
    k < |queues| && queues[k].grpno == grpno && forall j :: 0 <= j < k ==> queues[j].grpno != grpno
  }

  /** The first queue of a group. */
  function OfGroup(queues: seq<QueueEntry>, grpno: int): (r: Option<int>)
    ensures r.None? <==> forall k :: 0 <= k < |queues| ==> queues[k].grpno != grpno
    ensures r.Some? ==> exists k: nat :: FirstOf(queues, grpno, k) && queues[k].msqid == r.value
  {
    if queues == [] then None
    else if queues[0].grpno == grpno then
      assert FirstOf(queues, grpno, 0);
      Some(queues[0].msqid)
    else
      assert forall k :: 0 < k < |queues| ==> queues[k] == queues[1..][k - 1];
      var r := OfGroup(queues[1..], grpno);
      assert r.Some? ==> exists k: nat :: FirstOf(queues, grpno, k) && queues[k].msqid == r.value by {
        if r.Some? {
          var k: nat :| FirstOf(queues[1..], grpno, k) && queues[1..][k].msqid == r.value;
          assert FirstOf(queues, grpno, k + 1);
        }
      }
      r
  }

  datatype Table = Table(ads: seq<Advert>, services: seq<Service>)

  /** A look-up is answered with the queue of an advertisement of the service, of the group that is
      asked for; with none only if there is no such advertisement. */
  ghost predicate Answers(t: Table, msqids: seq<int>, grpnos: seq<int>, grpno: int, name: string, found: Option<int>) {
    var s := FindName(t.services, name);
    if s == BADOFF then found == None
    else
      && (found.Some? ==> exists i :: 0 <= i < |t.ads| && IsQueue(t.ads[i], s, msqids, grpnos, grpno, found.value))
      && (found.None? ==> forall i, q :: 0 <= i < |t.ads| ==> !IsQueue(t.ads[i], s, msqids, grpnos, grpno, q))
  }

  class Repository {
    const m: Mib
    var entries: map<string, Entry>

    ghost predicate Valid()
      reads this, m, m.advertisements, m.services
    {
      && m.Valid()
      && forall name :: name in entries ==>
           && Coherent(entries[name], m.Ads(), m.Names(), m.msqids, m.grpnos)
           && m.Names()[entries[name].service].name == name
    }

    constructor (m: Mib)
      requires m.Valid()
      ensures Valid() && this.m == m && entries == map[]
    {
      this.m := m;
      entries := map[];
    }

    /** The entry of a service; the first time, an empty one of revision 0. */
    method GetEntry(name: string) returns (e: Option<Entry>)
      requires Valid()
      modifies this
      ensures Valid() && (e.Some? ==> name in entries && entries[name] == e.value)
      ensures e.None? <==> FindName(m.Names(), name) == BADOFF
      ensures entries == if e.Some? then old(entries)[name := e.value] else old(entries)
      ensures name in old(entries) ==> e == Some(old(entries)[name])
      ensures e.Some? ==> e.value.service == FindName(m.Names(), name)
      ensures e.Some? && name !in old(entries) ==> e.value.queues == [] && e.value.current == 0 && e.value.cachedRevision == 0
    {
      if name in entries {
        EntryIsNamed(name);
        return Some(entries[name]);
      }
      var s := m.FindService(name);
      if s == BADOFF {
        return None;
      }
      RevisionZero(m, s);
      e := Some(Entry([], 0, 0, s));
      entries := entries[name := e.value];
    }

    lemma EntryIsNamed(name: string)
      requires Valid() && name in entries
      ensures m.advLen <= m.advertisements.Length
      ensures FindName(m.Names(), name) == entries[name].service != BADOFF
    {
      FirstNameIs(m.Names(), name, entries[name].service);
    }

    /** Reads the queues again when the revision has changed. */
    method Refresh(name: string)
      requires Valid() && name in entries
      modifies this
      ensures Valid() && name in entries && entries == old(entries)[name := entries[name]]
      ensures var e, e0 := entries[name], old(entries)[name];
              && e.service == e0.service && e.current == e0.current
              && e.cachedRevision == m.Names()[e.service].revision
              && e.queues == QueuesOf(m.Ads(), e.service, m.msqids, m.grpnos)
    {
      hide FindName, FindAdvert, NoneTwice, QueuesOf;
      var e := entries[name];
      if e.cachedRevision != m.services[e.service].revision {
        var queues := ScanTable(e.service);
        e := e.(queues := queues, cachedRevision := m.services[e.service].revision);
        entries := entries[name := e];
      }
    }

    method ScanTable(service: nat) returns (queues: seq<QueueEntry>)
      requires m.Valid() && service < m.svcLen
      ensures queues == QueuesOf(m.Ads(), service, m.msqids, m.grpnos)
    {
      hide FindName, FindAdvert, NoneTwice;
      ghost var ads := m.Ads();
      queues := [];
      assert ads[..0] == [];
      for i := 0 to m.advLen
        invariant queues == QueuesOf(ads[..i], service, m.msqids, m.grpnos)
      {
        assert ads[..i + 1][..i] == ads[..i];
        var a := m.advertisements[i];
        assert m.InTable(a);
        if a.service == service {
          queues := queues + [QueueEntry(m.grpnos[a.server], m.msqids[a.queue])];
        }
      }
      assert ads[..m.advLen] == ads;
    }

    /** The next queue in turn, or the first one of a group. */
    method LoadBalance(name: string, grpno: int) returns (msqid: Option<int>)
      requires Valid() && name in entries
      modifies this
      ensures Valid() && name in entries && entries == old(entries)[name := entries[name]]
      ensures var e, e0 := entries[name], old(entries)[name];
              && e == e0.(current := e.current)
              && if e0.queues == [] then msqid == None && e == e0
                 else if grpno == -1 then
                   e.current == (e0.current + 1) % |e0.queues| && msqid == Some(e0.queues[e.current].msqid)
                 else msqid == OfGroup(e0.queues, grpno) && e == e0
    {
      var e := entries[name];
      if e.queues == [] {
        return None;
      }
      if grpno == -1 {
        e := e.(current := (e.current + 1) % |e.queues|);
        entries := entries[name := e];
        return Some(e.queues[e.current].msqid);
      }
      for k := 0 to |e.queues|
        invariant OfGroup(e.queues[k..], grpno) == OfGroup(e.queues, grpno)
      {
        assert e.queues[k..][1..] == e.queues[k + 1..];
        if e.queues[k].grpno == grpno {
          return Some(e.queues[k].msqid);
        }
      }
      msqid := None;
    }

    /** A queue for a call, from the table as it is now. */
    method GetQueue(grpno: int, name: string) returns (msqid: Option<int>)
      requires Valid()
      modifies this
      ensures Valid()
      ensures var s := FindName(m.Names(), name);
              if s == BADOFF then msqid == None && entries == old(entries)
              else
                var queues := QueuesOf(m.Ads(), s, m.msqids, m.grpnos);
                && name in entries && entries[name].queues == queues && entries[name].service == s
                && if queues == [] then msqid == None
                   else if grpno == -1 then
                     && entries[name].current < |queues|
                     && msqid == Some(queues[entries[name].current].msqid)
                     && entries[name].current ==
                        ((if name in old(entries) then old(entries)[name].current else 0) + 1) % |queues|
                   else msqid == OfGroup(queues, grpno)
      ensures Answers(Table(m.Ads(), m.Names()), m.msqids, m.grpnos, grpno, name, msqid)
    {
      hide QueuesOf, FindName, OfGroup, FindAdvert, NoneTwice, Answers, Coherent;
      var e := GetEntry(name);
      if e.None? {
        AnswerIsAdvertised(Table(m.Ads(), m.Names()), m.msqids, m.grpnos, grpno, name, None);
        return None;
      }
      Refresh(name);
      msqid := LoadBalance(name, grpno);
      AnswerIsAdvertised(Table(m.Ads(), m.Names()), m.msqids, m.grpnos, grpno, name, msqid);
    }
  }

  /** An answer from the queues of a service, seen from its advertisements. */
  lemma AnswerIsAdvertised(t: Table, msqids: seq<int>, grpnos: seq<int>, grpno: int, name: string, answer: Option<int>)
    requires var s := FindName(t.services, name);
             var queues := QueuesOf(t.ads, s, msqids, grpnos);
             if s == BADOFF || queues == [] then answer == None
             else if grpno == -1 then answer.Some? && exists k :: 0 <= k < |queues| && queues[k].msqid == answer.value
             else answer == OfGroup(queues, grpno)
    ensures Answers(t, msqids, grpnos, grpno, name, answer)
  {
    hide QueuesOf, IsQueue, OfGroup, FindName;
    var ads, s := t.ads, FindName(t.services, name);
    var queues := QueuesOf(ads, s, msqids, grpnos);
    if s == BADOFF {
    } else if answer.Some? {
      if grpno != -1 {
        var k: nat :| FirstOf(queues, grpno, k) && queues[k].msqid == answer.value;
      }
      QueueIsAdvertised(ads, s, msqids, grpnos, grpno, answer.value);
    } else {
      forall i, q | 0 <= i < |ads| ensures !IsQueue(ads[i], s, msqids, grpnos, grpno, q) {
        QueueIsAdvertised(ads, s, msqids, grpnos, grpno, q);
      }
    }
  }

  /** A service of revision 0 was never advertised. */
  lemma RevisionZero(m: Mib, s: nat)
    requires m.Valid() && s < m.svcLen
    ensures m.services[s].revision == 0 ==> QueuesOf(m.Ads(), s, m.msqids, m.grpnos) == []
  {
    if m.services[s].revision == 0 {
      forall k | 0 <= k < |m.Ads()| ensures m.Ads()[k].service != s {
        assert m.InTable(m.advertisements[k]);
      }
      NoQueues(m.Ads(), s, m.msqids, m.grpnos);
    }
  }

  // ---- balance ----

  /** The places taken by `n` calls in turn after place `c`. */
  function Turns(c: nat, n: nat, size: nat): (places: seq<nat>)
    requires size > 0
    ensures |places| == n && forall i :: 0 <= i < n ==> places[i] < size
    decreases n
  {
    if n == 0 then [] else [(c + 1) % size] + Turns((c + 1) % size, n - 1, size)
  }

  lemma {:induction false} TurnAt(c: nat, n: nat, size: nat, i: nat)
    requires i < n && i < size
    ensures var first := (c + 1) % size;
            Turns(c, n, size)[i] == if first + i < size then first + i else first + i - size
    decreases n
  {
    hide *;
    TurnsAre(c, n, size);
    var first := (c + 1) % size;
    if i > 0 {
      TurnAt(first, n - 1, size, i - 1);
      NextPlace(first, size);
    }
  }

  lemma TurnsAre(c: nat, n: nat, size: nat)
    requires size > 0 && n > 0
    ensures Turns(c, n, size) == [(c + 1) % size] + Turns((c + 1) % size, n - 1, size)
    ensures 0 <= (c + 1) % size < size
  {
  }

  lemma NextPlace(f: nat, size: nat)
    requires f < size
    ensures (f + 1) % size == if f + 1 < size then f + 1 else 0
  {
  }

  /** As many calls as there are places take each place once. */
  lemma EachOnce(c: nat, size: nat)
    requires size > 0
    ensures forall i, j :: 0 <= i < j < size ==> Turns(c, size, size)[i] != Turns(c, size, size)[j]
    ensures forall p :: 0 <= p < size ==> p in Turns(c, size, size)
  {
    hide *;
    var t := Turns(c, size, size);
    TurnsAre(c, size, size);
    var first := (c + 1) % size;
    forall i | 0 <= i < size ensures t[i] == if first + i < size then first + i else first + i - size {
      TurnAt(c, size, size, i);
    }
    forall p | 0 <= p < size ensures p in t {
      var i := if p >= first then p - first else p + size - first;
      assert t[i] == p;
    }
  }

  function Ids(queues: seq<QueueEntry>): (ids: seq<int>)
    ensures |ids| == |queues| && forall i :: 0 <= i < |ids| ==> ids[i] == queues[i].msqid
  {
    seq(|queues|, i requires 0 <= i < |queues| => queues[i].msqid)
  }

  /** A round through all places takes the queues from the next one on, and then those before it. */
  lemma RoundTakesAll(c: nat, ids: seq<int>, picked: seq<int>)
    requires |picked| == |ids| > 0
    requires forall i :: 0 <= i < |ids| ==> picked[i] == ids[Turns(c, |ids|, |ids|)[i]]
    ensures multiset(picked) == multiset(ids)
  {
    hide *;
    var size := |ids|;
    var places := Turns(c, size, size);
    TurnsAre(c, size, size);
    var first := (c + 1) % size;
    forall i | 0 <= i < size ensures places[i] == if first + i < size then first + i else first + i - size {
      TurnAt(c, size, size, i);
    }
    Rotated(ids, picked, places, first);
  }

  lemma Rotated(ids: seq<int>, picked: seq<int>, places: seq<nat>, first: nat)
    requires |picked| == |ids| == |places| && first < |ids|
    requires forall i :: 0 <= i < |ids| ==> places[i] == if first + i < |ids| then first + i else first + i - |ids|
    requires forall i :: 0 <= i < |ids| ==> picked[i] == ids[places[i]]
    ensures multiset(picked) == multiset(ids)
  {
    var a, b := ids[..first], ids[first..];
    assert picked == b + a by {
      forall i | 0 <= i < |ids| ensures picked[i] == (b + a)[i] {
        assert picked[i] == ids[places[i]];
      }
    }
    assert ids == a + b;
    SwapParts(a, b);
  }

  lemma SwapParts(a: seq<int>, b: seq<int>)
    ensures multiset(a + b) == multiset(b + a)
  {
  }

  /** Calls to any group, one after the other while the table does not change, take the queues
      in turn: as many calls as there are queues give each queue once. */
  method CallInTurn(repo: Repository, name: string, n: nat) returns (picked: seq<int>)
    requires repo.Valid() && name in repo.entries
    requires var e := repo.entries[name];
             && QueuesOf(repo.m.Ads(), e.service, repo.m.msqids, repo.m.grpnos) != []
    modifies repo
    ensures repo.Valid()
    ensures var e := old(repo.entries[name]);
            var queues := QueuesOf(repo.m.Ads(), e.service, repo.m.msqids, repo.m.grpnos);
            && |picked| == n
            && (forall i :: 0 <= i < n ==> picked[i] == queues[Turns(e.current, n, |queues|)[i]].msqid)
            && (n == |queues| ==> multiset(picked) == multiset(Ids(queues)))
  {
    hide *;
    repo.EntryIsNamed(name);
    ghost var s := repo.entries[name].service;
    ghost var queues := QueuesOf(repo.m.Ads(), s, repo.m.msqids, repo.m.grpnos);
    ghost var c := repo.entries[name].current;
    picked := [];
    while |picked| < n
      invariant repo.Valid() && |picked| <= n && name in repo.entries && repo.entries[name].service == s
      invariant forall i :: 0 <= i < |picked| ==> picked[i] == queues[Turns(c, n, |queues|)[i]].msqid
      invariant Turns(c, n, |queues|)[|picked|..] == Turns(repo.entries[name].current, n - |picked|, |queues|)
    {
      ghost var was := repo.entries[name].current;
      repo.EntryIsNamed(name);
      var q := repo.GetQueue(-1, name);
      TurnsAre(was, n - |picked|, |queues|);
      assert Turns(c, n, |queues|)[|picked|] == Turns(was, n - |picked|, |queues|)[0];
      assert Turns(c, n, |queues|)[|picked|..][1..] == Turns(c, n, |queues|)[|picked| + 1..];
      picked := picked + [q.value];
    }
    if n == |queues| {
      RoundTakesAll(c, Ids(queues), picked);
    }
  }

  // ---- runs ----

  datatype Step =
    | Advertise(name: string, queue: nat, server: nat)
    | Unadvertise(name: string, queue: nat, server: nat)
    | Lookup(grpno: int, name: string)

  /** The table with one more advertisement in the first vacant slot, and the revision of its service
      counted; without room for it, or when it is there already, only the service may be new. */
  ghost predicate Added(t: Table, t': Table, name: string, queue: nat, server: nat, adRoom: nat, svcRoom: nat) {
    var named := With(t.services, name);
    var s := FindName(named, name);
    var ad := Advert(s, queue, server);
    if FindName(t.services, name) == BADOFF && |t.services| == svcRoom then t' == t
    else if ad in Live(t.ads) || (VACANT !in t.ads && |t.ads| == adRoom) then t' == Table(t.ads, named)
    else
      && s < |named| && t'.services == named[s := Counted(named[s])]
      && t'.ads == Written(t.ads, FirstVacant(t.ads), ad) && Live(t'.ads) == Live(t.ads) + {ad}
  }

  /** The table with one advertisement less and the revision of its service counted, or the same
      when there was none. */
  ghost predicate Removed(t: Table, t': Table, name: string, queue: nat, server: nat) {
    var s := FindName(t.services, name);
    if s >= |t.services| || Advert(s, queue, server) !in Live(t.ads) then t' == t
    else
      && FindAdvert(t.ads, Advert(s, queue, server)) < |t.ads|
      && t'.ads == Written(t.ads, FindAdvert(t.ads, Advert(s, queue, server)), VACANT)
      && Live(t'.ads) == Live(t.ads) - {Advert(s, queue, server)}
      && t'.services == t.services[s := Counted(t.services[s])]
  }

  /** What a step does to the table, and what it answers from the table as it stands. */
  ghost predicate Follows(step: Step, t: Table, t': Table, msqids: seq<int>, grpnos: seq<int>, adRoom: nat, svcRoom: nat,
                          found: Option<int>) {
    match step
    case Advertise(name, queue, server) =>
      found == None && Added(t, t', name, queue, server, adRoom, svcRoom)
    case Unadvertise(name, queue, server) => found == None && Removed(t, t', name, queue, server)
    case Lookup(grpno, name) => t' == t && Answers(t, msqids, grpnos, grpno, name, found)
  }

  ghost function TableOf(m: Mib): Table
    requires m.Valid()
    reads m, m.advertisements, m.services
  {
    Table(m.Ads(), m.Names())
  }

  /** Any run of changes to the table and look-ups through the cache: the cache stays coherent, no
      advertisement is ever there twice, and each look-up is answered from the table as it stands at
      that step. */
  method Run(repo: Repository, steps: seq<Step>) returns (found: seq<Option<int>>, ghost tables: seq<Table>)
    requires repo.Valid()
    requires forall i :: 0 <= i < |steps| && !steps[i].Lookup? ==>
               steps[i].queue < |repo.m.msqids| && steps[i].server < |repo.m.grpnos|
    modifies repo, repo.m, repo.m.advertisements, repo.m.services
    ensures repo.Valid() && NoneTwice(repo.m.Ads())
    ensures |found| == |steps| && |tables| == |steps| + 1
    ensures tables[0] == old(TableOf(repo.m)) && tables[|steps|] == TableOf(repo.m)
    ensures forall i :: 0 <= i < |steps| ==>
              Follows(steps[i], tables[i], tables[i + 1], repo.m.msqids, repo.m.grpnos, repo.m.advertisements.Length,
                      repo.m.services.Length, found[i])
  {
    hide *;
    TableIsOnce(repo);
    found, tables := [], [TableOf(repo.m)];
    for i := 0 to |steps|
      invariant repo.Valid() && repo.m.Valid() && |found| == i && |tables| == i + 1
      invariant tables[0] == old(TableOf(repo.m)) && tables[i] == TableOf(repo.m)
      invariant forall j :: 0 <= j < i ==>
                  Follows(steps[j], tables[j], tables[j + 1], repo.m.msqids, repo.m.grpnos, repo.m.advertisements.Length,
                          repo.m.services.Length, found[j])
    {
      var answer := OneStep(repo, steps[i]);
      found, tables := found + [answer], tables + [TableOf(repo.m)];
    }
    TableIsOnce(repo);
  }

  method OneStep(repo: Repository, step: Step) returns (answer: Option<int>)
    requires repo.Valid()
    requires !step.Lookup? ==> step.queue < |repo.m.msqids| && step.server < |repo.m.grpnos|
    modifies repo, repo.m, repo.m.advertisements, repo.m.services
    ensures repo.Valid() && repo.m.Valid()
    ensures Follows(step, old(TableOf(repo.m)), TableOf(repo.m), repo.m.msqids, repo.m.grpnos, repo.m.advertisements.Length,
                    repo.m.services.Length, answer)
  {
    hide QueuesOf, FindName, OfGroup, Live, With, Coherent, NoneTwice, IsQueue;
    answer := None;
    match step {
      case Advertise(name, queue, server) => AdvertiseStep(repo, name, queue, server);
      case Unadvertise(name, queue, server) => UnadvertiseStep(repo, name, queue, server);
      case Lookup(grpno, name) => answer := repo.GetQueue(grpno, name);
    }
  }

  lemma TableIsOnce(repo: Repository)
    requires repo.Valid()
    ensures repo.m.Valid() && repo.m.advLen <= repo.m.advertisements.Length && NoneTwice(repo.m.Ads())
  {
  }

  method AdvertiseStep(repo: Repository, name: string, queue: nat, server: nat)
    requires repo.Valid() && queue < |repo.m.msqids| && server < |repo.m.grpnos|
    modifies repo.m, repo.m.advertisements, repo.m.services
    ensures repo.Valid()
    ensures var t, t' := old(TableOf(repo.m)), TableOf(repo.m);
            Added(t, t', name, queue, server, repo.m.advertisements.Length, repo.m.services.Length)
  {
    hide Announced, QueuesOf, FindName, Coherent, Live, With;
    ghost var m := repo.m;
    ghost var ads, svcs := m.Ads(), m.Names();
    var _ := repo.m.Advertise(name, queue, server);
    forall n | n in repo.entries
      ensures Coherent(repo.entries[n], m.Ads(), m.Names(), m.msqids, m.grpnos) && repo.entries[n].service < m.svcLen
      ensures m.Names()[repo.entries[n].service].name == n
    {
      StaysCoherent(repo.entries[n], ads, svcs, m.Ads(), m.Names(), m.msqids, m.grpnos);
      CoherentIs(repo.entries[n], m.Ads(), m.Names(), m.msqids, m.grpnos);
    }
  }

  method UnadvertiseStep(repo: Repository, name: string, queue: nat, server: nat)
    requires repo.Valid() && queue < |repo.m.msqids| && server < |repo.m.grpnos|
    modifies repo.m, repo.m.advertisements, repo.m.services
    ensures repo.Valid()
    ensures Removed(old(TableOf(repo.m)), TableOf(repo.m), name, queue, server)
  {
    hide Announced, QueuesOf, FindName, Coherent, Live, With;
    ghost var m := repo.m;
    ghost var ads, svcs := m.Ads(), m.Names();
    var _ := repo.m.Unadvertise(name, queue, server);
    forall n | n in repo.entries
      ensures Coherent(repo.entries[n], m.Ads(), m.Names(), m.msqids, m.grpnos) && repo.entries[n].service < m.svcLen
      ensures m.Names()[repo.entries[n].service].name == n
    {
      StaysCoherent(repo.entries[n], ads, svcs, m.Ads(), m.Names(), m.msqids, m.grpnos);
      CoherentIs(repo.entries[n], m.Ads(), m.Names(), m.msqids, m.grpnos);
    }
  }

  lemma CoherentIs(e: Entry, ads: seq<Advert>, services: seq<Service>, msqids: seq<int>, grpnos: seq<int>)
    requires Coherent(e, ads, services, msqids, grpnos)
    ensures e.service < |services|
  {
  }
}
