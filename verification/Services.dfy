/** The shared table of advertised services, and the cache of it each client keeps. */
module Services {
  import opened Wrappers

  const BADOFF: nat := 0xFFFF_FFFF_FFFF_FFFF

  datatype Advert = Advert(service: nat, queue: nat, server: nat)

  const VACANT := Advert(BADOFF, BADOFF, BADOFF)

  datatype Service = Service(name: string, revision: nat)

  datatype QueueEntry = QueueEntry(grpno: int, msqid: int)

  datatype Error = OutOfRange | AlreadyAdvertised | UnknownService | NotAdvertised | DuplicateService

  // ---- the table ----

  /** The place of an advertisement, or BADOFF. */
  function FindAdvert(ads: seq<Advert>, ad: Advert): (i: nat)
    ensures i != BADOFF && |ads| < BADOFF ==> i < |ads| && ads[i] == ad && ad !in ads[..i]
    ensures i == BADOFF && |ads| < BADOFF ==> ad !in ads
    decreases |ads|
  {
    if ads == [] then BADOFF
    else
      var n := |ads| - 1;
      assert ads == ads[..n] + [ads[n]];
      var i := FindAdvert(ads[..n], ad);
      if i == BADOFF && ads[n] == ad then n else i
  }

  function FindName(services: seq<Service>, name: string): (i: nat)
    ensures i != BADOFF && |services| < BADOFF ==> i < |services| && services[i].name == name
    ensures i == BADOFF && |services| < BADOFF ==> forall k :: 0 <= k < |services| ==> services[k].name != name
    decreases |services|
  {
    if services == [] then BADOFF
    else
      var n := |services| - 1;
      var i := FindName(services[..n], name);
      if i == BADOFF && services[n].name == name then n else i
  }

  /** The queues that serve a service, in the order of the table. */
  function QueuesOf(ads: seq<Advert>, service: nat, msqids: seq<int>, grpnos: seq<int>): (queues: seq<QueueEntry>) {
    if ads == [] then []
    else
      var n := |ads| - 1;
      var a := ads[n];
      QueuesOf(ads[..n], service, msqids, grpnos) +
      if a.service == service && a.queue < |msqids| && a.server < |grpnos| then
        [QueueEntry(grpnos[a.server], msqids[a.queue])]
      else []
  }

  /** No live advertisement is there twice. */
  ghost predicate NoneTwice(ads: seq<Advert>) {
    forall i, j :: 0 <= i < j < |ads| && ads[i] != VACANT ==> ads[i] != ads[j]
  }

  function Live(ads: seq<Advert>): (live: set<Advert>) { set a | a in ads && a != VACANT }

  /** What a change of the table means to a reader: a service changed its queues only if its
      revision grew. */
  ghost predicate Announced(ads: seq<Advert>, services: seq<Service>, ads': seq<Advert>, services': seq<Service>,
                            msqids: seq<int>, grpnos: seq<int>)
  {
    && |services| <= |services'|
    && (forall s :: 0 <= s < |services| ==> services'[s].name == services[s].name)
    && forall s :: 0 <= s < |services| ==>
         || services'[s].revision > services[s].revision
         || (services'[s].revision == services[s].revision
             && QueuesOf(ads', s, msqids, grpnos) == QueuesOf(ads, s, msqids, grpnos))
  }

  lemma {:induction false} QueuesOfConcat(a: seq<Advert>, b: seq<Advert>, s: nat, msqids: seq<int>, grpnos: seq<int>)
    ensures QueuesOf(a + b, s, msqids, grpnos) == QueuesOf(a, s, msqids, grpnos) + QueuesOf(b, s, msqids, grpnos)
  {
    if b == [] {
      assert a + b == a;
    } else {
      hide *;
      var n := |b| - 1;
      assert (a + b)[..|a| + n] == a + b[..n] && (a + b)[|a| + n] == b[n];
      QueuesOfConcat(a, b[..n], s, msqids, grpnos);
      QueuesOfLast(b, s, msqids, grpnos);
      QueuesOfLast(a + b, s, msqids, grpnos);
    }
  }

  lemma QueuesOfLast(ads: seq<Advert>, s: nat, msqids: seq<int>, grpnos: seq<int>)
    requires ads != []
    ensures var n := |ads| - 1;
            QueuesOf(ads, s, msqids, grpnos) == QueuesOf(ads[..n], s, msqids, grpnos) + QueuesOf([ads[n]], s, msqids, grpnos)
  {
    var n := |ads| - 1;
    assert [ads[n]][..0] == [];
  }

  /** A slot that never was and is not now of service `s` does not show in its queues. */
  lemma OtherSlots(ads: seq<Advert>, i: nat, ad: Advert, s: nat, msqids: seq<int>, grpnos: seq<int>)
    requires i < |ads| && ads[i].service != s && ad.service != s
    ensures QueuesOf(ads[i := ad], s, msqids, grpnos) == QueuesOf(ads, s, msqids, grpnos)
  {
    var a, b := ads[..i], ads[i + 1..];
    assert ads == a + [ads[i]] + b && ads[i := ad] == a + [ad] + b;
    QueuesOfConcat(a, [ads[i]], s, msqids, grpnos);
    QueuesOfConcat(a + [ads[i]], b, s, msqids, grpnos);
    QueuesOfConcat(a, [ad], s, msqids, grpnos);
    QueuesOfConcat(a + [ad], b, s, msqids, grpnos);
    assert [ads[i]][..0] == [] && [ad][..0] == [];
  }

  lemma {:induction false} NoQueues(ads: seq<Advert>, s: nat, msqids: seq<int>, grpnos: seq<int>)
    requires forall k :: 0 <= k < |ads| ==> ads[k].service != s
    ensures QueuesOf(ads, s, msqids, grpnos) == []
  {
    if ads != [] {
      NoQueues(ads[..|ads| - 1], s, msqids, grpnos);
    }
  }

  /** An advertisement of a service whose queue and server exist. */
  predicate Serves(ad: Advert, s: nat, msqids: seq<int>, grpnos: seq<int>) {
    ad.service == s && ad.queue < |msqids| && ad.server < |grpnos|
  }

  /** The queues, one for each of these places of the table: the identifier of the queue and the group
      of the server. */
  ghost predicate AtPlaces(ads: seq<Advert>, s: nat, msqids: seq<int>, grpnos: seq<int>, places: seq<nat>, queues: seq<QueueEntry>) {
    && |queues| == |places|
    && (forall j, k :: 0 <= j < k < |places| ==> places[j] < places[k])
    && (forall i :: i in places <==> 0 <= i < |ads| && Serves(ads[i], s, msqids, grpnos))
    && forall j :: 0 <= j < |places| ==>
         && places[j] < |ads| && Serves(ads[places[j]], s, msqids, grpnos)
         && queues[j].msqid == msqids[ads[places[j]].queue]
         && queues[j].grpno == grpnos[ads[places[j]].server]
  }

  /** The queues of a service are those of its advertisements, one each, in the order of the table. */
  lemma {:induction false} QueuesAre(ads: seq<Advert>, s: nat, msqids: seq<int>, grpnos: seq<int>) returns (places: seq<nat>)
    ensures AtPlaces(ads, s, msqids, grpnos, places, QueuesOf(ads, s, msqids, grpnos))
  {
    hide AtPlaces, Serves;
    if ads == [] {
      places := [];
      NoPlaces(s, msqids, grpnos);
    } else {
      var n := |ads| - 1;
      places := QueuesAre(ads[..n], s, msqids, grpnos);
      OneMoreAdvert(ads, s, msqids, grpnos, places, QueuesOf(ads[..n], s, msqids, grpnos));
      ServesIs(ads[n], s, msqids, grpnos);
      if Serves(ads[n], s, msqids, grpnos) {
        places := places + [n];
      } else {
        assert QueuesOf(ads[..n], s, msqids, grpnos) + [] == QueuesOf(ads[..n], s, msqids, grpnos);
      }
    }
  }

  lemma ServesIs(ad: Advert, s: nat, msqids: seq<int>, grpnos: seq<int>)
    ensures Serves(ad, s, msqids, grpnos) <==> ad.service == s && ad.queue < |msqids| && ad.server < |grpnos|
  {
  }

  lemma NoPlaces(s: nat, msqids: seq<int>, grpnos: seq<int>)
    ensures AtPlaces([], s, msqids, grpnos, [], [])
  {
  }

  lemma OneMoreAdvert(ads: seq<Advert>, s: nat, msqids: seq<int>, grpnos: seq<int>, places: seq<nat>, queues: seq<QueueEntry>)
    requires ads != [] && AtPlaces(ads[..|ads| - 1], s, msqids, grpnos, places, queues)
    ensures var ad := ads[|ads| - 1];
            if Serves(ad, s, msqids, grpnos) then
              AtPlaces(ads, s, msqids, grpnos, places + [|ads| - 1], queues + [QueueEntry(grpnos[ad.server], msqids[ad.queue])])
            else AtPlaces(ads, s, msqids, grpnos, places, queues)
  {
    hide Serves;
    var n := |ads| - 1;
    ServesIs(ads[n], s, msqids, grpnos);
    assert forall i :: 0 <= i < n ==> ads[..n][i] == ads[i];
    if Serves(ads[n], s, msqids, grpnos) {
      var more := places + [n];
      assert forall i :: i in more <==> i in places || i == n;
    }
  }

  /** What a look-up may answer: the identifier of a queue on which the service is advertised, by a
      server of that group if one is asked for. */
  predicate IsQueue(ad: Advert, s: nat, msqids: seq<int>, grpnos: seq<int>, grpno: int, msqid: int) {
    Serves(ad, s, msqids, grpnos) && msqids[ad.queue] == msqid && (grpno == -1 || grpnos[ad.server] == grpno)
  }

  /** Among the queues there is one that is asked for exactly when it is advertised. */
  lemma QueueIsAdvertised(ads: seq<Advert>, s: nat, msqids: seq<int>, grpnos: seq<int>, grpno: int, msqid: int)
    ensures var queues := QueuesOf(ads, s, msqids, grpnos);
            (exists k :: 0 <= k < |queues| && queues[k].msqid == msqid && (grpno == -1 || queues[k].grpno == grpno)) <==>
            exists i :: 0 <= i < |ads| && IsQueue(ads[i], s, msqids, grpnos, grpno, msqid)
  {
    hide QueuesOf;
    var places := QueuesAre(ads, s, msqids, grpnos);
    assert AtPlaces(ads, s, msqids, grpnos, places, QueuesOf(ads, s, msqids, grpnos));
    var queues := QueuesOf(ads, s, msqids, grpnos);
    if k :| 0 <= k < |queues| && queues[k].msqid == msqid && (grpno == -1 || queues[k].grpno == grpno) {
      assert IsQueue(ads[places[k]], s, msqids, grpnos, grpno, msqid);
    }
    if i :| 0 <= i < |ads| && IsQueue(ads[i], s, msqids, grpnos, grpno, msqid) {
      var k :| 0 <= k < |places| && places[k] == i;
      assert queues[k].msqid == msqid;
    }
  }

  class Mib {
    const advertisements: array<Advert>
    const services: array<Service>
    const msqids: seq<int>    // of the queues
    const grpnos: seq<int>    // of the servers
    var advLen: nat
    var svcLen: nat

    ghost predicate Valid()
      reads this, advertisements, services
    {
      && advLen <= advertisements.Length < BADOFF && svcLen <= services.Length < BADOFF
      && (forall i :: 0 <= i < advLen ==> InTable(advertisements[i]))
      && NoneTwice(Ads())
      && (forall i, j :: 0 <= i < j < svcLen ==> services[i].name != services[j].name)
      && (forall i :: svcLen <= i < services.Length ==> services[i].revision == 0)
      && forall i :: 0 <= i < advLen && advertisements[i] != VACANT ==> services[advertisements[i].service].revision > 0
    }

    ghost predicate InTable(ad: Advert)
      reads this
    {
      || ad == VACANT
      || (ad.service < svcLen && svcLen <= services.Length && ad.queue < |msqids| && ad.server < |grpnos|)
    }

    ghost function Ads(): seq<Advert>
      requires advLen <= advertisements.Length
      reads this, advertisements
    {
      advertisements[..advLen]
    }

    ghost function Names(): seq<Service>
      requires svcLen <= services.Length
      reads this, services
    {
      services[..svcLen]
    }

    constructor (ads: nat, svcs: nat, msqids: seq<int>, grpnos: seq<int>)
      requires ads < BADOFF && svcs < BADOFF
      ensures Valid() && fresh(advertisements) && fresh(services) && Ads() == [] && Names() == []
      ensures this.msqids == msqids && this.grpnos == grpnos
    {
      advertisements := new Advert[ads](_ => Advert(0, 0, 0));
      services := new Service[svcs](_ => Service("", 0));
      this.msqids, this.grpnos, advLen, svcLen := msqids, grpnos, 0, 0;
    }

    method FindAdvertisement(service: nat, queue: nat, server: nat) returns (i: nat)
      requires Valid()
      ensures i == FindAdvert(Ads(), Advert(service, queue, server))
    {
      ghost var ads, ad := Ads(), Advert(service, queue, server);
      for k := 0 to advLen
        invariant FindAdvert(ads[..k], ad) == BADOFF
      {
        assert ads[..k + 1][..k] == ads[..k];
        if advertisements[k].service == service && advertisements[k].queue == queue && advertisements[k].server == server {
          FirstAdvert(ads, ad, k);
          return k;
        }
      }
      assert ads[..advLen] == ads;
      i := BADOFF;
    }

    method FindService(name: string) returns (i: nat)
      requires Valid()
      ensures i == FindName(Names(), name)
    {
      ghost var svcs := Names();
      for k := 0 to svcLen
        invariant FindName(svcs[..k], name) == BADOFF
      {
        assert svcs[..k + 1][..k] == svcs[..k];
        if services[k].name == name {
          FirstName(svcs, name, k);
          return k;
        }
      }
      assert svcs[..svcLen] == svcs;
      i := BADOFF;
    }

    method MakeService(name: string) returns (r: Result<nat, Error>)
      requires Valid()
      modifies this`svcLen, services
      ensures Valid() && Ads() == old(Ads())
      ensures FindName(old(Names()), name) != BADOFF ==> r == Err(DuplicateService)
      ensures FindName(old(Names()), name) == BADOFF ==>
                r == if old(svcLen) < services.Length then Ok(old(svcLen)) else Err(OutOfRange)
      ensures Names() == if r.Ok? then old(Names()) + [Service(name, 0)] else old(Names())
    {
      var i := FindService(name);
      if i != BADOFF {
        return Err(DuplicateService);
      }
      if svcLen >= services.Length {
        return Err(OutOfRange);
      }
      services[svcLen] := services[svcLen].(name := name);
      svcLen := svcLen + 1;
      r := Ok(svcLen - 1);
    }

    /** Adds an advertisement in a vacant slot, or in a new one, and counts the service's revision. */
    method Advertise(name: string, queue: nat, server: nat) returns (r: Result<(), Error>)
      requires Valid() && queue < |msqids| && server < |grpnos|
      modifies this, advertisements, services
      ensures Valid() && Announced(old(Ads()), old(Names()), Ads(), Names(), msqids, grpnos)
      ensures var named := With(old(Names()), name);
              var s := FindName(named, name);
              var ad := Advert(s, queue, server);
              if FindName(old(Names()), name) == BADOFF && old(svcLen) == services.Length then
                r == Err(OutOfRange) && Ads() == old(Ads()) && Names() == old(Names())
              else if ad in Live(old(Ads())) then
                r == Err(AlreadyAdvertised) && Ads() == old(Ads()) && Names() == named
              else if VACANT !in old(Ads()) && old(advLen) == advertisements.Length then
                r == Err(OutOfRange) && Ads() == old(Ads()) && Names() == named
              else
                && r == Ok(()) && s < svcLen
                && Ads() == Written(old(Ads()), FirstVacant(old(Ads())), ad)
                && Live(Ads()) == Live(old(Ads())) + {ad}
                && s < |named| && Names() == named[s := Counted(named[s])]
    {
      hide NoneTwice, FindName, FindAdvert, QueuesOf, Live, Written, Announced, InTable, With;
      ghost var ads0, svcs0 := Ads(), Names();
      var s := ServiceFor(name);
      AnnouncedSame(ads0, svcs0, Names(), msqids, grpnos);
      if s.Err? {
        return Err(s.error);
      }
      ghost var svcs1 := Names();
      ghost var i;
      r, i := AddTo(s.value, queue, server);
      if r.Err? {
        return;
      }
      PutAnnounced(ads0, svcs0, svcs1, i, Advert(s.value, queue, server), s.value, msqids, grpnos);
    }

    /** The service of that name, made when there is none. */
    method ServiceFor(name: string) returns (r: Result<nat, Error>)
      requires Valid()
      modifies this`svcLen, services
      ensures Valid() && Ads() == old(Ads()) && old(Names()) <= Names()
      ensures r.Ok? ==> r.value < svcLen && services[r.value].name == name && FindName(Names(), name) == r.value
      ensures r.Ok? ==> Names() == With(old(Names()), name)
      ensures if FindName(old(Names()), name) == BADOFF && old(svcLen) == services.Length then
                r == Err(OutOfRange) && Names() == old(Names())
              else r.Ok?
    {
      var s := FindService(name);
      if s != BADOFF {
        return Ok(s);
      }
      r := MakeService(name);
      if r.Ok? {
        FirstNameIs(Names(), name, r.value);
      }
    }

    method AddTo(s: nat, queue: nat, server: nat) returns (r: Result<(), Error>, ghost slot: nat)
      requires Valid() && queue < |msqids| && server < |grpnos| && s < svcLen
      modifies this`advLen, advertisements, services
      ensures Valid() && svcLen == old(svcLen) && slot == FirstVacant(old(Ads()))
      ensures r == if Advert(s, queue, server) in Live(old(Ads())) then Err(AlreadyAdvertised)
                   else if VACANT !in old(Ads()) && old(advLen) == advertisements.Length then Err(OutOfRange)
                   else Ok(())
      ensures r.Ok? ==>
                && Advert(s, queue, server) !in Live(old(Ads()))
                && Ads() == Written(old(Ads()), slot, Advert(s, queue, server))
                && Live(Ads()) == Live(old(Ads())) + {Advert(s, queue, server)}
                && Names() == old(Names())[s := Counted(old(Names())[s])]
      ensures r.Err? ==> Ads() == old(Ads()) && Names() == old(Names())
    {
      ghost var ads := Ads();
      slot := FirstVacant(ads);
      var taken := FindAdvertisement(s, queue, server);
      if taken != BADOFF {
        assert ads[taken] in ads;
        return Err(AlreadyAdvertised), slot;
      }
      var i := FindAdvertisement(BADOFF, BADOFF, BADOFF);
      if i == BADOFF {
        i := advLen;
      }
      if i >= advertisements.Length {
        return Err(OutOfRange), slot;
      }
      Put(i, Advert(s, queue, server), s);
      PutLive(ads, i, Advert(s, queue, server));
      r := Ok(());
    }

    /** Writes a slot and counts the revision of the service it is for. */
    method Put(i: nat, ad: Advert, s: nat)
      requires Valid() && i <= advLen && i < advertisements.Length && InTable(ad) && s < svcLen
      requires ad == VACANT ==> i < advLen && Ads()[i].service == s
      requires ad != VACANT ==> ad.service == s && ad !in Ads() && (i < advLen ==> Ads()[i] == VACANT)
      modifies this`advLen, advertisements, services
      ensures Valid() && svcLen == old(svcLen)
      ensures Ads() == Written(old(Ads()), i, ad)
      ensures Names() == old(Names())[s := Counted(old(Names())[s])]
    {
      ghost var ads := Ads();
      advertisements[i] := ad;
      if i == advLen {
        advLen := advLen + 1;
      }
      services[s] := Counted(services[s]);
      assert Ads() == Written(ads, i, ad);
      WrittenOnce(ads, i, ad);
    }

    /** Takes an advertisement out; its slot is vacant from then on. */
    method Unadvertise(name: string, queue: nat, server: nat) returns (r: Result<(), Error>)
      requires Valid() && queue < |msqids| && server < |grpnos|
      modifies this`advLen, advertisements, services
      ensures Valid() && Announced(old(Ads()), old(Names()), Ads(), Names(), msqids, grpnos)
      ensures var s := FindName(old(Names()), name);
              if s == BADOFF then r == Err(UnknownService)
              else if Advert(s, queue, server) !in Live(old(Ads())) then r == Err(NotAdvertised)
              else
                && r == Ok(()) && FindAdvert(old(Ads()), Advert(s, queue, server)) < |old(Ads())|
                && Ads() == Written(old(Ads()), FindAdvert(old(Ads()), Advert(s, queue, server)), VACANT)
                && Live(Ads()) == Live(old(Ads())) - {Advert(s, queue, server)}
                && Names() == old(Names())[s := Counted(old(Names())[s])]
      ensures r.Err? ==> Ads() == old(Ads()) && Names() == old(Names())
    {
      ghost var ads0, svcs0 := Ads(), Names();
      var s := FindService(name);
      AnnouncedSame(ads0, svcs0, svcs0, msqids, grpnos);
      if s == BADOFF {
        return Err(UnknownService);
      }
      var i := FindAdvertisement(s, queue, server);
      if i == BADOFF {
        return Err(NotAdvertised);
      }
      assert ads0[i] in ads0;
      Put(i, VACANT, s);
      PutAnnounced(ads0, svcs0, svcs0, i, VACANT, s, msqids, grpnos);
      CutLive(ads0, i);
      r := Ok(());
    }
  }

  /** The first vacant slot, the end when there is none. */
  function FirstVacant(ads: seq<Advert>): (i: nat)
    ensures i <= |ads| && VACANT !in ads[..i] && (i < |ads| ==> ads[i] == VACANT)
  {
    if VACANT !in ads then |ads|
    else
      var n := |ads| - 1;
      assert ads == ads[..n] + [ads[n]];
      if VACANT in ads[..n] then
        assert forall i :: 0 <= i <= n ==> ads[..n][..i] == ads[..i];
        FirstVacant(ads[..n])
      else n
  }

  /** The services, with one of that name. */
  function With(services: seq<Service>, name: string): seq<Service> {
    if FindName(services, name) == BADOFF then services + [Service(name, 0)] else services
  }

  function Counted(s: Service): (c: Service)
    ensures c.name == s.name && c.revision == s.revision + 1
  {
    s.(revision := s.revision + 1)
  }

  function Written(ads: seq<Advert>, i: nat, ad: Advert): seq<Advert>
    requires i <= |ads|
  {
    if i == |ads| then ads + [ad] else ads[i := ad]
  }

  lemma WrittenOnce(ads: seq<Advert>, i: nat, ad: Advert)
    requires NoneTwice(ads) && i <= |ads| && (ad == VACANT || ad !in ads)
    ensures NoneTwice(Written(ads, i, ad))
  {
  }

  lemma PutLive(ads: seq<Advert>, i: nat, ad: Advert)
    requires i <= |ads| && ad != VACANT && ad !in ads && (i < |ads| ==> ads[i] == VACANT)
    ensures ad !in Live(ads) && Live(Written(ads, i, ad)) == Live(ads) + {ad}
  {
    var now := Written(ads, i, ad);
    assert now[i] == ad;
    forall a | a in Live(ads) ensures a in Live(now) {
      var k :| 0 <= k < |ads| && ads[k] == a;
      assert now[k] == a;
    }
  }

  lemma CutLive(ads: seq<Advert>, i: nat)
    requires NoneTwice(ads) && i < |ads| && ads[i] != VACANT
    ensures Live(Written(ads, i, VACANT)) == Live(ads) - {ads[i]}
  {
    var now := Written(ads, i, VACANT);
    forall a | a in Live(ads) && a != ads[i] ensures a in Live(now) {
      var k :| 0 <= k < |ads| && ads[k] == a;
      assert now[k] == a;
    }
  }

  lemma AnnouncedSame(ads: seq<Advert>, services: seq<Service>, now: seq<Service>, msqids: seq<int>, grpnos: seq<int>)
    requires services <= now
    ensures Announced(ads, services, ads, now, msqids, grpnos)
  {
  }

  lemma PutAnnounced(ads: seq<Advert>, services: seq<Service>, mid: seq<Service>, i: nat, ad: Advert, s: nat,
                     msqids: seq<int>, grpnos: seq<int>)
    requires services <= mid && s < |mid| < BADOFF && i <= |ads| && |services| < BADOFF
    requires ad == VACANT || ad.service == s
    requires i < |ads| ==> ads[i] == VACANT || ads[i].service == s
    ensures Announced(ads, services, Written(ads, i, ad), mid[s := Counted(mid[s])], msqids, grpnos)
  {
    forall k | 0 <= k < |services| && k != s
      ensures QueuesOf(Written(ads, i, ad), k, msqids, grpnos) == QueuesOf(ads, k, msqids, grpnos)
    {
      if i < |ads| {
        OtherSlots(ads, i, ad, k, msqids, grpnos);
      } else {
        QueuesOfConcat(ads, [ad], k, msqids, grpnos);
        assert [ad][..0] == [];
      }
    }
  }

  lemma FirstNameIs(services: seq<Service>, name: string, s: nat)
    requires s < |services| < BADOFF && services[s].name == name
    requires forall i, j :: 0 <= i < j < |services| ==> services[i].name != services[j].name
    ensures FindName(services, name) == s
  {
  }

  lemma {:induction false} FirstAdvert(ads: seq<Advert>, ad: Advert, k: nat)
    requires k < |ads| && FindAdvert(ads[..k], ad) == BADOFF && ads[k] == ad && |ads| < BADOFF
    ensures FindAdvert(ads, ad) == k
    decreases |ads|
  {
    var n := |ads| - 1;
    if k < n {
      assert ads[..n][..k] == ads[..k];
      FirstAdvert(ads[..n], ad, k);
    }
  }

  lemma {:induction false} FirstName(services: seq<Service>, name: string, k: nat)
    requires k < |services| && FindName(services[..k], name) == BADOFF && services[k].name == name && |services| < BADOFF
    ensures FindName(services, name) == k
    decreases |services|
  {
    var n := |services| - 1;
    if k < n {
      assert services[..n][..k] == services[..k];
      FirstName(services[..n], name, k);
    }
  }
}
