/** What holds of the store in every run whatever: who is registered, and who sent what. */
module Invariants {
  import opened Common
  import opened Wire
  import opened Databases
  import opened Server
  import Client
  import opened Refinement
  import opened Runs

  // ---------------------------------------------------------------------
  // The registry

  /** The names as the server gets to know them, in the order of the Register requests. */
  function NamesIn(reqs: seq<Request>): seq<Str> {
    if reqs == [] then [] else
    (if reqs[0].Register? then [Payload(reqs[0])] else []) + NamesIn(reqs[1..])
  }

  /** Among n registrations, numbered from 0, the latest one that was given id k. */
  function Holder(k: U32, n: nat): (i: nat)
    requires k < n
    ensures k <= i < n <= i + TWO_TO_THE_32 && Wrap(i) == k
  {
    n - 1 - Wrap(n - 1 - k)
  }

  /** The store after registering these names: who is there, and under which name. */
  ghost predicate Registry(st: Store, names: seq<Str>) {
    && st.nextId == Wrap(|names|)
    && (forall k: U32 :: k in st.users <==> k < |names|)
    && (forall k: U32 :: k in st.users ==> st.users[k].username == names[Holder(k, |names|)])
  }

  lemma HolderStep(k: U32, n: nat)
    requires k < n + 1
    ensures Holder(k, n + 1) == if Wrap(n) == k then n else Holder(k, n)
  {
  }

  lemma RegisteredNext(st: Store, names: seq<Str>, name: Str)
    requires Registry(st, names)
    ensures Registry(RegisterUser(st, name).0, names + [name])
  {
    var st', names', n := RegisterUser(st, name).0, names + [name], |names|;
    WrapAdd(n, 1);
    hide Holder;
    forall k: U32 | k < n + 1
      ensures k in st'.users && st'.users[k].username == names'[Holder(k, n + 1)]
    {
      HolderStep(k, n);
      hide Wrap;
      if k != Wrap(n) {
        assert k in st.users && st'.users[k] == st.users[k];
        assert Holder(k, n) < n;
      }
    }
  }

  lemma StepRegistry(st: Store, names: seq<Str>, req: Request)
    requires Registry(st, names)
    ensures Registry(ServerAfter(st, req), names + if req.Register? then [Payload(req)] else [])
  {
    if req.Register? {
      RegisteredNext(st, names, Payload(req));
    } else {
      StepFrame(st, Kind(req), Payload(req));
      hide StoreAfter, Payload, Holder, U32At;
      assert names + [] == names;
    }
  }

  lemma {:induction false} RunRegistry(st: Store, names: seq<Str>, evs: seq<Event>)
    requires Registry(st, names) && Legal(st, evs)
    ensures Registry(Final(st, evs), names + NamesIn(Requests(evs)))
    decreases |evs|
  {
    hide Exchange, ServerAfter, Registry;
    var reqs := Requests(evs);
    if evs == [] {
      assert names + [] == names;
    } else {
      assert reqs[1..] == Requests(evs[1..]);
      var more := if reqs[0].Register? then [Payload(reqs[0])] else [];
      StoreOfExchange(st, evs[0]);
      StepRegistry(st, names, reqs[0]);
      RunRegistry(Exchange(st, evs[0]).0, names + more, evs[1..]);
      assert (names + more) + NamesIn(reqs[1..]) == names + (more + NamesIn(reqs[1..]));
    }
  }

  /**
    Every run from the server's start: the ids in use are the first n naturals,
    n being the number of registrations, or all 2^32 of them; and an id belongs
    to the latest registration it was given to.
  */
  lemma RegistryTheorem(evs: seq<Event>)
    requires Legal(EMPTY_STORE, evs)
    ensures Registry(Final(EMPTY_STORE, evs), NamesIn(Requests(evs)))
  {
    RunRegistry(EMPTY_STORE, [], evs);
    assert [] + NamesIn(Requests(evs)) == NamesIn(Requests(evs));
  }

  /** Everybody stays, under the same name. */
  ghost predicate Extends(st: Store, st': Store) {
    forall k :: k in st.users ==> k in st'.users && st'.users[k].username == st.users[k].username
  }

  /**
    As long as there are at most 2^32 registrations in all, the k-th one has
    id k, whatever else is requested, and nobody is ever removed or renamed.
  */
  lemma NamesNeverChange(st: Store, names: seq<Str>, evs: seq<Event>)
    requires Registry(st, names) && Legal(st, evs)
    requires |names| + |NamesIn(Requests(evs))| <= TWO_TO_THE_32
    ensures var names', users := names + NamesIn(Requests(evs)), Final(st, evs).users;
      && (forall k: U32 :: k in users <==> k < |names'|)
      && (forall k: U32 :: k in users ==> users[k].username == names'[k])
    ensures Extends(st, Final(st, evs))
  {
    hide Final, Legal, Registry, NamesIn;
    RunRegistry(st, names, evs);
    FewNames(Final(st, evs), names + NamesIn(Requests(evs)));
    FewNames(st, names);
  }

  /** Before the ids run out, the k-th name has id k. */
  lemma FewNames(st: Store, names: seq<Str>)
    requires Registry(st, names) && |names| <= TWO_TO_THE_32
    ensures forall k: U32 :: k in st.users <==> k < |names|
    ensures forall k: U32 :: k in st.users ==> st.users[k].username == names[k]
  {
    forall k: U32 | k in st.users
      ensures st.users[k].username == names[k]
    {
      assert Holder(k, |names|) == k;
    }
  }

  /**
    Beyond the bound: when the ids have run out, one more registration takes an
    id from its holder, whose mailbox is gone without a Recv.
  */
  lemma WrapLosesMail(st: Store, names: seq<Str>, name: Str)
    requires Registry(st, names) && |names| >= TWO_TO_THE_32
    ensures var (st', id) := RegisterUser(st, name);
      && id == Wrap(|names|) && id in st.users
      && st'.users.Keys == st.users.Keys && st'.users[id].username == name
      && Box(st', id) == []
  {
  }

  // ---------------------------------------------------------------------
  // Senders

  ghost predicate SendersKnown(st: Store, msgs: seq<Msg>) {
    forall i :: 0 <= i < |msgs| ==> msgs[i].id in st.users
  }

  /** Every queued message names a registered sender. */
  ghost predicate QueuedKnown(st: Store) {
    forall u: U32 :: SendersKnown(st, Box(st, u))
  }

  lemma StepQueuedKnown(st: Store, req: Request)
    requires QueuedKnown(st)
    ensures QueuedKnown(ServerAfter(st, req))
  {
    StepFrame(st, Kind(req), Payload(req));
    hide StoreAfter, Payload, U32At;
    var st' := ServerAfter(st, req);
    forall u: U32
      ensures SendersKnown(st', Box(st', u))
    {
      assert SendersKnown(st, Box(st, u));
    }
  }

  /** A registered requester whose answer does not outgrow its 32-bit length, or another request. */
  ghost predicate Readable(st: Store, req: Request) {
    req.Recv? ==> req.id in st.users && 10 + |EncodeRecords(ClipAll(st.users[req.id].msgQ))| < TWO_TO_THE_32
  }

  /** Whatever list of messages the client comes back with names registered senders only. */
  ghost predicate DecodedKnown(st: Store, ev: Event)
    requires forall k :: k in ev.order ==> k in st.users
  {
    var seen := Exchange(st, ev).1;
    seen.Some? && seen.value.Mail? ==> SendersKnown(st, seen.value.msgs)
  }

  /** What a client decodes from a whole positive answer, in any store. */
  lemma WholeAnswerSeen(q: seq<Msg>, tail: Str)
    requires 10 + |EncodeRecords(ClipAll(q))| < TWO_TO_THE_32
    ensures var r := ReplyList(RESP_RECV, Wrap(|q|), ClipAll(q));
      Client.ObserveRecv(Received(r.bytes, r.size, tail)) == Client.Mail(false, ClipAll(q)[..Wrap(|q|)])
  {
    hide Client.ObserveRecv;
    WholeListReceived(RESP_RECV, Wrap(|q|), ClipAll(q), tail);
    Client.RecvRoundTrip(q, tail);
  }

  lemma StepDecodedKnown(st: Store, ev: Event)
    requires QueuedKnown(st) && Readable(st, ev.req)
    requires forall k :: k in ev.order ==> k in st.users
    ensures DecodedKnown(st, ev)
  {
    hide Exchange, Client.ObserveRecv, Client.ObserveUsers, ReplyList, ClipAll, RespNumber, RespStatus, Wrap;
    match ev.req
    case Register(_) => RegisterExchange(st, ev);
    case Users(_) =>
      UsersExchange(st, ev);
      NoMailFromUsers(Exchange(st, ev).1.value);
    case Send(_, _, _) => SendExchange(st, ev);
    case Recv(id) =>
      assert SendersKnown(st, Box(st, id));
      RecvExchange(st, ev);
      WholeAnswerSeen(st.users[id].msgQ, ev.rxTail);
  }

  lemma NoMailFromUsers(seen: Client.Observed)
    ensures (exists rx :: seen == Client.ObserveUsers(rx)) ==> !seen.Mail?
  {
  }

  /** At every moment of the run: every queued sender is registered, and every one that is decoded from a readable answer. */
  ghost predicate SendersAlwaysKnown(st: Store, evs: seq<Event>)
    requires Legal(st, evs)
    decreases |evs|
  {
    && QueuedKnown(st)
    && (evs != [] ==>
          && (Readable(st, evs[0].req) ==> DecodedKnown(st, evs[0]))
          && SendersAlwaysKnown(Exchange(st, evs[0]).0, evs[1..]))
  }

  lemma {:induction false} ProvenanceTheorem(st: Store, evs: seq<Event>)
    requires QueuedKnown(st) && Legal(st, evs)
    ensures SendersAlwaysKnown(st, evs)
    decreases |evs|
  {
    hide Exchange, ServerAfter, QueuedKnown, Readable, DecodedKnown;
    if evs != [] {
      StoreOfExchange(st, evs[0]);
      StepQueuedKnown(st, evs[0].req);
      if Readable(st, evs[0].req) {
        StepDecodedKnown(st, evs[0]);
      }
      ProvenanceTheorem(Exchange(st, evs[0]).0, evs[1..]);
    }
  }

  /** The bytes of a one-element list, as stale bytes behind a negative answer. */
  lemma OneRecord(r: Record) returns (stale: Str)
    requires |r.text| < TWO_TO_THE_32
    ensures TextsFit([r]) && LooksLike(stale, [r])
  {
    stale := U32Bytes(1) + EncodeRecords([r]);
    hide EncodeRecords;
    assert stale[0..4] == U32Bytes(1);
    assert stale[4..] == EncodeRecords([r]);
  }

  /**
    The condition is exact: as long as the answer does not outgrow its length
    field, a Recv yields only registered senders, for every walk and all buffer
    contents, if and only if the requester is registered.
  */
  lemma DecodedExactly(st: Store, id: U32)
    requires QueuedKnown(st) && (id in st.users ==> Readable(st, Recv(id)))
    ensures (forall ev: Event :: ev.req == Recv(id) && IsOrder(ev.order, st.users.Keys) ==> DecodedKnown(st, ev))
      <==> id in st.users
  {
    if id in st.users {
      forall ev: Event | ev.req == Recv(id) && IsOrder(ev.order, st.users.Keys)
        ensures DecodedKnown(st, ev)
      {
        StepDecodedKnown(st, ev);
      }
    } else {
      var order := SomeOrder(st.users.Keys);
      var phantom := Record(id, []);
      var stale := OneRecord(phantom);
      var ev := Event(Recv(id), order, [], stale);
      PhantomMessages(st, ev, [phantom]);
      hide Exchange;
      assert !DecodedKnown(st, ev);
    }
  }
}
