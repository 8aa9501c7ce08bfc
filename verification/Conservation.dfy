/**
  No message is lost, doubled or reordered: for one user, what senders saw
  acknowledged against what the user's client decoded and what is still queued.
*/
module Conservation {
  import opened Common
  import opened Wire
  import opened Databases
  import opened Server
  import Client
  import ChatSystem
  import opened Refinement
  import opened Runs
  import opened Invariants

  /** What a client handed over for user u and saw acknowledged. */
  function AcceptedBy(req: Request, seen: Option<Client.Observed>, u: U32): seq<Msg> {
    if req.Send? && req.target == u && seen == Some(Client.Status(STATUS_SUCCESS))
    then [Record(req.src, req.msg)] else []
  }

  /** What a client of user u decoded. */
  function DeliveredBy(req: Request, seen: Option<Client.Observed>, u: U32): seq<Msg> {
    if req.Recv? && req.id == u && seen.Some? && seen.value.Mail? then seen.value.msgs else []
  }

  /** Queued before and accepted is delivered and queued after, in this order. */
  ghost predicate Balanced(st: Store, ev: Event, u: U32)
    requires forall k :: k in ev.order ==> k in st.users
  {
    var (st', seen) := Exchange(st, ev);
    Box(st, u) + AcceptedBy(ev.req, seen, u) == DeliveredBy(ev.req, seen, u) + Box(st', u)
  }

  /**
    What can go wrong for user u, and nothing else can: a registration that
    takes u's id from somebody with mail, a Send to u whose message is cut, and
    a Recv by u before registering or with more mail than an answer can announce.
  */
  predicate SafeFor(st: Store, req: Request, u: U32) {
    match req
    case Register(_) => st.nextId == u ==> Box(st, u) == []
    case Users(_) => true
    case Send(src, target, msg) =>
      target == u && src in st.users && target in st.users && Wrap(8 + |msg|) > 8 ==> 8 + |msg| < TWO_TO_THE_32
    case Recv(id) => id == u ==> u in st.users && 10 + ListSize(Box(st, u)) < TWO_TO_THE_32
  }

  // ---------------------------------------------------------------------
  // Texts never outgrow their length fields

  ghost predicate AllTextsFit(st: Store) {
    forall u: U32 :: TextsFit(Box(st, u))
  }

  lemma StepTextsFit(st: Store, req: Request)
    requires AllTextsFit(st)
    ensures AllTextsFit(ServerAfter(st, req))
  {
    StepFrame(st, Kind(req), Payload(req));
    hide StoreAfter, Payload, U32At;
    var st' := ServerAfter(st, req);
    forall u: U32
      ensures TextsFit(Box(st', u))
    {
      assert TextsFit(Box(st, u));
    }
  }

  // ---------------------------------------------------------------------
  // One request

  lemma RegisterBalance(st: Store, ev: Event, u: U32)
    requires ev.req.Register? && forall k :: k in ev.order ==> k in st.users
    ensures Balanced(st, ev, u) <==> SafeFor(st, ev.req, u)
  {
    RegisterExchange(st, ev);
    hide Exchange, Payload;
    var b := Box(st, u);
    assert b + [] == b && [] + b == b;
  }

  lemma UsersBalance(st: Store, ev: Event, u: U32)
    requires ev.req.Users? && forall k :: k in ev.order ==> k in st.users
    ensures Balanced(st, ev, u)
  {
    StoreOfExchange(st, ev);
    hide Exchange, Payload;
    assert ServerAfter(st, ev.req) == st;
    assert Box(st, u) + [] == [] + Box(st, u);
  }

  /** A message is queued as it was accepted exactly if it was not cut. */
  lemma QueuedBalance(b: seq<Msg>, src: U32, msg: Str, stored: Str)
    ensures b + [Record(src, msg)] == [] + (b + [Record(src, stored)]) <==> stored == msg
  {
    if stored != msg {
      assert ([] + (b + [Record(src, stored)]))[|b|] != (b + [Record(src, msg)])[|b|];
    }
  }

  lemma SendBalance(st: Store, ev: Event, u: U32)
    requires ev.req.Send? && forall k :: k in ev.order ==> k in st.users
    ensures Balanced(st, ev, u) <==> SafeFor(st, ev.req, u)
  {
    hide Exchange, Wrap;
    SendExchange(st, ev);
    var Send(src, target, msg) := ev.req;
    var len, b := Wrap(8 + |msg|), Box(st, u);
    if len > 8 && src in st.users && target in st.users && target == u {
      var stored := msg[..len - 8];
      QueuedBalance(b, src, msg, stored);
      assert stored == msg <==> len == 8 + |msg|;
      assert len == 8 + |msg| <==> 8 + |msg| < TWO_TO_THE_32;
    } else {
      assert b + [] == [] + b;
    }
  }

  /** A Recv by somebody else does not touch u's mailbox. */
  lemma OtherRecvBalance(st: Store, ev: Event, u: U32)
    requires ev.req.Recv? && ev.req.id != u && forall k :: k in ev.order ==> k in st.users
    ensures Balanced(st, ev, u)
  {
    RecvExchange(st, ev);
    hide Exchange, Client.ObserveRecv, ReplyList, RespStatus, ClipAll;
    assert Box(st, u) + [] == [] + Box(st, u);
  }

  lemma SafeRecvBalance(st: Store, ev: Event, u: U32)
    requires AllTextsFit(st) && ev.req == Recv(u) && SafeFor(st, ev.req, u)
    requires forall k :: k in ev.order ==> k in st.users
    ensures Balanced(st, ev, u)
  {
    hide Exchange, Client.ObserveRecv, ReplyList, RespStatus, ClipAll, EncodeRecords, ListSize;
    RecvExchange(st, ev);
    var q := Box(st, u);
    assert TextsFit(q);
    ClipAllIdentity(q);
    EncodedSize(q);
    MailSeen(q, ev.rxTail);
    assert q + [] == q;
  }

  lemma UnsafeRecvUnbalanced(st: Store, u: U32, order: seq<U32>) returns (ev: Event)
    requires AllTextsFit(st) && !SafeFor(st, Recv(u), u) && IsOrder(order, st.users.Keys)
    ensures ev.req == Recv(u) && ev.order == order && !Balanced(st, ev, u)
  {
    hide Exchange, Client.ObserveRecv, ReplyList, RespStatus, ClipAll, EncodeRecords, ListSize, LooksLike;
    if u in st.users {
      ev := Event(Recv(u), order, [], []);
      RecvExchange(st, ev);
      var q := Box(st, u);
      assert TextsFit(q);
      ClipAllIdentity(q);
      EncodedSize(q);
      TooMuchMail(q);
      assert ListSize(q) > 0 && q != [] by { SomeMail(q); }
      assert q + [] == q;
    } else {
      var stale := OneRecord(Record(u, []));
      ev := Event(Recv(u), order, [], stale);
      PhantomMessages(st, ev, [Record(u, [])]);
    }
  }

  lemma SomeMail(q: seq<Msg>)
    ensures ListSize(q) > 0 ==> q != []
  {
  }

  /**
    One exchange keeps the balance of user u for every walk order and all
    buffer contents if and only if the request is safe for u.
  */
  lemma BalancedExactly(st: Store, req: Request, u: U32)
    requires AllTextsFit(st)
    ensures (forall ev: Event :: ev.req == req && IsOrder(ev.order, st.users.Keys) ==> Balanced(st, ev, u))
      <==> SafeFor(st, req, u)
  {
    hide Balanced, SafeFor;
    if SafeFor(st, req, u) {
      forall ev: Event | ev.req == req && IsOrder(ev.order, st.users.Keys)
        ensures Balanced(st, ev, u)
      {
        SafeBalances(st, ev, u);
      }
    } else {
      var order := SomeOrder(st.users.Keys);
      var ev := UnsafeUnbalanced(st, req, u, order);
    }
  }

  lemma SafeBalances(st: Store, ev: Event, u: U32)
    requires AllTextsFit(st) && SafeFor(st, ev.req, u)
    requires forall k :: k in ev.order ==> k in st.users
    ensures Balanced(st, ev, u)
  {
    hide Balanced;
    match ev.req
    case Register(_) => RegisterBalance(st, ev, u);
    case Users(_) => UsersBalance(st, ev, u);
    case Send(_, _, _) => SendBalance(st, ev, u);
    case Recv(id) => if id == u { SafeRecvBalance(st, ev, u); } else { OtherRecvBalance(st, ev, u); }
  }

  lemma UnsafeUnbalanced(st: Store, req: Request, u: U32, order: seq<U32>) returns (ev: Event)
    requires AllTextsFit(st) && !SafeFor(st, req, u) && IsOrder(order, st.users.Keys)
    ensures ev.req == req && ev.order == order && !Balanced(st, ev, u)
  {
    hide Balanced;
    ev := Event(req, order, [], []);
    match req
    case Register(_) => RegisterBalance(st, ev, u);
    case Users(_) => UsersBalance(st, ev, u);
    case Send(_, _, _) => SendBalance(st, ev, u);
    case Recv(id) => ev := UnsafeRecvUnbalanced(st, u, order);
  }

  // ---------------------------------------------------------------------
  // Whole runs

  ghost predicate RunSafeFor(st: Store, evs: seq<Event>, u: U32)
    requires Legal(st, evs)
    decreases |evs|
  {
    evs == [] || (SafeFor(st, evs[0].req, u) && RunSafeFor(Exchange(st, evs[0]).0, evs[1..], u))
  }

  ghost function Accepted(st: Store, evs: seq<Event>, u: U32): seq<Msg>
    requires Legal(st, evs)
    decreases |evs|
  {
    if evs == [] then [] else
    var (st', seen) := Exchange(st, evs[0]);
    AcceptedBy(evs[0].req, seen, u) + Accepted(st', evs[1..], u)
  }

  ghost function Delivered(st: Store, evs: seq<Event>, u: U32): seq<Msg>
    requires Legal(st, evs)
    decreases |evs|
  {
    if evs == [] then [] else
    var (st', seen) := Exchange(st, evs[0]);
    DeliveredBy(evs[0].req, seen, u) + Delivered(st', evs[1..], u)
  }

  lemma {:induction false} RunConserves(st: Store, evs: seq<Event>, u: U32)
    requires AllTextsFit(st) && Legal(st, evs) && RunSafeFor(st, evs, u)
    ensures Box(st, u) + Accepted(st, evs, u) == Delivered(st, evs, u) + Box(Final(st, evs), u)
    decreases |evs|
  {
    hide Exchange, AllTextsFit, SafeFor, Box, ServerAfter, AcceptedBy, DeliveredBy;
    if evs != [] {
      SafeBalances(st, evs[0], u);
      StoreOfExchange(st, evs[0]);
      StepTextsFit(st, evs[0].req);
      var (st', seen) := Exchange(st, evs[0]);
      RunConserves(st', evs[1..], u);
      Regroup(Box(st, u), AcceptedBy(evs[0].req, seen, u), Accepted(st', evs[1..], u),
              DeliveredBy(evs[0].req, seen, u), Box(st', u), Delivered(st', evs[1..], u), Box(Final(st', evs[1..]), u));
    }
  }

  lemma Regroup<T>(b: seq<T>, a: seq<T>, rest: seq<T>, d: seq<T>, b': seq<T>, ds: seq<T>, e: seq<T>)
    requires b + a == d + b' && b' + rest == ds + e
    ensures b + (a + rest) == d + ds + e
  {
    assert b + (a + rest) == (b + a) + rest == d + (b' + rest) == d + (ds + e);
  }

  /**
    Conservation and FIFO for each user u: in any run from the server's start in
    which nothing unsafe for u happens, the messages acknowledged to senders are
    exactly those u's client has decoded so far, in order, followed by those
    still queued. What other users request, and how it fares, does not matter.
  */
  lemma ConservationTheorem(evs: seq<Event>, u: U32)
    requires Legal(EMPTY_STORE, evs) && RunSafeFor(EMPTY_STORE, evs, u)
    ensures Accepted(EMPTY_STORE, evs, u)
      == Delivered(EMPTY_STORE, evs, u) + Box(Final(EMPTY_STORE, evs), u)
  {
    RunConserves(EMPTY_STORE, evs, u);
    assert [] + Accepted(EMPTY_STORE, evs, u) == Accepted(EMPTY_STORE, evs, u);
  }

  /** A request that fits the abstract system is safe for everybody. */
  lemma FitsIsSafe(st: Store, c: ChatSystem.Chat, req: Request, u: U32)
    requires Related(st, c) && Fits(c, req)
    ensures SafeFor(st, req, u)
  {
    KnownIds(st, c, u);
    if req.Send? {
      KnownIds(st, c, req.src);
    }
  }
}
