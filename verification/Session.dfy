/**
  A client object and a server object exchanging requests over their byte
  buffers: the two classes together do what `Refinement.Exchange` says, request
  after request, so what is proved of runs holds of the two objects.
*/
module Session {
  import opened Common
  import opened Wire
  import opened Databases
  import opened Server
  import Client
  import opened Refinement
  import opened Runs

  /** The bytes that arrive in front of what the receiving buffer already holds. */
  method Transmit(src: array<Byte>, dst: array<Byte>, n: nat)
    requires src != dst && n <= src.Length && n <= dst.Length
    modifies dst
    ensures dst[..] == src[..n] + old(dst[n..])
  {
    forall i | 0 <= i < n {
      dst[i] := src[i];
    }
  }

  method Encode(client: Client.MccClient, req: Request) returns (n: nat)
    requires |EncodeRequest(req)| <= client.tx.Length
    modifies client.tx
    ensures n == |EncodeRequest(req)|
    ensures client.tx[..] == EncodeRequest(req) + old(client.tx[n..])
  {
    match req
    case Register(name) => n := client.EncodeRequestRegister(name);
    case Users(id) => n := client.EncodeRequestUsers(id);
    case Send(src, target, msg) => n := client.EncodeRequestSend(src, target, msg);
    case Recv(id) => n := client.EncodeRequestRecv(id);
  }

  /** Calls the handler that belongs to the request, unless it would read outside the buffer. */
  method Decode(client: Client.MccClient, req: Request) returns (seen: Client.Observed)
    ensures seen == Client.Observe(req, client.rx[..])
  {
    var rx := client.rx[..];
    if Client.Observe(req, rx) == Client.OutOfBounds {
      return Client.OutOfBounds;
    }
    match req
    case Register(_) =>
      var ok, id := client.HandleRespRegister(0);
      seen := if ok then Client.Registered(id) else Client.Refused;
    case Users(_) =>
      var ok, names := client.HandleRespUsers(map[]);
      seen := if ok then Client.Online(names) else Client.Refused;
    case Send(_, _, _) =>
      var ok, stat := client.HandleRespSend(0);
      seen := if ok then Client.Status(stat) else Client.Refused;
    case Recv(_) =>
      var ok, logged, msgs := client.HandleRespRecv([]);
      assert [] + msgs == msgs;
      seen := if ok then Client.Mail(logged, msgs) else Client.Refused;
  }

  /** The server end of one exchange: the request arrives, is parsed, and the answer stands in the send buffer. */
  method Serve(server: MccServer, inbox: array<Byte>, ghost req: Request, ghost inboxTail: Str)
    returns (r: ParseResult, ghost order: seq<U32>)
    requires inbox != server.tx && inbox[..] == EncodeRequest(req) + inboxTail
    requires ReplyExtent(server.db.Value(), Kind(req), Payload(req)) <= server.tx.Length
    modifies server.db, server.tx
    ensures IsOrder(order, old(server.db.users.Keys))
    ensures server.db.Value() == StoreAfter(old(server.db.Value()), Kind(req), Payload(req))
    ensures ExtentFits(old(server.db.Value()), Kind(req), Payload(req), order, server.tx.Length)
    ensures var reply := ReplyTo(old(server.db.Value()), Kind(req), Payload(req), order);
      r == ResultOf(reply) && server.tx[..] == Written(old(server.tx[..]), reply)
  {
    hide ReplyExtent, StoreAfter, ReplyTo, Payload, EncodeRequest;
    RequestRoundTrip(req, inboxTail);
    assert inbox[0] == inbox[..][0];
    r, order := server.Parse(inbox);
  }

  /** What the client's buffer holds after the answer came in, as an answer followed by stale bytes. */
  lemma ArrivedTail(bytes: Str, size: nat, before: Str, rx: Str) returns (tail: Str)
    requires |bytes| <= |before| && size <= |before| && size <= |rx|
    ensures (bytes + before[|bytes|..])[..size] + rx[size..] == Received(bytes, size, tail)
  {
    if size >= |bytes| {
      tail := before[|bytes|..size] + rx[size..];
    } else {
      tail := rx[size..];
      assert (bytes + before[|bytes|..])[..size] == bytes[..size];
    }
  }

  /**
    One exchange between the two objects: for some walk order and some stale
    bytes, the store and the client's observation are those of the specification.
  */
  method RoundTrip(client: Client.MccClient, server: MccServer, inbox: array<Byte>, req: Request)
    returns (seen: Option<Client.Observed>, ghost ev: Event)
    requires client.tx != inbox && client.tx != server.tx && client.tx != client.rx
    requires inbox != server.tx && inbox != client.rx && server.tx != client.rx
    requires |EncodeRequest(req)| <= client.tx.Length && |EncodeRequest(req)| <= inbox.Length
    requires ReplyExtent(server.db.Value(), Kind(req), Payload(req)) <= server.tx.Length
    requires ReplySize(server.db.Value(), Kind(req), Payload(req)) <= server.tx.Length
    requires ReplySize(server.db.Value(), Kind(req), Payload(req)) <= client.rx.Length
    modifies client.tx, inbox, server.db, server.tx, client.rx
    ensures ev.req == req && IsOrder(ev.order, old(server.db.users.Keys))
    ensures (server.db.Value(), seen) == Exchange(old(server.db.Value()), ev)
  {
    hide ReplyExtent, ReplySize, StoreAfter, ReplyTo, Payload, EncodeRequest, Client.Observe, Exchange;
    ghost var st := server.db.Value();
    var n := Encode(client, req);
    ghost var inboxTail := inbox[n..];
    Transmit(client.tx, inbox, n);
    assert client.tx[..n] == EncodeRequest(req);
    ghost var before := server.tx[..];
    var r;
    ghost var order;
    r, order := Serve(server, inbox, req, inboxTail);
    ghost var reply := ReplyTo(st, Kind(req), Payload(req), order);
    SizeIsExact(st, Kind(req), Payload(req), order);
    match r {
    case AssertionFailed =>
      seen := None;
      ev := Event(req, order, inboxTail, []);
    case Size(size) =>
      ghost var rx := client.rx[..];
      Transmit(server.tx, client.rx, size);
      ghost var tail := ArrivedTail(reply.bytes, size, before, rx);
      assert server.tx[..size] == server.tx[..][..size];
      assert client.rx[..] == Received(reply.bytes, size, tail);
      var observed := Decode(client, req);
      seen := Some(observed);
      ev := Event(req, order, inboxTail, tail);
    }
    ExchangeMeans(st, ev);
  }

  /** The buffers are large enough for every request and every answer of the run. */
  ghost predicate Room(st: Store, reqs: seq<Request>, clientTx: nat, inbox: nat, serverTx: nat, clientRx: nat)
    decreases |reqs|
  {
    reqs == [] ||
    (&& |EncodeRequest(reqs[0])| <= clientTx && |EncodeRequest(reqs[0])| <= inbox
     && ReplyExtent(st, Kind(reqs[0]), Payload(reqs[0])) <= serverTx
     && ReplySize(st, Kind(reqs[0]), Payload(reqs[0])) <= serverTx
     && ReplySize(st, Kind(reqs[0]), Payload(reqs[0])) <= clientRx
     && Room(ServerAfter(st, reqs[0]), reqs[1..], clientTx, inbox, serverTx, clientRx))
  }

  /** What the client saw, event by event. */
  ghost function Sights(st: Store, evs: seq<Event>): seq<Option<Client.Observed>>
    requires Legal(st, evs)
    decreases |evs|
  {
    if evs == [] then [] else [Exchange(st, evs[0]).1] + Sights(Exchange(st, evs[0]).0, evs[1..])
  }

  lemma {:induction false} SightsSnoc(st: Store, evs: seq<Event>, ev: Event)
    requires Legal(st, evs) && Legal(st, evs + [ev]) && IsOrder(ev.order, Final(st, evs).users.Keys)
    ensures Sights(st, evs + [ev]) == Sights(st, evs) + [Exchange(Final(st, evs), ev).1]
    decreases |evs|
  {
    hide Exchange;
    if evs == [] {
      assert evs + [ev] == [ev] && [ev][1..] == [];
    } else {
      assert (evs + [ev])[0] == evs[0] && (evs + [ev])[1..] == evs[1..] + [ev];
      SightsSnoc(Exchange(st, evs[0]).0, evs[1..], ev);
    }
  }

  lemma RequestsSnoc(evs: seq<Event>, ev: Event)
    ensures Requests(evs + [ev]) == Requests(evs) + [ev.req]
  {
  }

  /**
    One exchange per request, until an assertion stops the server: together a
    legal run, with the store and the sights the run has.
  */
  method ServeAll(client: Client.MccClient, server: MccServer, inbox: array<Byte>, reqs: seq<Request>)
    returns (sights: seq<Option<Client.Observed>>, ghost evs: seq<Event>)
    requires client.tx != inbox && client.tx != server.tx && client.tx != client.rx
    requires inbox != server.tx && inbox != client.rx && server.tx != client.rx
    requires Room(server.db.Value(), reqs, client.tx.Length, inbox.Length, server.tx.Length, client.rx.Length)
    modifies client.tx, inbox, server.db, server.tx, client.rx
    ensures Legal(old(server.db.Value()), evs)
    ensures Requests(evs) <= reqs
    ensures server.db.Value() == Final(old(server.db.Value()), evs)
    ensures sights == Sights(old(server.db.Value()), evs)
    ensures |sights| == |evs|
    ensures |evs| < |reqs| ==> sights != [] && sights[|sights| - 1] == None
  {
    hide Exchange, ReplyExtent, ReplySize, ServerAfter, EncodeRequest;
    ghost var st := server.db.Value();
    sights, evs := [], [];
    var alive := true;
    while |sights| < |reqs| && alive
      invariant |sights| == |evs| <= |reqs|
      invariant Legal(st, evs) && Requests(evs) == reqs[..|evs|]
      invariant server.db.Value() == Final(st, evs)
      invariant sights == Sights(st, evs)
      invariant Room(server.db.Value(), reqs[|evs|..], client.tx.Length, inbox.Length, server.tx.Length, client.rx.Length)
      invariant !alive ==> sights != [] && sights[|sights| - 1] == None
      decreases |reqs| - |sights|
    {
      var req := reqs[|sights|];
      assert reqs[|evs|..][0] == req && reqs[|evs|..][1..] == reqs[|evs| + 1..];
      ghost var now := server.db.Value();
      var seen;
      ghost var ev;
      seen, ev := RoundTrip(client, server, inbox, req);
      StoreOfExchange(now, ev);
      LegalSnoc(st, evs, ev);
      SightsSnoc(st, evs, ev);
      RequestsSnoc(evs, ev);
      assert reqs[..|evs|] + [req] == reqs[..|evs| + 1];
      sights, evs := sights + [seen], evs + [ev];
      alive := seen.Some?;
    }
  }
}
