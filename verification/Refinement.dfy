/**
  Client, bytes and server together against the abstract chat system: exactly
  which runs they carry out faithfully, and what every faithful run conserves.
*/
module Refinement {
  import opened Common
  import opened Wire
  import opened Databases
  import opened Server
  import Client
  import opened ChatSystem

  // ---------------------------------------------------------------------
  // One exchange, on bytes

  /**
    A request together with everything the code leaves open: the order in which
    the users are walked, and what the two receive buffers held before, behind
    the bytes that arrive.
  */
  datatype Event = Event(req: Request, order: seq<U32>, inboxTail: Str, rxTail: Str)

  /** The receive buffer after `size` bytes of the send buffer arrived in front of `tail`. */
  function Received(bytes: Str, size: nat, tail: Str): Str {
    if size >= |bytes| then bytes + tail else bytes[..size] + tail
  }

  /**
    Encode, parse, answer, decode. The tail behind a response stands for stale
    bytes of either buffer. No observation: an assertion stopped the server.
  */
  function Exchange(st: Store, ev: Event): (Store, Option<Client.Observed>)
    requires forall k :: k in ev.order ==> k in st.users
  {
    var inbox := EncodeRequest(ev.req) + ev.inboxTail;
    RequestRoundTrip(ev.req, ev.inboxTail);
    var reply := ReplyTo(st, inbox[0], PayloadOf(inbox), ev.order);
    (StoreAfter(st, inbox[0], PayloadOf(inbox)), Seen(reply, ev.req, ev.rxTail))
  }

  function Seen(reply: Outcome, req: Request, tail: Str): Option<Client.Observed> {
    match reply
    case Aborted => None
    case Reply(bytes, size) => Some(Client.Observe(req, Received(bytes, size, tail)))
  }

  /** The server works on the request's type and payload alone. */
  lemma ExchangeMeans(st: Store, ev: Event)
    requires forall k :: k in ev.order ==> k in st.users
    ensures Exchange(st, ev)
      == (StoreAfter(st, Kind(ev.req), Payload(ev.req)),
          Seen(ReplyTo(st, Kind(ev.req), Payload(ev.req), ev.order), ev.req, ev.rxTail))
  {
    RequestRoundTrip(ev.req, ev.inboxTail);
  }

  /** Nothing the server's buffer held before has any influence. */
  lemma InboxIsIrrelevant(st: Store, ev: Event, tail: Str)
    requires forall k :: k in ev.order ==> k in st.users
    ensures Exchange(st, ev.(inboxTail := tail)) == Exchange(st, ev)
  {
    RequestRoundTrip(ev.req, ev.inboxTail);
    RequestRoundTrip(ev.req, tail);
  }

  // ---------------------------------------------------------------------
  // The relation between the two systems

  /** The store holds the chat's users under the ids 0, 1, 2, ..., and every text fits a 32-bit length. */
  ghost predicate Related(st: Store, c: Chat) {
    && WellFormed(c)
    && |c.names| <= TWO_TO_THE_32
    && st.nextId == Wrap(|c.names|)
    && (forall k: U32 :: k in st.users <==> k < |c.names|)
    && (forall k: U32 :: k in st.users ==> st.users[k] == UserMetadata(c.names[k], c.boxes[k]))
    && (forall u :: 0 <= u < |c.names| ==> |c.names[u]| < TWO_TO_THE_32)
    && (forall u :: 0 <= u < |c.boxes| ==> TextsFit(c.boxes[u]))
  }

  /** The client's observation says what the abstract answer says. */
  ghost predicate Matches(seen: Option<Client.Observed>, answer: Answer) {
    match answer
    case Registered(id) => seen.Some? && seen.value.Registered? && seen.value.id == id
    case Online(others) =>
      && seen.Some? && seen.value.Online?
      && ListsExactly(seen.value.names, others)
    case Sent(status) => seen.Some? && seen.value.Status? && seen.value.value == status
    case Mail(msgs) => seen == Some(Client.Mail(false, msgs))
    case Denied => seen == Some(Client.Refused) || seen == Some(Client.Mail(true, []))
  }

  /** The cache knows exactly the names of the others, each with the id of somebody of that name. */
  ghost predicate ListsExactly(names: map<Str, U32>, others: map<nat, Str>) {
    && (forall name :: name in names ==> names[name] in others && others[names[name]] == name)
    && (forall u :: u in others ==> others[u] in names)
  }

  /** New states related, observation and answer matching. */
  ghost predicate AgreesOn(st: Store, c: Chat, ev: Event)
    requires |c.names| == |c.boxes|
    requires forall k :: k in ev.order ==> k in st.users
  {
    && Related(Exchange(st, ev).0, Step(c, ev.req).0)
    && Matches(Exchange(st, ev).1, Step(c, ev.req).1)
  }

  lemma AgreesIf(st: Store, c: Chat, ev: Event, st': Store, seen: Option<Client.Observed>, c': Chat, answer: Answer)
    requires |c.names| == |c.boxes| && forall k :: k in ev.order ==> k in st.users
    requires Exchange(st, ev) == (st', seen) && Step(c, ev.req) == (c', answer)
    ensures AgreesOn(st, c, ev) <==> Related(st', c') && Matches(seen, answer)
  {
  }

  lemma KnownIds(st: Store, c: Chat, id: U32)
    requires Related(st, c)
    ensures id in st.users <==> id < |c.names|
    ensures id in st.users ==> st.users[id] == UserMetadata(c.names[id], c.boxes[id]) && TextsFit(c.boxes[id])
    ensures |c.names| == |c.boxes|
  {
  }

  /** Agreement whatever the walk order and whatever the buffers held before. */
  ghost predicate Agrees(st: Store, c: Chat, req: Request)
    requires |c.names| == |c.boxes|
  {
    forall ev: Event :: ev.req == req && IsOrder(ev.order, st.users.Keys) ==> AgreesOn(st, c, ev)
  }

  /** What a caller has to check before a request, in terms of the abstract system only. */
  predicate Fits(c: Chat, req: Request)
    requires |c.names| == |c.boxes|
  {
    match req
    case Register(name) => |c.names| < TWO_TO_THE_32 && |name| < TWO_TO_THE_32
    case Users(id) => id < |c.names| ==> 10 + RosterSize(c.names, id) < TWO_TO_THE_32
    case Send(src, target, msg) =>
      && Wrap(8 + |msg|) > 8
      && (src < |c.names| && target < |c.names| ==> 8 + |msg| < TWO_TO_THE_32)
    case Recv(id) => id < |c.names| && 10 + ListSize(c.boxes[id]) < TWO_TO_THE_32
  }

  // ---------------------------------------------------------------------
  // Register and Send: the buffers never matter

  lemma RegisterExchange(st: Store, ev: Event)
    requires ev.req.Register? && forall k :: k in ev.order ==> k in st.users
    ensures var (st', id) := RegisterUser(st, Payload(ev.req));
      Exchange(st, ev) == (st', Some(Client.Registered(id)))
  {
    ExchangeMeans(st, ev);
    Client.HeadOfNumber(RESP_REGISTER, st.nextId, ev.rxTail);
    hide U32Bytes, U32At, RespNumber, EncodeRequest, Exchange, Payload;
    assert Seen(Reply(RespNumber(RESP_REGISTER, st.nextId), 10), ev.req, ev.rxTail)
      == Some(Client.Registered(st.nextId));
  }

  lemma RegisterExactly(st: Store, c: Chat, ev: Event)
    requires Related(st, c) && ev.req.Register? && IsOrder(ev.order, st.users.Keys)
    ensures AgreesOn(st, c, ev) <==> Fits(c, ev.req)
  {
    RegisterExchange(st, ev);
    hide Exchange;
    RegisteredRelated(st, c, ev.req.name);
  }

  lemma RegisteredRelated(st: Store, c: Chat, name: Str)
    requires Related(st, c)
    ensures Related(RegisterUser(st, name[..Wrap(|name|)]).0, Step(c, Register(name)).0)
      <==> |c.names| < TWO_TO_THE_32 && |name| < TWO_TO_THE_32
  {
    var st' := RegisterUser(st, name[..Wrap(|name|)]).0;
    var c' := Step(c, Register(name)).0;
    if |c.names| < TWO_TO_THE_32 {
      assert st'.users[st.nextId].username == name[..Wrap(|name|)];
      assert c'.names[st.nextId] == name;
      if |name| < TWO_TO_THE_32 {
        assert name[..Wrap(|name|)] == name;
      }
    }
  }

  lemma StatusSeen(kind: Byte, status: Byte, tail: Str)
    ensures var rx := Received(RespStatus(kind, status), 6, tail);
      |rx| >= 6 && rx[0] == kind && rx[5] == status
  {
  }

  lemma SendPayload(src: U32, target: U32, msg: Str)
    requires Wrap(8 + |msg|) > 8
    ensures var p := Payload(Send(src, target, msg));
      && U32At(p, 0) == src && U32At(p, 4) == target
      && p[8..] == msg[..Wrap(8 + |msg|) - 8]
  {
    hide U32Bytes, Wrap;
    var body := U32Bytes(src) + U32Bytes(target) + msg;
    var p := Payload(Send(src, target, msg));
    assert p == body[..Wrap(8 + |msg|)];
    assert p[0..4] == body[0..4] == U32Bytes(src);
    assert p[4..8] == body[4..8] == U32Bytes(target);
    assert p[8..] == body[8..][..Wrap(8 + |msg|) - 8];
    assert body[8..] == msg;
  }

  lemma SendExchange(st: Store, ev: Event)
    requires ev.req.Send? && forall k :: k in ev.order ==> k in st.users
    ensures var Send(src, target, msg) := ev.req;
      var len := Wrap(8 + |msg|);
      Exchange(st, ev) ==
        if len <= 8 then (st, None) else
        (if SendStatus(st, src, target) == STATUS_SUCCESS
           then QueueMsg(st, target, Record(src, msg[..len - 8])) else st,
         Some(Client.Status(SendStatus(st, src, target))))
  {
    ExchangeMeans(st, ev);
    var Send(src, target, msg) := ev.req;
    if Wrap(8 + |msg|) > 8 {
      SendPayload(src, target, msg);
      hide U32Bytes, U32At, EncodeRequest, Exchange, Payload;
      StatusSeen(RESP_SEND, SendStatus(st, src, target), ev.rxTail);
    }
  }

  lemma SendExactly(st: Store, c: Chat, ev: Event)
    requires Related(st, c) && ev.req.Send? && IsOrder(ev.order, st.users.Keys)
    ensures AgreesOn(st, c, ev) <==> Fits(c, ev.req)
  {
    hide Exchange, Related, AgreesOn, QueueMsg, Wrap;
    var Send(src, target, msg) := ev.req;
    SendExchange(st, ev);
    KnownIds(st, c, src);
    KnownIds(st, c, target);
    var (st', seen) := Exchange(st, ev);
    var (c', answer) := Step(c, ev.req);
    AgreesIf(st, c, ev, st', seen, c', answer);
    var len := Wrap(8 + |msg|);
    if len > 8 && src < |c.names| && target < |c.names| {
      QueuedRelated(st, c, src, target, msg, msg[..len - 8]);
      assert msg[..len - 8] == msg <==> len - 8 == |msg|;
    }
  }

  lemma QueuedRelated(st: Store, c: Chat, src: U32, target: U32, msg: Str, stored: Str)
    requires Related(st, c) && src < |c.names| && target < |c.names|
    requires |stored| < TWO_TO_THE_32
    ensures Related(QueueMsg(st, target, Record(src, stored)), Step(c, Send(src, target, msg)).0) <==> stored == msg
  {
    var st' := QueueMsg(st, target, Record(src, stored));
    var c' := Step(c, Send(src, target, msg)).0;
    var n := |c.boxes[target]|;
    assert st'.users[target].msgQ == c.boxes[target] + [Record(src, stored)];
    assert c'.boxes[target] == c.boxes[target] + [Record(src, msg)];
    if stored != msg {
      assert st'.users[target].msgQ[n] != c'.boxes[target][n];
    }
  }

  lemma NegativeKind(kind: Byte, tail: Str)
    ensures (RespStatus(kind, 1) + tail)[0] == kind && (RespStatus(kind, 1) + tail)[5] == 1
  {
  }

  // ---------------------------------------------------------------------
  // Lists that are cut short

  /** A strict prefix of a list response is not enough for the client: some read leaves the buffer. */
  lemma ShortListUnreadable(kind: Byte, rs: seq<Record>, size: nat)
    requires TextsFit(rs) && |rs| < TWO_TO_THE_32
    requires 10 <= size < |RespList(kind, |rs|, rs)|
    ensures DecodeRecords(RespList(kind, |rs|, rs)[..size], 10, |rs|) == None
  {
    var bytes := RespList(kind, |rs|, rs);
    assert bytes == bytes[..size] + bytes[size..];
    Client.ListRoundTrip(kind, rs, []);
    assert bytes + [] == bytes;
    if DecodeRecords(bytes[..size], 10, |rs|).Some? {
      DecodeExtends(bytes[..size], bytes[size..], 10, |rs|);
    }
  }

  lemma HeadOfPrefix(kind: Byte, count: U32, rs: seq<Record>, size: nat)
    requires HEADER_SIZE <= size <= |RespList(kind, count, rs)|
    ensures var rx := RespList(kind, count, rs)[..size];
      && rx[0] == kind
      && (size > 5 ==> rx[5] == 0)
      && (size >= 10 ==> U32At(rx, 6) == count)
  {
    Client.HeadOfList(kind, count, rs, []);
    var bytes := RespList(kind, count, rs);
    assert bytes + [] == bytes;
    if size >= 10 {
      assert bytes[..size][6..10] == bytes[6..10];
    }
  }

  lemma IdPayload(id: U32)
    ensures |U32Bytes(id)| == 4 && U32At(U32Bytes(id), 0) == id
  {
    assert U32Bytes(id)[0..4] == U32Bytes(id);
  }

  /** When the list response fits its 32-bit length, all of it is transmitted. */
  lemma WholeListReceived(kind: Byte, count: U32, rs: seq<Record>, tail: Str)
    ensures var r := ReplyList(kind, count, rs);
      if 10 + |EncodeRecords(rs)| < TWO_TO_THE_32
      then Received(r.bytes, r.size, tail) == r.bytes + tail
      else HEADER_SIZE <= r.size < |r.bytes| && Received(r.bytes, r.size, tail) == r.bytes[..r.size] + tail
  {
    hide RespList, EncodeRecords, Wrap;
  }

  // ---------------------------------------------------------------------
  // Recv

  lemma RecvExchange(st: Store, ev: Event)
    requires ev.req.Recv? && forall k :: k in ev.order ==> k in st.users
    ensures var id := ev.req.id;
      if id in st.users then
        var r := ReplyList(RESP_RECV, Wrap(|st.users[id].msgQ|), ClipAll(st.users[id].msgQ));
        Exchange(st, ev) == (ClearQueue(st, id), Some(Client.ObserveRecv(Received(r.bytes, r.size, ev.rxTail))))
      else
        Exchange(st, ev) == (st, Some(Client.ObserveRecv(RespStatus(RESP_RECV, 1) + ev.rxTail)))
  {
    ExchangeMeans(st, ev);
    IdPayload(ev.req.id);
    hide Exchange, U32Bytes, U32At, ReplyList, RespStatus, Client.ObserveRecv;
  }

  lemma ClearedRelated(st: Store, c: Chat, id: U32)
    requires Related(st, c) && id < |c.names|
    ensures Related(ClearQueue(st, id), Step(c, Recv(id)).0)
  {
    assert TextsFit([]);
  }

  lemma RecvFits(st: Store, c: Chat, ev: Event)
    requires Related(st, c) && ev.req.Recv? && IsOrder(ev.order, st.users.Keys)
    requires Fits(c, ev.req)
    ensures AgreesOn(st, c, ev)
  {
    hide Exchange, Related, AgreesOn, Client.ObserveRecv, ReplyList, ClipAll;
    var id := ev.req.id;
    RecvExchange(st, ev);
    KnownIds(st, c, id);
    ClearedRelated(st, c, id);
    var q := c.boxes[id];
    ClipAllIdentity(q);
    EncodedSize(q);
    MailSeen(q, ev.rxTail);
    var (st', seen) := Exchange(st, ev);
    AgreesIf(st, c, ev, st', seen, Step(c, ev.req).0, Step(c, ev.req).1);
  }

  lemma MailSeen(q: seq<Msg>, tail: Str)
    requires TextsFit(q) && 10 + |EncodeRecords(q)| < TWO_TO_THE_32
    ensures var r := ReplyList(RESP_RECV, Wrap(|q|), q);
      Client.ObserveRecv(Received(r.bytes, r.size, tail)) == Client.Mail(false, q)
  {
    ClipAllIdentity(q);
    WholeListReceived(RESP_RECV, Wrap(|q|), q, tail);
    Client.RecvExactly(q, tail);
  }

  /** Too much mail for a 32-bit length: the client does not see all of it. */
  lemma TooMuchMail(q: seq<Msg>)
    requires TextsFit(q) && 10 + |EncodeRecords(q)| >= TWO_TO_THE_32
    ensures var r := ReplyList(RESP_RECV, Wrap(|q|), q);
      var seen := Client.ObserveRecv(Received(r.bytes, r.size, []));
      seen.Mail? ==> seen.msgs != q
  {
    var r := ReplyList(RESP_RECV, Wrap(|q|), q);
    WholeListReceived(RESP_RECV, Wrap(|q|), q, []);
    HeadOfPrefix(RESP_RECV, Wrap(|q|), q, r.size);
    if |q| < TWO_TO_THE_32 && r.size >= 10 {
      ShortListUnreadable(RESP_RECV, q, r.size);
    }
    hide RespList, Wrap;
    assert r.bytes[..r.size] + [] == r.bytes[..r.size];
  }

  lemma TooMuchMailMisfits(st: Store, c: Chat, ev: Event)
    requires Related(st, c) && ev.req.Recv? && IsOrder(ev.order, st.users.Keys)
    requires ev.req.id < |c.names| && !Fits(c, ev.req) && ev.rxTail == []
    ensures !AgreesOn(st, c, ev)
  {
    hide Exchange, Related, AgreesOn, Client.ObserveRecv, ReplyList, ClipAll;
    var id := ev.req.id;
    RecvExchange(st, ev);
    KnownIds(st, c, id);
    var q := c.boxes[id];
    ClipAllIdentity(q);
    EncodedSize(q);
    TooMuchMail(q);
    var (st', seen) := Exchange(st, ev);
    AgreesIf(st, c, ev, st', seen, Step(c, ev.req).0, Step(c, ev.req).1);
  }

  lemma UnknownMisfits(st: Store, c: Chat, ev: Event)
    requires Related(st, c) && ev.req.Recv? && IsOrder(ev.order, st.users.Keys)
    requires ev.req.id >= |c.names| && ev.rxTail == []
    ensures !AgreesOn(st, c, ev)
  {
    hide Exchange, Related, AgreesOn, Client.ObserveRecv, RespStatus;
    RecvExchange(st, ev);
    KnownIds(st, c, ev.req.id);
    TooShort();
    var (st', seen) := Exchange(st, ev);
    AgreesIf(st, c, ev, st', seen, Step(c, ev.req).0, Step(c, ev.req).1);
  }

  /** A negative answer alone: the handler reads on and leaves the buffer. */
  lemma TooShort()
    ensures Client.ObserveRecv(RespStatus(RESP_RECV, 1) + []) == Client.OutOfBounds
  {
    NegativeKind(RESP_RECV, []);
    hide RespStatus;
  }

  /** Bytes that look like a count and that many records. */
  predicate LooksLike(stale: Str, rs: seq<Record>) {
    && |rs| < TWO_TO_THE_32
    && 4 + |EncodeRecords(rs)| <= |stale|
    && U32At(stale, 0) == |rs|
    && stale[4..4 + |EncodeRecords(rs)|] == EncodeRecords(rs)
  }

  lemma StaleList(status: Str, stale: Str, rs: seq<Record>)
    requires TextsFit(rs) && LooksLike(stale, rs) && |status| == 6
    ensures var rx := status + stale;
      U32At(rx, 6) == |rs| && DecodeRecords(rx, 10, |rs|) == Some(Parsed(rs, 10 + |EncodeRecords(rs)|))
  {
    hide DecodeNext, U32Bytes;
    U32Behind(status, stale, 0);
    SliceBehind(status, stale, 4, 4 + |EncodeRecords(rs)|);
    RecordsRoundTrip(status + stale, 10, rs);
  }

  /**
    What an unregistered requester's client makes of the negative answer: the
    handler reads a list that is not there, so it returns whatever list the
    buffer happens to hold behind the answer.
  */
  lemma PhantomMessages(st: Store, ev: Event, rs: seq<Record>)
    requires ev.req.Recv? && ev.req.id !in st.users && forall k :: k in ev.order ==> k in st.users
    requires TextsFit(rs) && LooksLike(ev.rxTail, rs)
    ensures Exchange(st, ev) == (st, Some(Client.Mail(true, rs)))
  {
    RecvExchange(st, ev);
    StaleList(RespStatus(RESP_RECV, 1), ev.rxTail, rs);
    hide Exchange, LooksLike, U32At, RespStatus;
    NegativeKind(RESP_RECV, ev.rxTail);
  }

  // ---------------------------------------------------------------------
  // Users

  lemma UsersExchange(st: Store, ev: Event)
    requires ev.req.Users? && forall k :: k in ev.order ==> k in st.users
    ensures var id := ev.req.id;
      Exchange(st, ev) == (st, Some(Client.ObserveUsers(
        if id !in st.users then RespStatus(RESP_USERS, 1) + ev.rxTail
        else if AnnouncedCount(st.users) == 0 then RespNumber(RESP_USERS, 0) + ev.rxTail
        else
          var r := ReplyList(RESP_USERS, AnnouncedCount(st.users), Others(st.users, id, ev.order));
          Received(r.bytes, r.size, ev.rxTail))))
  {
    ExchangeMeans(st, ev);
    IdPayload(ev.req.id);
    hide Exchange, U32Bytes, U32At, ReplyList, RespStatus, RespNumber, Client.ObserveUsers, AnnouncedCount, Others;
  }

  lemma {:induction false} RosterIsTotal(st: Store, c: Chat, id: U32, m: nat, keys: set<U32>)
    requires Related(st, c) && m <= |c.names|
    requires forall k: U32 :: k in keys <==> k < m
    ensures keys <= st.users.Keys
    ensures TotalSize(st.users, keys - {id}) == RosterSize(c.names[..m], id)
  {
    if m == 0 {
      assert keys == {};
    } else {
      var last: U32 := m - 1;
      assert c.names[..m][..m - 1] == c.names[..m - 1];
      RosterIsTotal(st, c, id, m - 1, keys - {last});
      if last == id {
        assert keys - {last} - {id} == keys - {id};
      } else {
        TotalSizeSplit(st.users, keys - {id}, last);
        assert keys - {last} - {id} == keys - {id} - {last};
      }
    }
  }

  /** What the walk lists, against the abstract answer; and its size. */
  lemma ListingFacts(st: Store, c: Chat, id: U32, order: seq<U32>)
    requires Related(st, c) && id in st.users && IsOrder(order, st.users.Keys)
    ensures var rs := Others(st.users, id, order);
      && TextsFit(rs) && |rs| < TWO_TO_THE_32 && |rs| == AnnouncedCount(st.users)
      && |EncodeRecords(rs)| == RosterSize(c.names, id)
      && ListsExactly(Client.NamesToIds(rs), Step(c, Users(id)).1.others)
  {
    hide RosterSize, Others, ListsExactly, Step;
    var rs := Others(st.users, id, order);
    CountIsRight(st.users, id, order);
    AtMostAllIds(st.users.Keys);
    ListingSize(st.users, id, order, st.users.Keys);
    RosterIsTotal(st, c, id, |c.names|, st.users.Keys);
    assert c.names[..|c.names|] == c.names;
    OthersContents(st.users, id, order);
    assert forall i :: 0 <= i < |rs| ==> rs[i] in rs;
    ListedExactly(st, c, id, rs);
  }

  lemma ListedExactly(st: Store, c: Chat, id: U32, rs: seq<Record>)
    requires Related(st, c) && id in st.users
    requires forall r :: r in rs <==> (r.id in st.users && r.id != id && r.text == st.users[r.id].username)
    ensures ListsExactly(Client.NamesToIds(rs), Step(c, Users(id)).1.others)
  {
    Client.NamesListed(rs);
    var names, others := Client.NamesToIds(rs), Step(c, Users(id)).1.others;
    forall u | u in others
      ensures others[u] in names
    {
      var r := Record(u, others[u]);
      assert r in rs;
    }
  }

  /**
    When no two users share a name, the cache is the exact inverse of the store
    without the requester, whatever the walk order.
  */
  lemma CacheInvertsStore(st: Store, id: U32, order: seq<U32>, name: Str, k: U32)
    requires IsOrder(order, st.users.Keys)
    requires forall a, b :: a in st.users && b in st.users && a != b ==> st.users[a].username != st.users[b].username
    ensures var names := Client.NamesToIds(Others(st.users, id, order));
      (name in names && names[name] == k) <==> (k in st.users && k != id && st.users[k].username == name)
  {
    var rs := Others(st.users, id, order);
    OthersContents(st.users, id, order);
    OthersDistinct(st.users, id, order);
    forall i, j | 0 <= i < j < |rs|
      ensures rs[i].text != rs[j].text
    {
      assert rs[i] in rs && rs[j] in rs;
    }
    Client.CacheIsExact(rs);
    assert Record(k, name) in rs <==> (k in st.users && k != id && st.users[k].username == name);
  }

  /** The client's reading of a complete positive answer. */
  lemma ListingSeen(rs: seq<Record>, tail: Str)
    requires TextsFit(rs) && |rs| < TWO_TO_THE_32 && 10 + |EncodeRecords(rs)| < TWO_TO_THE_32
    ensures var r := ReplyList(RESP_USERS, |rs|, rs);
      Client.ObserveUsers(Received(r.bytes, r.size, tail)) == Client.Online(Client.NamesToIds(rs))
  {
    WholeListReceived(RESP_USERS, |rs|, rs, tail);
    Client.UsersRoundTrip(rs, tail);
  }

  /** An answer too long for its 32-bit length is cut off, and the client runs out of bytes. */
  lemma ListingCut(rs: seq<Record>)
    requires TextsFit(rs) && |rs| < TWO_TO_THE_32 && 10 + |EncodeRecords(rs)| >= TWO_TO_THE_32
    ensures var r := ReplyList(RESP_USERS, |rs|, rs);
      Client.ObserveUsers(Received(r.bytes, r.size, [])) == Client.OutOfBounds
  {
    var r := ReplyList(RESP_USERS, |rs|, rs);
    WholeListReceived(RESP_USERS, |rs|, rs, []);
    HeadOfPrefix(RESP_USERS, |rs|, rs, r.size);
    if r.size >= 10 {
      ShortListUnreadable(RESP_USERS, rs, r.size);
    }
    hide RespList, Wrap;
    assert r.bytes[..r.size] + [] == r.bytes[..r.size];
  }

  lemma EmptySeen(tail: Str)
    ensures Client.ObserveUsers(RespNumber(RESP_USERS, 0) + tail) == Client.Online(map[])
    ensures Client.ObserveUsers(RespStatus(RESP_USERS, 1) + tail) == Client.Refused
  {
    Client.HeadOfNumber(RESP_USERS, 0, tail);
    NegativeKind(RESP_USERS, tail);
    hide RespNumber, RespStatus;
  }

  lemma UsersExactlyKnown(st: Store, c: Chat, ev: Event)
    requires Related(st, c) && ev.req.Users? && IsOrder(ev.order, st.users.Keys)
    requires ev.req.id < |c.names|
    ensures Fits(c, ev.req) ==> AgreesOn(st, c, ev)
    ensures !Fits(c, ev.req) && ev.rxTail == [] ==> !AgreesOn(st, c, ev)
  {
    hide Exchange, Related, AgreesOn, Client.ObserveUsers, ReplyList, RespNumber;
    hide Others, AnnouncedCount, RosterSize, ListsExactly;
    KnownIds(st, c, ev.req.id);
    UsersExchange(st, ev);
    ListingFacts(st, c, ev.req.id, ev.order);
    ListingAgrees(Others(st.users, ev.req.id, ev.order), ev.rxTail);
    var (st', seen) := Exchange(st, ev);
    AgreesIf(st, c, ev, st', seen, Step(c, ev.req).0, Step(c, ev.req).1);
  }

  lemma ListingAgrees(rs: seq<Record>, tail: Str)
    requires TextsFit(rs) && |rs| < TWO_TO_THE_32
    ensures var r := ReplyList(RESP_USERS, |rs|, rs);
      var seen := Client.ObserveUsers(
        if |rs| == 0 then RespNumber(RESP_USERS, 0) + tail else Received(r.bytes, r.size, tail));
      && (10 + |EncodeRecords(rs)| < TWO_TO_THE_32 ==> seen == Client.Online(Client.NamesToIds(rs)))
      && (10 + |EncodeRecords(rs)| >= TWO_TO_THE_32 && tail == [] ==> seen == Client.OutOfBounds)
  {
    if |rs| == 0 {
      EmptySeen(tail);
    } else if 10 + |EncodeRecords(rs)| < TWO_TO_THE_32 {
      ListingSeen(rs, tail);
    } else {
      ListingCut(rs);
    }
    hide Client.ObserveUsers, ReplyList, RespNumber, Wrap;
  }

  lemma UsersUnknown(st: Store, c: Chat, ev: Event)
    requires Related(st, c) && ev.req.Users? && IsOrder(ev.order, st.users.Keys)
    requires ev.req.id >= |c.names|
    ensures AgreesOn(st, c, ev)
  {
    hide Exchange, Related, AgreesOn, Client.ObserveUsers, RespStatus;
    UsersExchange(st, ev);
    KnownIds(st, c, ev.req.id);
    EmptySeen(ev.rxTail);
    var (st', seen) := Exchange(st, ev);
    AgreesIf(st, c, ev, st', seen, c, Denied);
  }
}
