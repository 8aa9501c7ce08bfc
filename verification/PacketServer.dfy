/**
  The second implementation of the requests, on protobuf packets instead of
  bytes, and where its answers agree with those of the byte protocol.
*/
module PacketServer {
  import opened Common
  import opened Wire
  import opened Databases
  import opened Server
  import Client
  import opened Refinement

  /** The request messages of packet.proto; every field may be missing. */
  datatype RequestPacket =
    | RequestRegister(username: Option<Str>)
    | RequestUsers(usersRequestor: Option<U32>)
    | RequestRecv(recvRequestor: Option<U32>)

  /** A response: its value, the assigned id if any, and its repeated field. */
  datatype ResponsePacket =
    | NoResponse
    | RespRegister(regValue: U32, assignedId: U32)
    | RespUsers(usersValue: U32, onlineUsers: seq<Record>)
    | RespRecv(recvValue: U32, messages: seq<Msg>)

  /** Everybody but the requester, each once, under the right name. */
  ghost predicate ListsOthers(users: map<U32, UserMetadata>, id: U32, rs: seq<Record>) {
    && DistinctIds(rs)
    && (forall r :: r in rs <==> (r.id in users && r.id != id && r.text == users[r.id].username))
  }

  class ServerApp {
    const db: Database

    constructor (db: Database)
      ensures this.db == db
    {
      this.db := db;
    }

    method HandleRequestRegister(packet: RequestPacket) returns (resp: ResponsePacket)
      modifies db
      ensures (db.Value(), resp) == RegisterPacket(old(db.Value()), packet)
      ensures packet.RequestRegister? && packet.username.Some? ==>
        && resp == RespRegister(0, old(db.nextId))
        && db.nextId == (old(db.nextId) + 1) % 0x1_0000_0000
        && db.users == old(db.users)[old(db.nextId) := UserMetadata(packet.username.value, [])]
      ensures !(packet.RequestRegister? && packet.username.Some?) ==>
        resp == NoResponse && db.nextId == old(db.nextId) && db.users == old(db.users)
    {
      if !packet.RequestRegister? || packet.username.None? {
        return NoResponse;
      }
      var id := db.Register(packet.username.value);
      return RespRegister(0, id);
    }

    method HandleRequestUsers(packet: RequestPacket) returns (resp: ResponsePacket, ghost order: seq<U32>)
      ensures IsOrder(order, db.users.Keys)
      ensures resp == UsersPacket(db.Value(), packet, order)
      ensures packet.RequestUsers? && packet.usersRequestor.Some? ==>
        if packet.usersRequestor.value in db.users
        then resp.RespUsers? && resp.usersValue == 0
             && ListsOthers(db.users, packet.usersRequestor.value, resp.onlineUsers)
        else resp == RespUsers(1, [])
      ensures !(packet.RequestUsers? && packet.usersRequestor.Some?) ==> resp == NoResponse
    {
      order := SomeOrder(db.users.Keys);
      if !packet.RequestUsers? || packet.usersRequestor.None? {
        return NoResponse, order;
      }
      var id := packet.usersRequestor.value;
      if !db.UserExists(id) {
        return RespUsers(1, []), order;
      }
      var onlineUsers := [];
      var unvisited := db.users.Keys;
      order := [];
      while unvisited != {}
        invariant unvisited <= db.users.Keys
        invariant IsOrder(order, db.users.Keys - unvisited)
        invariant onlineUsers == Others(db.users, id, order)
      {
        var key :| key in unvisited;
        OthersStep(db.users, id, order, key);
        OrderSnoc(order, db.users.Keys, unvisited, key);
        order := order + [key];
        unvisited := unvisited - {key};
        if key == id {
          continue;
        }
        onlineUsers := onlineUsers + [Record(key, db.users[key].username)];
      }
      assert db.users.Keys - unvisited == db.users.Keys;
      OthersContents(db.users, id, order);
      OthersDistinct(db.users, id, order);
      return RespUsers(0, onlineUsers), order;
    }

    /** Lists the messages but, unlike the byte protocol, leaves them in the queue. */
    method HandleRequestRecv(packet: RequestPacket) returns (resp: ResponsePacket)
      modifies db`users
      ensures db.Value() == old(db.Value())
      ensures resp == RecvPacket(db.Value(), packet)
      ensures packet.RequestRecv? && packet.recvRequestor.Some? ==>
        if packet.recvRequestor.value in db.users
        then resp == RespRecv(0, db.users[packet.recvRequestor.value].msgQ)
        else resp == RespRecv(1, [])
      ensures !(packet.RequestRecv? && packet.recvRequestor.Some?) ==> resp == NoResponse
    {
      if !packet.RequestRecv? || packet.recvRequestor.None? {
        return NoResponse;
      }
      var id := packet.recvRequestor.value;
      if !db.UserExists(id) {
        return RespRecv(1, []);
      }
      var u := db.Subscript(id);
      var messages: seq<Msg> := [];
      for i := 0 to |u.msgQ|
        invariant messages == u.msgQ[..i]
      {
        messages := messages + [u.msgQ[i]];
      }
      return RespRecv(0, messages);
    }
  }

  function RegisterPacket(st: Store, packet: RequestPacket): (Store, ResponsePacket) {
    if !packet.RequestRegister? || packet.username.None? then (st, NoResponse) else
    var (st', id) := RegisterUser(st, packet.username.value);
    (st', RespRegister(0, id))
  }

  function UsersPacket(st: Store, packet: RequestPacket, order: seq<U32>): ResponsePacket
    requires forall k :: k in order ==> k in st.users
  {
    if !packet.RequestUsers? || packet.usersRequestor.None? then NoResponse
    else if packet.usersRequestor.value !in st.users then RespUsers(1, [])
    else RespUsers(0, Others(st.users, packet.usersRequestor.value, order))
  }

  function RecvPacket(st: Store, packet: RequestPacket): ResponsePacket {
    if !packet.RequestRecv? || packet.recvRequestor.None? then NoResponse
    else RespRecv(if packet.recvRequestor.value in st.users then 0 else 1, Box(st, packet.recvRequestor.value))
  }

  /**
    Register: both implementations give out the same id; they leave the same
    store exactly if the name fits its length field on the wire.
  */
  lemma RegisterImplementationsAgree(st: Store, ev: Event)
    requires ev.req.Register? && forall k :: k in ev.order ==> k in st.users
    ensures var (st', seen) := Exchange(st, ev);
      var (packetSt, resp) := RegisterPacket(st, RequestRegister(Some(ev.req.name)));
      && resp.RespRegister? && resp.regValue == 0 && seen == Some(Client.Registered(resp.assignedId))
      && (st' == packetSt <==> |ev.req.name| < TWO_TO_THE_32)
  {
    RegisterExchange(st, ev);
    hide Exchange;
    var name := ev.req.name;
    var st', packetSt := Exchange(st, ev).0, RegisterUser(st, name).0;
    assert st'.users[st.nextId].username == Payload(ev.req) == name[..Wrap(|name|)];
    assert packetSt.users[st.nextId].username == name;
    if |name| < TWO_TO_THE_32 {
      assert name[..Wrap(|name|)] == name;
    }
  }

  /** What the byte protocol's client should make of a Users packet. */
  function UsersSeen(resp: ResponsePacket): Client.Observed
    requires resp.RespUsers?
  {
    if resp.usersValue == 0 then Client.Online(Client.NamesToIds(resp.onlineUsers)) else Client.Refused
  }

  /**
    Users: for the same walk and all buffer contents, the byte protocol's client
    ends up with exactly the cache that the packet's list spells out, or is
    refused as the packet says, if and only if the byte answer stays below 2^32
    bytes.
  */
  lemma UsersImplementationsAgree(st: Store, id: U32, order: seq<U32>)
    requires IsOrder(order, st.users.Keys)
    requires id in st.users ==> TextsFit(Others(st.users, id, order))
    ensures var resp := UsersPacket(st, RequestUsers(Some(id)), order);
      resp.RespUsers? && (resp.usersValue != 0 <==> id !in st.users)
    ensures var resp := UsersPacket(st, RequestUsers(Some(id)), order);
      (forall ev: Event :: ev.req == Users(id) && ev.order == order ==> Exchange(st, ev) == (st, Some(UsersSeen(resp))))
      <==> (id in st.users ==> 10 + |EncodeRecords(Others(st.users, id, order))| < TWO_TO_THE_32)
  {
    hide Exchange, EncodeRecords, Others, UsersSeen;
    forall ev: Event | ev.req == Users(id) && ev.order == order
      ensures UsersAgreeHere(st, ev)
    {
      UsersAgree(st, ev);
    }
    assert UsersAgreeHere(st, Event(Users(id), order, [], []));
  }

  /** For one event: agreement if the answer fits; disagreement if it does not and nothing stale follows. */
  ghost predicate UsersAgreeHere(st: Store, ev: Event)
    requires ev.req.Users? && forall k :: k in ev.order ==> k in st.users
  {
    var resp := UsersPacket(st, RequestUsers(Some(ev.req.id)), ev.order);
    var fits := ev.req.id in st.users ==> 10 + |EncodeRecords(Others(st.users, ev.req.id, ev.order))| < TWO_TO_THE_32;
    && (fits ==> Exchange(st, ev) == (st, Some(UsersSeen(resp))))
    && (!fits && ev.rxTail == [] ==> Exchange(st, ev) != (st, Some(UsersSeen(resp))))
  }

  lemma UsersAgree(st: Store, ev: Event)
    requires ev.req.Users? && IsOrder(ev.order, st.users.Keys)
    requires ev.req.id in st.users ==> TextsFit(Others(st.users, ev.req.id, ev.order))
    ensures UsersAgreeHere(st, ev)
  {
    hide Exchange, U32Bytes, RespList, RespNumber, RespStatus, Client.ObserveUsers;
    hide ReplyList, EncodeRecords, Others, Wrap, AnnouncedCount;
    UsersExchange(st, ev);
    var id := ev.req.id;
    if id in st.users {
      CountIsRight(st.users, id, ev.order);
      ListingAgrees(Others(st.users, id, ev.order), ev.rxTail);
    } else {
      EmptySeen(ev.rxTail);
    }
  }

  /** Same value and same messages. */
  predicate SameMail(seen: Option<Client.Observed>, resp: ResponsePacket)
    requires resp.RespRecv?
  {
    && seen.Some? && seen.value.Mail?
    && (seen.value.negative <==> resp.recvValue != 0)
    && seen.value.msgs == resp.messages
  }

  /**
    Recv: the byte protocol's client decodes what the packet says for all buffer
    contents if and only if the requester is registered and the byte answer
    stays below 2^32 bytes.
  */
  lemma RecvImplementationsAgree(st: Store, id: U32)
    requires TextsFit(Box(st, id))
    ensures var resp := RecvPacket(st, RequestRecv(Some(id)));
      && resp.RespRecv? && (resp.recvValue != 0 <==> id !in st.users) && resp.messages == Box(st, id)
    ensures var resp := RecvPacket(st, RequestRecv(Some(id)));
      (forall ev: Event :: ev.req == Recv(id) && IsOrder(ev.order, st.users.Keys) ==> SameMail(Exchange(st, ev).1, resp))
      <==> (id in st.users && 10 + ListSize(Box(st, id)) < TWO_TO_THE_32)
  {
    var resp := RecvPacket(st, RequestRecv(Some(id)));
    var fits := id in st.users && 10 + ListSize(Box(st, id)) < TWO_TO_THE_32;
    hide Exchange, ListSize;
    forall ev: Event | ev.req == Recv(id) && IsOrder(ev.order, st.users.Keys)
      ensures fits ==> SameMail(Exchange(st, ev).1, resp)
      ensures !fits && ev.rxTail == [] ==> !SameMail(Exchange(st, ev).1, resp)
    {
      RecvAgrees(st, ev);
    }
    var order := SomeOrder(st.users.Keys);
    var ev := Event(Recv(id), order, [], []);
    assert !fits ==> !SameMail(Exchange(st, ev).1, resp);
  }

  lemma RecvAgrees(st: Store, ev: Event)
    requires ev.req.Recv? && TextsFit(Box(st, ev.req.id)) && forall k :: k in ev.order ==> k in st.users
    ensures var resp := RecvPacket(st, RequestRecv(Some(ev.req.id)));
      var fits := ev.req.id in st.users && 10 + ListSize(Box(st, ev.req.id)) < TWO_TO_THE_32;
      && (fits ==> SameMail(Exchange(st, ev).1, resp))
      && (!fits && ev.rxTail == [] ==> !SameMail(Exchange(st, ev).1, resp))
  {
    hide Exchange, Client.ObserveRecv, ReplyList, RespStatus, EncodeRecords, ClipAll, ListSize;
    RecvExchange(st, ev);
    var q := Box(st, ev.req.id);
    ClipAllIdentity(q);
    EncodedSize(q);
    if ev.req.id !in st.users {
      TooShort();
    } else if 10 + ListSize(q) < TWO_TO_THE_32 {
      MailSeen(q, ev.rxTail);
    } else {
      TooMuchMail(q);
    }
  }

  /** Only the byte protocol drains the queue: the stores agree exactly if there was nothing to deliver. */
  lemma RecvStoresAgree(st: Store, ev: Event)
    requires ev.req.Recv? && forall k :: k in ev.order ==> k in st.users
    ensures Exchange(st, ev).0 == st <==> Box(st, ev.req.id) == []
  {
    RecvExchange(st, ev);
    hide Exchange, Client.ObserveRecv, ReplyList, RespStatus, ClipAll;
    var id := ev.req.id;
    if id in st.users {
      if Box(st, id) == [] {
        assert ClearQueue(st, id).users == st.users;
      } else {
        assert Box(ClearQueue(st, id), id) == [];
      }
    }
  }
}
