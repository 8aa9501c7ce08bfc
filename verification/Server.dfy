/**
  The server end: what one call of `parse` answers and stores, as a function of
  the request's type and payload, and the class that computes it in its buffers.
*/
module Server {
  import opened Common
  import opened Wire
  import opened Databases
  import opened Buffers

  /** The result of `parse`: a failed assertion, or the response bytes and the returned size. */
  datatype Outcome = Aborted | Reply(bytes: Str, size: nat)

  // ---------------------------------------------------------------------
  // The users to list

  /** The entries the walk in the given order emits: everybody but the requester. */
  function Others(users: map<U32, UserMetadata>, id: U32, order: seq<U32>): (rs: seq<Record>)
    requires forall k :: k in order ==> k in users
  {
    if order == [] then [] else
    var last := order[|order| - 1];
    var init := Others(users, id, order[..|order| - 1]);
    if last == id then init else init + [Record(last, users[last].username)]
  }

  lemma {:induction false} OthersStep(users: map<U32, UserMetadata>, id: U32, order: seq<U32>, key: U32)
    requires key in users && forall k :: k in order ==> k in users
    ensures Others(users, id, order + [key])
      == Others(users, id, order) + if key == id then [] else [Record(key, users[key].username)]
  {
    assert (order + [key])[..|order|] == order;
  }

  /** Exactly the other users are listed. */
  lemma {:induction false} OthersContents(users: map<U32, UserMetadata>, id: U32, order: seq<U32>)
    requires forall k :: k in order ==> k in users
    ensures forall r :: r in Others(users, id, order) <==>
      (r.id in order && r.id != id && r.text == users[r.id].username)
  {
    if order != [] {
      var init, last := order[..|order| - 1], order[|order| - 1];
      assert order == init + [last];
      OthersContents(users, id, init);
    }
  }

  ghost predicate DistinctIds(rs: seq<Record>) {
    forall i, j :: 0 <= i < j < |rs| ==> rs[i].id != rs[j].id
  }

  lemma {:induction false} OthersDistinct(users: map<U32, UserMetadata>, id: U32, order: seq<U32>)
    requires forall k :: k in order ==> k in users
    requires forall i, j :: 0 <= i < j < |order| ==> order[i] != order[j]
    ensures DistinctIds(Others(users, id, order))
  {
    if order != [] {
      var init, last := order[..|order| - 1], order[|order| - 1];
      OthersDistinct(users, id, init);
      OthersContents(users, id, init);
      var rs := Others(users, id, init);
      forall i | 0 <= i < |rs|
        ensures rs[i].id != last
      {
        assert rs[i] in rs;
        var k :| 0 <= k < |init| && init[k] == rs[i].id;
        assert order[k] != order[|order| - 1];
      }
      assert Others(users, id, order)
        == if last == id then rs else rs + [Record(last, users[last].username)];
    }
  }

  lemma {:induction false} OthersCount(users: map<U32, UserMetadata>, id: U32, order: seq<U32>)
    requires forall k :: k in order ==> k in users
    requires forall i, j :: 0 <= i < j < |order| ==> order[i] != order[j]
    ensures |Others(users, id, order)| == if id in order then |order| - 1 else |order|
  {
    if order != [] {
      OthersCount(users, id, order[..|order| - 1]);
    }
  }

  /** The count written before the walk, computed in 32-bit arithmetic. */
  function AnnouncedCount(users: map<U32, UserMetadata>): U32 {
    Wrap(Wrap(|users|) - 1)
  }

  /**
    The announced count is the number of entries the walk emits, whatever the
    order, even when all 2^32 ids are taken and the size truncates to 0.
  */
  lemma CountIsRight(users: map<U32, UserMetadata>, id: U32, order: seq<U32>)
    requires id in users && IsOrder(order, users.Keys)
    ensures |Others(users, id, order)| == AnnouncedCount(users) == |users| - 1
  {
    OthersCount(users, id, order);
    OrderLength(order, users.Keys);
    AtMostAllIds(users.Keys);
    assert |users| == |users.Keys| && |order| > 0;
  }

  // ---------------------------------------------------------------------
  // Sizes

  /** Bytes the listing of these users takes: 8 and the name for each. */
  ghost function TotalSize(users: map<U32, UserMetadata>, keys: set<U32>): nat
    requires keys <= users.Keys
  {
    if keys == {} then 0 else
    var k :| k in keys;
    8 + |users[k].username| + TotalSize(users, keys - {k})
  }

  lemma {:induction false} TotalSizeSplit(users: map<U32, UserMetadata>, keys: set<U32>, k: U32)
    requires keys <= users.Keys && k in keys
    ensures TotalSize(users, keys) == 8 + |users[k].username| + TotalSize(users, keys - {k})
    decreases |keys|
  {
    var x :| x in keys && TotalSize(users, keys) == 8 + |users[x].username| + TotalSize(users, keys - {x});
    if x != k {
      TotalSizeSplit(users, keys - {x}, k);
      TotalSizeSplit(users, keys - {k}, x);
      assert keys - {x} - {k} == keys - {k} - {x};
    }
  }

  /** The size of the listing is a sum over the listed users; the order does not matter. */
  lemma {:induction false} ListingSize(users: map<U32, UserMetadata>, id: U32, order: seq<U32>, keys: set<U32>)
    requires keys <= users.Keys && IsOrder(order, keys)
    ensures |EncodeRecords(Others(users, id, order))| == TotalSize(users, keys - {id})
  {
    if order == [] {
      assert keys == {};
    } else {
      var init, last := order[..|order| - 1], order[|order| - 1];
      assert order == init + [last];
      ListingSize(users, id, init, keys - {last});
      if last == id {
        assert keys - {last} - {id} == keys - {id};
      } else {
        TotalSizeSplit(users, keys - {id}, last);
        assert keys - {last} - {id} == keys - {id} - {last};
        var rs := Others(users, id, order);
        assert rs[..|rs| - 1] == Others(users, id, init);
      }
    }
  }

  /**
    The state of the walk that lists the users: what was visited, the room the
    rest still needs, and the 32-bit length counter beside the cursor.
  */
  ghost predicate Walk(users: map<U32, UserMetadata>, id: U32, order: seq<U32>, unvisited: set<U32>, dest: nat, len: U32)
    ensures Walk(users, id, order, unvisited, dest, len) ==> forall k :: k in order ==> k in users
  {
    && unvisited <= users.Keys
    && IsOrder(order, users.Keys - unvisited)
    && dest + TotalSize(users, unvisited - {id}) == 10 + TotalSize(users, users.Keys - {id})
    && len == Wrap(dest)
  }

  lemma WalkStarts(users: map<U32, UserMetadata>, id: U32)
    ensures Walk(users, id, [], users.Keys, 10, 10)
  {
    assert users.Keys - users.Keys == {};
  }

  lemma WalkEnds(users: map<U32, UserMetadata>, id: U32, order: seq<U32>, dest: nat, len: U32)
    requires Walk(users, id, order, {}, dest, len)
    ensures IsOrder(order, users.Keys) && len == Wrap(dest)
  {
    assert users.Keys - {} == users.Keys;
  }

  /** Visiting one more user. */
  lemma WalkStep(users: map<U32, UserMetadata>, id: U32, order: seq<U32>, unvisited: set<U32>,
                 dest: nat, len: U32, key: U32)
    requires Walk(users, id, order, unvisited, dest, len) && key in unvisited
    ensures key in users
    ensures key == id ==>
      && Walk(users, id, order + [key], unvisited - {key}, dest, len)
      && Others(users, id, order + [key]) == Others(users, id, order)
    ensures key != id ==>
      var size := 8 + |users[key].username|;
      && Walk(users, id, order + [key], unvisited - {key}, dest + size, Wrap(len + size))
      && Others(users, id, order + [key]) == Others(users, id, order) + [Record(key, users[key].username)]
      && dest + size <= 10 + TotalSize(users, users.Keys - {id})
  {
    OrderSnoc(order, users.Keys, unvisited, key);
    OthersStep(users, id, order, key);
    if key == id {
      assert (unvisited - {key}) - {id} == unvisited - {id};
    } else {
      TotalSizeSplit(users, unvisited - {id}, key);
      assert (unvisited - {key}) - {id} == unvisited - {id} - {key};
      WrapAdd(dest, 8 + |users[key].username|);
    }
  }

  // ---------------------------------------------------------------------
  // One request

  predicate IsRequest(kind: Byte) {
    kind <= REQUEST_RECV
  }

  /** The length assertions at the head of the request handlers. */
  predicate Acceptable(kind: Byte, payload: Str) {
    match kind
    case 0 => true
    case 2 => |payload| > 8
    case _ => |payload| == 4
  }

  function SendStatus(st: Store, src: U32, target: U32): Byte {
    if src !in st.users then STATUS_ERR_SRC_ID
    else if target !in st.users then STATUS_ERR_TARGET_ID
    else STATUS_SUCCESS
  }

  /** The store after the request. */
  function StoreAfter(st: Store, kind: Byte, payload: Str): Store
    requires IsRequest(kind)
  {
    if !Acceptable(kind, payload) then st else
    match kind
    case 0 => RegisterUser(st, payload).0
    case 1 => st
    case 2 =>
      var src, target := U32At(payload, 0), U32At(payload, 4);
      if SendStatus(st, src, target) == STATUS_SUCCESS
      then QueueMsg(st, target, Record(src, payload[8..])) else st
    case _ =>
      var id := U32At(payload, 0);
      if id in st.users then ClearQueue(st, id) else st
  }

  /** The answer to the request, when the users are walked in the given order. */
  function ReplyTo(st: Store, kind: Byte, payload: Str, order: seq<U32>): Outcome
    requires IsRequest(kind)
    requires forall k :: k in order ==> k in st.users
  {
    if !Acceptable(kind, payload) then Aborted else
    match kind
    case 0 => Reply(RespNumber(RESP_REGISTER, RegisterUser(st, payload).1), HEADER_SIZE + 5)
    case 1 => ReplyUsers(st, U32At(payload, 0), order)
    case 2 => Reply(RespStatus(RESP_SEND, SendStatus(st, U32At(payload, 0), U32At(payload, 4))), HEADER_SIZE + 1)
    case _ => ReplyRecv(st, U32At(payload, 0))
  }

  /**
    What a request may change, in any store whatever. Only Register changes who
    is there: the next id, taken or not, gets the name and an empty mailbox, and
    everybody else stays as they were. The other requests leave ids and names
    alone and change no mailbox but the target's, by one message at its end, and
    the requester's, which is emptied.
  */
  lemma StepFrame(st: Store, kind: Byte, payload: Str)
    requires IsRequest(kind)
    ensures var st' := StoreAfter(st, kind, payload);
      if kind == REQUEST_REGISTER then
        && st'.nextId == Wrap(st.nextId + 1)
        && st'.users.Keys == st.users.Keys + {st.nextId}
        && st'.users[st.nextId] == UserMetadata(payload, [])
        && (forall k :: k in st.users && k != st.nextId ==> st'.users[k] == st.users[k])
      else
        && st'.nextId == st.nextId
        && st'.users.Keys == st.users.Keys
        && (forall k :: k in st.users ==> st'.users[k].username == st.users[k].username)
        && (forall k :: k in st.users && Box(st', k) != Box(st, k) ==>
              || (kind == REQUEST_SEND && Acceptable(kind, payload) && k == U32At(payload, 4)
                  && U32At(payload, 0) in st.users
                  && Box(st', k) == Box(st, k) + [Record(U32At(payload, 0), payload[8..])])
              || (kind == REQUEST_RECV && Acceptable(kind, payload) && k == U32At(payload, 0) && Box(st', k) == []))
        && ((kind == REQUEST_USERS || !Acceptable(kind, payload)) ==> st' == st)
  {
    if Acceptable(kind, payload) {
      match kind
      case 0 =>
      case 1 =>
      case 2 =>
        hide U32At;
      case _ =>
        hide U32At;
    }
  }

  function ReplyUsers(st: Store, id: U32, order: seq<U32>): Outcome
    requires forall k :: k in order ==> k in st.users
  {
    if id !in st.users then Reply(RespStatus(RESP_USERS, 1), HEADER_SIZE + 1) else
    if AnnouncedCount(st.users) == 0 then Reply(RespNumber(RESP_USERS, 0), HEADER_SIZE + 5) else
    ReplyList(RESP_USERS, AnnouncedCount(st.users), Others(st.users, id, order))
  }

  function ReplyRecv(st: Store, id: U32): Outcome {
    if id !in st.users then Reply(RespStatus(RESP_RECV, 1), HEADER_SIZE + 1) else
    ReplyList(RESP_RECV, Wrap(|st.users[id].msgQ|), ClipAll(st.users[id].msgQ))
  }

  function ReplyList(kind: Byte, count: U32, rs: seq<Record>): (r: Outcome)
    ensures r.Reply?
  {
    Reply(RespList(kind, count, rs), HEADER_SIZE + Wrap(HEADER_SIZE + 5 + |EncodeRecords(rs)|))
  }

  /** How many bytes the answer occupies in the server's buffer; no walk order is needed to know it. */
  ghost function ReplyExtent(st: Store, kind: Byte, payload: Str): nat
    requires IsRequest(kind)
  {
    if !Acceptable(kind, payload) then 0 else
    match kind
    case 0 => 10
    case 1 =>
      var id := U32At(payload, 0);
      if id !in st.users then 6 else 10 + TotalSize(st.users, st.users.Keys - {id})
    case 2 => 6
    case _ =>
      var id := U32At(payload, 0);
      if id !in st.users then 6 else 10 + |EncodeRecords(ClipAll(st.users[id].msgQ))|
  }

  /** The extent is right for every walk order. */
  lemma ExtentIsExact(st: Store, kind: Byte, payload: Str, order: seq<U32>)
    requires IsRequest(kind) && IsOrder(order, st.users.Keys)
    ensures match ReplyTo(st, kind, payload, order)
      case Aborted => ReplyExtent(st, kind, payload) == 0
      case Reply(bytes, _) => |bytes| == ReplyExtent(st, kind, payload)
  {
    if kind == REQUEST_USERS && |payload| == 4 && U32At(payload, 0) in st.users {
      var id := U32At(payload, 0);
      CountIsRight(st.users, id, order);
      ListingSize(st.users, id, order, st.users.Keys);
    }
  }

  /** The answer fits a buffer of this capacity. */
  ghost predicate ExtentFits(st: Store, kind: Byte, payload: Str, order: seq<U32>, capacity: nat)
    requires IsRequest(kind)
    requires forall k :: k in order ==> k in st.users
  {
    var r := ReplyTo(st, kind, payload, order);
    r.Reply? ==> |r.bytes| <= capacity
  }

  /** Whether the answer carries a counted list with the over-counted length. */
  predicate AnswersList(st: Store, kind: Byte, payload: Str) {
    && |payload| == 4
    && U32At(payload, 0) in st.users
    && (kind == REQUEST_RECV || (kind == REQUEST_USERS && |st.users| > 1))
  }

  /** The length field is the payload length, and the returned size is that of the packet. */
  predicate LengthKept(r: Outcome) {
    && r.Reply? && |r.bytes| >= HEADER_SIZE
    && U32At(r.bytes, 1) == |r.bytes| - HEADER_SIZE
    && r.size == |r.bytes|
  }

  /**
    The length field is not the payload length: it counts the header too,
    modulo 2^32. The returned size still covers the packet, by 5 bytes too
    many, exactly when nothing wrapped.
  */
  predicate LengthOverCounted(r: Outcome) {
    && r.Reply? && |r.bytes| >= HEADER_SIZE
    && U32At(r.bytes, 1) == Wrap(|r.bytes|)
    && U32At(r.bytes, 1) != |r.bytes| - HEADER_SIZE
    && r.size == HEADER_SIZE + Wrap(|r.bytes|)
    && (r.size >= |r.bytes| <==> |r.bytes| < TWO_TO_THE_32)
  }

  lemma StatusLength(kind: Byte, status: Byte)
    ensures LengthKept(Reply(RespStatus(kind, status), HEADER_SIZE + 1))
  {
    assert RespStatus(kind, status)[1..5] == U32Bytes(1);
  }

  lemma NumberLength(kind: Byte, v: U32)
    ensures LengthKept(Reply(RespNumber(kind, v), HEADER_SIZE + 5))
  {
    assert RespNumber(kind, v)[1..5] == U32Bytes(5);
  }

  lemma ListLength(kind: Byte, count: U32, rs: seq<Record>)
    ensures LengthOverCounted(ReplyList(kind, count, rs))
  {
    var bytes := RespList(kind, count, rs);
    assert bytes[1..5] == U32Bytes(Wrap(|bytes|));
  }

  /**
    The header promises the payload length. Every answer keeps that promise
    except the counted lists, which never do.
  */
  lemma LengthFieldExactly(st: Store, kind: Byte, payload: Str, order: seq<U32>)
    requires IsRequest(kind) && IsOrder(order, st.users.Keys)
    requires Acceptable(kind, payload)
    ensures var r := ReplyTo(st, kind, payload, order);
      if AnswersList(st, kind, payload) then LengthOverCounted(r) else LengthKept(r)
  {
    if kind == REQUEST_REGISTER {
      NumberLength(RESP_REGISTER, st.nextId);
    } else if kind == REQUEST_SEND {
      StatusLength(RESP_SEND, SendStatus(st, U32At(payload, 0), U32At(payload, 4)));
    } else {
      var id := U32At(payload, 0);
      if id !in st.users {
        StatusLength(if kind == REQUEST_USERS then RESP_USERS else RESP_RECV, 1);
      } else if kind == REQUEST_RECV {
        ListLength(RESP_RECV, Wrap(|st.users[id].msgQ|), ClipAll(st.users[id].msgQ));
      } else {
        CountIsRight(st.users, id, order);
        NumberLength(RESP_USERS, 0);
        ListLength(RESP_USERS, AnnouncedCount(st.users), Others(st.users, id, order));
      }
    }
  }

  /** The size `parse` returns; like the extent it needs no walk order. */
  ghost function ReplySize(st: Store, kind: Byte, payload: Str): nat
    requires IsRequest(kind)
  {
    if AnswersList(st, kind, payload) then HEADER_SIZE + Wrap(ReplyExtent(st, kind, payload))
    else ReplyExtent(st, kind, payload)
  }

  lemma SizeIsExact(st: Store, kind: Byte, payload: Str, order: seq<U32>)
    requires IsRequest(kind) && IsOrder(order, st.users.Keys)
    ensures match ReplyTo(st, kind, payload, order)
      case Aborted => true
      case Reply(bytes, size) => size == ReplySize(st, kind, payload)
  {
    ExtentIsExact(st, kind, payload, order);
    if Acceptable(kind, payload) {
      LengthFieldExactly(st, kind, payload, order);
    }
    hide ReplyTo, ReplyExtent, AnswersList;
  }

  // ---------------------------------------------------------------------
  // The server object

  datatype ParseResult = AssertionFailed | Size(n: nat)

  function ResultOf(r: Outcome): ParseResult {
    if r.Aborted? then AssertionFailed else Size(r.size)
  }

  /** A buffer after the answer was written over its front. */
  function Written(before: Str, r: Outcome): Str
    requires r.Reply? ==> |r.bytes| <= |before|
  {
    if r.Aborted? then before else r.bytes + before[|r.bytes|..]
  }

  class MccServer {
    const db: Database
    const tx: array<Byte>

    constructor (db: Database, tx: array<Byte>)
      ensures this.db == db && this.tx == tx
    {
      this.db, this.tx := db, tx;
    }

    method ParseRequestRegister(payload: Str) returns (r: ParseResult)
      requires tx.Length >= 10
      modifies db, tx
      ensures db.Value() == StoreAfter(old(db.Value()), REQUEST_REGISTER, payload)
      ensures var reply := ReplyTo(old(db.Value()), REQUEST_REGISTER, payload, []);
        r == ResultOf(reply) && tx[..] == Written(old(tx[..]), reply)
    {
      var id := db.Register(payload);
      PutNumber(RESP_REGISTER, id);
      return Size(HEADER_SIZE + 5);
    }

    /** The answer to a Register, or to a lone user's Users: header, value 0 and a number. */
    method PutNumber(kind: Byte, v: U32)
      requires tx.Length >= 10
      modifies tx
      ensures tx[..] == RespNumber(kind, v) + old(tx[10..])
    {
      var dest := Put(tx, 0, 0, Header(kind, 5));
      dest := Put(tx, 0, dest, [0]);
      dest := Put(tx, 0, dest, U32Bytes(v));
      assert tx[..] == tx[..dest] + tx[dest..];
    }

    /** A negative answer, or the answer to a Send: header and one status byte. */
    method PutStatus(kind: Byte, status: Byte)
      requires tx.Length >= 6
      modifies tx
      ensures tx[..] == RespStatus(kind, status) + old(tx[6..])
    {
      var dest := Put(tx, 0, 0, Header(kind, 1));
      dest := Put(tx, 0, dest, [status]);
      assert tx[..] == tx[..dest] + tx[dest..];
    }

    method ParseRequestUsers(payload: Str)
      returns (r: ParseResult, ghost order: seq<U32>)
      requires ReplyExtent(db.Value(), REQUEST_USERS, payload) <= tx.Length
      modifies tx
      ensures IsOrder(order, db.users.Keys)
      ensures ExtentFits(db.Value(), REQUEST_USERS, payload, order, tx.Length)
      ensures var reply := ReplyTo(db.Value(), REQUEST_USERS, payload, order);
        r == ResultOf(reply) && tx[..] == Written(old(tx[..]), reply)
    {
      hide RespNumber, RespStatus, RespList, EncodeRecords, TotalSize, Others, IsOrder, U32At, U32Bytes, Wrap;
      order := SomeOrder(db.users.Keys);
      ExtentIsExact(db.Value(), REQUEST_USERS, payload, order);
      if |payload| != 4 {
        return AssertionFailed, order;
      }
      var id := U32At(payload, 0);
      if !db.UserExists(id) {
        PutStatus(RESP_USERS, 1);
        return Size(HEADER_SIZE + 1), order;
      }
      var numUsers := Wrap(db.GetNumUsers() - 1);
      if numUsers == 0 {
        PutNumber(RESP_USERS, numUsers);
        return Size(HEADER_SIZE + 5), order;
      }
      r, order := PutListing(id, numUsers);
      ExtentIsExact(db.Value(), REQUEST_USERS, payload, order);
    }

    /** The non-empty listing: value, count, one entry per other user, and the header last. */
    method PutListing(id: U32, numUsers: U32) returns (r: ParseResult, ghost order: seq<U32>)
      requires db.UserExists(id)
      requires 10 + TotalSize(db.users, db.users.Keys - {id}) <= tx.Length
      modifies tx
      ensures IsOrder(order, db.users.Keys)
      ensures var reply := ReplyList(RESP_USERS, numUsers, Others(db.users, id, order));
        r == ResultOf(reply) && |reply.bytes| <= tx.Length && tx[..] == Written(old(tx[..]), reply)
    {
      hide ListSoFar, RespList, EncodeRecords, TotalSize, Wrap;
      assert Others(db.users, id, []) == [];
      ghost var before := tx[..];
      var dest: nat := StartList(tx, numUsers);
      var currPayloadLen := Wrap(Wrap(Wrap(HEADER_SIZE) + 1) + 4);
      dest, currPayloadLen, order := PutUsers(id, before, dest, currPayloadLen, numUsers);
      FinishList(tx, before, dest, RESP_USERS, currPayloadLen, numUsers, Others(db.users, id, order));
      return Size(HEADER_SIZE + currPayloadLen), order;
    }

    /** The walk over the users: one entry for everybody but the requester. */
    method PutUsers(id: U32, ghost before: Str, dest0: nat, len0: U32, ghost numUsers: U32)
      returns (dest: nat, len: U32, ghost order: seq<U32>)
      requires ListSoFar(tx[..], before, dest0, numUsers, []) && dest0 == len0 == 10
      requires 10 + TotalSize(db.users, db.users.Keys - {id}) <= tx.Length
      modifies tx
      ensures IsOrder(order, db.users.Keys)
      ensures ListSoFar(tx[..], before, dest, numUsers, Others(db.users, id, order))
      ensures len == Wrap(dest)
    {
      var users := db.users;
      assert Others(users, id, []) == [];
      WalkStarts(users, id);
      hide ListSoFar, EncodeRecord, TotalSize, Others, Walk, Wrap;
      dest, len := dest0, len0;
      var unvisited := users.Keys;
      order := [];
      while unvisited != {}
        invariant Walk(users, id, order, unvisited, dest, len)
        invariant ListSoFar(tx[..], before, dest, numUsers, Others(users, id, order))
      {
        var key :| key in unvisited;
        WalkStep(users, id, order, unvisited, dest, len, key);
        ghost var rs := Others(users, id, order);
        order := order + [key];
        unvisited := unvisited - {key};
        if key == id {
          continue;
        }
        var username := users[key].username;
        dest := PutElement(tx, before, dest, numUsers, rs, Record(key, username));
        len := Wrap(len as int + (4 + 4 + |username|));
      }
      WalkEnds(users, id, order, dest, len);
    }

    method ParseRequestSend(payload: Str) returns (r: ParseResult)
      requires ReplyExtent(db.Value(), REQUEST_SEND, payload) <= tx.Length
      modifies db`users, tx
      ensures db.Value() == StoreAfter(old(db.Value()), REQUEST_SEND, payload)
      ensures var reply := ReplyTo(old(db.Value()), REQUEST_SEND, payload, []);
        r == ResultOf(reply) && tx[..] == Written(old(tx[..]), reply)
    {
      if |payload| <= 8 {
        return AssertionFailed;
      }
      var msgLen := |payload| - 8;
      var cursor := 0;
      var sourceId := U32At(payload, cursor);
      cursor := cursor + 4;
      var targetId := U32At(payload, cursor);
      cursor := cursor + 4;
      var msg := payload[cursor..cursor + msgLen];
      assert msg == payload[8..];

      var respValue: Byte := 0;
      if !db.UserExists(sourceId) {
        respValue := 1;
      } else if !db.UserExists(targetId) {
        respValue := 2;
      } else {
        var _ := db.Queue(targetId, Record(sourceId, msg));
      }
      PutStatus(RESP_SEND, respValue);
      return Size(HEADER_SIZE + 1);
    }

    method ParseRequestRecv(payload: Str) returns (r: ParseResult)
      requires ReplyExtent(db.Value(), REQUEST_RECV, payload) <= tx.Length
      modifies db`users, tx
      ensures db.Value() == StoreAfter(old(db.Value()), REQUEST_RECV, payload)
      ensures var reply := ReplyTo(old(db.Value()), REQUEST_RECV, payload, []);
        r == ResultOf(reply) && (reply.Reply? ==> |reply.bytes| <= tx.Length) && tx[..] == Written(old(tx[..]), reply)
    {
      if |payload| != 4 {
        return AssertionFailed;
      }
      var id := U32At(payload, 0);
      if !db.UserExists(id) {
        PutStatus(RESP_RECV, 1);
        return Size(HEADER_SIZE + 1);
      }
      var u := db.Subscript(id);
      r := PutMessages(u.msgQ);
      db.Clear(id);
    }

    /** The positive answer to a Recv: value, count, one entry per message, and the header last. */
    method PutMessages(q: seq<Msg>) returns (r: ParseResult)
      requires 10 + |EncodeRecords(ClipAll(q))| <= tx.Length
      modifies tx
      ensures var reply := ReplyList(RESP_RECV, Wrap(|q|), ClipAll(q));
        r == ResultOf(reply) && tx[..] == Written(old(tx[..]), reply)
    {
      hide ListSoFar, EncodeRecord, EncodeRecords, RespList, Wrap, ClipAll;
      ghost var before := tx[..];
      var numMessages := Wrap(|q|);
      var dest: nat := StartList(tx, numMessages);
      var respPl := Wrap(Wrap(Wrap(HEADER_SIZE) + 1) + 4);
      assert ClipAll(q[..0]) == [];
      for i := 0 to |q|
        invariant ListSoFar(tx[..], before, dest, numMessages, ClipAll(q[..i]))
        invariant dest == 10 + |EncodeRecords(ClipAll(q[..i]))|
        invariant respPl == Wrap(dest)
      {
        var m := q[i];
        var msgLen := Wrap(|m.text|);
        ClipSnoc(q, i);
        EncodeSnoc(ClipAll(q[..i]), Clip(m));
        ClipRoom(q, i);
        WrapAddThrice(dest, 4, 4, msgLen);
        dest := PutElement(tx, before, dest, numMessages, ClipAll(q[..i]), Record(m.id, m.text[..msgLen]));
        respPl := Wrap(respPl as int + 4);
        respPl := Wrap(respPl as int + 4);
        respPl := Wrap(respPl as int + msgLen);
      }
      assert q[..|q|] == q;
      FinishList(tx, before, dest, RESP_RECV, respPl, numMessages, ClipAll(q));
      return Size(HEADER_SIZE + respPl);
    }

    /**
      One call handles one of the four requests: store, answer and buffer are
      exactly what the specification says for some walk order of the users, and
      nothing in the data buffer beyond the announced payload matters.
    */
    method Parse(data: array<Byte>) returns (r: ParseResult, ghost order: seq<U32>)
      requires data != tx && HoldsPacket(data[..]) && IsRequest(data[0])
      requires ReplyExtent(db.Value(), data[0], PayloadOf(data[..])) <= tx.Length
      modifies db, tx
      ensures IsOrder(order, old(db.users.Keys))
      ensures ExtentFits(old(db.Value()), data[0], PayloadOf(data[..]), order, tx.Length)
      ensures db.Value() == StoreAfter(old(db.Value()), data[0], PayloadOf(data[..]))
      ensures var reply := ReplyTo(old(db.Value()), data[0], PayloadOf(data[..]), order);
        r == ResultOf(reply) && tx[..] == Written(old(tx[..]), reply)
    {
      var len := U32At(data[..], 1);
      var payload := data[HEADER_SIZE..HEADER_SIZE + len];
      assert payload == PayloadOf(data[..]);
      order := SomeOrder(db.users.Keys);
      ExtentIsExact(db.Value(), data[0], payload, order);
      match data[0]
      case 0 => r := ParseRequestRegister(payload);
      case 1 => r, order := ParseRequestUsers(payload);
      case 2 => r := ParseRequestSend(payload);
      case _ => r := ParseRequestRecv(payload);
    }
  }
}
