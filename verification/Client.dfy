/**
  The client end: what each response handler reads out of the receive buffer,
  as a function of the buffer's bytes, and the class that encodes requests into
  its send buffer and decodes responses in place.
*/
module Client {
  import opened Common
  import opened Wire
  import opened Buffers

  /** What a response handler finds. OutOfBounds: a read would leave the receive buffer. */
  datatype Observed =
    | OutOfBounds
    | Refused
    | Registered(id: U32)
    | Online(names: map<Str, U32>)
    | Status(value: Byte)
    | Mail(negative: bool, msgs: seq<Msg>)

  /** The cache a list of users leaves behind: a later entry overwrites an earlier one of the same name. */
  function NamesToIds(rs: seq<Record>): map<Str, U32> {
    if rs == [] then map[] else
    var last := rs[|rs| - 1];
    NamesToIds(rs[..|rs| - 1])[last.text := last.id]
  }

  function ObserveRegister(rx: Str): Observed {
    if |rx| < HEADER_SIZE then OutOfBounds else
    if rx[0] != RESP_REGISTER then Refused else
    if |rx| < 6 then OutOfBounds else
    if rx[5] != 0 then Refused else
    if |rx| < 10 then OutOfBounds else
    Registered(U32At(rx, 6))
  }

  function ObserveUsers(rx: Str): Observed {
    if |rx| < HEADER_SIZE then OutOfBounds else
    if rx[0] != RESP_USERS then Refused else
    if |rx| < 6 then OutOfBounds else
    if rx[5] != 0 then Refused else
    if |rx| < 10 then OutOfBounds else
    var p := DecodeRecords(rx, 10, U32At(rx, 6));
    if p.None? then OutOfBounds else Online(NamesToIds(p.value.records))
  }

  function ObserveSend(rx: Str): Observed {
    if |rx| < HEADER_SIZE then OutOfBounds else
    if rx[0] != RESP_SEND then Refused else
    if |rx| < 6 then OutOfBounds else
    Status(rx[5])
  }

  /** A negative value is only reported: the handler goes on to read a count and messages. */
  function ObserveRecv(rx: Str): Observed {
    if |rx| < HEADER_SIZE then OutOfBounds else
    if rx[0] != RESP_RECV then Refused else
    if |rx| < 10 then OutOfBounds else
    var p := DecodeRecords(rx, 10, U32At(rx, 6));
    if p.None? then OutOfBounds else Mail(rx[5] > 0, p.value.records)
  }

  /** The handler that goes with the request. */
  function Observe(req: Request, rx: Str): Observed {
    match req
    case Register(_) => ObserveRegister(rx)
    case Users(_) => ObserveUsers(rx)
    case Send(_, _, _) => ObserveSend(rx)
    case Recv(_) => ObserveRecv(rx)
  }

  // ---------------------------------------------------------------------
  // Reading back what a server writes

  lemma HeadOfNumber(kind: Byte, v: U32, tail: Str)
    ensures var rx := RespNumber(kind, v) + tail;
      |rx| >= 10 && rx[0] == kind && rx[5] == 0 && U32At(rx, 6) == v
  {
    var rx := RespNumber(kind, v) + tail;
    assert rx[6..10] == U32Bytes(v);
  }

  lemma HeadOfList(kind: Byte, count: U32, rs: seq<Record>, tail: Str)
    ensures var rx := RespList(kind, count, rs) + tail;
      && |rx| >= 10 + |EncodeRecords(rs)|
      && rx[0] == kind && rx[5] == 0 && U32At(rx, 6) == count
      && rx[10..10 + |EncodeRecords(rs)|] == EncodeRecords(rs)
  {
    var h := Header(kind, Wrap(HEADER_SIZE + 5 + |EncodeRecords(rs)|));
    var rx := RespList(kind, count, rs) + tail;
    assert rx == h + [0] + U32Bytes(count) + EncodeRecords(rs) + tail;
    assert rx[6..10] == U32Bytes(count);
  }

  /** A list response decodes to its list, whatever the buffer held behind it, and no byte behind it is read. */
  lemma ListRoundTrip(kind: Byte, rs: seq<Record>, tail: Str)
    requires TextsFit(rs) && |rs| < TWO_TO_THE_32
    ensures var rx := RespList(kind, |rs|, rs) + tail;
      && rx[0] == kind && rx[5] == 0 && U32At(rx, 6) == |rs|
      && DecodeRecords(rx, 10, |rs|) == Some(Parsed(rs, |RespList(kind, |rs|, rs)|))
  {
    HeadOfList(kind, |rs|, rs, tail);
    RecordsRoundTrip(RespList(kind, |rs|, rs) + tail, 10, rs);
  }

  /**
    The Recv response for a queue of any length whatever: as many messages as
    the 32-bit count says, each cut to what its 32-bit length says.
  */
  lemma RecvRoundTrip(q: seq<Msg>, tail: Str)
    ensures ObserveRecv(RespList(RESP_RECV, Wrap(|q|), ClipAll(q)) + tail) == Mail(false, ClipAll(q)[..Wrap(|q|)])
  {
    hide U32Bytes, EncodeRecord, EncodeRecords, DecodeNext, DecodeRecords, RespList, ClipAll, Wrap;
    var rs, n := ClipAll(q), Wrap(|q|);
    var rx := RespList(RESP_RECV, n, rs) + tail;
    HeadOfList(RESP_RECV, n, rs, tail);
    EncodePrefix(rs, n);
    var e := EncodeRecords(rs[..n]);
    SliceOfSlice(rx, 10, |EncodeRecords(rs)|, |e|);
    RecordsRoundTrip(rx, 10, rs[..n]);
  }

  /** The client gets the queue itself exactly if nothing in it overflowed a 32-bit field. */
  lemma RecvExactly(q: seq<Msg>, tail: Str)
    ensures ObserveRecv(RespList(RESP_RECV, Wrap(|q|), ClipAll(q)) + tail) == Mail(false, q)
      <==> |q| < TWO_TO_THE_32 && TextsFit(q)
  {
    RecvRoundTrip(q, tail);
    ClipAllIdentity(q);
    assert |ClipAll(q)[..Wrap(|q|)]| == Wrap(|q|);
    if |q| < TWO_TO_THE_32 {
      assert ClipAll(q)[..|q|] == ClipAll(q);
    }
  }

  lemma UsersRoundTrip(rs: seq<Record>, tail: Str)
    requires TextsFit(rs) && |rs| < TWO_TO_THE_32
    ensures ObserveUsers(RespList(RESP_USERS, |rs|, rs) + tail) == Online(NamesToIds(rs))
  {
    ListRoundTrip(RESP_USERS, rs, tail);
  }

  // ---------------------------------------------------------------------
  // The cache of names

  /** The names are those of the list, each with the id of an entry of that name. */
  lemma {:induction false} NamesListed(rs: seq<Record>)
    ensures forall r :: r in rs ==> r.text in NamesToIds(rs)
    ensures forall name :: name in NamesToIds(rs) ==> Record(NamesToIds(rs)[name], name) in rs
  {
    if rs != [] {
      var init, last := rs[..|rs| - 1], rs[|rs| - 1];
      assert rs == init + [last];
      NamesListed(init);
    }
  }

  /** Of several entries with one name the last one's id stays. */
  lemma {:induction false} LastIdWins(rs: seq<Record>, i: nat)
    requires i < |rs| && forall j :: i < j < |rs| ==> rs[j].text != rs[i].text
    ensures rs[i].text in NamesToIds(rs) && NamesToIds(rs)[rs[i].text] == rs[i].id
  {
    var n := |rs| - 1;
    if i < n {
      assert rs[n].text != rs[i].text;
      LastIdWins(rs[..n], i);
    }
  }

  ghost predicate DistinctTexts(rs: seq<Record>) {
    forall i, j :: 0 <= i < j < |rs| ==> rs[i].text != rs[j].text
  }

  /** With distinct names the cache has exactly the listed pairs, so it does not depend on their order. */
  lemma CacheIsExact(rs: seq<Record>)
    requires DistinctTexts(rs)
    ensures forall id, name :: Record(id, name) in rs <==> name in NamesToIds(rs) && NamesToIds(rs)[name] == id
  {
    NamesListed(rs);
    forall i | 0 <= i < |rs|
      ensures NamesToIds(rs)[rs[i].text] == rs[i].id
    {
      LastIdWins(rs, i);
    }
  }

  lemma CacheIgnoresOrder(rs: seq<Record>, rs': seq<Record>)
    requires DistinctTexts(rs) && DistinctTexts(rs')
    requires forall r :: r in rs <==> r in rs'
    ensures NamesToIds(rs) == NamesToIds(rs')
  {
    CacheIsExact(rs);
    CacheIsExact(rs');
    var m, m' := NamesToIds(rs), NamesToIds(rs');
    forall name | name in m
      ensures name in m' && m'[name] == m[name]
    {
      assert Record(m[name], name) in rs';
    }
    forall name | name in m'
      ensures name in m
    {
      assert Record(m'[name], name) in rs;
    }
  }

  // ---------------------------------------------------------------------
  // The client object

  lemma NamesSnoc(rs: seq<Record>, r: Record)
    ensures NamesToIds(rs + [r]) == NamesToIds(rs)[r.text := r.id]
  {
    assert (rs + [r])[..|rs|] == rs;
  }

  lemma AppendSnoc<T>(a: seq<T>, b: seq<T>, x: T)
    ensures a + b + [x] == a + (b + [x])
  {
  }

  class MccClient {
    const tx: array<Byte>
    const rx: array<Byte>

    constructor (tx: array<Byte>, rx: array<Byte>)
      ensures this.tx == tx && this.rx == rx
    {
      this.tx, this.rx := tx, rx;
    }

    method EncodeRequestRegister(username: Str) returns (size: nat)
      requires HEADER_SIZE + |username| <= tx.Length
      modifies tx
      ensures size == |EncodeRequest(Register(username))|
      ensures tx[..] == EncodeRequest(Register(username)) + old(tx[size..])
    {
      var dest := Put(tx, 0, 0, Header(REQUEST_REGISTER, Wrap(|username|)));
      dest := Put(tx, 0, dest, username);
      assert tx[..] == tx[..dest] + tx[dest..];
      return HEADER_SIZE + |username|;
    }

    method EncodeRequestUsers(id: U32) returns (size: nat)
      requires HEADER_SIZE + 4 <= tx.Length
      modifies tx
      ensures size == |EncodeRequest(Users(id))|
      ensures tx[..] == EncodeRequest(Users(id)) + old(tx[size..])
    {
      var dest := Put(tx, 0, 0, Header(REQUEST_USERS, REQ_USERS_PAYLOAD_LEN));
      dest := Put(tx, 0, dest, U32Bytes(id));
      assert tx[..] == tx[..dest] + tx[dest..];
      return HEADER_SIZE + REQ_USERS_PAYLOAD_LEN;
    }

    method EncodeRequestSend(src: U32, target: U32, msg: Str) returns (size: nat)
      requires HEADER_SIZE + 8 + |msg| <= tx.Length
      modifies tx
      ensures size == |EncodeRequest(Send(src, target, msg))|
      ensures tx[..] == EncodeRequest(Send(src, target, msg)) + old(tx[size..])
    {
      hide U32Bytes, Header, Wrap;
      ghost var req := Send(src, target, msg);
      var dest := Put(tx, 0, 0, Header(REQUEST_SEND, Wrap(REQ_SEND_MIN_PAYLOAD_LEN + |msg|)));
      assert tx[..HEADER_SIZE] == Header(Kind(req), Announced(req));
      dest := PutSendBody(src, target, msg);
      JoinSlices(tx[..], HEADER_SIZE, dest);
      return HEADER_SIZE + REQ_SEND_MIN_PAYLOAD_LEN + |msg|;
    }

    /** Both ids and the message, behind the header. */
    method PutSendBody(src: U32, target: U32, msg: Str) returns (dest: nat)
      requires HEADER_SIZE + 8 + |msg| <= tx.Length
      modifies tx
      ensures dest == HEADER_SIZE + 8 + |msg|
      ensures tx[..HEADER_SIZE] == old(tx[..HEADER_SIZE])
      ensures tx[HEADER_SIZE..dest] == Body(Send(src, target, msg))
      ensures tx[dest..] == old(tx[dest..])
    {
      dest := Put(tx, HEADER_SIZE, HEADER_SIZE, U32Bytes(src));
      dest := Put(tx, HEADER_SIZE, dest, U32Bytes(target));
      dest := Put(tx, HEADER_SIZE, dest, msg);
    }

    method EncodeRequestRecv(id: U32) returns (size: nat)
      requires HEADER_SIZE + 4 <= tx.Length
      modifies tx
      ensures size == |EncodeRequest(Recv(id))|
      ensures tx[..] == EncodeRequest(Recv(id)) + old(tx[size..])
    {
      var dest := Put(tx, 0, 0, Header(REQUEST_RECV, REQ_RECV_PAYLOAD_LEN));
      dest := Put(tx, 0, dest, U32Bytes(id));
      assert tx[..] == tx[..dest] + tx[dest..];
      return HEADER_SIZE + REQ_RECV_PAYLOAD_LEN;
    }

    method HandleRespRegister(id0: U32) returns (ok: bool, id: U32)
      requires !ObserveRegister(rx[..]).OutOfBounds?
      ensures ok <==> ObserveRegister(rx[..]).Registered?
      ensures id == if ok then ObserveRegister(rx[..]).id else id0
      ensures rx.Length >= 5 && (ok <==> rx[0] == 0xF0 && rx.Length >= 6 && rx[5] == 0)
      ensures if ok then rx.Length >= 10 && U32Bytes(id) == rx[6..10] else id == id0
    {
      var buf := rx[..];
      if buf[0] != RESP_REGISTER {
        return false, id0;
      }
      var data := HEADER_SIZE;
      var respValue := buf[data];
      data := data + 1;
      if respValue != 0 {
        return false, id0;
      }
      return true, U32At(buf, data);
    }

    /** Clears the cache it is given and fills it from the list; leaves it alone when it returns false. */
    method HandleRespUsers(names0: map<Str, U32>) returns (ok: bool, nameToId: map<Str, U32>)
      requires !ObserveUsers(rx[..]).OutOfBounds?
      ensures ok <==> ObserveUsers(rx[..]).Online?
      ensures nameToId == if ok then ObserveUsers(rx[..]).names else names0
      ensures rx.Length >= 5 && (ok <==> rx[0] == 0xF1 && rx.Length >= 6 && rx[5] == 0)
      ensures !ok ==> nameToId == names0
    {
      var buf := rx[..];
      if buf[0] != RESP_USERS {
        return false, names0;
      }
      var payload: nat := HEADER_SIZE;
      var respValue := buf[payload];
      payload := payload + 1;
      if respValue != 0 {
        return false, names0;
      }
      var numUsers := U32At(buf, payload);
      payload := payload + 4;
      nameToId := ReadNames(buf, payload, numUsers);
      return true, nameToId;
    }

    /** Id, length and text of one list element, each read at the advancing cursor. */
    static method ReadRecord(buf: Str, at: nat, ghost p: Parsed) returns (id: U32, text: Str, next: nat)
      requires HasNext(buf, p) && at == p.next
      ensures DecodeNext(buf, p) == Some(Parsed(p.records + [Record(id, text)], next))
    {
      var payload := at;
      id := U32At(buf, payload);
      payload := payload + 4;
      var size := U32At(buf, payload);
      payload := payload + 4;
      text := buf[payload..payload + size];
      next := payload + size;
    }

    /** The decode loop of the Users response, filling an emptied cache. */
    static method ReadNames(buf: Str, start: nat, numUsers: U32) returns (nameToId: map<Str, U32>)
      requires DecodeRecords(buf, start, numUsers).Some?
      ensures nameToId == NamesToIds(DecodeRecords(buf, start, numUsers).value.records)
    {
      var payload: nat := start;
      ghost var p := Parsed([], start);
      assert DecodeRecords(buf, start, 0) == Some(p) && NamesToIds([]) == map[];
      hide DecodeRecords, DecodeNext, HasNext, NamesToIds;
      nameToId := map[];
      for i := 0 to numUsers
        invariant DecodeRecords(buf, start, i) == Some(p) && payload == p.next
        invariant nameToId == NamesToIds(p.records)
      {
        DecodeStep(buf, start, i, numUsers, p);
        var currUserId, username;
        currUserId, username, payload := ReadRecord(buf, payload, p);
        NamesSnoc(p.records, Record(currUserId, username));
        nameToId := nameToId[username := currUserId];
        p := DecodeNext(buf, p).value;
      }
    }

    method HandleRespSend(stat0: Byte) returns (ok: bool, stat: Byte)
      requires !ObserveSend(rx[..]).OutOfBounds?
      ensures ok <==> ObserveSend(rx[..]).Status?
      ensures stat == if ok then ObserveSend(rx[..]).value else stat0
      ensures rx.Length >= 5 && (ok <==> rx[0] == 0xF2)
      ensures if ok then rx.Length >= 6 && stat == rx[5] else stat == stat0
    {
      var buf := rx[..];
      if buf[0] != RESP_SEND {
        return false, stat0;
      }
      return true, buf[HEADER_SIZE];
    }

    /** The decode loop of the Recv response, appending to the caller's messages. */
    static method ReadMessages(buf: Str, start: nat, numMessages: U32, msgs0: seq<Msg>) returns (msgs: seq<Msg>)
      requires DecodeRecords(buf, start, numMessages).Some?
      ensures msgs == msgs0 + DecodeRecords(buf, start, numMessages).value.records
    {
      var payload: nat := start;
      ghost var p := Parsed([], start);
      assert DecodeRecords(buf, start, 0) == Some(p) && msgs0 + [] == msgs0;
      hide DecodeRecords, DecodeNext, HasNext;
      msgs := msgs0;
      for i := 0 to numMessages
        invariant DecodeRecords(buf, start, i) == Some(p) && payload == p.next
        invariant msgs == msgs0 + p.records
      {
        DecodeStep(buf, start, i, numMessages, p);
        var id, msg;
        id, msg, payload := ReadRecord(buf, payload, p);
        AppendSnoc(msgs0, p.records, Record(id, msg));
        msgs := msgs + [Record(id, msg)];
        p := DecodeNext(buf, p).value;
      }
    }

    /** Appends the decoded messages; `logged` says that a negative value was reported on the way. */
    method HandleRespRecv(msgs0: seq<Msg>) returns (ok: bool, logged: bool, msgs: seq<Msg>)
      requires !ObserveRecv(rx[..]).OutOfBounds?
      ensures ok <==> ObserveRecv(rx[..]).Mail?
      ensures ok ==> logged == ObserveRecv(rx[..]).negative
      ensures msgs == if ok then msgs0 + ObserveRecv(rx[..]).msgs else msgs0
      ensures rx.Length >= 5 && (ok <==> rx[0] == 0xF3)
      ensures if ok then msgs0 <= msgs && rx.Length >= 6 && (logged <==> rx[5] > 0) else msgs == msgs0
    {
      var buf := rx[..];
      if buf[0] != RESP_RECV {
        return false, false, msgs0;
      }
      var payload: nat := HEADER_SIZE;
      var respVal := buf[payload];
      payload := payload + 1;
      logged := respVal > 0;
      var numMessages := U32At(buf, payload);
      payload := payload + 4;
      msgs := ReadMessages(buf, payload, numMessages, msgs0);
      return true, logged, msgs;
    }
  }
}
