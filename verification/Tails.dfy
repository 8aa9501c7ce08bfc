/** When the stale bytes behind an answer in the client's buffer have an influence. */
module Tails {
  import opened Common
  import opened Wire
  import opened Databases
  import opened Server
  import Client
  import opened Refinement

  /** What the client observes when these bytes follow the answer. */
  ghost function ObservedWith(st: Store, req: Request, order: seq<U32>, tail: Str): Option<Client.Observed>
    requires forall k :: k in order ==> k in st.users
  {
    Exchange(st, Event(req, order, [], tail)).1
  }

  ghost predicate TailIsIrrelevant(st: Store, req: Request, order: seq<U32>)
    requires forall k :: k in order ==> k in st.users
  {
    forall tail :: ObservedWith(st, req, order, tail) == ObservedWith(st, req, order, [])
  }

  /** The list a positive Users or Recv answer carries. */
  ghost function Carried(st: Store, req: Request, order: seq<U32>): seq<Record>
    requires forall k :: k in order ==> k in st.users
  {
    match req
    case Users(id) => if id in st.users then Others(st.users, id, order) else []
    case Recv(id) => Box(st, id)
    case _ => []
  }

  /** The answer outgrew its 32-bit length, so only its beginning was transmitted. */
  ghost predicate CutShort(st: Store, req: Request, order: seq<U32>)
    requires forall k :: k in order ==> k in st.users
  {
    10 + |EncodeRecords(Carried(st, req, order))| >= TWO_TO_THE_32
  }

  predicate NegativeRecv(st: Store, req: Request) {
    req.Recv? && req.id !in st.users
  }

  lemma RecvTails(st: Store, id: U32, order: seq<U32>)
    requires id in st.users && forall k :: k in order ==> k in st.users
    requires TextsFit(Box(st, id)) && |Box(st, id)| < TWO_TO_THE_32
    ensures TailIsIrrelevant(st, Recv(id), order) <==> !CutShort(st, Recv(id), order)
  {
    hide Exchange, Client.ObserveRecv, ReplyList, EncodeRecords, ClipAll;
    var q := Box(st, id);
    ClipAllIdentity(q);
    var r := ReplyList(RESP_RECV, |q|, q);
    forall tail
      ensures ObservedWith(st, Recv(id), order, tail) == Some(Client.ObserveRecv(Received(r.bytes, r.size, tail)))
    {
      RecvExchange(st, Event(Recv(id), order, [], tail));
    }
    if CutShort(st, Recv(id), order) {
      var rest := CutRecv(q);
      assert ObservedWith(st, Recv(id), order, rest) != ObservedWith(st, Recv(id), order, []);
    } else {
      forall tail
        ensures ObservedWith(st, Recv(id), order, tail) == Some(Client.Mail(false, q))
      {
        MailSeen(q, tail);
      }
    }
  }

  /** With the rest of the answer behind it the beginning is readable; without anything it is not. */
  lemma CutRecv(q: seq<Msg>) returns (rest: Str)
    requires TextsFit(q) && |q| < TWO_TO_THE_32 && 10 + |EncodeRecords(q)| >= TWO_TO_THE_32
    ensures var r := ReplyList(RESP_RECV, |q|, q);
      && Client.ObserveRecv(Received(r.bytes, r.size, rest)) == Client.Mail(false, q)
      && Client.ObserveRecv(Received(r.bytes, r.size, [])) != Client.Mail(false, q)
  {
    var r := ReplyList(RESP_RECV, |q|, q);
    WholeListReceived(RESP_RECV, |q|, q, []);
    TooMuchMail(q);
    rest := r.bytes[r.size..];
    WholeListReceived(RESP_RECV, |q|, q, rest);
    Client.RecvExactly(q, []);
    ClipAllIdentity(q);
    hide Client.ObserveRecv, RespList, ClipAll, Wrap, EncodeRecords;
    assert r.bytes[..r.size] + r.bytes[r.size..] == r.bytes == r.bytes + [];
  }

  lemma UsersTails(st: Store, id: U32, order: seq<U32>)
    requires id in st.users && IsOrder(order, st.users.Keys)
    requires TextsFit(Others(st.users, id, order))
    ensures TailIsIrrelevant(st, Users(id), order) <==> !CutShort(st, Users(id), order)
  {
    hide Exchange, Client.ObserveUsers, ReplyList, EncodeRecords, Others, AnnouncedCount, RespNumber;
    var rs := Others(st.users, id, order);
    CountIsRight(st.users, id, order);
    var r := ReplyList(RESP_USERS, |rs|, rs);
    forall tail
      ensures ObservedWith(st, Users(id), order, tail) == Some(Client.ObserveUsers(
        if |rs| == 0 then RespNumber(RESP_USERS, 0) + tail else Received(r.bytes, r.size, tail)))
      ensures !CutShort(st, Users(id), order) ==>
        ObservedWith(st, Users(id), order, tail) == Some(Client.Online(Client.NamesToIds(rs)))
    {
      UsersExchange(st, Event(Users(id), order, [], tail));
      ListingAgrees(rs, tail);
    }
    if CutShort(st, Users(id), order) {
      ListingAgrees(rs, []);
      NotEmpty(rs);
      var rest := CutUsers(rs);
      assert ObservedWith(st, Users(id), order, rest) != ObservedWith(st, Users(id), order, []);
    }
  }

  lemma NotEmpty(rs: seq<Record>)
    requires |EncodeRecords(rs)| > 0
    ensures rs != []
  {
  }

  lemma CutUsers(rs: seq<Record>) returns (rest: Str)
    requires TextsFit(rs) && |rs| < TWO_TO_THE_32 && 10 + |EncodeRecords(rs)| >= TWO_TO_THE_32
    ensures var r := ReplyList(RESP_USERS, |rs|, rs);
      Client.ObserveUsers(Received(r.bytes, r.size, rest)) == Client.Online(Client.NamesToIds(rs))
  {
    var r := ReplyList(RESP_USERS, |rs|, rs);
    WholeListReceived(RESP_USERS, |rs|, rs, []);
    rest := r.bytes[r.size..];
    WholeListReceived(RESP_USERS, |rs|, rs, rest);
    Client.UsersRoundTrip(rs, []);
    hide Client.ObserveUsers, RespList, Wrap, EncodeRecords;
    assert r.bytes[..r.size] + r.bytes[r.size..] == r.bytes == r.bytes + [];
  }

  lemma NegativeTails(st: Store, id: U32, order: seq<U32>)
    requires id !in st.users && forall k :: k in order ==> k in st.users
    ensures !TailIsIrrelevant(st, Recv(id), order)
  {
    hide Exchange, Client.ObserveRecv, RespStatus, LooksLike;
    var stale := U32Bytes(0);
    RecvExchange(st, Event(Recv(id), order, [], []));
    TooShort();
    NoRecords(stale);
    PhantomMessages(st, Event(Recv(id), order, [], stale), []);
    assert ObservedWith(st, Recv(id), order, stale) != ObservedWith(st, Recv(id), order, []);
  }

  lemma NoRecords(stale: Str)
    requires stale == U32Bytes(0)
    ensures LooksLike(stale, [])
  {
    assert stale[0..4] == stale;
  }

  lemma ShortAnswerTails(st: Store, req: Request, order: seq<U32>)
    requires forall k :: k in order ==> k in st.users
    requires req.Register? || req.Send? || (req.Users? && req.id !in st.users)
    ensures TailIsIrrelevant(st, req, order)
  {
    hide Exchange, Client.ObserveUsers, RespStatus, RespNumber;
    forall tail
      ensures ObservedWith(st, req, order, tail) == ObservedWith(st, req, order, [])
    {
      var ev, ev0 := Event(req, order, [], tail), Event(req, order, [], []);
      match req
      case Register(_) =>
        RegisterExchange(st, ev);
        RegisterExchange(st, ev0);
      case Send(_, _, _) =>
        SendExchange(st, ev);
        SendExchange(st, ev0);
      case _ =>
        UsersExchange(st, ev);
        UsersExchange(st, ev0);
        EmptySeen(tail);
        EmptySeen([]);
    }
  }

  /**
    In a store whose texts fit their length fields and with fewer than 2^32
    messages waiting, the stale bytes behind an answer have no influence on what
    the client sees if and only if the answer is neither a negative Recv answer
    nor cut short.
  */
  lemma TailExactly(st: Store, req: Request, order: seq<U32>)
    requires IsOrder(order, st.users.Keys)
    requires TextsFit(Carried(st, req, order)) && |Carried(st, req, order)| < TWO_TO_THE_32
    ensures TailIsIrrelevant(st, req, order) <==> !NegativeRecv(st, req) && !CutShort(st, req, order)
  {
    hide TailIsIrrelevant;
    match req
    case Users(id) =>
      if id in st.users { UsersTails(st, id, order); } else { ShortAnswerTails(st, req, order); }
    case Recv(id) =>
      if id in st.users { RecvTails(st, id, order); } else { NegativeTails(st, id, order); }
    case _ => ShortAnswerTails(st, req, order);
  }
}
