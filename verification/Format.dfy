/**
  The bytes on the wire, position by position and in plain numbers, as the
  protocol's description gives them.
*/
module Format {
  import opened Common
  import opened Wire
  import opened Databases
  import opened Server

  /** Four bytes, least significant first. */
  predicate HasU32(s: Str, at: nat, v: nat) {
    && at + 4 <= |s|
    && s[at] == v % 0x100
    && s[at + 1] == v / 0x100 % 0x100
    && s[at + 2] == v / 0x1_0000 % 0x100
    && s[at + 3] == v / 0x100_0000 % 0x100
  }

  lemma U32Format(v: U32)
    ensures HasU32(U32Bytes(v), 0, v)
  {
    FourBytes(v);
    NestedDivision(v);
    hide LittleEndian;
  }

  lemma FourBytes(v: nat)
    ensures LittleEndian(v, 4) == [v % 256, v / 256 % 256, v / 256 / 256 % 256, v / 256 / 256 / 256 % 256]
  {
    var v1, v2, v3 := v / 256, v / 256 / 256, v / 256 / 256 / 256;
    assert LittleEndian(v3, 1) == [v3 % 256];
    assert LittleEndian(v2, 2) == [v2 % 256] + LittleEndian(v3, 1);
    assert LittleEndian(v1, 3) == [v1 % 256] + LittleEndian(v2, 2);
  }

  lemma NestedDivision(v: nat)
    ensures v / 256 / 256 == v / 0x1_0000 && v / 256 / 256 / 256 == v / 0x100_0000
  {
  }

  /** The same four bytes as part of a longer string. */
  lemma U32Inside(before: Str, v: U32, after: Str)
    ensures HasU32(before + U32Bytes(v) + after, |before|, v)
  {
    U32Format(v);
    hide U32Bytes;
    var s := before + U32Bytes(v) + after;
    forall i: nat | i < 4
      ensures s[|before| + i] == U32Bytes(v)[i]
    {
    }
    assert s[|before| + 0] == U32Bytes(v)[0];
  }

  /** A header: one type byte, then the length. */
  lemma HeaderFormat(kind: Byte, len: U32, body: Str)
    ensures var s := Header(kind, len) + body;
      |s| == 5 + |body| && s[0] == kind && HasU32(s, 1, len) && s[5..] == body
  {
    U32Inside([kind], len, body);
    hide U32Bytes;
    assert Header(kind, len) + body == [kind] + U32Bytes(len) + body;
  }

  /** A list element: id, then the text's length modulo 2^32, then the text. */
  lemma RecordFormat(r: Record)
    ensures var e := EncodeRecord(r);
      && |e| == 8 + |r.text|
      && HasU32(e, 0, r.id) && HasU32(e, 4, |r.text| % 0x1_0000_0000)
      && e[8..] == r.text
  {
    var size := Wrap(|r.text|);
    U32Inside([], r.id, U32Bytes(size) + r.text);
    U32Inside(U32Bytes(r.id), size, r.text);
    hide U32Bytes;
    assert EncodeRecord(r) == [] + U32Bytes(r.id) + (U32Bytes(size) + r.text);
  }

  /** The i-th element of a list stands right behind the ones before it. */
  lemma ListFormat(rs: seq<Record>, i: nat)
    requires i < |rs|
    ensures var s, at := EncodeRecords(rs), ListSize(rs[..i]);
      at + |EncodeRecord(rs[i])| <= |s| && s[at..at + |EncodeRecord(rs[i])|] == EncodeRecord(rs[i])
  {
    hide EncodeRecord, EncodeRecords, ListSize;
    EncodePrefix(rs, i + 1);
    EncodedSize(rs[..i]);
    assert rs[..i + 1] == rs[..i] + [rs[i]];
    EncodeSnoc(rs[..i], rs[i]);
    MiddleOfPrefix(EncodeRecords(rs), EncodeRecords(rs[..i]), EncodeRecord(rs[i]));
  }

  lemma MiddleOfPrefix(s: Str, a: Str, b: Str)
    requires a + b <= s
    ensures s[|a|..|a| + |b|] == b
  {
    assert s[..|a| + |b|] == a + b;
  }

  /** Every request of the client: type 0 to 3, the payload's length modulo 2^32, the payload. */
  lemma RequestFormat(req: Request)
    ensures var s := EncodeRequest(req);
      match req
      case Register(name) =>
        && |s| == 5 + |name| && s[0] == 0x00 && HasU32(s, 1, |name| % 0x1_0000_0000)
        && s[5..] == name
      case Users(id) =>
        && |s| == 9 && s[0] == 0x01 && HasU32(s, 1, 4)
        && HasU32(s, 5, id)
      case Send(src, target, msg) =>
        && |s| == 13 + |msg| && s[0] == 0x02 && HasU32(s, 1, (8 + |msg|) % 0x1_0000_0000)
        && HasU32(s, 5, src) && HasU32(s, 9, target) && s[13..] == msg
      case Recv(id) =>
        && |s| == 9 && s[0] == 0x03 && HasU32(s, 1, 4)
        && HasU32(s, 5, id)
  {
    match req
    case Register(name) => HeaderFormat(0, Wrap(|name|), name);
    case Users(id) => IdRequestFormat(1, id);
    case Send(src, target, msg) => SendRequestFormat(src, target, msg);
    case Recv(id) => IdRequestFormat(3, id);
  }

  lemma IdRequestFormat(kind: Byte, id: U32)
    ensures var s := Header(kind, 4) + U32Bytes(id);
      |s| == 9 && s[0] == kind && HasU32(s, 1, 4) && HasU32(s, 5, id)
  {
    hide U32Bytes, HasU32;
    HeaderFormat(kind, 4, U32Bytes(id));
    U32Inside(Header(kind, 4), id, []);
    assert Header(kind, 4) + U32Bytes(id) + [] == Header(kind, 4) + U32Bytes(id);
  }

  lemma SendRequestFormat(src: U32, target: U32, msg: Str)
    ensures var s := EncodeRequest(Send(src, target, msg));
      && |s| == 13 + |msg| && s[0] == 0x02 && HasU32(s, 1, (8 + |msg|) % 0x1_0000_0000)
      && HasU32(s, 5, src) && HasU32(s, 9, target) && s[13..] == msg
  {
    var req := Send(src, target, msg);
    var s, h := EncodeRequest(req), Header(Kind(req), Announced(req));
    HeaderFormat(Kind(req), Announced(req), Body(req));
    hide U32Bytes, HasU32, Header;
    U32Inside(h, src, U32Bytes(target) + msg);
    U32Inside(h + U32Bytes(src), target, msg);
    assert s == h + U32Bytes(src) + (U32Bytes(target) + msg);
    assert s == (h + U32Bytes(src) + U32Bytes(target)) + msg;
  }

  lemma StatusFormat(kind: Byte, status: Byte)
    ensures var s := RespStatus(kind, status);
      |s| == 6 && s[0] == kind && HasU32(s, 1, 1) && s[5] == status
  {
    HeaderFormat(kind, 1, [status]);
  }

  lemma NumberFormat(kind: Byte, v: U32)
    ensures var s := RespNumber(kind, v);
      |s| == 10 && s[0] == kind && HasU32(s, 1, 5) && s[5] == 0 && HasU32(s, 6, v) && s[10..] == []
  {
    HeaderFormat(kind, 5, [0] + U32Bytes(v));
    U32Inside(Header(kind, 5) + [0], v, []);
    hide U32Bytes, Header;
    assert RespNumber(kind, v) == Header(kind, 5) + ([0] + U32Bytes(v));
    assert RespNumber(kind, v) == Header(kind, 5) + [0] + U32Bytes(v) + [];
  }

  lemma ListAnswerFormat(kind: Byte, count: U32, rs: seq<Record>)
    ensures var s := RespList(kind, count, rs);
      && |s| == 10 + |EncodeRecords(rs)| && s[0] == kind && HasU32(s, 1, |s| % 0x1_0000_0000)
      && s[5] == 0 && HasU32(s, 6, count) && s[10..] == EncodeRecords(rs)
  {
    hide U32Bytes, Header, EncodeRecords, Wrap, HasU32;
    var len := Wrap(10 + |EncodeRecords(rs)|);
    var h, e := Header(kind, len), EncodeRecords(rs);
    HeaderFormat(kind, len, ListBody(count, rs));
    U32Inside(h + [0], count, e);
    var front := h + [0] + U32Bytes(count);
    assert RespList(kind, count, rs) == front + e;
    assert (front + e)[5] == ([0] + U32Bytes(count))[0];
    assert len == (10 + |e|) % 0x1_0000_0000 by {
      WrapIsModulo(10 + |e|);
    }
  }

  lemma WrapIsModulo(n: int)
    ensures Wrap(n) == n % 0x1_0000_0000
  {
  }

  /** What the answer to each request looks like, for any store, payload and walk. */
  ghost predicate AnswerFormat(st: Store, kind: Byte, payload: Str, order: seq<U32>, s: Str) {
    && |s| >= 6 && s[0] == 0xF0 + kind
    && (kind == 0 ==>
          |s| == 10 && HasU32(s, 1, 5) && s[5] == 0 && HasU32(s, 6, st.nextId))
    && (kind == 1 ==> forall id: U32 :: HasU32(payload, 0, id) ==>
          if id !in st.users then |s| == 6 && HasU32(s, 1, 1) && s[5] == 1
          else s[5] == 0 && HasU32(s, 6, |st.users| - 1) && (forall k :: k in order ==> k in st.users)
               && s[10..] == EncodeRecords(Others(st.users, id, order)))
    && (kind == 2 ==> forall src: U32, target: U32 :: HasU32(payload, 0, src) && HasU32(payload, 4, target) ==>
          |s| == 6 && HasU32(s, 1, 1)
          && s[5] == if src !in st.users then 1 else if target !in st.users then 2 else 0)
    && (kind == 3 ==> forall id: U32 :: HasU32(payload, 0, id) ==>
          if id !in st.users then |s| == 6 && HasU32(s, 1, 1) && s[5] == 1
          else s[5] == 0 && HasU32(s, 6, |st.users[id].msgQ| % 0x1_0000_0000)
               && s[10..] == EncodeRecords(ClipAll(st.users[id].msgQ)))
  }

  /** The four bytes determine the number. */
  lemma U32Unique(s: Str, at: nat, v: U32)
    requires HasU32(s, at, v)
    ensures U32At(s, at) == v
  {
    var w := U32At(s, at);
    U32Format(w);
    hide U32Bytes;
    assert U32Bytes(w)[0] == s[at] && U32Bytes(w)[1] == s[at + 1] && U32Bytes(w)[2] == s[at + 2]
      && U32Bytes(w)[3] == s[at + 3];
    SameDigits(v, w);
  }

  /** The remainders and the quotient of repeated division determine the number. */
  lemma SameDigits(v: U32, w: U32)
    requires v % 0x100 == w % 0x100 && v / 0x100 % 0x100 == w / 0x100 % 0x100
    requires v / 0x1_0000 % 0x100 == w / 0x1_0000 % 0x100 && v / 0x100_0000 % 0x100 == w / 0x100_0000 % 0x100
    ensures v == w
  {
    Quotients(v);
    Quotients(w);
  }

  lemma Quotients(v: U32)
    ensures v / 0x100_0000 % 0x100 == v / 0x100_0000
    ensures v / 0x1_0000 == 0x100 * (v / 0x100_0000) + v / 0x1_0000 % 0x100
    ensures v / 0x100 == 0x100 * (v / 0x1_0000) + v / 0x100 % 0x100
    ensures v == 0x100 * (v / 0x100) + v % 0x100
  {
  }

  /**
    Every answer the server gives: type 0xF0 to 0xF3, as the request's type is 0
    to 3; value 0, or 1 for an unknown requester, or 1 and 2 for an unknown
    sender and target; then the number or the counted list.
  */
  lemma ReplyFormat(st: Store, kind: Byte, payload: Str, order: seq<U32>)
    requires IsRequest(kind) && IsOrder(order, st.users.Keys)
    ensures ReplyTo(st, kind, payload, order).Reply? <==>
      (kind == 0 || (kind == 2 && |payload| > 8) || (kind != 2 && |payload| == 4))
    ensures ReplyTo(st, kind, payload, order).Reply? ==>
      AnswerFormat(st, kind, payload, order, ReplyTo(st, kind, payload, order).bytes)
  {
    hide RespNumber, RespStatus, RespList, EncodeRecords, Others, ClipAll, U32At, HasU32;
    if kind == 0 {
      NumberFormat(RESP_REGISTER, st.nextId);
    } else if kind == 1 && |payload| == 4 {
      UsersFormat(st, payload, order);
    } else if kind == 2 && |payload| > 8 {
      SendFormat(st, payload, order);
    } else if kind == 3 && |payload| == 4 {
      RecvFormat(st, payload, order);
    }
  }

  lemma UsersFormat(st: Store, payload: Str, order: seq<U32>)
    requires |payload| == 4 && IsOrder(order, st.users.Keys)
    ensures AnswerFormat(st, 1, payload, order, ReplyTo(st, 1, payload, order).bytes)
  {
    hide RespNumber, RespStatus, RespList, Others, U32At, HasU32;
    var s := ReplyTo(st, 1, payload, order).bytes;
    StatusFormat(RESP_USERS, 1);
    NumberFormat(RESP_USERS, 0);
    assert s[0] == 0xF1 && |s| >= 6 by {
      ListAnswerFormat(RESP_USERS, AnnouncedCount(st.users), Others(st.users, U32At(payload, 0), order));
    }
    forall id: U32 | HasU32(payload, 0, id)
      ensures if id !in st.users then |s| == 6 && HasU32(s, 1, 1) && s[5] == 1
          else s[5] == 0 && HasU32(s, 6, |st.users| - 1) && s[10..] == EncodeRecords(Others(st.users, id, order))
    {
      U32Unique(payload, 0, id);
      if id in st.users {
        CountIsRight(st.users, id, order);
        ListAnswerFormat(RESP_USERS, AnnouncedCount(st.users), Others(st.users, id, order));
        if AnnouncedCount(st.users) == 0 {
          assert Others(st.users, id, order) == [];
        }
      }
    }
  }

  lemma SendFormat(st: Store, payload: Str, order: seq<U32>)
    requires |payload| > 8 && IsOrder(order, st.users.Keys)
    ensures AnswerFormat(st, 2, payload, order, ReplyTo(st, 2, payload, order).bytes)
  {
    hide RespStatus, U32At, HasU32;
    var s := ReplyTo(st, 2, payload, order).bytes;
    StatusFormat(RESP_SEND, SendStatus(st, U32At(payload, 0), U32At(payload, 4)));
    forall src: U32, target: U32 | HasU32(payload, 0, src) && HasU32(payload, 4, target)
      ensures |s| == 6 && HasU32(s, 1, 1)
        && s[5] == if src !in st.users then 1 else if target !in st.users then 2 else 0
    {
      U32Unique(payload, 0, src);
      U32Unique(payload, 4, target);
    }
  }

  lemma RecvFormat(st: Store, payload: Str, order: seq<U32>)
    requires |payload| == 4 && IsOrder(order, st.users.Keys)
    ensures AnswerFormat(st, 3, payload, order, ReplyTo(st, 3, payload, order).bytes)
  {
    hide RespStatus, RespList, ClipAll, U32At, HasU32;
    var s := ReplyTo(st, 3, payload, order).bytes;
    StatusFormat(RESP_RECV, 1);
    var id := U32At(payload, 0);
    if id in st.users {
      var q := st.users[id].msgQ;
      ListAnswerFormat(RESP_RECV, Wrap(|q|), ClipAll(q));
    }
    forall id: U32 | HasU32(payload, 0, id)
      ensures if id !in st.users then |s| == 6 && HasU32(s, 1, 1) && s[5] == 1
          else s[5] == 0 && HasU32(s, 6, |st.users[id].msgQ| % 0x1_0000_0000)
               && s[10..] == EncodeRecords(ClipAll(st.users[id].msgQ))
    {
      U32Unique(payload, 0, id);
    }
  }
}
