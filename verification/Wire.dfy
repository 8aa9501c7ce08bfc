/**
  The MCC packet formats as pure functions on byte strings: what each encoder
  writes, how each counted list is read back, and that reading undoes writing.
*/
module Wire {
  import opened Common

  function Header(kind: Byte, len: U32): (s: Str)
    ensures |s| == HEADER_SIZE
  {
    [kind] + U32Bytes(len)
  }

  // ---------------------------------------------------------------------
  // Requests, as the client writes them

  /** The bytes copied after the header. */
  function Body(req: Request): Str {
    match req
    case Register(name) => name
    case Users(id) => U32Bytes(id)
    case Send(src, target, msg) => U32Bytes(src) + U32Bytes(target) + msg
    case Recv(id) => U32Bytes(id)
  }

  /** The length field of the header: a 32-bit truncation, where the size is not fixed. */
  function Announced(req: Request): (len: U32)
    ensures len <= |Body(req)|
  {
    match req
    case Register(name) => Wrap(|name|)
    case Users(_) => REQ_USERS_PAYLOAD_LEN
    case Send(_, _, msg) => Wrap(REQ_SEND_MIN_PAYLOAD_LEN + |msg|)
    case Recv(_) => REQ_RECV_PAYLOAD_LEN
  }

  function EncodeRequest(req: Request): (s: Str)
    ensures |s| == HEADER_SIZE + |Body(req)|
  {
    Header(Kind(req), Announced(req)) + Body(req)
  }

  function Kind(req: Request): Byte {
    match req
    case Register(_) => REQUEST_REGISTER
    case Users(_) => REQUEST_USERS
    case Send(_, _, _) => REQUEST_SEND
    case Recv(_) => REQUEST_RECV
  }

  /** The payload the header announces: shorter than what was copied if the length wrapped. */
  function Payload(req: Request): (s: Str)
    ensures |s| == Announced(req)
  {
    Body(req)[..Announced(req)]
  }

  /** A request buffer holds a header and the payload bytes it announces. */
  predicate HoldsPacket(buf: Str) {
    |buf| >= HEADER_SIZE && |buf| >= HEADER_SIZE + U32At(buf, 1)
  }

  function PayloadOf(buf: Str): Str
    requires HoldsPacket(buf)
  {
    buf[HEADER_SIZE..HEADER_SIZE + U32At(buf, 1)]
  }

  lemma PacketRoundTrip(buf: Str, kind: Byte, len: U32, rest: Str)
    requires buf == Header(kind, len) + rest && len <= |rest|
    ensures HoldsPacket(buf) && buf[0] == kind && PayloadOf(buf) == rest[..len]
  {
    assert buf[1..5] == U32Bytes(len);
    assert U32At(buf, 1) == len;
  }

  /**
    Whatever follows the request in the server's buffer, the server finds the
    request's type and exactly the announced payload.
  */
  lemma RequestRoundTrip(req: Request, tail: Str)
    ensures HoldsPacket(EncodeRequest(req) + tail)
    ensures (EncodeRequest(req) + tail)[0] == Kind(req)
    ensures PayloadOf(EncodeRequest(req) + tail) == Payload(req)
  {
    var buf := EncodeRequest(req) + tail;
    var body := Body(req);
    var len := Announced(req);
    assert buf == Header(Kind(req), len) + (body + tail);
    PacketRoundTrip(buf, Kind(req), len, body + tail);
    SliceOfAppend(body, tail, 0, len);
  }

  // ---------------------------------------------------------------------
  // Counted lists

  function EncodeRecord(r: Record): (s: Str)
    ensures |s| == 8 + |r.text|
  {
    U32Bytes(r.id) + U32Bytes(Wrap(|r.text|)) + r.text
  }

  /** The room a list takes: 8 bytes and the text for each element. */
  function ListSize(rs: seq<Record>): nat {
    if rs == [] then 0 else ListSize(rs[..|rs| - 1]) + 8 + |rs[|rs| - 1].text|
  }

  function EncodeRecords(rs: seq<Record>): (s: Str)
    ensures |s| >= 8 * |rs|
  {
    if rs == [] then [] else EncodeRecords(rs[..|rs| - 1]) + EncodeRecord(rs[|rs| - 1])
  }

  lemma {:induction false} EncodedSize(rs: seq<Record>)
    ensures |EncodeRecords(rs)| == ListSize(rs)
  {
    if rs != [] {
      EncodedSize(rs[..|rs| - 1]);
    }
  }

  lemma EncodeSnoc(rs: seq<Record>, r: Record)
    ensures EncodeRecords(rs + [r]) == EncodeRecords(rs) + EncodeRecord(r)
  {
    assert (rs + [r])[..|rs|] == rs;
  }

  datatype Parsed = Parsed(records: seq<Record>, next: nat)

  /** Reads one record at the cursor; None when a read would leave the buffer. */
  function DecodeNext(buf: Str, p: Parsed): (r: Option<Parsed>)
    ensures r.Some? ==> |r.value.records| == |p.records| + 1 && r.value.next <= |buf|
  {
    if |buf| < p.next + 8 then None else
    var end := p.next + 8 + U32At(buf, p.next + 4);
    if |buf| < end then None else
    Some(Parsed(p.records + [Record(U32At(buf, p.next), buf[p.next + 8..end])], end))
  }

  /** Reads `n` records from index `pos` on. */
  function DecodeRecords(buf: Str, pos: nat, n: nat): (r: Option<Parsed>)
    ensures r.Some? ==> |r.value.records| == n
    ensures r.Some? && pos <= |buf| ==> r.value.next <= |buf|
  {
    if n == 0 then Some(Parsed([], pos)) else
    var p := DecodeRecords(buf, pos, n - 1);
    if p.None? then None else DecodeNext(buf, p.value)
  }

  predicate TextsFit(rs: seq<Record>) {
    forall i :: 0 <= i < |rs| ==> |rs[i].text| < TWO_TO_THE_32
  }

  /** The slice of a buffer that holds `a + b` splits into one that holds `a` and one that holds `b`. */
  lemma SplitSlice(buf: Str, pos: nat, a: Str, b: Str)
    requires pos + |a| + |b| <= |buf|
    requires buf[pos..pos + |a| + |b|] == a + b
    ensures buf[pos..pos + |a|] == a
    ensures buf[pos + |a|..pos + |a| + |b|] == b
  {
    var whole := buf[pos..pos + |a| + |b|];
    assert buf[pos..pos + |a|] == whole[..|a|];
    assert buf[pos + |a|..pos + |a| + |b|] == whole[|a|..];
  }

  lemma SliceBehind(head: Str, buf: Str, i: nat, j: nat)
    requires i <= j <= |buf|
    ensures (head + buf)[|head| + i..|head| + j] == buf[i..j]
  {
  }

  lemma U32Behind(head: Str, buf: Str, i: nat)
    requires i + 4 <= |buf|
    ensures U32At(head + buf, |head| + i) == U32At(buf, i)
  {
    SliceBehind(head, buf, i, i + 4);
  }

  lemma SliceOfSlice(buf: Str, i: nat, n: nat, m: nat)
    requires i + n <= |buf| && m <= n
    ensures buf[i..i + m] == buf[i..i + n][..m]
  {
  }

  lemma JoinSlices(buf: Str, i: nat, j: nat)
    requires i <= j <= |buf|
    ensures buf == buf[..i] + buf[i..j] + buf[j..]
  {
  }

  lemma SliceOfAppend(buf: Str, tail: Str, i: nat, j: nat)
    requires i <= j <= |buf|
    ensures (buf + tail)[i..j] == buf[i..j]
  {
  }

  lemma DecodeNextOfEncoded(buf: Str, p: Parsed, r: Record)
    requires |r.text| < TWO_TO_THE_32
    requires p.next + |EncodeRecord(r)| <= |buf|
    requires buf[p.next..p.next + |EncodeRecord(r)|] == EncodeRecord(r)
    ensures DecodeNext(buf, p) == Some(Parsed(p.records + [r], p.next + |EncodeRecord(r)|))
  {
    var head, size := U32Bytes(r.id), U32Bytes(|r.text|);
    assert EncodeRecord(r) == head + (size + r.text);
    hide U32Bytes, EncodeRecord;
    SplitSlice(buf, p.next, head, size + r.text);
    SplitSlice(buf, p.next + 4, size, r.text);
  }

  /**
    The decode loop reads back the list the encode loop wrote, wherever it
    stands in the buffer and whatever follows it, and stops exactly at its end.
  */
  lemma {:induction false} RecordsRoundTrip(buf: Str, pos: nat, rs: seq<Record>)
    requires TextsFit(rs)
    requires pos + |EncodeRecords(rs)| <= |buf|
    requires buf[pos..pos + |EncodeRecords(rs)|] == EncodeRecords(rs)
    ensures DecodeRecords(buf, pos, |rs|) == Some(Parsed(rs, pos + |EncodeRecords(rs)|))
  {
    hide U32Bytes, EncodeRecord, DecodeNext;
    if rs != [] {
      var init, last := rs[..|rs| - 1], rs[|rs| - 1];
      SplitSlice(buf, pos, EncodeRecords(init), EncodeRecord(last));
      RecordsRoundTrip(buf, pos, init);
      DecodeNextOfEncoded(buf, Parsed(init, pos + |EncodeRecords(init)|), last);
      assert init + [last] == rs;
    }
  }

  lemma {:induction false} DecodePrefix(rx: Str, pos: nat, i: nat, n: nat)
    requires i <= n && DecodeRecords(rx, pos, n).Some?
    ensures DecodeRecords(rx, pos, i).Some?
    decreases n
  {
    if i < n {
      DecodePrefix(rx, pos, i, n - 1);
    }
  }

  /** The next record lies inside the buffer. */
  predicate HasNext(rx: Str, p: Parsed) {
    p.next + 8 <= |rx| && p.next + 8 + U32At(rx, p.next + 4) <= |rx|
  }

  /** If the whole list lies inside the buffer, the next record does, and decoding goes on behind it. */
  lemma DecodeStep(rx: Str, pos: nat, i: nat, n: nat, p: Parsed)
    requires i < n && DecodeRecords(rx, pos, n).Some? && DecodeRecords(rx, pos, i) == Some(p)
    ensures HasNext(rx, p)
    ensures DecodeRecords(rx, pos, i + 1) == DecodeNext(rx, p)
  {
    DecodePrefix(rx, pos, i + 1, n);
    hide U32Bytes, U32At;
  }

  lemma DecodeNextExtends(buf: Str, tail: Str, p: Parsed)
    requires DecodeNext(buf, p).Some?
    ensures DecodeNext(buf + tail, p) == DecodeNext(buf, p)
  {
    hide U32Bytes;
    SliceOfAppend(buf, tail, p.next, p.next + 4);
    SliceOfAppend(buf, tail, p.next + 4, p.next + 8);
    SliceOfAppend(buf, tail, p.next + 8, p.next + 8 + U32At(buf, p.next + 4));
  }

  /** A list that decodes inside a buffer decodes the same in any longer one. */
  lemma {:induction false} DecodeExtends(buf: Str, tail: Str, pos: nat, n: nat)
    requires DecodeRecords(buf, pos, n).Some?
    ensures DecodeRecords(buf + tail, pos, n) == DecodeRecords(buf, pos, n)
  {
    hide DecodeNext;
    if n > 0 {
      DecodeExtends(buf, tail, pos, n - 1);
      DecodeNextExtends(buf, tail, DecodeRecords(buf, pos, n - 1).value);
    }
  }

  /** Encoding a prefix of a list gives a prefix of its encoding. */
  lemma {:induction false} EncodePrefix(rs: seq<Record>, n: nat)
    requires n <= |rs|
    ensures EncodeRecords(rs[..n]) <= EncodeRecords(rs)
  {
    if n < |rs| {
      EncodePrefix(rs[..|rs| - 1], n);
      assert rs[..|rs| - 1][..n] == rs[..n];
    } else {
      assert rs[..n] == rs;
    }
  }

  // ---------------------------------------------------------------------
  // Responses, as the server writes them

  /** A positive answer with one number: the id given out, or a user count of 0. */
  function RespNumber(kind: Byte, v: U32): (s: Str)
    ensures |s| == 10
  {
    Header(kind, 5) + [0] + U32Bytes(v)
  }

  /** Send responses, and the negative Users and Recv responses: one status byte. */
  function RespStatus(kind: Byte, status: Byte): (s: Str)
    ensures |s| == 6
  {
    Header(kind, 1) + [status]
  }

  /** The payload of a positive response with a list: value 0, count, elements. */
  function ListBody(count: U32, rs: seq<Record>): (s: Str)
    ensures |s| == 5 + |EncodeRecords(rs)|
  {
    [0] + U32Bytes(count) + EncodeRecords(rs)
  }

  lemma ListBodySnoc(count: U32, rs: seq<Record>, r: Record)
    ensures ListBody(count, rs + [r]) == ListBody(count, rs) + EncodeRecord(r)
  {
    EncodeSnoc(rs, r);
  }

  /**
    A positive response with a counted list. The source starts its payload
    counter at the header size, so the length field is 5 more than the payload.
  */
  function RespList(kind: Byte, count: U32, rs: seq<Record>): (s: Str)
    ensures |s| == 10 + |EncodeRecords(rs)|
  {
    Header(kind, Wrap(HEADER_SIZE + 5 + |EncodeRecords(rs)|)) + ListBody(count, rs)
  }

  /** A message as `parseRequestRecv` copies it: only as many bytes as its length field says. */
  function Clip(m: Msg): Record {
    Record(m.id, m.text[..Wrap(|m.text|)])
  }

  function ClipAll(q: seq<Msg>): (rs: seq<Record>)
    ensures |rs| == |q|
    ensures forall i :: 0 <= i < |q| ==> rs[i] == Clip(q[i])
    ensures TextsFit(rs)
  {
    seq(|q|, i requires 0 <= i < |q| => Clip(q[i]))
  }

  /** Clipping changes nothing exactly when every text fits its length field. */
  lemma ClipAllIdentity(q: seq<Msg>)
    ensures ClipAll(q) == q <==> TextsFit(q)
  {
    if TextsFit(q) {
      assert forall i :: 0 <= i < |q| ==> Clip(q[i]) == q[i];
    }
  }

  lemma ClipSnoc(q: seq<Msg>, i: nat)
    requires i < |q|
    ensures ClipAll(q[..i + 1]) == ClipAll(q[..i]) + [Clip(q[i])]
  {
  }

  /** The room the first elements and one more take is no more than the whole list takes. */
  lemma ClipRoom(q: seq<Msg>, i: nat)
    requires i < |q|
    ensures |EncodeRecords(ClipAll(q[..i]))| + |EncodeRecord(Clip(q[i]))| <= |EncodeRecords(ClipAll(q))|
  {
    ClipSnoc(q, i);
    EncodeSnoc(ClipAll(q[..i]), Clip(q[i]));
    EncodePrefix(ClipAll(q), i + 1);
    assert ClipAll(q)[..i + 1] == ClipAll(q[..i + 1]);
  }
}
