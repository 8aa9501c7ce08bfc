/** Copying into a fixed-size byte buffer at a moving cursor. */
module Buffers {
  import opened Common
  import opened Wire

  /**
    Copies `src` to index `at` and returns the advanced cursor. `from` is where
    the bytes the caller keeps track of begin.
  */
  method Put(buf: array<Byte>, ghost from: nat, at: nat, src: Str) returns (next: nat)
    requires from <= at && at + |src| <= buf.Length
    modifies buf
    ensures next == at + |src|
    ensures buf[from..next] == old(buf[from..at]) + src
    ensures buf[..from] == old(buf[..from])
    ensures buf[next..] == old(buf[next..])
  {
    forall i | 0 <= i < |src| {
      buf[at + i] := src[i];
    }
    next := at + |src|;
  }

  // ---------------------------------------------------------------------
  // Counted lists: the header slot is left open until the end

  /** The buffer holds the payload of a list response up to the cursor and is untouched behind it. */
  ghost predicate ListSoFar(buf: Str, before: Str, dest: nat, count: U32, rs: seq<Record>) {
    && |buf| == |before|
    && dest == 10 + |EncodeRecords(rs)| <= |buf|
    && buf[HEADER_SIZE..dest] == ListBody(count, rs)
    && buf[dest..] == before[dest..]
  }

  /** Skips the header and copies the response value and the count. */
  method StartList(buf: array<Byte>, count: U32) returns (dest: nat)
    requires buf.Length >= 10
    modifies buf
    ensures ListSoFar(buf[..], old(buf[..]), dest, count, []) && dest == 10
  {
    dest := Put(buf, HEADER_SIZE, HEADER_SIZE, [0]);
    dest := Put(buf, HEADER_SIZE, dest, U32Bytes(count));
    assert buf[dest..] == old(buf[dest..]);
  }

  /** Copies one list element: id, length field and text, each at the advancing cursor. */
  method PutRecord(buf: array<Byte>, at: nat, r: Record) returns (next: nat)
    requires HEADER_SIZE <= at && at + |EncodeRecord(r)| <= buf.Length
    modifies buf
    ensures next == at + |EncodeRecord(r)|
    ensures buf[HEADER_SIZE..next] == old(buf[HEADER_SIZE..at]) + EncodeRecord(r)
    ensures buf[next..] == old(buf[next..])
  {
    next := Put(buf, HEADER_SIZE, at, U32Bytes(r.id));
    next := Put(buf, HEADER_SIZE, next, U32Bytes(Wrap(|r.text|)));
    next := Put(buf, HEADER_SIZE, next, r.text);
  }

  method PutElement(buf: array<Byte>, ghost before: Str, at: nat, ghost count: U32, ghost rs: seq<Record>, r: Record)
    returns (next: nat)
    requires ListSoFar(buf[..], before, at, count, rs)
    requires at + |EncodeRecord(r)| <= buf.Length
    modifies buf
    ensures ListSoFar(buf[..], before, next, count, rs + [r])
    ensures next == at + |EncodeRecord(r)|
  {
    hide U32Bytes, EncodeRecord, EncodeRecords, ListBody;
    next := PutRecord(buf, at, r);
    EncodeSnoc(rs, r);
    ListBodySnoc(count, rs, r);
    assert buf[..][next..] == old(buf[..])[at..][next - at..];
  }

  /** Copies the header into its slot, which completes the packet. */
  method FinishList(buf: array<Byte>, ghost before: Str, ghost dest: nat, kind: Byte, len: U32,
                    ghost count: U32, ghost rs: seq<Record>)
    requires ListSoFar(buf[..], before, dest, count, rs)
    requires len == Wrap(dest)
    modifies buf
    ensures buf[..] == RespList(kind, count, rs) + before[dest..]
    ensures dest == |RespList(kind, count, rs)|
  {
    PutHeader(buf, Header(kind, len), dest);
    assert buf[..] == buf[..dest] + buf[dest..];
  }

  /** Copies a header over the first bytes. */
  method PutHeader(buf: array<Byte>, header: Str, ghost end: nat)
    requires |header| == HEADER_SIZE && HEADER_SIZE <= end <= buf.Length
    modifies buf
    ensures buf[..end] == header + old(buf[HEADER_SIZE..end])
    ensures buf[end..] == old(buf[end..])
  {
    forall i | 0 <= i < |header| {
      buf[i] := header[i];
    }
  }
}
