/**
  Types and constants shared by both ends of the protocol: bytes, 32-bit
  unsigned integers and their little-endian image, messages and packet types.
*/
module Common {
  const TWO_TO_THE_32 := 0x1_0000_0000

  type Byte = x: int | 0 <= x < 256
  type U32 = x: int | 0 <= x < 0x1_0000_0000

  /** A C++ `string`: a sequence of bytes, not of characters. */
  type Str = seq<Byte>

  datatype Option<+T> = None | Some(value: T)

  /** An element of a counted list on the wire: an id and a string. */
  datatype Record = Record(id: U32, text: Str)

  /** A queued message: the record's id is the sender. */
  type Msg = Record

  datatype UserMetadata = UserMetadata(username: Str, msgQ: seq<Msg>)

  /** The requests a client can encode. */
  datatype Request =
    | Register(name: Str)
    | Users(id: U32)
    | Send(src: U32, target: U32, msg: Str)
    | Recv(id: U32)

  const REQUEST_REGISTER: Byte := 0
  const REQUEST_USERS: Byte := 1
  const REQUEST_SEND: Byte := 2
  const REQUEST_RECV: Byte := 3
  const RESP_REGISTER: Byte := 0xF0
  const RESP_USERS: Byte := 0xF1
  const RESP_SEND: Byte := 0xF2
  const RESP_RECV: Byte := 0xF3

  const STATUS_SUCCESS: Byte := 0
  const STATUS_ERR_SRC_ID: Byte := 1
  const STATUS_ERR_TARGET_ID: Byte := 2

  /** `sizeof(Header)`: one type byte and a packed 4-byte length. */
  const HEADER_SIZE := 5

  const REQ_USERS_PAYLOAD_LEN: U32 := 4
  const REQ_SEND_MIN_PAYLOAD_LEN: U32 := 8
  const REQ_RECV_PAYLOAD_LEN: U32 := 4

  /** Conversion of a wider or negative value to `uint32_t`. */
  function Wrap(n: int): (w: U32)
    ensures 0 <= n < TWO_TO_THE_32 ==> w == n
    ensures 0 <= n ==> w <= n
    ensures TWO_TO_THE_32 <= n ==> w <= n - TWO_TO_THE_32
  {
    n % TWO_TO_THE_32
  }

  /** Truncating each addition is the same as truncating the exact sum. */
  lemma WrapAdd(a: int, b: int)
    ensures Wrap(Wrap(a) + b) == Wrap(a + b)
  {
  }

  lemma WrapAddThrice(a: int, b: int, c: int, d: int)
    ensures Wrap(Wrap(Wrap(Wrap(a) + b) + c) + d) == Wrap(a + b + c + d)
  {
    WrapAdd(a, b);
    WrapAdd(a + b, c);
    WrapAdd(a + b + c, d);
  }

  // ---------------------------------------------------------------------
  // Little-endian integers

  function Pow256(n: nat): (p: nat)
    ensures p > 0
  {
    if n == 0 then 1 else 256 * Pow256(n - 1)
  }

  function LittleEndian(v: nat, n: nat): (s: Str)
    ensures |s| == n
    decreases n, v
  {
    if n == 0 then [] else [v % 256] + LittleEndian(v / 256, n - 1)
  }

  function FromLittleEndian(s: Str): (v: nat)
    ensures v < Pow256(|s|)
  {
    if s == [] then 0 else s[0] + 256 * FromLittleEndian(s[1..])
  }

  lemma {:induction false} LittleEndianRoundTrip(v: nat, n: nat)
    requires v < Pow256(n)
    ensures FromLittleEndian(LittleEndian(v, n)) == v
  {
    if n > 0 {
      LittleEndianRoundTrip(v / 256, n - 1);
      assert LittleEndian(v, n)[1..] == LittleEndian(v / 256, n - 1);
    }
  }

  lemma {:induction false} FromLittleEndianRoundTrip(s: Str)
    ensures LittleEndian(FromLittleEndian(s), |s|) == s
  {
    if s != [] {
      FromLittleEndianRoundTrip(s[1..]);
      LowByte(s[0], FromLittleEndian(s[1..]));
      assert s == [s[0]] + s[1..];
    }
  }

  lemma LowByte(b: Byte, high: nat)
    ensures (b + 256 * high) % 256 == b && (b + 256 * high) / 256 == high
  {
  }

  lemma Pow256Of4()
    ensures Pow256(4) == TWO_TO_THE_32
  {
    assert Pow256(1) == 256;
    assert Pow256(2) == 0x1_0000;
    assert Pow256(3) == 0x100_0000;
  }

  /** The four bytes `memcpy` copies out of a `uint32_t`. */
  function U32Bytes(v: U32): (s: Str)
    ensures |s| == 4 && FromLittleEndian(s) == v
  {
    Pow256Of4();
    LittleEndianRoundTrip(v, 4);
    LittleEndian(v, 4)
  }

  /** The `uint32_t` that starts at index `at` of a buffer. */
  function U32At(buf: Str, at: nat): (v: U32)
    requires at + 4 <= |buf|
    ensures U32Bytes(v) == buf[at..at + 4]
  {
    Pow256Of4();
    FromLittleEndianRoundTrip(buf[at..at + 4]);
    FromLittleEndian(buf[at..at + 4])
  }
}
