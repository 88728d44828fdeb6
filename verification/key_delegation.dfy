/**
  The client side of private-key delegation (`key_cb_common_func` and its
  sign/decrypt wrappers): the engine asks for a signature or a decryption,
  and the request is forwarded over a local stream socket to the process
  that holds the key.

  Request on the wire: one byte of key index, one byte of operation tag,
  then the operand bytes with no length prefix. Response: a 2-byte length in
  the host's byte order, then the result bytes.

  The socket calls are replaced by a `Custodian` value that says how each of
  them turns out; a `recv` that asks for `want` bytes returns at most `want`
  of the bytes the peer has delivered.
 */
module KeyDelegation {
  import opened CTypes
  import opened Engine
  import opened Wrappers

  const SIGN_OP: uint8 := 0x53     // 'S'
  const DECRYPT_OP: uint8 := 0x44  // 'D'

  /** The per-key data the engine passes back on every call: the index of
      the key and the address of the key process's socket. Whether a
      connection to that address succeeds is part of the `Custodian`. */
  datatype KeyRef = KeyRef(idx: uint32, address: string)

  function Min(a: nat, b: nat): nat {
    if a <= b then a else b
  }

  // ---------------------------------------------------------------------
  // Request
  // ---------------------------------------------------------------------

  /** The bytes handed to `writev`: the key index truncated to a byte, the
      operation tag, then the operand. */
  function EncodeRequest(idx: uint32, op: uint8, operand: seq<uint8>): (wire: seq<uint8>)
    ensures |wire| == 2 + |operand|
    // the index survives exactly when it fits a byte
    ensures wire[0] == idx % 0x100
    ensures wire[0] == idx <==> idx < 0x100
    ensures wire[1] == op && wire[2..] == operand
  {
    [idx % 0x100, op] + operand
  }

  datatype Request = Request(keyIndex: uint8, op: uint8, operand: seq<uint8>)

  /** How the receiving side splits a request: the header bytes, and
      everything after them as the operand. */
  function ParseRequest(wire: seq<uint8>): Option<Request> {
    if |wire| < 2 then None else Some(Request(wire[0], wire[1], wire[2..]))
  }

  lemma RequestRoundTrip(idx: uint32, op: uint8, operand: seq<uint8>)
    ensures ParseRequest(EncodeRequest(idx, op, operand)) == Some(Request(idx % 0x100, op, operand))
  {
    assert EncodeRequest(idx, op, operand)[2..] == operand;
  }

  lemma ParsedRequestReencodes(wire: seq<uint8>)
    requires ParseRequest(wire).Some?
    ensures var q := ParseRequest(wire).value;
            EncodeRequest(q.keyIndex, q.op, q.operand) == wire
  {
    assert [wire[0], wire[1]] + wire[2..] == wire;
  }

  // ---------------------------------------------------------------------
  // Response length field
  // ---------------------------------------------------------------------

  datatype ByteOrder = LittleEndian | BigEndian

  /** The `uint16_t` that two received bytes make on a host of the given
      byte order. */
  function HostUint16(order: ByteOrder, b0: uint8, b1: uint8): (n: uint16)
    // the first byte received is the low byte on a little-endian host and
    // the high byte on a big-endian one
    ensures n / 0x100 == (if order.BigEndian? then b0 else b1)
    ensures n % 0x100 == (if order.BigEndian? then b1 else b0)
  {
    match order
    case LittleEndian => b0 + 0x100 * b1
    case BigEndian => 0x100 * b0 + b1
  }

  /** The two bytes a `uint16_t` occupies in memory on such a host. */
  function HostBytes(order: ByteOrder, n: uint16): seq<uint8> {
    match order
    case LittleEndian => [n % 0x100, n / 0x100]
    case BigEndian => [n / 0x100, n % 0x100]
  }

  lemma LengthRoundTrip(order: ByteOrder, n: uint16)
    ensures |HostBytes(order, n)| == 2
    ensures HostUint16(order, HostBytes(order, n)[0], HostBytes(order, n)[1]) == n
  {
  }

  lemma LengthBytesRoundTrip(order: ByteOrder, b0: uint8, b1: uint8)
    ensures HostBytes(order, HostUint16(order, b0, b1)) == [b0, b1]
  {
  }

  // ---------------------------------------------------------------------
  // One round trip
  // ---------------------------------------------------------------------

  datatype ReadOutcome = ReadFailed | Delivered(bytes: seq<uint8>)
  datatype WriteOutcome = WriteFailed | Wrote(count: nat)

  /** How each socket operation of one round trip turns out. */
  datatype Custodian = Custodian(
    socketOk: bool,
    connectOk: bool,
    write: WriteOutcome,
    lengthRead: ReadOutcome,
    allocOk: bool,
    bodyRead: ReadOutcome)

  /** The bytes `recv(sd, buf, want, 0)` stores. */
  function Received(r: ReadOutcome, want: nat): seq<uint8> {
    match r
    case ReadFailed => []
    case Delivered(bytes) => bytes[..Min(|bytes|, want)]
  }

  /** What `recv(sd, buf, want, 0)` returns. */
  function RecvRet(r: ReadOutcome, want: nat): int {
    if r.ReadFailed? then -1 else |Received(r, want)|
  }

  /** Where the output datum's `data` pointer is left: null, pointing at
      memory that has been released again, or at a buffer holding bytes. */
  datatype OutData = Null | Released | Holds(bytes: seq<uint8>)

  /** The result handed back to the engine: the return code, the output
      datum's pointer and its `size` field (None while the function has not
      set it, so the caller's value stays) and the bytes that reached the
      socket. */
  datatype Exchange = Exchange(ret: int, data: OutData, size: Option<nat>, wire: seq<uint8>)

  /** The first read delivered the whole 2-byte length field. */
  predicate LengthFieldRead(env: Custodian) {
    env.lengthRead.Delivered? && |env.lengthRead.bytes| >= 2
  }

  /** The length the response announces. */
  function Announced(env: Custodian, order: ByteOrder): uint16
    requires LengthFieldRead(env)
  {
    HostUint16(order, env.lengthRead.bytes[0], env.lengthRead.bytes[1])
  }

  /** `key_cb_common_func`: one full round trip to the key process. */
  function KeyCbCommon(key: KeyRef, raw: seq<uint8>, op: uint8, order: ByteOrder, env: Custodian): (x: Exchange)
    ensures x.ret == 0 || x.ret == E_INTERNAL_ERROR
    // a buffer holding the result is handed back exactly when the call succeeds
    ensures x.ret == 0 <==> x.data.Holds?
    // success needs every step to succeed, a full length field and a non-empty body
    ensures x.ret == 0 <==>
              && env.socketOk && env.connectOk && env.write.Wrote?
              && LengthFieldRead(env) && env.allocOk
              && env.bodyRead.Delivered? && Announced(env, order) > 0 && |env.bodyRead.bytes| > 0
    // the output is exactly what the body read stored, at most the announced length
    ensures x.data.Holds? ==>
              && LengthFieldRead(env)
              && x.data.bytes == Received(env.bodyRead, Announced(env, order))
              && 0 < |x.data.bytes| <= Announced(env, order)
              && env.bodyRead.Delivered?
              && x.data.bytes == env.bodyRead.bytes[..|x.data.bytes|]
              && (|env.bodyRead.bytes| >= Announced(env, order) ==> |x.data.bytes| == Announced(env, order))
              && x.size == Some(|x.data.bytes|)
    // the size field is set once the length field has been read
    ensures x.size.Some? <==> env.socketOk && env.connectOk && env.write.Wrote? && LengthFieldRead(env)
    ensures x.size.Some? && x.ret != 0 ==> x.size == Some(Announced(env, order) as nat)
    // a failed body read releases the buffer but leaves the pointer to it in place
    ensures x.data == Released <==>
              && env.socketOk && env.connectOk && env.write.Wrote? && LengthFieldRead(env) && env.allocOk
              && x.ret != 0
    // what reaches the socket is the request, or as much of it as writev took
    ensures env.socketOk && env.connectOk && env.write.Wrote? ==>
              x.wire == EncodeRequest(key.idx, op, raw)[..Min(env.write.count, 2 + |raw|)]
    ensures !(env.socketOk && env.connectOk && env.write.Wrote?) ==> x.wire == []
  {
    if !env.socketOk then Exchange(E_INTERNAL_ERROR, Null, None, [])
    else if !env.connectOk then Exchange(E_INTERNAL_ERROR, Null, None, [])
    else
      match env.write
      case WriteFailed => Exchange(E_INTERNAL_ERROR, Null, None, [])
      case Wrote(n) =>
        var request := EncodeRequest(key.idx, op, raw);
        var wire := request[..Min(n, |request|)];
        if RecvRet(env.lengthRead, 2) < 2 then Exchange(E_INTERNAL_ERROR, Null, None, wire)
        else
          var header := Received(env.lengthRead, 2);
          var length := HostUint16(order, header[0], header[1]);
          if !env.allocOk then Exchange(E_INTERNAL_ERROR, Null, Some(length), wire)
          else if RecvRet(env.bodyRead, length) <= 0 then Exchange(E_INTERNAL_ERROR, Released, Some(length), wire)
          else
            var body := Received(env.bodyRead, length);
            Exchange(0, Holds(body), Some(|body|), wire)
  }

  /** Every socket operation succeeds and writev takes the whole request. */
  predicate Healthy(env: Custodian, raw: seq<uint8>) {
    env.socketOk && env.connectOk && env.write.Wrote? && env.write.count >= 2 + |raw| && env.allocOk
  }

  /** `key_cb_sign_func`. */
  function KeySign(key: KeyRef, raw: seq<uint8>, order: ByteOrder, env: Custodian): (x: Exchange)
    ensures x.ret == 0 || x.ret == E_INTERNAL_ERROR
    ensures x.ret == 0 <==> x.data.Holds?
    ensures Healthy(env, raw) ==> x.wire == [key.idx % 0x100, SIGN_OP] + raw
  {
    KeyCbCommon(key, raw, SIGN_OP, order, env)
  }

  /** `key_cb_decrypt_func`. */
  function KeyDecrypt(key: KeyRef, raw: seq<uint8>, order: ByteOrder, env: Custodian): (x: Exchange)
    ensures x.ret == 0 || x.ret == E_INTERNAL_ERROR
    ensures x.ret == 0 <==> x.data.Holds?
    ensures Healthy(env, raw) ==> x.wire == [key.idx % 0x100, DECRYPT_OP] + raw
  {
    KeyCbCommon(key, raw, DECRYPT_OP, order, env)
  }

  /** Sign and decrypt run the same round trip; only the tag byte differs. */
  lemma SignAndDecryptDifferOnlyInTag(key: KeyRef, raw: seq<uint8>, order: ByteOrder, env: Custodian)
    ensures KeySign(key, raw, order, env).ret == KeyDecrypt(key, raw, order, env).ret
    ensures KeySign(key, raw, order, env).data == KeyDecrypt(key, raw, order, env).data
    ensures KeySign(key, raw, order, env).size == KeyDecrypt(key, raw, order, env).size
    ensures |KeySign(key, raw, order, env).wire| == |KeyDecrypt(key, raw, order, env).wire|
    ensures forall k :: 0 <= k < |KeySign(key, raw, order, env).wire| && k != 1 ==>
              KeySign(key, raw, order, env).wire[k] == KeyDecrypt(key, raw, order, env).wire[k]
  {
  }

  /** A key process that answers with the length of its result in host byte
      order followed by the whole result gets that result back to the
      engine, whichever operation was asked for. */
  lemma {:induction false} ResponseRoundTrip(key: KeyRef, raw: seq<uint8>, op: uint8, order: ByteOrder,
                                              env: Custodian, result: seq<uint8>)
    requires Healthy(env, raw)
    requires 0 < |result| < 0x1_0000
    requires env.lengthRead == Delivered(HostBytes(order, |result|))
    requires env.bodyRead == Delivered(result)
    ensures KeyCbCommon(key, raw, op, order, env) == Exchange(0, Holds(result), Some(|result|), EncodeRequest(key.idx, op, raw))
  {
    LengthRoundTrip(order, |result|);
    var request := EncodeRequest(key.idx, op, raw);
    assert Received(env.lengthRead, 2) == HostBytes(order, |result|);
    assert request[..Min(env.write.count, |request|)] == request;
    assert Received(env.bodyRead, |result|) == result;
  }

  /** A length field that announces 5 bytes followed by only 3 body bytes
      is accepted, and those 3 bytes are handed back. */
  lemma ShortBodyIsAccepted(key: KeyRef)
    ensures var env := Custodian(true, true, Wrote(4), Delivered([5, 0]), true, Delivered([1, 2, 3]));
            KeyCbCommon(key, [7, 7], SIGN_OP, LittleEndian, env).ret == 0
            && KeyCbCommon(key, [7, 7], SIGN_OP, LittleEndian, env).data == Holds([1, 2, 3])
            && KeyCbCommon(key, [7, 7], SIGN_OP, LittleEndian, env).size == Some(3)
  {
    var env := Custodian(true, true, Wrote(4), Delivered([5, 0]), true, Delivered([1, 2, 3]));
    assert Received(env.lengthRead, 2) == [5, 0];
    assert Received(env.bodyRead, 5) == [1, 2, 3];
  }

  /** A response that announces zero bytes always fails: the body read asks
      for nothing and so returns 0. Once the request went out and the
      (empty) buffer was allocated, the caller is left a released pointer
      and a size of 0. */
  lemma ZeroLengthResponseFails(key: KeyRef, raw: seq<uint8>, op: uint8, order: ByteOrder, env: Custodian)
    requires LengthFieldRead(env) && Announced(env, order) == 0
    ensures KeyCbCommon(key, raw, op, order, env).ret == E_INTERNAL_ERROR
    ensures !KeyCbCommon(key, raw, op, order, env).data.Holds?
    ensures env.socketOk && env.connectOk && env.write.Wrote? && env.allocOk ==>
              KeyCbCommon(key, raw, op, order, env).data == Released
              && KeyCbCommon(key, raw, op, order, env).size == Some(0)
  {
  }

  /** A key process that announces a result and then closes the connection
      before sending it leaves the caller a non-null pointer to released
      memory together with the announced size. */
  lemma FailedBodyReadLeavesReleasedBuffer(key: KeyRef, raw: seq<uint8>, op: uint8, order: ByteOrder,
                                           env: Custodian, n: uint16)
    requires Healthy(env, raw)
    requires env.lengthRead == Delivered(HostBytes(order, n))
    requires env.bodyRead == ReadFailed || env.bodyRead == Delivered([])
    ensures KeyCbCommon(key, raw, op, order, env) == Exchange(E_INTERNAL_ERROR, Released, Some(n as nat),
                                                             EncodeRequest(key.idx, op, raw))
  {
    LengthRoundTrip(order, n);
    var request := EncodeRequest(key.idx, op, raw);
    assert Received(env.lengthRead, 2) == HostBytes(order, n);
    assert request[..Min(env.write.count, |request|)] == request;
  }
}
