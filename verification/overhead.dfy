/**
  The fallback branch of `tls_get_overhead`: the bytes one application-data
  record adds to its payload, from the protocol version, the bulk cipher,
  the cipher's block size and the MAC length. The block size and the MAC
  length come from engine lookups and are parameters here.
 */
module Overhead {
  import opened CTypes

  datatype Version = Ssl3 | Tls1_0 | Tls1_1 | Tls1_2 | Dtls0_9 | Dtls1_0 | Dtls1_2 | OtherVersion

  /** How a cipher frames a record: a stream cipher adds nothing of its
      own, a block cipher adds an IV and padding, an AEAD cipher an explicit
      nonce and a tag. */
  datatype CipherKind = StreamCipher | BlockCipher | AeadCipher

  /** The ciphers the fallback names, and `Unlisted` for any other, of the
      given kind. */
  datatype Cipher =
    | TripleDesCbc | Aes128Cbc | Aes256Cbc | Camellia128Cbc | Camellia256Cbc | Aes192Cbc | Camellia192Cbc
    | Aes128Gcm | Aes256Gcm
    | Unlisted(kind: CipherKind)

  predicate IsDatagram(v: Version) {
    v.Dtls0_9? || v.Dtls1_0? || v.Dtls1_2?
  }

  predicate IsCbc(c: Cipher) {
    c.TripleDesCbc? || c.Aes128Cbc? || c.Aes256Cbc? || c.Camellia128Cbc? || c.Camellia256Cbc?
    || c.Aes192Cbc? || c.Camellia192Cbc?
  }

  predicate IsGcm(c: Cipher) {
    c.Aes128Gcm? || c.Aes256Gcm?
  }

  predicate IsBlock(c: Cipher) {
    IsCbc(c) || c == Unlisted(BlockCipher)
  }

  predicate IsAead(c: Cipher) {
    IsGcm(c) || c == Unlisted(AeadCipher)
  }

  /** The fallback computation, with its `unsigned` accumulator. Unless the
      sum wraps, the record header and the MAC are always counted, and a
      cipher the switch does not name adds nothing else. */
  function FallbackOverhead(v: Version, c: Cipher, blockSize: uint32, macLen: uint32): (r: uint32)
    ensures blockSize < 0x1_0000 && macLen < 0x1_0000 ==> r >= RecordHeaderLen(v) + macLen
    ensures macLen < 0x1_0000 && c.Unlisted? ==> r == RecordHeaderLen(v) + macLen
  {
    var header: uint32 :=
      match v
      case Dtls0_9 | Dtls1_0 | Dtls1_2 => 13
      case _ => 5;
    var withCipher: uint32 :=
      match c
      case TripleDesCbc | Aes128Cbc | Aes256Cbc | Camellia128Cbc | Camellia256Cbc | Aes192Cbc | Camellia192Cbc =>
        AddU32(AddU32(header, blockSize), blockSize)  // max pad, then IV
      case Aes128Gcm | Aes256Gcm =>
        AddU32(AddU32(header, 8), blockSize)          // explicit nonce, then tag
      case Unlisted(_) => header;
    if macLen > 0 then AddU32(withCipher, macLen) else withCipher
  }

  // ---------------------------------------------------------------------
  // Reference: the bytes a record actually adds
  // ---------------------------------------------------------------------

  /** Record header: content type, version and length; a datagram record
      also carries a 2-byte epoch and a 6-byte sequence number. */
  function RecordHeaderLen(v: Version): nat {
    if IsDatagram(v) then 1 + 2 + 2 + 6 + 2 else 1 + 2 + 2
  }

  /** SSL 3.0 and TLS 1.0 chain the CBC IV from the previous record; later
      versions send one explicit IV block per record. */
  function ExplicitIvLen(v: Version, blockSize: nat): nat {
    if v.Ssl3? || v.Tls1_0? then 0 else blockSize
  }

  /** Payload plus MAC padded up to whole blocks with at least one padding
      byte (the padding-length byte), using the least padding allowed. */
  function PaddedLen(n: nat, blockSize: nat): nat
    requires blockSize > 0
  {
    (n / blockSize + 1) * blockSize
  }

  const GCM_NONCE_LEN: nat := 8
  const GCM_TAG_LEN: nat := 16

  /** The bytes a record carrying `plainLen` payload bytes adds to them.
      An AEAD cipher is taken to frame records as AES-GCM does in TLS 1.2:
      an 8-byte explicit nonce and a 16-byte tag, and no MAC. */
  function RecordExpansion(v: Version, c: Cipher, blockSize: nat, macLen: nat, plainLen: nat): nat
    requires IsBlock(c) ==> blockSize > 0
  {
    RecordHeaderLen(v) +
      (if IsBlock(c) then ExplicitIvLen(v, blockSize) + PaddedLen(plainLen + macLen, blockSize) - plainLen
       else if IsAead(c) then GCM_NONCE_LEN + GCM_TAG_LEN
       else macLen)
  }

  lemma PaddingBounds(n: nat, blockSize: nat)
    requires blockSize > 0
    ensures n < PaddedLen(n, blockSize) <= n + blockSize
    ensures n % blockSize == 0 ==> PaddedLen(n, blockSize) == n + blockSize
  {
    var q := n / blockSize;
    assert n == q * blockSize + n % blockSize;
    assert PaddedLen(n, blockSize) == q * blockSize + blockSize;
  }

  /** For the ciphers it names and for stream ciphers, the fallback never
      counts fewer bytes than a record adds, as long as block size and MAC
      length are small enough not to wrap the `unsigned` sum, and an AES-GCM
      block size is the 16-byte tag it stands for. */
  lemma FallbackCoversRecordExpansion(v: Version, c: Cipher, blockSize: uint32, macLen: uint32, plainLen: nat)
    requires !c.Unlisted? || c.kind == StreamCipher
    requires blockSize < 0x1_0000 && macLen < 0x1_0000
    requires IsCbc(c) ==> blockSize > 0
    requires IsGcm(c) ==> blockSize == GCM_TAG_LEN
    ensures RecordExpansion(v, c, blockSize, macLen, plainLen) <= FallbackOverhead(v, c, blockSize, macLen)
  {
    if IsCbc(c) {
      PaddingBounds(plainLen + macLen, blockSize);
    }
  }

  /** The bound is reached: with an explicit IV, a CBC record whose payload
      and MAC fill whole blocks needs exactly the fallback's count, and so
      do AES-GCM and stream records. */
  lemma FallbackIsTight(v: Version, c: Cipher, blockSize: uint32, macLen: uint32, plainLen: nat)
    requires blockSize < 0x1_0000 && macLen < 0x1_0000
    requires !c.Unlisted? || c.kind == StreamCipher
    requires IsCbc(c) ==> blockSize > 0 && !(v.Ssl3? || v.Tls1_0?) && (plainLen + macLen) % blockSize == 0
    requires IsGcm(c) ==> blockSize == GCM_TAG_LEN && macLen == 0
    ensures RecordExpansion(v, c, blockSize, macLen, plainLen) == FallbackOverhead(v, c, blockSize, macLen)
  {
    if IsCbc(c) {
      PaddingBounds(plainLen + macLen, blockSize);
    }
  }

  /** A datagram record costs exactly 8 bytes more than a stream record with
      the same cipher and MAC (epoch and sequence number). */
  lemma DatagramCostsEightMore(d: Version, s: Version, c: Cipher, blockSize: uint32, macLen: uint32)
    requires IsDatagram(d) && !IsDatagram(s)
    requires blockSize < 0x1_0000 && macLen < 0x1_0000
    ensures FallbackOverhead(d, c, blockSize, macLen) == FallbackOverhead(s, c, blockSize, macLen) + 8
  {
  }

  /** TLS with AES-128-CBC and a 20-byte MAC adds 5 + 16 + 16 + 20 = 57
      bytes; over DTLS, 65; TLS with AES-128-GCM and no MAC, 5 + 8 + 16 = 29. */
  lemma FallbackExamples()
    ensures FallbackOverhead(Tls1_2, Aes128Cbc, 16, 20) == 57
    ensures FallbackOverhead(Dtls1_0, Aes128Cbc, 16, 20) == 65
    ensures FallbackOverhead(Tls1_2, Aes128Gcm, 16, 0) == 29
  {
  }

  /** A block or AEAD cipher that the fallback does not name is counted as
      if it were a stream cipher, so the estimate falls short of every
      record it protects. */
  lemma FallbackUnderestimatesUnlisted(v: Version, kind: CipherKind, blockSize: uint32, macLen: uint32,
                                       plainLen: nat)
    requires kind != StreamCipher
    requires kind == BlockCipher ==> blockSize > 0
    requires blockSize < 0x1_0000 && macLen < 0x1_0000
    requires kind == AeadCipher ==> macLen < GCM_NONCE_LEN + GCM_TAG_LEN
    ensures FallbackOverhead(v, Unlisted(kind), blockSize, macLen)
            < RecordExpansion(v, Unlisted(kind), blockSize, macLen, plainLen)
  {
    if kind == BlockCipher {
      PaddingBounds(plainLen + macLen, blockSize);
    }
  }

  /** An unlisted AEAD cipher over TLS 1.2 with no MAC: the fallback counts
      the 5 header bytes only, while the record adds 29. */
  lemma FallbackUnlistedAeadExample()
    ensures FallbackOverhead(Tls1_2, Unlisted(AeadCipher), 16, 0) == 5
    ensures RecordExpansion(Tls1_2, Unlisted(AeadCipher), 16, 0, 100) == 29
  {
  }

  /** The fallback with an allowance for every kind of cipher: a block
      cipher it does not name is counted like the CBC ciphers it does, and
      an AEAD cipher it does not name like AES-GCM with a 16-byte tag. */
  function CorrectedOverhead(v: Version, c: Cipher, blockSize: uint32, macLen: uint32): (r: uint32)
    // the named ciphers and stream ciphers keep the fallback's count
    ensures !c.Unlisted? || c.kind == StreamCipher ==> r == FallbackOverhead(v, c, blockSize, macLen)
  {
    match c
    case Unlisted(BlockCipher) =>
      var withCipher := AddU32(AddU32(if IsDatagram(v) then 13 else 5, blockSize), blockSize);
      if macLen > 0 then AddU32(withCipher, macLen) else withCipher
    case Unlisted(AeadCipher) =>
      var withCipher := AddU32(AddU32(if IsDatagram(v) then 13 else 5, 8), 16);
      if macLen > 0 then AddU32(withCipher, macLen) else withCipher
    case _ => FallbackOverhead(v, c, blockSize, macLen)
  }

  /** The corrected count is never less than the bytes a record adds, for
      every cipher. */
  lemma CorrectedCoversRecordExpansion(v: Version, c: Cipher, blockSize: uint32, macLen: uint32, plainLen: nat)
    requires blockSize < 0x1_0000 && macLen < 0x1_0000
    requires IsBlock(c) ==> blockSize > 0
    requires IsGcm(c) ==> blockSize == GCM_TAG_LEN
    ensures RecordExpansion(v, c, blockSize, macLen, plainLen) <= CorrectedOverhead(v, c, blockSize, macLen)
  {
    if IsBlock(c) {
      PaddingBounds(plainLen + macLen, blockSize);
    }
    if !c.Unlisted? || c.kind == StreamCipher {
      FallbackCoversRecordExpansion(v, c, blockSize, macLen, plainLen);
    }
  }
}
