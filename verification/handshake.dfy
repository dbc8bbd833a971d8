/** The three message codecs of the PSK challenge-response handshake:
    Hello (server challenge), Connect (client identity and proof) and
    ConnectResult (server verdict with a short message). */
module Proto {
  import opened Wire

  // ---------------------------------------------------------------------------
  // Constants
  // ---------------------------------------------------------------------------

  /** The 6-byte tag every Hello starts with: 'u' 't' 't' followed by three zero bytes. */
  const HelloMagic: seq<Byte> := [0x75, 0x74, 0x74, 0, 0, 0]

  /** Size of the server's challenge. */
  const ChallengeSize: nat := 16

  /** Size of an HMAC-SHA512 digest. */
  const DigestSize: nat := 64

  /** Domain-separation tag in front of the challenge: "cha". */
  const ChaTag: seq<Byte> := [0x63, 0x68, 0x61]

  /** Domain-separation tag in front of the ACL key: "acl#". */
  const AclTag: seq<Byte> := [0x61, 0x63, 0x6c, 0x23]

  /** Capacity of ConnectResult's message storage. */
  const MessageCapacity: nat := 31

  /** HMAC-SHA512 as a deterministic function from (key, message) to a 64-byte digest.
      Its internals are not modelled; callers pass the function in. */
  type MacFunction = f: (seq<Byte>, seq<Byte>) -> seq<Byte>
    | forall key, msg :: |f(key, msg)| == DigestSize
    witness (key: seq<Byte>, msg: seq<Byte>) => seq(64, _ => 0)

  // ---------------------------------------------------------------------------
  // Hello
  // ---------------------------------------------------------------------------

  /** The wire-level meaning of a Hello buffer: the challenge it carries, or
      `InvalidPacket` when it is too short or does not start with the magic tag.
      Bytes after the first 22 are ignored. */
  function ParseHello(buf: seq<Byte>): (r: Result<seq<Byte>>)
    ensures r.Ok? <==> |buf| >= |HelloMagic| + ChallengeSize && buf[..|HelloMagic|] == HelloMagic
    ensures r.Ok? ==> |r.value| == ChallengeSize && buf[..|HelloMagic| + ChallengeSize] == HelloMagic + r.value
    ensures r.Err? ==> r.error == InvalidPacket
  {
    if |buf| < |HelloMagic| + ChallengeSize || buf[..|HelloMagic|] != HelloMagic then
      Err(InvalidPacket)
    else
      Ok(buf[|HelloMagic|..|HelloMagic| + ChallengeSize])
  }

  class Hello {
    /** The fixed 16-byte challenge. */
    var challenge: array<Byte>

    ghost predicate Valid()
      reads this
    {
      challenge.Length == ChallengeSize
    }

    /** A Hello with the all-zero challenge (Go's zero value). */
    constructor ()
      ensures Valid() && fresh(challenge)
      ensures challenge[..] == seq(ChallengeSize, _ => 0)
    {
      challenge := new Byte[ChallengeSize](_ => 0);
    }

    /** Encoded size of a Hello: the magic tag plus the challenge, always 22 bytes. */
    function Len(): (n: nat)
      reads this
      requires Valid()
      ensures n == 22
    {
      |HelloMagic| + challenge.Length
    }

    /** The wire form: magic tag, then the challenge, exactly `Len()` bytes. */
    function Encode(): (buf: seq<Byte>)
      reads this, challenge
      requires Valid()
      ensures |buf| == Len()
      ensures buf[..|HelloMagic|] == HelloMagic && buf[|HelloMagic|..] == challenge[..]
    {
      HelloMagic + challenge[..]
    }

    /** Copies the challenge out of `buf`; on failure the challenge is untouched. */
    method Decode(buf: seq<Byte>) returns (outcome: Outcome)
      requires Valid()
      modifies challenge
      ensures Valid()
      ensures ParseHello(buf).Ok? ==> outcome == Pass && challenge[..] == ParseHello(buf).value
      ensures ParseHello(buf).Err? ==> outcome == Fail(InvalidPacket) && challenge[..] == old(challenge[..])
    {
      if |buf| < Len() || buf[..|HelloMagic|] != HelloMagic {
        return Fail(InvalidPacket);
      }
      CopyPrefix(challenge, buf[|HelloMagic|..|HelloMagic| + ChallengeSize]);
      outcome := Pass;
    }

    /** Replaces the challenge with 16 fresh random bytes; the randomness source is
        outside the model, so the bytes it produced are passed in. */
    method Refresh(random: seq<Byte>)
      requires Valid() && |random| == ChallengeSize
      modifies challenge
      ensures Valid() && challenge[..] == random
    {
      CopyPrefix(challenge, random);
    }
  }

  /** Decoding what a Hello encodes gives back its challenge, whatever follows it. */
  lemma HelloRoundTrip(h: Hello, rest: seq<Byte>)
    requires h.Valid()
    ensures ParseHello(h.Encode() + rest) == Ok(h.challenge[..])
  {
    var buf := h.Encode() + rest;
    assert buf[..|HelloMagic|] == HelloMagic;
    assert buf[|HelloMagic|..|HelloMagic| + ChallengeSize] == h.challenge[..];
  }

  // ---------------------------------------------------------------------------
  // Connect
  // ---------------------------------------------------------------------------

  /** The bytes the proof is computed over: "cha", the challenge, "acl#", the ACL key. */
  function ProofInput(challenge: seq<Byte>, aclKey: seq<Byte>): (msg: seq<Byte>)
    ensures |msg| == |ChaTag| + |challenge| + |AclTag| + |aclKey|
    ensures msg[..3] == ChaTag && msg[3..3 + |challenge|] == challenge
    ensures msg[3 + |challenge|..7 + |challenge|] == AclTag && msg[7 + |challenge|..] == aclKey
  {
    ChaTag + challenge + AclTag + aclKey
  }

  /** With challenges of one length (Hello always carries 16 bytes), distinct
      (challenge, ACL key) pairs give distinct proof inputs: a proof accepted for
      another pair under the same PSK can only come from a MAC collision. */
  lemma {:induction false} ProofInputInjective(c1: seq<Byte>, k1: seq<Byte>, c2: seq<Byte>, k2: seq<Byte>)
    requires |c1| == |c2|
    ensures ProofInput(c1, k1) == ProofInput(c2, k2) <==> c1 == c2 && k1 == k2
  {
    if ProofInput(c1, k1) == ProofInput(c2, k2) {
      var m := ProofInput(c1, k1);
      assert c1 == m[3..3 + |c1|] == c2;
      assert k1 == m[7 + |c1|..] == k2;
    }
  }

  /** Without the fixed challenge length the tags do not separate the fields:
      challenge "acl#" with an empty key and an empty challenge with key "acl#"
      are signed over the same bytes. */
  lemma ProofInputAmbiguousAcrossLengths()
    ensures AclTag != [] && ProofInput(AclTag, []) == ProofInput([], AclTag)
  {
  }

  /** The fields of a decoded Connect. */
  datatype ConnectFields = ConnectFields(aclKey: seq<Byte>, signature: seq<Byte>)

  /** The wire-level meaning of a Connect buffer: two big-endian u16 lengths, then
      that many key bytes and signature bytes. Fails with `InvalidPacket` when the
      header is missing or the declared lengths run past the end; bytes after the
      declared fields are ignored. Offsets are computed without wrap-around. */
  function ParseConnect(buf: seq<Byte>): (r: Result<ConnectFields>)
    ensures r.Err? <==> |buf| < 4 || 4 + ReadBE16(buf[0], buf[1]) + ReadBE16(buf[2], buf[3]) > |buf|
    ensures r.Err? ==> r.error == InvalidPacket
    ensures r.Ok? ==>
      var n, m := |r.value.aclKey|, |r.value.signature|;
      n <= MaxU16 && m <= MaxU16 && 4 + n + m <= |buf| &&
      buf[..4] == BE16(n) + BE16(m) &&
      buf[4..4 + n] == r.value.aclKey && buf[4 + n..4 + n + m] == r.value.signature
  {
    if |buf| < 4 then
      Err(InvalidPacket)
    else
      var idLen := ReadBE16(buf[0], buf[1]);
      var sigLen := ReadBE16(buf[2], buf[3]);
      if idLen + sigLen + 4 > |buf| then
        Err(InvalidPacket)
      else
        BE16OfRead(buf[0], buf[1]);
        BE16OfRead(buf[2], buf[3]);
        Ok(ConnectFields(buf[4..4 + idLen], buf[4 + idLen..4 + idLen + sigLen]))
  }

  class Connect {
    /** The identity the client claims. */
    var aclKey: seq<Byte>
    /** The proof of knowledge of the PSK bound to `aclKey`. */
    var signature: seq<Byte>

    /** A Connect with empty fields (Go's zero value). */
    constructor ()
      ensures aclKey == [] && signature == []
    {
      aclKey := [];
      signature := [];
    }

    /** The proof for this identity and `challenge`: the MAC, keyed with `psk`, of
        `ProofInput(challenge, aclKey)`. */
    function HMAC(mac: MacFunction, challenge: seq<Byte>, psk: seq<Byte>): (digest: seq<Byte>)
      reads this
      ensures |digest| == DigestSize
    {
      mac(psk, ProofInput(challenge, aclKey))
    }

    /** Payload size: key bytes plus signature bytes, without the 4-byte header
        that `Encode` adds. */
    function Len(): (n: nat)
      reads this
      ensures Encode().Ok? ==> |Encode().value| == 4 + n
    {
      |aclKey| + |signature|
    }

    /** Stores the proof for `challenge` and `psk`; only the signature changes,
        and it verifies against the same challenge and PSK. */
    method Sign(mac: MacFunction, challenge: seq<Byte>, psk: seq<Byte>)
      modifies this`signature
      ensures signature == HMAC(mac, challenge, psk)
      ensures Verify(mac, challenge, psk)
    {
      signature := HMAC(mac, challenge, psk);
    }

    /** Whether the stored signature is exactly the proof for `challenge` and `psk`. */
    function Verify(mac: MacFunction, challenge: seq<Byte>, psk: seq<Byte>): (ok: bool)
      reads this
      ensures ok ==> |signature| == DigestSize
      ensures ok <==> signature == mac(psk, ChaTag + challenge + AclTag + aclKey)
    {
      signature == HMAC(mac, challenge, psk)
    }

    /** The wire form: `BE16(|aclKey|) ++ BE16(|signature|) ++ aclKey ++ signature`,
        or `ContentTooLong` when either field does not fit a u16 length. */
    function Encode(): (r: Result<seq<Byte>>)
      reads this
      ensures r.Err? <==> |aclKey| > MaxU16 || |signature| > MaxU16
      ensures r.Err? ==> r.error == ContentTooLong
      ensures r.Ok? ==>
        |r.value| == 4 + |aclKey| + |signature| &&
        ReadBE16(r.value[0], r.value[1]) == |aclKey| &&
        ReadBE16(r.value[2], r.value[3]) == |signature| &&
        r.value[4..4 + |aclKey|] == aclKey && r.value[4 + |aclKey|..] == signature
    {
      if |aclKey| > MaxU16 || |signature| > MaxU16 then
        Err(ContentTooLong)
      else
        Ok(BE16(|aclKey|) + BE16(|signature|) + aclKey + signature)
    }

    /** Reads both fields from `buf`; on failure neither field changes. Slice
        offsets are computed in unbounded integers (see `AsWritten` for the
        16-bit arithmetic of the original). */
    method Decode(buf: seq<Byte>) returns (outcome: Outcome)
      modifies this
      ensures ParseConnect(buf).Ok? ==>
        outcome == Pass && aclKey == ParseConnect(buf).value.aclKey && signature == ParseConnect(buf).value.signature
      ensures ParseConnect(buf).Err? ==>
        outcome == Fail(InvalidPacket) && aclKey == old(aclKey) && signature == old(signature)
    {
      if |buf| < 4 {
        return Fail(InvalidPacket);
      }
      var msgLen := ReadBE16(buf[0], buf[1]);
      var signLen := ReadBE16(buf[2], buf[3]);
      if msgLen + signLen + 4 > |buf| {
        return Fail(InvalidPacket);
      }
      aclKey := buf[4..4 + msgLen];
      signature := buf[4 + msgLen..4 + msgLen + signLen];
      outcome := Pass;
    }
  }

  /** Decoding what a Connect encodes restores both fields, whatever follows them. */
  lemma ConnectRoundTrip(c: Connect, rest: seq<Byte>)
    requires c.Encode().Ok?
    ensures ParseConnect(c.Encode().value + rest) == Ok(ConnectFields(c.aclKey, c.signature))
  {
    var buf := c.Encode().value + rest;
    var n, m := |c.aclKey|, |c.signature|;
    assert ReadBE16(buf[0], buf[1]) == n;
    assert ReadBE16(buf[2], buf[3]) == m;
    assert buf[4..4 + n] == c.aclKey;
    assert buf[4 + n..4 + n + m] == c.signature;
  }

  /** A signature made with one challenge passes `Verify` with another challenge of
      the same length only through a MAC collision: the two proof inputs differ
      but the MAC maps them to the same digest. */
  lemma ReplayNeedsCollision(c: Connect, mac: MacFunction, psk: seq<Byte>, signed: seq<Byte>, other: seq<Byte>)
    requires c.signature == c.HMAC(mac, signed, psk)
    requires |other| == |signed| && other != signed
    requires c.Verify(mac, other, psk)
    ensures ProofInput(other, c.aclKey) != ProofInput(signed, c.aclKey)
    ensures mac(psk, ProofInput(other, c.aclKey)) == mac(psk, ProofInput(signed, c.aclKey))
  {
    ProofInputInjective(other, c.aclKey, signed, c.aclKey);
  }

  /** A proof made for one ACL key cannot be presented under another key with the
      same PSK and challenge except through a MAC collision. */
  lemma KeySwapNeedsCollision(c: Connect, mac: MacFunction, psk: seq<Byte>, challenge: seq<Byte>, signedKey: seq<Byte>)
    requires c.signature == mac(psk, ProofInput(challenge, signedKey))
    requires c.aclKey != signedKey
    requires c.Verify(mac, challenge, psk)
    ensures ProofInput(challenge, c.aclKey) != ProofInput(challenge, signedKey)
    ensures mac(psk, ProofInput(challenge, c.aclKey)) == mac(psk, ProofInput(challenge, signedKey))
  {
    ProofInputInjective(challenge, c.aclKey, challenge, signedKey);
  }

  // ---------------------------------------------------------------------------
  // ConnectResult
  // ---------------------------------------------------------------------------

  /** The fields of a decoded ConnectResult. */
  datatype ResultFields = ResultFields(welcome: bool, message: seq<Byte>)

  /** The wire-level meaning of a ConnectResult buffer: a flag byte (non-zero means
      welcome), a length byte, then that many message bytes. Fails with
      `InvalidPacket` when fewer than 2 bytes are present, when the declared length
      runs past the end (computed without wrap-around) or when it exceeds the
      31-byte message capacity. Bytes after the message are ignored. */
  function ParseResult(buf: seq<Byte>): (r: Result<ResultFields>)
    ensures r.Err? <==> |buf| < 2 || 2 + buf[1] > |buf| || buf[1] > MessageCapacity
    ensures r.Err? ==> r.error == InvalidPacket
    ensures r.Ok? ==>
      |r.value.message| <= MessageCapacity && 2 + |r.value.message| <= |buf| &&
      buf[1] == |r.value.message| && r.value.welcome == (buf[0] > 0) &&
      buf[2..2 + buf[1]] == r.value.message
  {
    if |buf| < 2 then
      Err(InvalidPacket)
    else
      var msgLen := buf[1];
      if 2 + msgLen > |buf| || msgLen > MessageCapacity then
        Err(InvalidPacket)
      else
        Ok(ResultFields(buf[0] > 0, buf[2..2 + msgLen]))
  }

  class ConnectResult {
    /** Whether the server accepted the client. */
    var welcome: bool
    /** Fixed 31-byte message storage; only the first `msgLen` bytes are the message. */
    var rawMsg: array<Byte>
    /** Length of the message held in `rawMsg`. */
    var msgLen: int

    ghost predicate Valid()
      reads this
    {
      rawMsg.Length == MessageCapacity && 0 <= msgLen <= MessageCapacity
    }

    /** The message proper: the first `msgLen` bytes of the storage. */
    ghost function Message(): seq<Byte>
      reads this, rawMsg
      requires Valid()
    {
      rawMsg[..msgLen]
    }

    /** A rejection with an empty message and zeroed storage (Go's zero value). */
    constructor ()
      ensures Valid() && fresh(rawMsg)
      ensures !welcome && msgLen == 0 && rawMsg[..] == seq(MessageCapacity, _ => 0)
    {
      welcome := false;
      rawMsg := new Byte[MessageCapacity](_ => 0);
      msgLen := 0;
    }

    /** One more than the message length: one byte short of the encoded size. */
    function Len(): (n: int)
      reads this, rawMsg
      ensures Valid() ==> n + 1 == |Encode()|
    {
      1 + msgLen
    }

    /** Stores `msg` in the fixed storage, or fails with `BufferTooShort` when it is
        longer than 31 bytes, leaving everything as it was. Storage bytes past the
        new message keep their previous values. */
    method EncodeMessage(msg: seq<Byte>) returns (outcome: Outcome)
      requires Valid()
      modifies this`msgLen, rawMsg
      ensures Valid()
      ensures outcome.Fail? <==> |msg| > MessageCapacity
      ensures outcome.Fail? ==> outcome.error == BufferTooShort && msgLen == old(msgLen) && rawMsg[..] == old(rawMsg[..])
      ensures outcome.Pass? ==> msgLen == |msg| && rawMsg[..] == msg + old(rawMsg[|msg|..])
      ensures outcome.Pass? ==> Message() == msg && DecodeMessage() == msg + old(rawMsg[|msg|..])
    {
      if |msg| > rawMsg.Length {
        return Fail(BufferTooShort);
      }
      CopyPrefix(rawMsg, msg);
      msgLen := |msg|;
      outcome := Pass;
    }

    /** The whole 31-byte storage, padding included, not only the message. */
    function DecodeMessage(): (text: seq<Byte>)
      reads this, rawMsg
      requires Valid()
      ensures |text| == MessageCapacity
      ensures text[..msgLen] == Message()
      ensures text[msgLen..] == rawMsg[msgLen..]
    {
      rawMsg[..]
    }

    /** The wire form: flag byte (1 when welcome), length byte, then the message. */
    function Encode(): (buf: seq<Byte>)
      reads this, rawMsg
      requires Valid()
      ensures |buf| == 2 + msgLen
      ensures buf[0] == (if welcome then 1 else 0) && buf[1] == msgLen
      ensures buf[2..] == Message()
    {
      [if welcome then 1 else 0, msgLen % 256] + rawMsg[..msgLen]
    }

    /** Reads flag, length and message from `buf`. Fails with `InvalidPacket`, state
        unchanged, when fewer than 2 bytes are present. Otherwise `welcome` is
        overwritten from the flag byte first, even if the length check then fails;
        a declared length past the end of `buf` or above 31 fails without touching
        the message. On success the storage after the message keeps its bytes. */
    method Decode(buf: seq<Byte>) returns (outcome: Outcome)
      requires Valid()
      modifies this`welcome, this`msgLen, rawMsg
      ensures Valid()
      ensures |buf| < 2 ==> welcome == old(welcome)
      ensures |buf| >= 2 ==> welcome == (buf[0] > 0)
      ensures ParseResult(buf).Ok? ==>
        var m := ParseResult(buf).value.message;
        outcome == Pass && msgLen == |m| && rawMsg[..] == m + old(rawMsg[|m|..])
      ensures ParseResult(buf).Err? ==>
        outcome == Fail(InvalidPacket) && msgLen == old(msgLen) && rawMsg[..] == old(rawMsg[..])
    {
      if |buf| < 2 {
        return Fail(InvalidPacket);
      }
      var declared := buf[1];
      welcome := buf[0] > 0;
      if 2 + declared > |buf| || declared > rawMsg.Length {
        return Fail(InvalidPacket);
      }
      msgLen := declared;
      CopyPrefix(rawMsg, buf[2..2 + msgLen]);
      outcome := Pass;
    }
  }

  /** Decoding what a ConnectResult encodes restores the flag and the message,
      whatever follows it. */
  lemma ResultRoundTrip(c: ConnectResult, rest: seq<Byte>)
    requires c.Valid()
    ensures ParseResult(c.Encode() + rest) == Ok(ResultFields(c.welcome, c.Message()))
  {
    var buf := c.Encode() + rest;
    assert buf[1] == c.msgLen;
    assert buf[2..2 + c.msgLen] == c.Message();
  }
}
