/** One complete handshake driven through the three codecs: the server sends a
    Hello, the client answers with a signed Connect, the server decodes and
    verifies it and replies with a welcoming ConnectResult, which the client
    decodes. */
module Scenario {
  import opened Wire
  import opened Proto

  /** The client's identity, "svc-a". */
  const Identity: seq<Byte> := [0x73, 0x76, 0x63, 0x2d, 0x61]

  /** The pre-shared key both sides hold, "topsecret". */
  const Psk: seq<Byte> := [0x74, 0x6f, 0x70, 0x73, 0x65, 0x63, 0x72, 0x65, 0x74]

  /** The server's reply text, "welcome". */
  const WelcomeText: seq<Byte> := [0x77, 0x65, 0x6c, 0x63, 0x6f, 0x6d, 0x65]

  /** The server sends a Hello carrying `challenge`; the client's decoded Hello
      holds the same challenge. */
  method ExchangeHello(challenge: seq<Byte>) returns (received: seq<Byte>)
    requires |challenge| == ChallengeSize
    ensures received == challenge
  {
    var serverHello := new Hello();
    serverHello.Refresh(challenge);
    var wire := serverHello.Encode();
    var clientHello := new Hello();
    HelloRoundTrip(serverHello, []);
    assert wire + [] == wire;
    var outcome := clientHello.Decode(wire);
    received := clientHello.challenge[..];
  }

  /** The client signs `challenge` as `identity` and sends a Connect; the server
      decodes it and verifies it against the same challenge and PSK. */
  method ExchangeConnect(mac: MacFunction, challenge: seq<Byte>, identity: seq<Byte>, psk: seq<Byte>)
    returns (verified: bool)
    requires |identity| <= MaxU16
    ensures verified
  {
    var clientConnect := new Connect();
    clientConnect.aclKey := identity;
    clientConnect.Sign(mac, challenge, psk);
    var wire := clientConnect.Encode();
    var serverConnect := new Connect();
    ConnectRoundTrip(clientConnect, []);
    assert wire.value + [] == wire.value;
    var outcome := serverConnect.Decode(wire.value);
    verified := serverConnect.Verify(mac, challenge, psk);
  }

  /** The server replies welcome with `text`; the client's decoded ConnectResult
      has the flag set and its storage reads `text` followed by zero padding. */
  method ExchangeResult(text: seq<Byte>) returns (accepted: bool, received: seq<Byte>)
    requires |text| <= MessageCapacity
    ensures accepted
    ensures received == text + seq(MessageCapacity - |text|, _ => 0)
  {
    var result := new ConnectResult();
    result.welcome := true;
    var outcome := result.EncodeMessage(text);
    var wire := result.Encode();
    var clientResult := new ConnectResult();
    ResultRoundTrip(result, []);
    assert wire + [] == wire;
    ghost var padding := clientResult.rawMsg[|text|..];
    assert padding == seq(MessageCapacity - |text|, _ => 0);
    outcome := clientResult.Decode(wire);
    accepted := clientResult.welcome;
    received := clientResult.DecodeMessage();
  }

  /** With the challenge 0x00..0x0F, identity "svc-a" and the same PSK
      "topsecret" on both sides, the server's `Verify` accepts the client's proof,
      and the client reads back the welcome flag and the text "welcome" followed
      by the storage's zero padding. */
  method Handshake(mac: MacFunction) returns (verified: bool, accepted: bool, text: seq<Byte>)
    ensures verified && accepted
    ensures |text| == MessageCapacity && text[..|WelcomeText|] == WelcomeText
    ensures text[|WelcomeText|..] == seq(MessageCapacity - |WelcomeText|, _ => 0)
  {
    var challenge: seq<Byte> := seq(ChallengeSize, i requires 0 <= i < ChallengeSize => i);
    var received := ExchangeHello(challenge);
    verified := ExchangeConnect(mac, received, Identity, Psk);
    accepted, text := ExchangeResult(WelcomeText);
  }
}
