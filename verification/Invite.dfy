/** Invitation tokens (invite_encode and invite_decode in src/security/invite.cpp). */
module Invite {
  import opened Bytes
  import opened Sequences
  import opened BigEndianBytes
  import opened Base64Url

  type Secret = s: seq<byte> | |s| == 16 witness [0, 0, 0, 0, 0, 0, 0, 0, 0, 0, 0, 0, 0, 0, 0, 0]

  const EMPTY_SECRET: Secret := [0, 0, 0, 0, 0, 0, 0, 0, 0, 0, 0, 0, 0, 0, 0, 0]
  const PREFIX: string := "madoka://invite/"
  const MAX_TOKEN_SIZE: nat := 512
  const MAX_ENDPOINT_SIZE: nat := 255
  const MAX_INVITE_LIFETIME_SECONDS: nat := 86400
  const FIXED_SIZE: nat := 16 + 2 + 32 + 16 + 8 + 8

  datatype InviteTicket = InviteTicket(network: IPv6, secret: Secret, inviterId: NodeId, inviterEndpoint: seq<byte>,
                                       createdAt: uint64, expiresAt: uint64, consumed: bool)

  /** Whether parse_endpoint finds an address and a non-zero port; supplied from outside. */
  type EndpointParser = seq<byte> -> bool

  predicate ValidEndpoint(parses: EndpointParser, endpoint: seq<byte>) {
    0 < |endpoint| <= MAX_ENDPOINT_SIZE && 0 !in endpoint && parses(endpoint)
  }

  predicate UlaPrefix(network: IPv6) {
    network[0] == 0xfd && forall i | 8 <= i < 16 :: network[i] == 0
  }

  predicate ValidTicket(parses: EndpointParser, t: InviteTicket) {
    && ValidEndpoint(parses, t.inviterEndpoint)
    && t.inviterId != EMPTY_NODE_ID
    && t.secret != EMPTY_SECRET
    && t.createdAt != 0
    && t.expiresAt > t.createdAt
    && t.expiresAt - t.createdAt <= MAX_INVITE_LIFETIME_SECONDS
    && UlaPrefix(t.network)
  }

  /** What may be issued, in plain terms: an endpoint of 1 to 255 bytes without a zero that parses, identifier and
      secret set, at most a day to live, a network in fd00::/8 given by its first eight bytes. */
  ghost predicate Issuable(parses: EndpointParser, t: InviteTicket) {
    && 1 <= |t.inviterEndpoint| <= 255 && (forall i | 0 <= i < |t.inviterEndpoint| :: t.inviterEndpoint[i] != 0)
    && parses(t.inviterEndpoint)
    && (exists i :: 0 <= i < 32 && t.inviterId[i] != 0) && (exists i :: 0 <= i < 16 && t.secret[i] != 0)
    && 0 < t.createdAt < t.expiresAt <= t.createdAt + 86400
    && t.network[0] == 0xfd && forall i | 8 <= i < 16 :: t.network[i] == 0
  }

  lemma IssuableIff(parses: EndpointParser, t: InviteTicket)
    ensures ValidTicket(parses, t) <==> Issuable(parses, t)
  {
    EmptyIsZeros(t.inviterId);
    if forall i | 0 <= i < 16 :: t.secret[i] == 0 {
      assert t.secret == EMPTY_SECRET;
    }
  }

  function TicketBytes(t: InviteTicket): seq<byte> {
    t.network + BigEndian(|t.inviterEndpoint|, 2) + t.inviterEndpoint + t.inviterId + t.secret
    + BigEndian(t.createdAt, 8) + BigEndian(t.expiresAt, 8)
  }

  function Token(t: InviteTicket): string {
    PREFIX + Encoded(TicketBytes(t))
  }

  /** The payload of a token, field by field. */
  ghost predicate PayloadLaidOut(t: InviteTicket, bytes: seq<byte>) {
    var n := |t.inviterEndpoint|;
    && |bytes| == 82 + n
    && bytes[..16] == t.network && Value(bytes[16..18]) == n && bytes[18..18 + n] == t.inviterEndpoint
    && bytes[18 + n..50 + n] == t.inviterId && bytes[50 + n..66 + n] == t.secret
    && Value(bytes[66 + n..74 + n]) == t.createdAt && Value(bytes[74 + n..82 + n]) == t.expiresAt
  }

  /** The token of a ticket: the scheme and, as unpadded base64url, the payload. */
  ghost predicate TokenLaidOut(t: InviteTicket, token: string) {
    && |token| >= 16 && token[..16] == "madoka://invite/"
    && exists bytes :: PayloadLaidOut(t, bytes) && Spells(token[16..], bytes)
  }

  /** invite_encode; the empty string for a ticket that cannot be issued. */
  method InviteEncode(parses: EndpointParser, t: InviteTicket) returns (token: string)
    ensures token == if ValidTicket(parses, t) then Token(t) else ""
    ensures if Issuable(parses, t) then TokenLaidOut(t, token) else token == ""
  {
    IssuableIff(parses, t);
    if ValidTicket(parses, t) {
      TokenLayout(t, Token(t));
    }
    if !ValidTicket(parses, t) {
      return "";
    }
    var bytes: seq<byte> := t.network;
    bytes := AppendBigEndian(bytes, |t.inviterEndpoint|, 2);
    bytes := bytes + t.inviterEndpoint + t.inviterId + t.secret;
    bytes := AppendBigEndian(bytes, t.createdAt, 8);
    bytes := AppendBigEndian(bytes, t.expiresAt, 8);
    var encoded := Base64UrlEncode(bytes);
    token := PREFIX + encoded;
  }

  function EndpointSize(bytes: seq<byte>): nat
    requires |bytes| >= FIXED_SIZE
  {
    Value(bytes[16..18])
  }

  /** The fields of a payload, cut out at their offsets. */
  function TicketFrom(bytes: seq<byte>): InviteTicket
    requires |bytes| >= FIXED_SIZE && |bytes| == FIXED_SIZE + EndpointSize(bytes)
  {
    var n := EndpointSize(bytes);
    WriteRead(bytes[66 + n..74 + n]);
    WriteRead(bytes[74 + n..82 + n]);
    Widths();
    InviteTicket(bytes[..16], bytes[50 + n..66 + n], bytes[18 + n..50 + n], bytes[18..18 + n],
                 Value(bytes[66 + n..74 + n]), Value(bytes[74 + n..82 + n]), false)
  }

  function PayloadTicket(parses: EndpointParser, bytes: seq<byte>): Option<InviteTicket> {
    if |bytes| < FIXED_SIZE || |bytes| != FIXED_SIZE + EndpointSize(bytes) then None
    else if ValidTicket(parses, TicketFrom(bytes)) then Some(TicketFrom(bytes))
    else None
  }

  function TicketOf(parses: EndpointParser, token: string): Option<InviteTicket> {
    if !(PREFIX <= token) || |token| > MAX_TOKEN_SIZE || !Canonical(token[|PREFIX|..]) then None
    else PayloadTicket(parses, Decoded(token[|PREFIX|..]))
  }

  lemma SevenFields(a: seq<byte>, b: seq<byte>, c: seq<byte>, d: seq<byte>, e: seq<byte>, f: seq<byte>, g: seq<byte>)
    requires |a| == 16 && |b| == 2 && |d| == 32 && |e| == 16 && |f| == 8 && |g| == 8
    ensures var s, n := a + b + c + d + e + f + g, |c|;
            && |s| == FIXED_SIZE + n
            && s[..16] == a && s[16..18] == b && s[18..18 + n] == c && s[18 + n..50 + n] == d
            && s[50 + n..66 + n] == e && s[66 + n..74 + n] == f && s[74 + n..82 + n] == g
  {
  }

  lemma PayloadRoundTrip(t: InviteTicket)
    requires |t.inviterEndpoint| <= MAX_ENDPOINT_SIZE
    ensures var bytes := TicketBytes(t);
            && |bytes| == FIXED_SIZE + |t.inviterEndpoint| && EndpointSize(bytes) == |t.inviterEndpoint|
            && TicketFrom(bytes) == t.(consumed := false)
  {
    var size := |t.inviterEndpoint|;
    SevenFields(t.network, BigEndian(size, 2), t.inviterEndpoint, t.inviterId, t.secret,
                BigEndian(t.createdAt, 8), BigEndian(t.expiresAt, 8));
    ReadU16(size);
    ReadU64(t.createdAt);
    ReadU64(t.expiresAt);
  }

  lemma PayloadReproduced(bytes: seq<byte>)
    requires |bytes| >= FIXED_SIZE && |bytes| == FIXED_SIZE + EndpointSize(bytes)
    ensures TicketBytes(TicketFrom(bytes)) == bytes
  {
    var n := EndpointSize(bytes);
    WriteRead(bytes[16..18]);
    WriteRead(bytes[66 + n..74 + n]);
    WriteRead(bytes[74 + n..82 + n]);
    SevenJoined(bytes, n);
  }

  lemma SevenJoined(s: seq<byte>, n: nat)
    requires |s| == FIXED_SIZE + n
    ensures s == s[..16] + s[16..18] + s[18..18 + n] + s[18 + n..50 + n] + s[50 + n..66 + n] + s[66 + n..74 + n]
                 + s[74 + n..82 + n]
  {
  }

  lemma PayloadLayout(t: InviteTicket, bytes: seq<byte>)
    requires |t.inviterEndpoint| <= MAX_ENDPOINT_SIZE
    ensures bytes == TicketBytes(t) <==> PayloadLaidOut(t, bytes)
  {
    PayloadRoundTrip(t);
    if PayloadLaidOut(t, bytes) {
      PayloadReproduced(bytes);
      assert TicketFrom(bytes) == t.(consumed := false);
    }
  }

  /** There is one token for a ticket, and this is it. */
  lemma TokenLayout(t: InviteTicket, token: string)
    requires |t.inviterEndpoint| <= MAX_ENDPOINT_SIZE
    ensures token == Token(t) <==> TokenLaidOut(t, token)
  {
    var bytes := TicketBytes(t);
    PayloadLayout(t, bytes);
    if token == Token(t) {
      Joined(PREFIX, Encoded(bytes));
      EncodedSpells(bytes, token[16..]);
    }
    if TokenLaidOut(t, token) {
      var other :| PayloadLaidOut(t, other) && Spells(token[16..], other);
      PayloadLayout(t, other);
      EncodedSpells(bytes, token[16..]);
      Cut(token, 16);
    }
  }

  lemma TokenSize(t: InviteTicket)
    requires |t.inviterEndpoint| <= MAX_ENDPOINT_SIZE
    ensures |Token(t)| <= 466
  {
    PayloadRoundTrip(t);
    EncodedIsCanonical(TicketBytes(t));
  }

  /** Every issuable ticket comes back from its token, as an unconsumed one. */
  lemma TokenRoundTrip(parses: EndpointParser, t: InviteTicket)
    requires ValidTicket(parses, t)
    ensures TicketOf(parses, Token(t)) == Some(t.(consumed := false))
  {
    var bytes := TicketBytes(t);
    PayloadRoundTrip(t);
    TokenSize(t);
    EncodedIsCanonical(bytes);
    assert Token(t)[|PREFIX|..] == Encoded(bytes);
  }

  /** Tokens and valid unconsumed tickets correspond one to one: nothing else is accepted. */
  lemma TokenIff(parses: EndpointParser, token: string, t: InviteTicket)
    ensures TicketOf(parses, token) == Some(t) <==> ValidTicket(parses, t) && !t.consumed && Token(t) == token
  {
    if TicketOf(parses, token) == Some(t) {
      var rest := token[|PREFIX|..];
      CanonicalIsEncoded(rest);
      PayloadReproduced(Decoded(rest));
      assert token == PREFIX + rest;
    }
    if ValidTicket(parses, t) && !t.consumed && Token(t) == token {
      TokenRoundTrip(parses, t);
    }
  }

  /** The same in terms of the layout. */
  lemma LaidOutTokenIff(parses: EndpointParser, token: string, t: InviteTicket)
    ensures TicketOf(parses, token) == Some(t) <==> Issuable(parses, t) && !t.consumed && TokenLaidOut(t, token)
  {
    TokenIff(parses, token, t);
    IssuableIff(parses, t);
    if ValidTicket(parses, t) {
      TokenLayout(t, token);
    }
  }

  /** The checks on the decoded payload, in the order the code makes them. */
  method DecodePayload(parses: EndpointParser, bytes: seq<byte>) returns (r: Option<InviteTicket>)
    ensures r == PayloadTicket(parses, bytes)
  {
    if |bytes| < FIXED_SIZE || !UlaPrefix(bytes[..16]) {
      return None;
    }
    var size := ReadBigEndian(bytes[16..18]);
    if size == 0 || size > MAX_ENDPOINT_SIZE || |bytes| != FIXED_SIZE + size {
      return None;
    }
    var createdAt := ReadBigEndian(bytes[66 + size..74 + size]);
    var expiresAt := ReadBigEndian(bytes[74 + size..82 + size]);
    assert EndpointSize(bytes) == size;
    assert createdAt == TicketFrom(bytes).createdAt && expiresAt == TicketFrom(bytes).expiresAt;
    var t := InviteTicket(bytes[..16], bytes[50 + size..66 + size], bytes[18 + size..50 + size], bytes[18..18 + size],
                          createdAt, expiresAt, false);
    assert t == TicketFrom(bytes);
    return if ValidTicket(parses, t) then Some(t) else None;
  }

  /** invite_decode. */
  method InviteDecode(parses: EndpointParser, token: string) returns (r: Option<InviteTicket>)
    ensures r == TicketOf(parses, token)
    ensures r.Some? ==> ValidTicket(parses, r.value) && !r.value.consumed && Token(r.value) == token
  {
    if !(PREFIX <= token) || |token| > MAX_TOKEN_SIZE {
      return None;
    }
    var decoded := Base64UrlDecode(token[|PREFIX|..]);
    if decoded.None? {
      return None;
    }
    r := DecodePayload(parses, decoded.value);
    if r.Some? {
      TokenIff(parses, token, r.value);
    }
  }
}
