/** Contacts, neighbour lists and join responses on the wire (src/network/serialization.cpp). */
module Contacts {
  import opened Bytes
  import opened Sequences
  import opened BigEndianBytes
  import opened Kademlia

  const MAX_CONTACT_ENDPOINT_SIZE: nat := 255
  const MIN_CONTACT_SIZE: nat := 95
  const CONTROL_MESSAGE_HEADER_SIZE: nat := 45
  const MAX_FRAME_PAYLOAD: nat := 4092

  // ---------- one contact ----------

  /** The fields in front of the endpoint, its length included. */
  function Head(c: NodeContact): (s: seq<byte>)
    ensures |s| == 82
  {
    c.id + c.publicKey + c.virtualAddress + BigEndian(|c.endpoint|, 2)
  }

  function Tail(c: NodeContact): (s: seq<byte>)
    ensures |s| == 13
  {
    BigEndian(c.lastSeen, 8) + BigEndian(c.rtt, 4) + [c.failedPings]
  }

  predicate EncodableContact(c: NodeContact) {
    |c.endpoint| <= MAX_CONTACT_ENDPOINT_SIZE
  }

  function ContactBytes(c: NodeContact): (s: seq<byte>)
    ensures |s| == MIN_CONTACT_SIZE + |c.endpoint|
  {
    Head(c) + c.endpoint + Tail(c)
  }

  function ReadUint32(s: seq<byte>): uint32
    requires |s| == 4
  {
    WriteRead(s);
    Widths();
    Value(s)
  }

  function ReadUint64(s: seq<byte>): uint64
    requires |s| == 8
  {
    WriteRead(s);
    Widths();
    Value(s)
  }

  datatype ContactRead = ContactRead(contact: NodeContact, consumed: nat)

  /** The contact at the front of the data, if there is one, and how many bytes it takes. */
  function ReadContact(data: seq<byte>): Option<ContactRead> {
    if |data| < MIN_CONTACT_SIZE then None
    else
      var n := Value(data[80..82]);
      if n > MAX_CONTACT_ENDPOINT_SIZE || |data| < MIN_CONTACT_SIZE + n then None
      else Some(ContactRead(ContactAt(data, n), MIN_CONTACT_SIZE + n))
  }

  function ContactAt(data: seq<byte>, n: nat): NodeContact
    requires |data| >= MIN_CONTACT_SIZE + n
  {
    NodeContact(data[..32], data[32..64], data[64..80], data[82..82 + n],
                ReadUint64(data[82 + n..90 + n]), ReadUint32(data[90 + n..94 + n]), data[94 + n])
  }

  lemma SliceOfSlice(s: seq<byte>, a: nat, b: nat, i: nat, j: nat)
    requires i <= j <= b - a && b <= |s|
    ensures s[a..b][i..j] == s[a + i..a + j]
  {
    forall k | 0 <= k < j - i ensures s[a..b][i..j][k] == s[a + i..a + j][k] {
      assert s[a..b][i..j][k] == s[a..b][i + k];
    }
  }

  lemma ContactParts(data: seq<byte>, c: NodeContact)
    requires |data| >= MIN_CONTACT_SIZE + |c.endpoint|
    requires var n := |c.endpoint|;
             && data[..82] == Head(c) && data[82..82 + n] == c.endpoint && data[82 + n..95 + n] == Tail(c)
    ensures ContactAt(data, |c.endpoint|) == c && data[80..82] == BigEndian(|c.endpoint|, 2)
  {
    var n := |c.endpoint|;
    assert data[..32] == data[..82][..32] && data[32..64] == data[..82][32..64];
    assert data[64..80] == data[..82][64..80] && data[80..82] == data[..82][80..82];
    var tail := data[82 + n..95 + n];
    SliceOfSlice(data, 82 + n, 95 + n, 0, 8);
    SliceOfSlice(data, 82 + n, 95 + n, 8, 12);
    assert data[94 + n] == tail[12];
    assert Head(c)[..32] == c.id && Head(c)[32..64] == c.publicKey && Head(c)[64..80] == c.virtualAddress;
    assert Tail(c)[..8] == BigEndian(c.lastSeen, 8) && Tail(c)[8..12] == BigEndian(c.rtt, 4);
    ReadU64(c.lastSeen);
    ReadU32(c.rtt);
  }

  /** Reading inverts writing, whatever follows the contact. */
  lemma ContactRoundTrip(c: NodeContact, rest: seq<byte>)
    requires EncodableContact(c)
    ensures ReadContact(ContactBytes(c) + rest) == Some(ContactRead(c, |ContactBytes(c)|))
  {
    var data := ContactBytes(c) + rest;
    assert data[..82] == Head(c);
    ContactParts(data, c);
    ReadU16(|c.endpoint|);
  }

  lemma PartsOfContact(data: seq<byte>, n: nat)
    requires |data| >= MIN_CONTACT_SIZE + n && data[80..82] == BigEndian(n, 2)
    ensures Head(ContactAt(data, n)) == data[..82]
    ensures Tail(ContactAt(data, n)) == data[82 + n..95 + n]
  {
    WriteRead(data[82 + n..90 + n]);
    WriteRead(data[90 + n..94 + n]);
    assert data[..82] == data[..32] + data[32..64] + data[64..80] + data[80..82];
    assert data[82 + n..95 + n] == data[82 + n..90 + n] + data[90 + n..94 + n] + [data[94 + n]];
  }

  /** Whatever is read as a contact is what that contact is written as. */
  lemma ContactCanonical(data: seq<byte>)
    requires ReadContact(data).Some?
    ensures var r := ReadContact(data).value;
            EncodableContact(r.contact) && r.consumed <= |data| && ContactBytes(r.contact) == data[..r.consumed]
  {
    var n := Value(data[80..82]);
    WriteRead(data[80..82]);
    PartsOfContact(data, n);
    assert data[..95 + n] == data[..82] + data[82..82 + n] + data[82 + n..95 + n];
  }

  /** One contact on the wire, field by field. */
  ghost predicate ContactLaidOut(c: NodeContact, data: seq<byte>) {
    var n := |c.endpoint|;
    && n <= 255 && |data| == 95 + n
    && data[..32] == c.id && data[32..64] == c.publicKey && data[64..80] == c.virtualAddress
    && Value(data[80..82]) == n && data[82..82 + n] == c.endpoint
    && Value(data[82 + n..90 + n]) == c.lastSeen && Value(data[90 + n..94 + n]) == c.rtt
       && data[94 + n] == c.failedPings
  }

  lemma ContactIsLaidOut(c: NodeContact)
    requires EncodableContact(c)
    ensures ContactLaidOut(c, ContactBytes(c))
  {
    ContactParts(ContactBytes(c), c);
    ReadU16(|c.endpoint|);
  }

  lemma LaidOutIsContact(c: NodeContact, data: seq<byte>)
    requires ContactLaidOut(c, data)
    ensures EncodableContact(c) && data == ContactBytes(c)
  {
    var n := |c.endpoint|;
    WriteRead(data[80..82]);
    PartsOfContact(data, n);
    LaidOutAt(c, data, n);
    assert data == data[..82] + data[82..82 + n] + data[82 + n..95 + n];
  }

  lemma LaidOutAt(c: NodeContact, data: seq<byte>, n: nat)
    requires ContactLaidOut(c, data) && n == |c.endpoint|
    ensures ContactAt(data, n) == c
  {
  }

  lemma ContactLayout(c: NodeContact, data: seq<byte>)
    ensures EncodableContact(c) && data == ContactBytes(c) <==> ContactLaidOut(c, data)
  {
    if EncodableContact(c) {
      ContactIsLaidOut(c);
    }
    if ContactLaidOut(c, data) {
      LaidOutIsContact(c, data);
    }
  }

  /** What is read at the front of some data: a contact of k bytes exactly if it is laid out there. */
  lemma ReadContactIff(data: seq<byte>, c: NodeContact, k: nat)
    ensures ReadContact(data) == Some(ContactRead(c, k)) <==> k <= |data| && ContactLaidOut(c, data[..k])
  {
    if ReadContact(data) == Some(ContactRead(c, k)) {
      ContactCanonical(data);
      ContactLayout(c, data[..k]);
    }
    if k <= |data| && ContactLaidOut(c, data[..k]) {
      ContactLayout(c, data[..k]);
      ContactRoundTrip(c, data[k..]);
      assert data == data[..k] + data[k..];
    }
  }

  // ---------- a list of contacts that fills the rest of the data ----------

  predicate AllEncodable(peers: seq<NodeContact>) {
    forall i | 0 <= i < |peers| :: EncodableContact(peers[i])
  }

  predicate EncodableAll(peers: seq<NodeContact>) {
    |peers| <= KADEMLIA_K && AllEncodable(peers)
  }

  function ContactsBytes(peers: seq<NodeContact>): seq<byte> {
    if peers == [] then [] else ContactsBytes(peers[..|peers| - 1]) + ContactBytes(peers[|peers| - 1])
  }

  /** Exactly count contacts and nothing after them. */
  function ReadContacts(data: seq<byte>, count: nat): Option<seq<NodeContact>> {
    if count == 0 then if data == [] then Some([]) else None
    else match ReadContact(data)
      case None => None
      case Some(r) =>
        ContactCanonical(data);
        match ReadContacts(data[r.consumed..], count - 1)
        case None => None
        case Some(peers) => Some([r.contact] + peers)
  }

  lemma {:induction false} ContactsBytesCons(c: NodeContact, peers: seq<NodeContact>)
    ensures ContactsBytes([c] + peers) == ContactBytes(c) + ContactsBytes(peers)
  {
    var all, n := [c] + peers, |peers| - 1;
    if peers == [] {
      assert all[..0] == [];
      assert ContactsBytes(all) == ContactsBytes(all[..0]) + ContactBytes(c);
    } else {
      ContactsBytesCons(c, peers[..n]);
      assert all[..n + 1] == [c] + peers[..n] && all[n + 1] == peers[n];
      Reassociate(ContactBytes(c), ContactsBytes(peers[..n]), ContactBytes(peers[n]));
    }
  }

  /** Reading gives back what was written. */
  ghost predicate ReadsBack(peers: seq<NodeContact>) {
    ReadContacts(ContactsBytes(peers), |peers|) == Some(peers)
  }

  lemma ReadsBackCons(c: NodeContact, peers: seq<NodeContact>)
    requires EncodableContact(c) && ReadsBack(peers)
    ensures ReadsBack([c] + peers)
  {
    ContactsBytesCons(c, peers);
    ReadsOneMore(c, ContactsBytes(peers), peers);
  }

  lemma {:induction false} ContactsRoundTrip(peers: seq<NodeContact>)
    requires AllEncodable(peers)
    ensures ReadsBack(peers)
  {
    if peers != [] {
      ContactsRoundTrip(peers[1..]);
      ReadsBackCons(peers[0], peers[1..]);
      assert [peers[0]] + peers[1..] == peers;
    }
  }

  lemma ReadsOneMore(c: NodeContact, rest: seq<byte>, peers: seq<NodeContact>)
    requires EncodableContact(c) && ReadContacts(rest, |peers|) == Some(peers)
    ensures ReadContacts(ContactBytes(c) + rest, |peers| + 1) == Some([c] + peers)
  {
    ContactRoundTrip(c, rest);
    assert (ContactBytes(c) + rest)[|ContactBytes(c)|..] == rest;
  }

  /** The data is what these count contacts are written as. */
  ghost predicate Written(peers: seq<NodeContact>, data: seq<byte>, count: nat) {
    |peers| == count && AllEncodable(peers) && ContactsBytes(peers) == data
  }

  lemma WrittenCons(c: NodeContact, peers: seq<NodeContact>, data: seq<byte>, count: nat)
    requires EncodableContact(c) && Written(peers, data, count)
    ensures Written([c] + peers, ContactBytes(c) + data, count + 1)
  {
    ContactsBytesCons(c, peers);
  }

  ghost predicate ReadsAs(data: seq<byte>, count: nat, peers: seq<NodeContact>) {
    ReadContacts(data, count) == Some(peers)
  }

  lemma ReadsSomething(data: seq<byte>, count: nat) returns (peers: seq<NodeContact>)
    requires ReadContacts(data, count).Some?
    ensures ReadsAs(data, count, peers) && peers == ReadContacts(data, count).value
  {
    peers := ReadContacts(data, count).value;
  }

  /** One contact, and what the rest reads as. */
  lemma ReadContactsUnfolds(data: seq<byte>, count: nat, peers: seq<NodeContact>)
      returns (c: NodeContact, tail: seq<byte>, left: nat, rest: seq<NodeContact>)
    requires count > 0 && ReadsAs(data, count, peers)
    ensures EncodableContact(c) && data == ContactBytes(c) + tail
    ensures peers == [c] + rest && count == left + 1 && ReadsAs(tail, left, rest)
  {
    ContactCanonical(data);
    var r := ReadContact(data).value;
    c, tail, left := r.contact, data[r.consumed..], count - 1;
    rest := ReadsSomething(tail, left);
  }

  lemma {:induction false} ContactsCanonical(data: seq<byte>, count: nat, peers: seq<NodeContact>)
    requires ReadsAs(data, count, peers)
    ensures Written(peers, data, count)
    decreases count
  {
    if count > 0 {
      var c, tail, left, rest := ReadContactsUnfolds(data, count, peers);
      ContactsCanonical(tail, left, rest);
      WrittenCons(c, rest, tail, left);
    }
  }

  // ---------- a counted list ----------

  function CountedBytes(peers: seq<NodeContact>): seq<byte> {
    BigEndian(|peers|, 2) + ContactsBytes(peers)
  }

  function ReadCounted(data: seq<byte>): Option<seq<NodeContact>> {
    if |data| < 2 || Value(data[..2]) > KADEMLIA_K then None else ReadContacts(data[2..], Value(data[..2]))
  }

  /** The lists that can be written are exactly those that can be read, and each has exactly one form on the wire. */
  lemma CountedIff(data: seq<byte>, peers: seq<NodeContact>)
    ensures ReadCounted(data) == Some(peers) <==> EncodableAll(peers) && data == CountedBytes(peers)
  {
    if EncodableAll(peers) && data == CountedBytes(peers) {
      ReadU16(|peers|);
      assert data[..2] == BigEndian(|peers|, 2) && data[2..] == ContactsBytes(peers);
      ContactsRoundTrip(peers);
    }
    if ReadCounted(data) == Some(peers) {
      ContactsCanonical(data[2..], Value(data[..2]), peers);
      WriteRead(data[..2]);
      assert data == data[..2] + data[2..];
    }
  }

  /** The contacts one after the other and nothing else. */
  ghost predicate AllLaidOut(peers: seq<NodeContact>, data: seq<byte>) {
    if peers == [] then data == []
    else
      var k := 95 + |peers[0].endpoint|;
      k <= |data| && ContactLaidOut(peers[0], data[..k]) && AllLaidOut(peers[1..], data[k..])
  }

  lemma AllLaidOutCons(c: NodeContact, rest: seq<NodeContact>, first: seq<byte>, tail: seq<byte>)
    requires ContactLaidOut(c, first) && AllLaidOut(rest, tail)
    ensures AllLaidOut([c] + rest, first + tail)
  {
    Joined(first, tail);
    assert ([c] + rest)[1..] == rest;
  }

  lemma {:induction false} ContactsAreLaidOut(peers: seq<NodeContact>)
    requires AllEncodable(peers)
    ensures AllLaidOut(peers, ContactsBytes(peers))
  {
    if peers != [] {
      ContactsAreLaidOut(peers[1..]);
      ContactIsLaidOut(peers[0]);
      AllLaidOutCons(peers[0], peers[1..], ContactBytes(peers[0]), ContactsBytes(peers[1..]));
      ContactsBytesCons(peers[0], peers[1..]);
      assert peers == [peers[0]] + peers[1..];
    }
  }

  ghost predicate WrittenAs(peers: seq<NodeContact>, data: seq<byte>) {
    AllEncodable(peers) && data == ContactsBytes(peers)
  }

  lemma WrittenAsCons(c: NodeContact, rest: seq<NodeContact>, first: seq<byte>, tail: seq<byte>)
    requires ContactLaidOut(c, first) && WrittenAs(rest, tail)
    ensures WrittenAs([c] + rest, first + tail)
  {
    LaidOutIsContact(c, first);
    ContactsBytesCons(c, rest);
  }

  lemma {:induction false} LaidOutAreContacts(peers: seq<NodeContact>, data: seq<byte>)
    requires AllLaidOut(peers, data)
    ensures WrittenAs(peers, data)
  {
    if peers != [] {
      var k := 95 + |peers[0].endpoint|;
      LaidOutAreContacts(peers[1..], data[k..]);
      WrittenAsCons(peers[0], peers[1..], data[..k], data[k..]);
      Cut(data, k);
      Cut(peers, 1);
      assert peers[..1] == [peers[0]];
    }
  }

  /** A list of at most 20 contacts: their number on two bytes, high byte first, and the contacts. */
  ghost predicate ListLaidOut(peers: seq<NodeContact>, data: seq<byte>) {
    |data| >= 2 && Value(data[..2]) == |peers| <= 20 && AllLaidOut(peers, data[2..])
  }

  lemma ListLayout(peers: seq<NodeContact>, data: seq<byte>)
    ensures EncodableAll(peers) && data == CountedBytes(peers) <==> ListLaidOut(peers, data)
  {
    if EncodableAll(peers) && data == CountedBytes(peers) {
      ReadU16(|peers|);
      Joined(BigEndian(|peers|, 2), ContactsBytes(peers));
      ContactsAreLaidOut(peers);
    }
    if ListLaidOut(peers, data) {
      WriteRead(data[..2]);
      LaidOutAreContacts(peers, data[2..]);
      Cut(data, 2);
    }
  }

  // ---------- neighbours ----------

  function NeighborsBytes(peers: seq<NodeContact>): seq<byte> {
    if EncodableAll(peers) then CountedBytes(peers) else []
  }

  /** Neighbour messages: decoding accepts exactly what encoding produces, and inverts it. */
  lemma NeighborsIff(data: seq<byte>, peers: seq<NodeContact>)
    ensures ReadCounted(data) == Some(peers) <==> NeighborsBytes(peers) == data && data != []
  {
    CountedIff(data, peers);
  }

  // ---------- join responses ----------

  datatype JoinResponse = JoinResponse(
    accepted: bool,
    bootstrapContact: NodeContact,
    bootstrapId: NodeId,
    peers: seq<NodeContact>)

  /** The bootstrap contact with its identifier filled in when it is empty. */
  function Bootstrap(r: JoinResponse): NodeContact {
    if r.bootstrapContact.id == EMPTY_NODE_ID then r.bootstrapContact.(id := r.bootstrapId) else r.bootstrapContact
  }

  /** operator== on join responses. */
  predicate SameResponse(a: JoinResponse, b: JoinResponse) {
    a.accepted == b.accepted && Bootstrap(a) == Bootstrap(b) && a.peers == b.peers
  }

  predicate EncodableResponse(r: JoinResponse) {
    EncodableContact(r.bootstrapContact) && EncodableAll(r.peers)
  }

  function ResponseBytes(r: JoinResponse): seq<byte> {
    if EncodableResponse(r)
    then [if r.accepted then 1 else 0] + ContactBytes(Bootstrap(r)) + CountedBytes(r.peers)
    else []
  }

  function ReadResponse(data: seq<byte>): Option<JoinResponse> {
    if data == [] then None
    else match ReadContact(data[1..])
      case None => None
      case Some(boot) =>
        ContactCanonical(data[1..]);
        match ReadCounted(data[1 + boot.consumed..])
        case None => None
        case Some(peers) => Some(JoinResponse(data[0] != 0, boot.contact, boot.contact.id, peers))
  }

  lemma ReadResponseParts(flag: byte, boot: NodeContact, rest: seq<byte>)
    requires EncodableContact(boot) && ReadCounted(rest).Some?
    ensures ReadResponse([flag] + ContactBytes(boot) + rest)
            == Some(JoinResponse(flag != 0, boot, boot.id, ReadCounted(rest).value))
  {
    var data := [flag] + ContactBytes(boot) + rest;
    assert data[1..] == ContactBytes(boot) + rest;
    ContactRoundTrip(boot, rest);
    assert data[1 + |ContactBytes(boot)|..] == rest;
  }

  /** Decoding inverts encoding up to the equality the source defines. */
  lemma ResponseRoundTrip(r: JoinResponse)
    requires EncodableResponse(r)
    ensures ReadResponse(ResponseBytes(r)).Some? && SameResponse(ReadResponse(ResponseBytes(r)).value, r)
  {
    CountedIff(CountedBytes(r.peers), r.peers);
    ReadResponseParts(if r.accepted then 1 else 0, Bootstrap(r), CountedBytes(r.peers));
  }

  /** Field by field the response comes back exactly if its two copies of the bootstrap identifier agree. */
  lemma ResponseExactIff(r: JoinResponse)
    requires EncodableResponse(r)
    ensures ReadResponse(ResponseBytes(r)) == Some(r) <==> r.bootstrapContact.id == r.bootstrapId
  {
    ResponseRoundTrip(r);
    var read := ReadResponse(ResponseBytes(r)).value;
    assert read.bootstrapId == read.bootstrapContact.id && Bootstrap(read) == Bootstrap(r);
    if r.bootstrapContact.id == r.bootstrapId {
      assert Bootstrap(r) == r.bootstrapContact && read == r;
    }
  }

  lemma ReadResponseUnfolds(data: seq<byte>) returns (boot: NodeContact, rest: seq<byte>, peers: seq<NodeContact>)
    requires ReadResponse(data).Some?
    ensures data != [] && ReadResponse(data) == Some(JoinResponse(data[0] != 0, boot, boot.id, peers))
    ensures EncodableContact(boot) && data[1..] == ContactBytes(boot) + rest && ReadCounted(rest) == Some(peers)
  {
    ContactCanonical(data[1..]);
    var r := ReadContact(data[1..]).value;
    boot, rest := r.contact, data[1 + r.consumed..];
    peers := ReadCounted(rest).value;
    assert data[1..][r.consumed..] == rest;
  }

  /** Any accepted data re-encodes to itself, except that every non-zero flag becomes 1. */
  lemma ResponseReencodes(data: seq<byte>)
    requires ReadResponse(data).Some?
    ensures var r := ReadResponse(data).value;
            EncodableResponse(r) && ResponseBytes(r) == [if data[0] == 0 then 0 else 1] + data[1..]
  {
    var boot, rest, peers := ReadResponseUnfolds(data);
    CountedIff(rest, peers);
    Reassociate([if data[0] == 0 then 0 else 1], ContactBytes(boot), rest);
  }

  /** A join response on the wire: the flag, the bootstrap contact under the bootstrap identifier if it has none of its
      own, the list of peers. */
  ghost predicate ResponseLaidOut(r: JoinResponse, flag: byte, data: seq<byte>) {
    var k := 96 + |r.bootstrapContact.endpoint|;
    var id := if forall i | 0 <= i < 32 :: r.bootstrapContact.id[i] == 0 then r.bootstrapId else r.bootstrapContact.id;
    && |data| >= k && data[0] == flag
    && ContactLaidOut(r.bootstrapContact.(id := id), data[1..k]) && ListLaidOut(r.peers, data[k..])
  }

  lemma ResponseIsLaidOut(r: JoinResponse)
    requires EncodableResponse(r)
    ensures ResponseLaidOut(r, if r.accepted then 1 else 0, ResponseBytes(r))
  {
    JoinedInThree(if r.accepted then 1 else 0 as byte, ContactBytes(Bootstrap(r)), CountedBytes(r.peers));
    EmptyIsZeros(r.bootstrapContact.id);
    ContactIsLaidOut(Bootstrap(r));
    ListLayout(r.peers, CountedBytes(r.peers));
  }

  lemma LaidOutIsResponse(r: JoinResponse, data: seq<byte>)
    requires ResponseLaidOut(r, if r.accepted then 1 else 0, data)
    ensures EncodableResponse(r) && data == ResponseBytes(r)
  {
    var k := 96 + |r.bootstrapContact.endpoint|;
    EmptyIsZeros(r.bootstrapContact.id);
    LaidOutIsContact(Bootstrap(r), data[1..k]);
    ListLayout(r.peers, data[k..]);
    CutInThree(data, k);
  }

  lemma ResponseLayout(r: JoinResponse, data: seq<byte>)
    ensures EncodableResponse(r) && data == ResponseBytes(r) <==> ResponseLaidOut(r, if r.accepted then 1 else 0, data)
  {
    if EncodableResponse(r) {
      ResponseIsLaidOut(r);
    }
    if ResponseLaidOut(r, if r.accepted then 1 else 0, data) {
      LaidOutIsResponse(r, data);
    }
  }

  /** A response as it can be read: any flag but zero stands for accepted, and one bootstrap identifier is found in both
      places, whatever it is. */
  ghost predicate ResponseReadable(r: JoinResponse, data: seq<byte>) {
    var k := 96 + |r.bootstrapContact.endpoint|;
    && |data| >= k && r.accepted == (data[0] != 0) && r.bootstrapId == r.bootstrapContact.id
    && ContactLaidOut(r.bootstrapContact, data[1..k]) && ListLaidOut(r.peers, data[k..])
  }

  lemma PartsAreReadable(data: seq<byte>, boot: NodeContact, rest: seq<byte>, peers: seq<NodeContact>)
    requires data != [] && EncodableContact(boot) && data[1..] == ContactBytes(boot) + rest
    requires ReadCounted(rest) == Some(peers)
    ensures ResponseReadable(JoinResponse(data[0] != 0, boot, boot.id, peers), data)
  {
    var k := 96 + |boot.endpoint|;
    assert data[1..k] == data[1..][..k - 1] && data[k..] == data[1..][k - 1..];
    ContactLayout(boot, data[1..k]);
    CountedIff(rest, peers);
    ListLayout(peers, rest);
  }

  lemma ReadableIsRead(data: seq<byte>, r: JoinResponse)
    requires ResponseReadable(r, data)
    ensures ReadResponse(data) == Some(r)
  {
    var k := 96 + |r.bootstrapContact.endpoint|;
    LaidOutIsContact(r.bootstrapContact, data[1..k]);
    ListLayout(r.peers, data[k..]);
    CountedIff(data[k..], r.peers);
    ReadResponseParts(data[0], r.bootstrapContact, data[k..]);
    CutInThree(data, k);
  }

  lemma ReadResponseIff(data: seq<byte>, r: JoinResponse)
    ensures ReadResponse(data) == Some(r) <==> ResponseReadable(r, data)
  {
    if ReadResponse(data).Some? {
      var boot, rest, peers := ReadResponseUnfolds(data);
      PartsAreReadable(data, boot, rest, peers);
    }
    if ResponseReadable(r, data) {
      ReadableIsRead(data, r);
    }
  }

  lemma OneTimesMore(n: nat, size: nat)
    ensures (n + 1) * size == n * size + size
  {
  }

  lemma {:induction false} ContactsSize(peers: seq<NodeContact>, limit: nat)
    requires forall i | 0 <= i < |peers| :: |peers[i].endpoint| <= limit
    ensures |ContactsBytes(peers)| <= |peers| * (MIN_CONTACT_SIZE + limit)
    ensures (forall i | 0 <= i < |peers| :: |peers[i].endpoint| == limit) ==>
              |ContactsBytes(peers)| == |peers| * (MIN_CONTACT_SIZE + limit)
  {
    if peers != [] {
      var n := |peers| - 1;
      ContactsSize(peers[..n], limit);
      assert |ContactsBytes(peers)| == |ContactsBytes(peers[..n])| + MIN_CONTACT_SIZE + |peers[n].endpoint|;
      OneTimesMore(n, MIN_CONTACT_SIZE + limit);
    }
  }

  lemma ResponseSize(r: JoinResponse, limit: nat)
    requires EncodableResponse(r) && |r.bootstrapContact.endpoint| <= limit
    requires forall i | 0 <= i < |r.peers| :: |r.peers[i].endpoint| <= limit
    ensures |ResponseBytes(r)| <= 3 + (|r.peers| + 1) * (MIN_CONTACT_SIZE + limit)
    ensures (forall i | 0 <= i < |r.peers| :: |r.peers[i].endpoint| == limit)
            && |r.bootstrapContact.endpoint| == limit ==>
              |ResponseBytes(r)| == 3 + (|r.peers| + 1) * (MIN_CONTACT_SIZE + limit)
  {
    ContactsSize(r.peers, limit);
    OneTimesMore(|r.peers|, MIN_CONTACT_SIZE + limit);
  }

  /** A response with all its peers, inside its control message, fits one frame when no endpoint exceeds 97 bytes. */
  lemma ResponseFitsFrame(r: JoinResponse)
    requires EncodableResponse(r) && |r.bootstrapContact.endpoint| <= 97
    requires forall i | 0 <= i < |r.peers| :: |r.peers[i].endpoint| <= 97
    ensures CONTROL_MESSAGE_HEADER_SIZE + |ResponseBytes(r)| <= MAX_FRAME_PAYLOAD
  {
    ResponseSize(r, 97);
  }

  /** The bound is exact: KADEMLIA_K peers with endpoints of one length fit if and only if that length is at most 97. */
  lemma FullResponseFitsIff(r: JoinResponse, length: nat)
    requires EncodableResponse(r) && |r.peers| == KADEMLIA_K && |r.bootstrapContact.endpoint| == length
    requires forall i | 0 <= i < |r.peers| :: |r.peers[i].endpoint| == length
    ensures CONTROL_MESSAGE_HEADER_SIZE + |ResponseBytes(r)| <= MAX_FRAME_PAYLOAD <==> length <= 97
  {
    ResponseSize(r, length);
  }

  // ---------- the encoders and decoders as they run ----------

  /** The fields as they are appended. */
  lemma ContactInOrder(c: NodeContact)
    ensures Head(c) + c.endpoint + BigEndian(c.lastSeen, 8) + BigEndian(c.rtt, 4) + [c.failedPings] == ContactBytes(c)
  {
    var front, a, b := Head(c) + c.endpoint, BigEndian(c.lastSeen, 8), BigEndian(c.rtt, 4);
    Reassociate(front, a, b);
    Reassociate(front, a + b, [c.failedPings]);
  }

  method SerializeNodeContact(c: NodeContact) returns (buffer: seq<byte>)
    ensures buffer == if EncodableContact(c) then ContactBytes(c) else []
    ensures if |c.endpoint| <= 255 then ContactLaidOut(c, buffer) else buffer == []
  {
    if |c.endpoint| > MAX_CONTACT_ENDPOINT_SIZE {
      return [];
    }
    buffer := c.id;
    buffer := buffer + c.publicKey;
    buffer := buffer + c.virtualAddress;
    buffer := AppendBigEndian(buffer, |c.endpoint|, 2);
    assert buffer == Head(c);
    buffer := buffer + c.endpoint;
    buffer := AppendBigEndian(buffer, c.lastSeen, 8);
    buffer := AppendBigEndian(buffer, c.rtt, 4);
    buffer := buffer + [c.failedPings];
    ContactInOrder(c);
    ContactIsLaidOut(c);
  }

  method DeserializeNodeContact(data: seq<byte>) returns (r: Option<ContactRead>)
    ensures r == ReadContact(data)
  {
    if |data| < MIN_CONTACT_SIZE {
      return None;
    }
    var length := ReadBigEndian(data[80..82]);
    var size := MIN_CONTACT_SIZE + length;
    if length > MAX_CONTACT_ENDPOINT_SIZE || |data| < size {
      return None;
    }
    var offset := 82 + length;
    var lastSeen := ReadBigEndian(data[offset..offset + 8]);
    offset := offset + 8;
    var rtt := ReadBigEndian(data[offset..offset + 4]);
    offset := offset + 4;
    assert lastSeen == ReadUint64(data[82 + length..90 + length]) && rtt == ReadUint32(data[90 + length..94 + length]);
    var c := NodeContact(data[..32], data[32..64], data[64..80], data[82..82 + length], lastSeen, rtt, data[offset]);
    return Some(ContactRead(c, size));
  }

  lemma OneMoreContact(buffer: seq<byte>, peers: seq<NodeContact>, i: nat)
    requires i < |peers| && AllEncodable(peers[..i]) && EncodableContact(peers[i])
    ensures AllEncodable(peers[..i + 1])
    ensures buffer + ContactsBytes(peers[..i + 1]) == buffer + ContactsBytes(peers[..i]) + ContactBytes(peers[i])
  {
    assert peers[..i + 1][..i] == peers[..i];
    Reassociate(buffer, ContactsBytes(peers[..i]), ContactBytes(peers[i]));
  }

  method AppendContacts(buffer: seq<byte>, peers: seq<NodeContact>) returns (r: Option<seq<byte>>)
    ensures r == if AllEncodable(peers) then Some(buffer + ContactsBytes(peers)) else None
  {
    var out := buffer;
    for i := 0 to |peers|
      invariant AllEncodable(peers[..i])
      invariant out == buffer + ContactsBytes(peers[..i])
    {
      var bytes := SerializeNodeContact(peers[i]);
      if bytes == [] {
        return None;
      }
      OneMoreContact(buffer, peers, i);
      out := out + bytes;
    }
    assert peers[..|peers|] == peers;
    return Some(out);
  }

  method AppendCounted(buffer: seq<byte>, peers: seq<NodeContact>) returns (r: Option<seq<byte>>)
    requires |peers| <= KADEMLIA_K
    ensures r == if EncodableAll(peers) then Some(buffer + CountedBytes(peers)) else None
  {
    var counted := AppendBigEndian(buffer, |peers|, 2);
    r := AppendContacts(counted, peers);
    Reassociate(buffer, BigEndian(|peers|, 2), ContactsBytes(peers));
  }

  method SerializeNeighbors(peers: seq<NodeContact>) returns (buffer: seq<byte>)
    ensures buffer == NeighborsBytes(peers)
  {
    if |peers| > KADEMLIA_K {
      return [];
    }
    var all := AppendCounted([], peers);
    return if all.Some? then all.value else [];
  }

  method SerializeJoinResponse(r: JoinResponse) returns (buffer: seq<byte>)
    ensures buffer == ResponseBytes(r)
  {
    if |r.peers| > KADEMLIA_K {
      return [];
    }
    var boot := r.bootstrapContact;
    if boot.id == EMPTY_NODE_ID {
      boot := boot.(id := r.bootstrapId);
    }
    buffer := [if r.accepted then 1 else 0];
    var bytes := SerializeNodeContact(boot);
    if bytes == [] {
      return [];
    }
    buffer := buffer + bytes;
    var all := AppendCounted(buffer, r.peers);
    return if all.Some? then all.value else [];
  }

  /** What the rest of the data reads as, given the contacts read so far. */
  function Continued(peers: seq<NodeContact>, rest: Option<seq<NodeContact>>): Option<seq<NodeContact>> {
    if rest.Some? then Some(peers + rest.value) else None
  }

  /** The body of the loop both decoders share. */
  method DeserializeOne(data: seq<byte>, peers: seq<NodeContact>, offset: nat, ghost goal: Option<seq<NodeContact>>,
                        ghost left: nat)
      returns (ok: bool, peers': seq<NodeContact>, offset': nat, ghost left': nat)
    requires offset <= |data| && left > 0 && Ahead(goal, peers, data, offset, left)
    ensures offset <= offset' <= |data|
    ensures left' == left - 1 && if ok then Ahead(goal, peers', data, offset', left') else goal.None?
  {
    if offset >= |data| {
      NoContact(goal, peers, data, offset, left);
      return false, peers, offset, left - 1;
    }
    var one := DeserializeNodeContact(data[offset..]);
    if one.None? {
      NoContact(goal, peers, data, offset, left);
      return false, peers, offset, left - 1;
    }
    NextContact(goal, peers, data, offset, left, one.value);
    return true, peers + [one.value.contact], offset + one.value.consumed, left - 1;
  }

  /** The loop both decoders share: count contacts from offset on, then the data must end. */
  method DeserializeContacts(data: seq<byte>, start: nat, count: nat) returns (r: Option<seq<NodeContact>>)
    requires start <= |data|
    ensures r == ReadContacts(data[start..], count)
  {
    var peers: seq<NodeContact> := [];
    var offset, i := start, 0;
    ghost var left, goal := count, ReadContacts(data[start..], count);
    NothingRead(data, start, count);
    while i < count
      invariant 0 <= i <= count && left == count - i && start <= offset <= |data|
      invariant Ahead(goal, peers, data, offset, left)
    {
      var ok;
      ok, peers, offset, left := DeserializeOne(data, peers, offset, goal, left);
      if !ok {
        return None;
      }
      i := i + 1;
    }
    NoneLeft(goal, peers, data, offset);
    return if offset != |data| then None else Some(peers);
  }

  /** The goal of the loop is still ahead: it is what has been read so far and then what the rest reads as. */
  ghost predicate Ahead(goal: Option<seq<NodeContact>>, peers: seq<NodeContact>, data: seq<byte>, offset: nat,
                        left: nat)
    requires offset <= |data|
  {
    goal == Continued(peers, ReadContacts(data[offset..], left))
  }

  lemma NothingRead(data: seq<byte>, start: nat, count: nat)
    requires start <= |data|
    ensures Ahead(ReadContacts(data[start..], count), [], data, start, count)
  {
    ContinuedByNone(ReadContacts(data[start..], count));
  }

  lemma NoneLeft(goal: Option<seq<NodeContact>>, peers: seq<NodeContact>, data: seq<byte>, offset: nat)
    requires offset <= |data| && Ahead(goal, peers, data, offset, 0)
    ensures goal == if offset != |data| then None else Some(peers)
  {
    assert peers + [] == peers;
  }

  lemma NoContact(goal: Option<seq<NodeContact>>, peers: seq<NodeContact>, data: seq<byte>, offset: nat, left: nat)
    requires offset <= |data| && left > 0 && ReadContact(data[offset..]).None? && Ahead(goal, peers, data, offset, left)
    ensures goal.None?
  {
  }

  lemma NextContact(goal: Option<seq<NodeContact>>, peers: seq<NodeContact>, data: seq<byte>, offset: nat, left: nat,
                    one: ContactRead)
    requires offset <= |data| && left > 0 && ReadContact(data[offset..]) == Some(one)
    requires Ahead(goal, peers, data, offset, left)
    ensures offset + one.consumed <= |data|
    ensures Ahead(goal, peers + [one.contact], data, offset + one.consumed, left - 1)
  {
    ContactCanonical(data[offset..]);
    var rest := ReadContacts(data[offset + one.consumed..], left - 1);
    assert data[offset..][one.consumed..] == data[offset + one.consumed..];
    assert ReadContacts(data[offset..], left) == Continued([one.contact], rest);
    ContinuedByOne(peers, one.contact, rest);
  }

  lemma ContinuedByNone(rest: Option<seq<NodeContact>>)
    ensures Continued([], rest) == rest
  {
    if rest.Some? {
      assert [] + rest.value == rest.value;
    }
  }

  lemma ContinuedByOne(peers: seq<NodeContact>, c: NodeContact, rest: Option<seq<NodeContact>>)
    ensures Continued(peers, Continued([c], rest)) == Continued(peers + [c], rest)
  {
    if rest.Some? {
      assert peers + ([c] + rest.value) == (peers + [c]) + rest.value;
    }
  }

  method DeserializeNeighbors(data: seq<byte>) returns (r: Option<seq<NodeContact>>)
    ensures r == ReadCounted(data)
  {
    if |data| < 2 {
      return None;
    }
    var count := ReadBigEndian(data[..2]);
    if count > KADEMLIA_K {
      return None;
    }
    r := DeserializeContacts(data, 2, count);
  }

  method DeserializeJoinResponse(data: seq<byte>) returns (r: Option<JoinResponse>)
    ensures r == ReadResponse(data)
  {
    if data == [] {
      return None;
    }
    var accepted := data[0] != 0;
    var offset := 1;
    var boot := DeserializeNodeContact(data[offset..]);
    if boot.None? {
      return None;
    }
    ContactCanonical(data[1..]);
    offset := offset + boot.value.consumed;
    ghost var counted := data[offset..];
    if |data| < offset + 2 {
      return None;
    }
    var count := ReadBigEndian(data[offset..offset + 2]);
    assert data[offset..offset + 2] == counted[..2] && data[offset + 2..] == counted[2..];
    offset := offset + 2;
    if count > KADEMLIA_K {
      return None;
    }
    var peers := DeserializeContacts(data, offset, count);
    if peers.None? {
      return None;
    }
    return Some(JoinResponse(accepted, boot.value.contact, boot.value.contact.id, peers.value));
  }
}
