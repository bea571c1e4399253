/** The bucket table of known contacts and the query for the closest ones (src/network/kademlia.cpp). */
module Kademlia {
  import opened Bytes
  import opened Arithmetic
  import opened Xor

  const KADEMLIA_K: nat := 20
  const KADEMLIA_BUCKETS: nat := 256

  type PublicKey = s: seq<byte> | |s| == 32 witness seq(32, _ => 0)

  datatype NodeContact = NodeContact(
    id: NodeId,
    publicKey: PublicKey,
    virtualAddress: IPv6,
    endpoint: seq<byte>,
    lastSeen: uint64,
    rtt: uint32,
    failedPings: byte)

  type Bucket = seq<NodeContact>
  type Buckets = s: seq<Bucket> | |s| == KADEMLIA_BUCKETS witness seq(KADEMLIA_BUCKETS, _ => [])

  /** The optional callback that tells whether a contact still answers. */
  type Ping = Option<NodeContact -> bool>

  // ---------- one bucket ----------

  /** Index of the first contact with this identifier, or |bucket|. */
  function IndexOf(bucket: Bucket, id: NodeId): (i: nat)
    ensures i <= |bucket|
    ensures i < |bucket| ==> bucket[i].id == id
    ensures forall j | 0 <= j < i :: bucket[j].id != id
  {
    if bucket == [] || bucket[0].id == id then 0 else 1 + IndexOf(bucket[1..], id)
  }

  function FindIn(bucket: Bucket, id: NodeId): Option<NodeContact> {
    var i := IndexOf(bucket, id);
    if i < |bucket| then Some(bucket[i]) else None
  }

  /** The stored contact after fresh news of it; an empty endpoint is no news. */
  function Refreshed(stored: NodeContact, news: NodeContact): NodeContact {
    stored.(publicKey := news.publicKey,
            virtualAddress := news.virtualAddress,
            endpoint := if news.endpoint == [] then stored.endpoint else news.endpoint,
            lastSeen := news.lastSeen,
            rtt := news.rtt,
            failedPings := 0)
  }

  function Without(bucket: Bucket, i: nat): Bucket
    requires i < |bucket|
  {
    bucket[..i] + bucket[i + 1..]
  }

  /** The bucket after an insertion and what kademlia_insert reports. */
  function Entered(bucket: Bucket, c: NodeContact, ping: Ping): (Bucket, bool) {
    var i := IndexOf(bucket, c.id);
    if i < |bucket| then (Without(bucket, i) + [Refreshed(bucket[i], c)], true)
    else if |bucket| < KADEMLIA_K then (bucket + [c], true)
    else if ping.None? then (bucket, false)
    else if ping.value(bucket[0]) then (bucket[1..] + [bucket[0]], false)
    else (bucket[1..] + [c], true)
  }

  function Erased(bucket: Bucket, id: NodeId): (Bucket, bool) {
    var i := IndexOf(bucket, id);
    if i < |bucket| then (Without(bucket, i), true) else (bucket, false)
  }

  // ---------- the whole table ----------

  function Inserted(local: NodeId, buckets: Buckets, c: NodeContact, ping: Ping): (Buckets, bool) {
    var k := BucketIndex(local, c.id);
    if k >= KADEMLIA_BUCKETS then (buckets, false)
    else
      var (bucket, ok) := Entered(buckets[k], c, ping);
      (buckets[k := bucket], ok)
  }

  function Removed(local: NodeId, buckets: Buckets, id: NodeId): (Buckets, bool) {
    var k := BucketIndex(local, id);
    if k >= KADEMLIA_BUCKETS then (buckets, false)
    else
      var (bucket, ok) := Erased(buckets[k], id);
      (buckets[k := bucket], ok)
  }

  function Find(local: NodeId, buckets: Buckets, id: NodeId): Option<NodeContact> {
    var k := BucketIndex(local, id);
    if k >= KADEMLIA_BUCKETS then None else FindIn(buckets[k], id)
  }

  function Cleared(): Buckets {
    seq(KADEMLIA_BUCKETS, _ => [])
  }

  // ---------- the invariant ----------

  ghost predicate UniqueIds(contacts: seq<NodeContact>) {
    forall i, j | 0 <= i < j < |contacts| :: contacts[i].id != contacts[j].id
  }

  /** Bucket k holds at most KADEMLIA_K contacts, all different, whose common prefix with local is k bits long. */
  ghost predicate ValidBucket(local: NodeId, k: nat, bucket: Bucket) {
    && |bucket| <= KADEMLIA_K
    && UniqueIds(bucket)
    && forall c | c in bucket :: BucketIndex(local, c.id) == k
  }

  ghost predicate Valid(local: NodeId, buckets: Buckets) {
    forall k | 0 <= k < KADEMLIA_BUCKETS :: ValidBucket(local, k, buckets[k])
  }

  lemma IndexOfIs(bucket: Bucket, i: nat)
    requires UniqueIds(bucket) && i < |bucket|
    ensures IndexOf(bucket, bucket[i].id) == i
  {
  }

  lemma FindInIs(bucket: Bucket, c: NodeContact)
    requires UniqueIds(bucket)
    ensures FindIn(bucket, c.id) == Some(c) <==> c in bucket
  {
    if c in bucket {
      var i :| 0 <= i < |bucket| && bucket[i] == c;
      IndexOfIs(bucket, i);
    }
  }

  lemma WithoutMembers(bucket: Bucket, i: nat)
    requires UniqueIds(bucket) && i < |bucket|
    ensures UniqueIds(Without(bucket, i))
    ensures forall c :: c in Without(bucket, i) <==> c in bucket && c.id != bucket[i].id
  {
    var after := Without(bucket, i);
    forall j | 0 <= j < |bucket| && j != i ensures bucket[j] in after {
      assert after[if j < i then j else j - 1] == bucket[j];
    }
  }

  lemma WithoutFinds(bucket: Bucket, i: nat, id: NodeId)
    requires UniqueIds(bucket) && i < |bucket|
    ensures UniqueIds(Without(bucket, i))
    ensures FindIn(Without(bucket, i), id) == if id == bucket[i].id then None else FindIn(bucket, id)
    ensures forall c | c in Without(bucket, i) :: c in bucket
  {
    WithoutMembers(bucket, i);
    var after, held := Without(bucket, i), FindIn(bucket, id);
    if held.Some? && id != bucket[i].id {
      FindInIs(after, held.value);
    } else {
      assert forall c | c in after :: c.id != id;
    }
  }

  lemma AppendedFinds(bucket: Bucket, c: NodeContact, id: NodeId)
    requires UniqueIds(bucket) && FindIn(bucket, c.id).None?
    ensures UniqueIds(bucket + [c])
    ensures FindIn(bucket + [c], id) == if id == c.id then Some(c) else FindIn(bucket, id)
  {
    var after, j := bucket + [c], IndexOf(bucket, id);
    assert after[if j < |bucket| then j else |bucket|] in after;
    if FindIn(bucket, id).Some? {
      FindInIs(after, bucket[j]);
    } else if id == c.id {
      FindInIs(after, c);
    }
  }

  /** One contact goes and one that is not held otherwise comes in at the end. */
  lemma MovedFinds(local: NodeId, k: nat, bucket: Bucket, i: nat, last: NodeContact, id: NodeId)
    requires ValidBucket(local, k, bucket) && i < |bucket| && BucketIndex(local, last.id) == k
    requires last.id == bucket[i].id || FindIn(bucket, last.id).None?
    ensures ValidBucket(local, k, Without(bucket, i) + [last])
    ensures FindIn(Without(bucket, i) + [last], id)
         == if id == last.id then Some(last) else if id == bucket[i].id then None else FindIn(bucket, id)
  {
    WithoutFinds(bucket, i, last.id);
    WithoutFinds(bucket, i, id);
    AppendedFinds(Without(bucket, i), last, id);
  }

  /** What a bucket finds for every identifier after an insertion: the contact itself when it was accepted, and of the
      others all but the oldest, which goes exactly when the bucket is full and the oldest does not answer. */
  lemma EnteredFinds(local: NodeId, k: nat, bucket: Bucket, c: NodeContact, ping: Ping, id: NodeId)
    requires ValidBucket(local, k, bucket) && BucketIndex(local, c.id) == k
    ensures ValidBucket(local, k, Entered(bucket, c, ping).0)
    ensures FindIn(Entered(bucket, c, ping).0, id) == AfterEntering(bucket, c, ping, id)
    ensures Entered(bucket, c, ping).1 <==> Accepts(bucket, c, ping)
  {
    var i := IndexOf(bucket, c.id);
    if i < |bucket| {
      MovedFinds(local, k, bucket, i, Refreshed(bucket[i], c), id);
    } else if |bucket| < KADEMLIA_K {
      AppendedFinds(bucket, c, id);
    } else if ping.Some? {
      assert Without(bucket, 0) == bucket[1..];
      MovedFinds(local, k, bucket, 0, if ping.value(bucket[0]) then bucket[0] else c, id);
    }
  }

  predicate Evicts(bucket: Bucket, c: NodeContact, ping: Ping) {
    |bucket| >= KADEMLIA_K && FindIn(bucket, c.id).None? && ping.Some? && !ping.value(bucket[0])
  }

  predicate Accepts(bucket: Bucket, c: NodeContact, ping: Ping) {
    FindIn(bucket, c.id).Some? || |bucket| < KADEMLIA_K || Evicts(bucket, c, ping)
  }

  function AfterEntering(bucket: Bucket, c: NodeContact, ping: Ping, id: NodeId): Option<NodeContact> {
    var held := FindIn(bucket, id);
    if id == c.id then
      if held.Some? then Some(Refreshed(held.value, c)) else if Accepts(bucket, c, ping) then Some(c) else None
    else if Evicts(bucket, c, ping) && id == bucket[0].id then None
    else held
  }

  // ---------- every operation, on the whole table ----------

  /** Insertion keeps the table valid, and this is what every lookup finds afterwards. */
  lemma InsertedFinds(local: NodeId, buckets: Buckets, c: NodeContact, ping: Ping, id: NodeId)
    requires Valid(local, buckets)
    ensures Valid(local, Inserted(local, buckets, c, ping).0)
    ensures var k := BucketIndex(local, c.id);
            && Inserted(local, buckets, c, ping).1 == (k < KADEMLIA_BUCKETS && Accepts(buckets[k], c, ping))
            && Find(local, Inserted(local, buckets, c, ping).0, id)
               == if k < KADEMLIA_BUCKETS && BucketIndex(local, id) == k then AfterEntering(buckets[k], c, ping, id)
                  else Find(local, buckets, id)
  {
    BucketIndexRange(local, c.id);
    BucketIndexRange(local, id);
    if c.id != local {
      var k := BucketIndex(local, c.id);
      EnteredFinds(local, k, buckets[k], c, ping, id);
    }
  }

  /** What is known of an identifier after a known contact was inserted again: everything the news says, except that an
      empty endpoint is no news, and no failed pings. */
  lemma KnownIsRefreshed(local: NodeId, buckets: Buckets, c: NodeContact, ping: Ping)
    requires Valid(local, buckets) && Find(local, buckets, c.id).Some?
    ensures var (buckets', ok) := Inserted(local, buckets, c, ping);
            var was, now := Find(local, buckets, c.id).value, Find(local, buckets', c.id);
            && ok && now.Some?
            && now.value.id == c.id && now.value.publicKey == c.publicKey
               && now.value.virtualAddress == c.virtualAddress
            && now.value.endpoint == (if |c.endpoint| > 0 then c.endpoint else was.endpoint)
            && now.value.lastSeen == c.lastSeen && now.value.rtt == c.rtt && now.value.failedPings == 0
  {
    InsertedFinds(local, buckets, c, ping, c.id);
    BucketIndexRange(local, c.id);
  }

  /** What is known of every identifier after an unknown contact was offered: it is added as it is when its bucket has
      room; otherwise it takes the place of the bucket's oldest contact if that does not answer its ping, and nothing
      changes if it does or nobody can be pinged. */
  lemma UnknownIsAddedOrNot(local: NodeId, buckets: Buckets, c: NodeContact, ping: Ping, id: NodeId)
    requires Valid(local, buckets) && Find(local, buckets, c.id).None? && c.id != local
    ensures BucketIndex(local, c.id) < 256
    ensures var bucket, (buckets', ok) := buckets[BucketIndex(local, c.id)], Inserted(local, buckets, c, ping);
            if |bucket| < 20 || (ping.Some? && !ping.value(bucket[0]))
            then && ok
                 && Find(local, buckets', id)
                    == if id == c.id then Some(c)
                       else if |bucket| >= 20 && id == bucket[0].id then None else Find(local, buckets, id)
            else !ok && Find(local, buckets', id) == Find(local, buckets, id)
  {
    InsertedFinds(local, buckets, c, ping, id);
    BucketIndexRange(local, c.id);
    var bucket := buckets[BucketIndex(local, c.id)];
    if |bucket| > 0 {
      assert bucket[0] in bucket;
    }
  }

  /** Removal reports whether the identifier was known, and makes exactly that one unknown. */
  lemma RemovedFinds(local: NodeId, buckets: Buckets, removed: NodeId, id: NodeId)
    requires Valid(local, buckets)
    ensures Valid(local, Removed(local, buckets, removed).0)
    ensures Removed(local, buckets, removed).1 == Find(local, buckets, removed).Some?
    ensures Find(local, Removed(local, buckets, removed).0, id)
            == if id == removed then None else Find(local, buckets, id)
  {
    var k := BucketIndex(local, removed);
    if k < KADEMLIA_BUCKETS && IndexOf(buckets[k], removed) < |buckets[k]| {
      WithoutFinds(buckets[k], IndexOf(buckets[k], removed), id);
    }
  }

  // ---------- the flat list ----------

  /** All contacts, bucket after bucket. */
  function Flat(buckets: seq<Bucket>): seq<NodeContact> {
    if buckets == [] then [] else Flat(buckets[..|buckets| - 1]) + buckets[|buckets| - 1]
  }

  lemma {:induction false} FlatMembers(buckets: seq<Bucket>, c: NodeContact)
    ensures c in Flat(buckets) <==> exists k :: 0 <= k < |buckets| && c in buckets[k]
  {
    if buckets != [] {
      var n := |buckets| - 1;
      FlatMembers(buckets[..n], c);
      if c in Flat(buckets[..n]) {
        var k :| 0 <= k < n && c in buckets[..n][k];
        assert c in buckets[k];
      }
      if k :| 0 <= k < |buckets| && c in buckets[k] {
        assert k < n ==> c in buckets[..n][k];
      }
    }
  }

  lemma {:induction false} FlatUnique(local: NodeId, buckets: seq<Bucket>)
    requires forall k | 0 <= k < |buckets| :: ValidBucket(local, k, buckets[k])
    ensures UniqueIds(Flat(buckets))
  {
    if buckets != [] {
      var n := |buckets| - 1;
      FlatUnique(local, buckets[..n]);
      var low := Flat(buckets[..n]);
      forall c, d | c in low && d in buckets[n] ensures c.id != d.id {
        FlatMembers(buckets[..n], c);
        var k :| 0 <= k < n && c in buckets[..n][k];
        assert c in buckets[k];
      }
      forall i, j | 0 <= i < j < |Flat(buckets)| ensures Flat(buckets)[i].id != Flat(buckets)[j].id {
        if i < |low| <= j {
          assert low[i] in low && buckets[n][j - |low|] in buckets[n];
        }
      }
    }
  }

  /** Looking in one bucket finds exactly what a scan of the whole table finds. */
  lemma FindIsScan(local: NodeId, buckets: Buckets, id: NodeId)
    requires Valid(local, buckets)
    ensures Find(local, buckets, id) == FindIn(Flat(buckets), id)
    ensures UniqueIds(Flat(buckets)) && FindIn(Flat(buckets), local).None?
  {
    FlatUnique(local, buckets);
    forall c | c in Flat(buckets) ensures Find(local, buckets, c.id) == Some(c) && c.id != local {
      FlatMembers(buckets, c);
      var k :| 0 <= k < |buckets| && c in buckets[k];
      FindInIs(buckets[k], c);
      BucketIndexRange(local, c.id);
    }
    if Find(local, buckets, id).Some? {
      var c := Find(local, buckets, id).value;
      FlatMembers(buckets, c);
      FindInIs(Flat(buckets), c);
    }
  }

  /** Contacts in a higher bucket are strictly closer to the local node. */
  lemma HigherBucketsAreCloser(local: NodeId, buckets: Buckets, low: nat, high: nat, a: NodeContact, b: NodeContact)
    requires Valid(local, buckets) && low < high < KADEMLIA_BUCKETS
    requires a in buckets[high] && b in buckets[low]
    ensures Closer(local, a.id, b.id)
  {
    HigherBucketIsCloser(local, a.id, b.id);
  }

  // ---------- runs ----------

  datatype Step = Init(local: NodeId) | Insert(contact: NodeContact, ping: Ping) | Remove(id: NodeId) | Clear

  /** A table together with, for every identifier, the time it last gave a sign of life; now is the time of the next
      step. */
  datatype Trace = Trace(local: NodeId, buckets: Buckets, seen: map<NodeId, nat>, now: nat)

  function AliveIn(bucket: Bucket, c: NodeContact, ping: Ping): Option<NodeId> {
    if Accepts(bucket, c, ping) then Some(c.id) else if ping.Some? then Some(bucket[0].id) else None
  }

  /** The contact that gives a sign of life in an insertion: the one inserted, or the oldest when it answers the ping.
      */
  function Alive(local: NodeId, buckets: Buckets, c: NodeContact, ping: Ping): Option<NodeId> {
    var k := BucketIndex(local, c.id);
    if k < KADEMLIA_BUCKETS then AliveIn(buckets[k], c, ping) else None
  }

  function After(t: Trace, step: Step): Trace {
    match step
    case Init(local) => Trace(local, Cleared(), t.seen, t.now + 1)
    case Clear => t.(buckets := Cleared(), now := t.now + 1)
    case Remove(id) => t.(buckets := Removed(t.local, t.buckets, id).0, now := t.now + 1)
    case Insert(c, ping) =>
      t.(buckets := Inserted(t.local, t.buckets, c, ping).0,
         seen := Heard(t.seen, Alive(t.local, t.buckets, c, ping), t.now),
         now := t.now + 1)
  }

  function Run(t: Trace, steps: seq<Step>): Trace {
    if steps == [] then t else After(Run(t, steps[..|steps| - 1]), steps[|steps| - 1])
  }

  /** A bucket lists its contacts from the longest silent to the one heard from last. */
  ghost predicate BySilence(bucket: Bucket, seen: map<NodeId, nat>, now: nat) {
    && (forall c | c in bucket :: c.id in seen && seen[c.id] < now)
    && forall i, j | 0 <= i < j < |bucket| :: seen[bucket[i].id] < seen[bucket[j].id]
  }

  ghost predicate Invariant(t: Trace) {
    Valid(t.local, t.buckets) && forall k | 0 <= k < KADEMLIA_BUCKETS :: BySilence(t.buckets[k], t.seen, t.now)
  }

  lemma WithoutBySilence(bucket: Bucket, i: nat, seen: map<NodeId, nat>, now: nat)
    requires BySilence(bucket, seen, now) && i < |bucket|
    ensures BySilence(Without(bucket, i), seen, now)
  {
  }

  lemma AppendedBySilence(bucket: Bucket, c: NodeContact, seen: map<NodeId, nat>, now: nat)
    requires BySilence(bucket, seen, now) && FindIn(bucket, c.id).None?
    ensures BySilence(bucket + [c], seen[c.id := now], now + 1)
  {
  }

  /** The map of signs of life after this one. */
  function Heard(seen: map<NodeId, nat>, alive: Option<NodeId>, now: nat): map<NodeId, nat> {
    if alive.Some? then seen[alive.value := now] else seen
  }

  /** Taking a contact out, if there was one, and putting one that was heard just now at the back keeps the order. */
  lemma MovedBySilence(rest: Bucket, c: NodeContact, seen: map<NodeId, nat>, alive: Option<NodeId>, now: nat)
    requires BySilence(rest, seen, now) && FindIn(rest, c.id).None? && alive == Some(c.id)
    ensures BySilence(rest + [c], Heard(seen, alive, now), now + 1)
  {
    AppendedBySilence(rest, c, seen, now);
  }

  lemma ReplacedBySilence(bucket: Bucket, i: nat, last: NodeContact, seen: map<NodeId, nat>, alive: Option<NodeId>,
                          now: nat)
    requires UniqueIds(bucket) && BySilence(bucket, seen, now) && i < |bucket| && alive == Some(last.id)
    requires last.id == bucket[i].id || FindIn(bucket, last.id).None?
    ensures BySilence(Without(bucket, i) + [last], Heard(seen, alive, now), now + 1)
  {
    WithoutFinds(bucket, i, last.id);
    WithoutBySilence(bucket, i, seen, now);
    MovedBySilence(Without(bucket, i), last, seen, alive, now);
  }

  lemma EnteredBySilence(bucket: Bucket, c: NodeContact, ping: Ping, seen: map<NodeId, nat>, now: nat)
    requires UniqueIds(bucket) && BySilence(bucket, seen, now)
    ensures BySilence(Entered(bucket, c, ping).0, Heard(seen, AliveIn(bucket, c, ping), now), now + 1)
  {
    var i, alive := IndexOf(bucket, c.id), AliveIn(bucket, c, ping);
    if i < |bucket| {
      ReplacedBySilence(bucket, i, Refreshed(bucket[i], c), seen, alive, now);
    } else if |bucket| < KADEMLIA_K {
      MovedBySilence(bucket, c, seen, alive, now);
    } else if ping.Some? {
      assert Without(bucket, 0) == bucket[1..];
      ReplacedBySilence(bucket, 0, if ping.value(bucket[0]) then bucket[0] else c, seen, alive, now);
    } else {
      OtherBySilence(bucket, seen, None, now);
    }
  }

  lemma OtherBySilence(bucket: Bucket, seen: map<NodeId, nat>, alive: Option<NodeId>, now: nat)
    requires BySilence(bucket, seen, now)
    requires alive.Some? ==> forall c | c in bucket :: c.id != alive.value
    ensures BySilence(bucket, Heard(seen, alive, now), now + 1)
  {
  }

  lemma InsertKeepsInvariant(t: Trace, c: NodeContact, ping: Ping)
    requires Invariant(t)
    ensures Invariant(After(t, Insert(c, ping)))
  {
    InsertedFinds(t.local, t.buckets, c, ping, c.id);
    var alive := Alive(t.local, t.buckets, c, ping);
    var k := BucketIndex(t.local, c.id);
    forall i | 0 <= i < KADEMLIA_BUCKETS
      ensures BySilence(After(t, Insert(c, ping)).buckets[i], Heard(t.seen, alive, t.now), t.now + 1)
    {
      if i == k {
        EnteredBySilence(t.buckets[k], c, ping, t.seen, t.now);
      } else {
        assert alive.Some? ==> BucketIndex(t.local, alive.value) == k;
        OtherBySilence(t.buckets[i], t.seen, alive, t.now);
      }
    }
  }

  lemma RemoveKeepsInvariant(t: Trace, id: NodeId)
    requires Invariant(t)
    ensures Invariant(After(t, Remove(id)))
  {
    RemovedFinds(t.local, t.buckets, id, id);
    var t' := After(t, Remove(id));
    forall k | 0 <= k < KADEMLIA_BUCKETS ensures BySilence(t'.buckets[k], t.seen, t.now + 1) {
      OtherBySilence(t.buckets[k], t.seen, None, t.now);
      if t'.buckets[k] != t.buckets[k] {
        WithoutBySilence(t.buckets[k], IndexOf(t.buckets[k], id), t.seen, t.now + 1);
      }
    }
  }

  lemma AfterKeepsInvariant(t: Trace, step: Step)
    requires Invariant(t)
    ensures Invariant(After(t, step))
  {
    match step
    case Insert(c, ping) => InsertKeepsInvariant(t, c, ping);
    case Remove(id) => RemoveKeepsInvariant(t, id);
    case _ =>
  }

  /** Only the longest silent contact of a full bucket is ever evicted, and only when it does not answer. */
  lemma EvictedIsLongestSilent(t: Trace, c: NodeContact, ping: Ping, gone: NodeContact)
    requires Invariant(t)
    ensures Find(t.local, t.buckets, gone.id) == Some(gone)
            && Find(t.local, After(t, Insert(c, ping)).buckets, gone.id).None?
            ==> var k := BucketIndex(t.local, c.id);
                && k == BucketIndex(t.local, gone.id) < KADEMLIA_BUCKETS
                && |t.buckets[k]| == KADEMLIA_K && gone in t.buckets[k]
                && ping.Some? && !ping.value(gone)
                && forall other | other in t.buckets[k] && other != gone :: t.seen[gone.id] < t.seen[other.id]
  {
    if Find(t.local, t.buckets, gone.id) == Some(gone)
       && Find(t.local, After(t, Insert(c, ping)).buckets, gone.id).None? {
      InsertedFinds(t.local, t.buckets, c, ping, gone.id);
      var bucket := t.buckets[BucketIndex(t.local, c.id)];
      assert FindIn(bucket, gone.id) == Some(bucket[0]);
    }
  }

  /** After any run from an empty table, whatever the pings answered: every bucket is valid and ordered by silence. */
  lemma {:induction false} RunKeepsInvariant(local: NodeId, steps: seq<Step>)
    ensures Invariant(Run(Trace(local, Cleared(), map[], 0), steps))
  {
    if steps != [] {
      RunKeepsInvariant(local, steps[..|steps| - 1]);
      AfterKeepsInvariant(Run(Trace(local, Cleared(), map[], 0), steps[..|steps| - 1]), steps[|steps| - 1]);
    }
  }

  // ---------- the closest contacts ----------

  ghost predicate Ascending(target: NodeId, s: seq<NodeContact>) {
    forall i, j | 0 <= i < j < |s| :: Gap(target, s[i].id) < Gap(target, s[j].id)
  }

  /** As many as asked for or there are, by strictly increasing distance, and everything left out is strictly farther.
      */
  ghost predicate IsClosest(target: NodeId, count: nat, all: seq<NodeContact>, r: seq<NodeContact>) {
    && |r| == Min(count, |all|)
    && Ascending(target, r)
    && (forall c | c in r :: c in all)
    && forall c, d | c in all && c !in r && d in r :: Gap(target, d.id) < Gap(target, c.id)
  }

  /** Index of the first contact of s farther than c, or |s|. */
  function Place(target: NodeId, s: seq<NodeContact>, c: NodeContact): (i: nat)
    ensures i <= |s|
  {
    if s == [] || Closer(target, c.id, s[0].id) then 0 else 1 + Place(target, s[1..], c)
  }

  lemma {:induction false} PlaceSeparates(target: NodeId, s: seq<NodeContact>, c: NodeContact)
    ensures var i := Place(target, s, c);
            && (forall j | 0 <= j < i :: !Closer(target, c.id, s[j].id))
            && (i < |s| ==> Closer(target, c.id, s[i].id))
  {
    if s != [] && !Closer(target, c.id, s[0].id) {
      PlaceSeparates(target, s[1..], c);
    }
  }

  lemma {:induction false} PlaceIs(target: NodeId, s: seq<NodeContact>, c: NodeContact, i: nat)
    requires i <= |s| && forall j | 0 <= j < i :: !Closer(target, c.id, s[j].id)
    requires i < |s| ==> Closer(target, c.id, s[i].id)
    ensures Place(target, s, c) == i
  {
    if i > 0 {
      PlaceIs(target, s[1..], c, i - 1);
    }
  }

  function Placed(target: NodeId, s: seq<NodeContact>, c: NodeContact): seq<NodeContact> {
    var i := Place(target, s, c);
    s[..i] + [c] + s[i..]
  }

  function Sorted(target: NodeId, all: seq<NodeContact>): seq<NodeContact> {
    if all == [] then [] else Placed(target, Sorted(target, all[..|all| - 1]), all[|all| - 1])
  }

  /** kademlia_find_closest on the flat list. */
  function Closest(target: NodeId, count: nat, all: seq<NodeContact>): seq<NodeContact> {
    Sorted(target, all)[..Min(count, |Sorted(target, all)|)]
  }

  lemma PlaceSplits(target: NodeId, s: seq<NodeContact>, c: NodeContact, j: nat)
    requires Ascending(target, s) && j < |s| && s[j].id != c.id
    ensures j < Place(target, s, c) ==> Gap(target, s[j].id) < Gap(target, c.id)
    ensures j >= Place(target, s, c) ==> Gap(target, c.id) < Gap(target, s[j].id)
  {
    var i := Place(target, s, c);
    PlaceSeparates(target, s, c);
    CloserIsSmallerGap(target, c.id, s[j].id);
    if Gap(target, s[j].id) == Gap(target, c.id) {
      GapInjective(target, s[j].id, c.id);
    }
    if i < |s| {
      CloserIsSmallerGap(target, c.id, s[i].id);
    }
  }

  lemma PlacedAt(target: NodeId, s: seq<NodeContact>, c: NodeContact, j: nat)
    requires j <= |s|
    ensures var i := Place(target, s, c);
            Placed(target, s, c)[j] == if j < i then s[j] else if j == i then c else s[j - 1]
  {
  }

  lemma PlacedAscends(target: NodeId, s: seq<NodeContact>, c: NodeContact)
    requires Ascending(target, s) && forall d | d in s :: d.id != c.id
    ensures Ascending(target, Placed(target, s, c))
  {
    var after := Placed(target, s, c);
    forall p, q | 0 <= p < q < |after| ensures Gap(target, after[p].id) < Gap(target, after[q].id) {
      PlacedInOrder(target, s, c, p, q);
    }
  }

  lemma PlacedInOrder(target: NodeId, s: seq<NodeContact>, c: NodeContact, p: nat, q: nat)
    requires Ascending(target, s) && (forall d | d in s :: d.id != c.id) && p < q < |Placed(target, s, c)|
    ensures Gap(target, Placed(target, s, c)[p].id) < Gap(target, Placed(target, s, c)[q].id)
  {
    var i := Place(target, s, c);
    PlacedAt(target, s, c, p);
    PlacedAt(target, s, c, q);
    if q == i {
      PlaceSplits(target, s, c, p);
    } else if p == i {
      PlaceSplits(target, s, c, q - 1);
    }
  }

  lemma PlacedMembers(target: NodeId, s: seq<NodeContact>, c: NodeContact)
    ensures forall d :: d in Placed(target, s, c) <==> d in s || d == c
  {
    var i := Place(target, s, c);
    assert s == s[..i] + s[i..];
  }

  lemma {:induction false} SortedAscends(target: NodeId, all: seq<NodeContact>)
    requires UniqueIds(all)
    ensures Ascending(target, Sorted(target, all)) && |Sorted(target, all)| == |all|
    ensures forall c :: c in Sorted(target, all) <==> c in all
  {
    if all != [] {
      var n := |all| - 1;
      SortedAscends(target, all[..n]);
      assert all == all[..n] + [all[n]];
      PlacedAscends(target, Sorted(target, all[..n]), all[n]);
      PlacedMembers(target, Sorted(target, all[..n]), all[n]);
    }
  }

  lemma LeftOutIsFarther(target: NodeId, s: seq<NodeContact>, n: nat, c: NodeContact, d: NodeContact)
    requires Ascending(target, s) && n <= |s| && c in s && c !in s[..n] && d in s[..n]
    ensures Gap(target, d.id) < Gap(target, c.id)
  {
    assert forall m | 0 <= m < n :: s[m] in s[..n];
    var i :| 0 <= i < |s| && s[i] == c;
    var j :| 0 <= j < n && s[..n][j] == d;
  }

  /** The query returns the closest contacts. */
  lemma ClosestIsClosest(target: NodeId, count: nat, all: seq<NodeContact>)
    requires UniqueIds(all)
    ensures IsClosest(target, count, all, Closest(target, count, all))
  {
    SortedAscends(target, all);
    var s, r := Sorted(target, all), Closest(target, count, all);
    forall c, d | c in all && c !in r && d in r ensures Gap(target, d.id) < Gap(target, c.id) {
      LeftOutIsFarther(target, s, |r|, c, d);
    }
  }

  /** And there is no other answer: whatever sorts the contacts, the result is this one. */
  lemma ClosestIsUnique(target: NodeId, count: nat, all: seq<NodeContact>, r: seq<NodeContact>, r': seq<NodeContact>)
    requires UniqueIds(all) && IsClosest(target, count, all, r) && IsClosest(target, count, all, r')
    ensures r == r'
  {
    SamePrefix(target, count, all, r, r', |r|);
  }

  ghost predicate SameUpTo(r: seq<NodeContact>, r': seq<NodeContact>, n: nat)
    requires n <= |r| == |r'|
  {
    forall i | 0 <= i < n :: r[i] == r'[i]
  }

  lemma {:induction false} SamePrefix(
      target: NodeId, count: nat, all: seq<NodeContact>, r: seq<NodeContact>, r': seq<NodeContact>, n: nat)
    requires UniqueIds(all) && IsClosest(target, count, all, r) && IsClosest(target, count, all, r') && n <= |r|
    ensures SameUpTo(r, r', n)
  {
    if n > 0 {
      SamePrefix(target, count, all, r, r', n - 1);
      SameNext(target, count, all, r, r', n - 1);
      SameFurther(r, r', n - 1, n);
    }
  }

  lemma SameFurther(r: seq<NodeContact>, r': seq<NodeContact>, n: nat, next: nat)
    requires next == n + 1 <= |r| == |r'| && SameUpTo(r, r', n) && r[n] == r'[n]
    ensures SameUpTo(r, r', next)
  {
  }

  lemma SameNext(target: NodeId, count: nat, all: seq<NodeContact>, r: seq<NodeContact>, r': seq<NodeContact>, i: nat)
    requires UniqueIds(all) && IsClosest(target, count, all, r) && IsClosest(target, count, all, r') && i < |r|
    requires SameUpTo(r, r', i)
    ensures r[i] == r'[i]
  {
    NotSooner(target, count, all, r, r', i);
    NotSooner(target, count, all, r', r, i);
    GapInjective(target, r[i].id, r'[i].id);
    assert r[i] in all && r'[i] in all by {
      assert r[i] in r && r'[i] in r';
    }
    SameContact(all, r[i], r'[i]);
  }

  lemma SameContact(all: seq<NodeContact>, c: NodeContact, d: NodeContact)
    requires UniqueIds(all) && c in all && d in all && c.id == d.id
    ensures c == d
  {
  }

  lemma NotSooner(target: NodeId, count: nat, all: seq<NodeContact>, r: seq<NodeContact>, r': seq<NodeContact>, i: nat)
    requires IsClosest(target, count, all, r) && IsClosest(target, count, all, r') && i < |r|
    requires SameUpTo(r, r', i)
    ensures Gap(target, r[i].id) >= Gap(target, r'[i].id)
  {
    if r[i] in r' {
      var j :| 0 <= j < |r'| && r'[j] == r[i];
      assert j >= i;
    } else {
      assert r[i] in r && r'[i] in r';
    }
  }

  // ---------- the table as it is updated in place ----------

  class KademliaTable {
    var localId: NodeId
    const buckets: array<Bucket>

    ghost predicate HasBuckets() {
      buckets.Length == KADEMLIA_BUCKETS
    }

    ghost function Contents(): Buckets
      requires HasBuckets()
      reads buckets
    {
      buckets[..]
    }

    constructor ()
      ensures HasBuckets() && fresh(buckets) && Contents() == Cleared()
    {
      buckets := new Bucket[KADEMLIA_BUCKETS](_ => []);
      localId := EMPTY_NODE_ID;
    }

    method Clear()
      requires HasBuckets()
      modifies buckets
      ensures Contents() == Cleared()
    {
      var k := 0;
      while k < KADEMLIA_BUCKETS
        invariant 0 <= k <= KADEMLIA_BUCKETS
        invariant forall j | 0 <= j < k :: buckets[j] == []
      {
        buckets[k] := [];
        k := k + 1;
      }
    }

    method Init(local: NodeId)
      requires HasBuckets()
      modifies this, buckets
      ensures localId == local && Contents() == Cleared()
    {
      localId := local;
      Clear();
    }

    method IndexIn(bucket: Bucket, id: NodeId) returns (i: nat)
      ensures i == IndexOf(bucket, id)
    {
      i := 0;
      while i < |bucket| && bucket[i].id != id
        invariant 0 <= i <= |bucket| && forall j | 0 <= j < i :: bucket[j].id != id
      {
        i := i + 1;
      }
    }

    method Insert(contact: NodeContact, ping: Ping) returns (ok: bool)
      requires HasBuckets()
      modifies buckets
      ensures (Contents(), ok) == Inserted(localId, old(Contents()), contact, ping)
    {
      BucketIndexRange(localId, contact.id);
      if contact.id == localId {
        return false;
      }
      var k := ComputeBucketIndex(localId, contact.id);
      if k >= KADEMLIA_BUCKETS {
        return false;
      }
      var i := IndexIn(buckets[k], contact.id);
      if i < |buckets[k]| {
        var updated := Refreshed(buckets[k][i], contact);
        buckets[k] := Without(buckets[k], i);
        buckets[k] := buckets[k] + [updated];
        assert Contents() == old(Contents())[k := buckets[k]];
        return true;
      }
      if |buckets[k]| < KADEMLIA_K {
        buckets[k] := buckets[k] + [contact];
        assert Contents() == old(Contents())[k := buckets[k]];
        return true;
      }
      if ping.Some? {
        var oldest := buckets[k][0];
        var answers := ping.value(oldest);
        buckets[k] := buckets[k][1..];
        if answers {
          buckets[k] := buckets[k] + [oldest];
          assert Contents() == old(Contents())[k := buckets[k]];
          return false;
        }
        buckets[k] := buckets[k] + [contact];
        assert Contents() == old(Contents())[k := buckets[k]];
        return true;
      }
      assert Contents() == old(Contents())[k := buckets[k]];
      return false;
    }

    method Remove(id: NodeId) returns (ok: bool)
      requires HasBuckets()
      modifies buckets
      ensures (Contents(), ok) == Removed(localId, old(Contents()), id)
    {
      var k := ComputeBucketIndex(localId, id);
      if k >= KADEMLIA_BUCKETS {
        return false;
      }
      var i := IndexIn(buckets[k], id);
      if i < |buckets[k]| {
        buckets[k] := Without(buckets[k], i);
        return true;
      }
      assert Contents() == old(Contents())[k := buckets[k]];
      return false;
    }

    method FindContact(id: NodeId) returns (r: Option<NodeContact>)
      requires HasBuckets()
      ensures r == Find(localId, Contents(), id)
    {
      var k := ComputeBucketIndex(localId, id);
      if k >= KADEMLIA_BUCKETS {
        return None;
      }
      var i := IndexIn(buckets[k], id);
      return if i < |buckets[k]| then Some(buckets[k][i]) else None;
    }

    method PlaceOf(target: NodeId, sorted: seq<NodeContact>, c: NodeContact) returns (i: nat)
      ensures i == Place(target, sorted, c)
    {
      i := 0;
      while i < |sorted| && !Closer(target, c.id, sorted[i].id)
        invariant 0 <= i <= |sorted| && forall j | 0 <= j < i :: !Closer(target, c.id, sorted[j].id)
      {
        i := i + 1;
      }
      PlaceIs(target, sorted, c, i);
    }

    /** Insertion into a sorted list stands for the library's sort: by ClosestIsUnique the result is the same. */
    method SortByDistance(target: NodeId, all: seq<NodeContact>) returns (sorted: seq<NodeContact>)
      ensures sorted == Sorted(target, all)
    {
      sorted := [];
      var i := 0;
      while i < |all|
        invariant 0 <= i <= |all| && sorted == Sorted(target, all[..i])
      {
        var j := PlaceOf(target, sorted, all[i]);
        assert all[..i + 1][..i] == all[..i];
        sorted := sorted[..j] + [all[i]] + sorted[j..];
        i := i + 1;
      }
      assert all[..i] == all;
    }

    method FindClosest(target: NodeId, count: nat) returns (r: seq<NodeContact>)
      requires HasBuckets()
      ensures r == Closest(target, count, Flat(Contents()))
      ensures Valid(localId, Contents()) ==> IsClosest(target, count, Flat(Contents()), r)
    {
      var all: seq<NodeContact> := [];
      var k := 0;
      while k < KADEMLIA_BUCKETS
        invariant 0 <= k <= KADEMLIA_BUCKETS && all == Flat(Contents()[..k])
      {
        assert Contents()[..k + 1][..k] == Contents()[..k];
        all := all + buckets[k];
        k := k + 1;
      }
      assert Contents()[..k] == Contents();
      r := SortByDistance(target, all);
      if |r| > count {
        r := r[..count];
      }
      if Valid(localId, Contents()) {
        FindIsScan(localId, Contents(), target);
        ClosestIsClosest(target, count, all);
      }
    }
  }
}
