/** The iterative lookup of the local identifier (kademlia_self_lookup in src/network/join.cpp). */
module SelfLookup {
  import opened Bytes
  import opened Arithmetic
  import opened Xor
  import opened Kademlia

  const MAX_ROUNDS: nat := 10

  datatype Question = Question(peer: NodeId, target: NodeId)

  /** The table and the questions asked so far. */
  datatype Progress = Progress(buckets: Buckets, asked: seq<Question>)

  /** Answer number i; a peer that does not answer returns nothing. Any list of answers may come back, so this covers
      every query function, also one whose answers change over time. */
  function AnswerAt(answers: seq<seq<NodeContact>>, i: nat): seq<NodeContact> {
    if i < |answers| then answers[i] else []
  }

  function InsertedAll(local: NodeId, buckets: Buckets, contacts: seq<NodeContact>): Buckets {
    if contacts == [] then buckets
    else
      var n := |contacts| - 1;
      Inserted(local, InsertedAll(local, buckets, contacts[..n]), contacts[n], None).0
  }

  function Unasked(candidates: seq<NodeContact>, local: NodeId, asked: seq<Question>): seq<NodeContact> {
    if candidates == [] then []
    else
      var n := |candidates| - 1;
      Unasked(candidates[..n], local, asked) + if Question(candidates[n].id, local) in asked
                                               then [] else [candidates[n]]
  }

  /** The first alpha candidates not asked yet. */
  function ToQuery(candidates: seq<NodeContact>, local: NodeId, asked: seq<Question>, alpha: nat): seq<NodeContact> {
    var unasked := Unasked(candidates, local, asked);
    unasked[..Min(alpha, |unasked|)]
  }

  function Asked(local: NodeId, p: Progress, peer: NodeId, answers: seq<seq<NodeContact>>): Progress {
    Progress(InsertedAll(local, p.buckets, AnswerAt(answers, |p.asked|)), p.asked + [Question(peer, local)])
  }

  function AskedAll(local: NodeId, p: Progress, peers: seq<NodeContact>, answers: seq<seq<NodeContact>>): Progress {
    if peers == [] then p
    else Asked(local, AskedAll(local, p, peers[..|peers| - 1], answers), peers[|peers| - 1].id, answers)
  }

  function NextPeers(local: NodeId, p: Progress, alpha: nat): seq<NodeContact> {
    ToQuery(Closest(local, KADEMLIA_K, Flat(p.buckets)), local, p.asked, alpha)
  }

  function Round(local: NodeId, p: Progress, answers: seq<seq<NodeContact>>, alpha: nat): Progress {
    AskedAll(local, p, NextPeers(local, p, alpha), answers)
  }

  function Rounds(local: NodeId, answers: seq<seq<NodeContact>>, alpha: nat): Progress -> Progress {
    p => Round(local, p, answers, alpha)
  }

  function Iterate<T>(step: T -> T, p: T, n: nat): T
    decreases n, p
  {
    if n == 0 then p else step(Iterate(step, p, n - 1))
  }

  /** Where a lookup that started from this table gets to in so many rounds. */
  function Lookup(local: NodeId, buckets: Buckets, answers: seq<seq<NodeContact>>, alpha: nat, rounds: nat): Progress {
    Iterate(Rounds(local, answers, alpha), Progress(buckets, []), rounds)
  }

  // ---------- nothing is forgotten ----------

  /** Every known identifier stays known and no bucket shrinks. */
  ghost predicate Grows(local: NodeId, before: Buckets, after: Buckets) {
    && Valid(local, after)
    && (forall id | Find(local, before, id).Some? :: Find(local, after, id).Some?)
    && forall k | 0 <= k < KADEMLIA_BUCKETS :: |before[k]| <= |after[k]|
  }

  /** Known, or kept out by a full bucket. */
  predicate Settled(local: NodeId, buckets: Buckets, id: NodeId) {
    id == local || Find(local, buckets, id).Some?
    || (BucketIndex(local, id) < KADEMLIA_BUCKETS && |buckets[BucketIndex(local, id)]| == KADEMLIA_K)
  }

  lemma InsertedGrows(local: NodeId, buckets: Buckets, c: NodeContact)
    requires Valid(local, buckets)
    ensures Grows(local, buckets, Inserted(local, buckets, c, None).0)
    ensures Settled(local, Inserted(local, buckets, c, None).0, c.id)
  {
    var after := Inserted(local, buckets, c, None).0;
    forall id | Find(local, buckets, id).Some? ensures Find(local, after, id).Some? {
      InsertedFinds(local, buckets, c, None, id);
    }
    InsertedFinds(local, buckets, c, None, c.id);
    BucketIndexRange(local, c.id);
  }

  lemma SettledStays(local: NodeId, before: Buckets, after: Buckets, id: NodeId)
    requires Valid(local, before) && Grows(local, before, after) && Settled(local, before, id)
    ensures Settled(local, after, id)
  {
    var k := BucketIndex(local, id);
    if k < KADEMLIA_BUCKETS {
      assert ValidBucket(local, k, after[k]);
    }
  }

  lemma {:induction false} InsertedAllGrows(local: NodeId, buckets: Buckets, contacts: seq<NodeContact>)
    requires Valid(local, buckets)
    ensures Grows(local, buckets, InsertedAll(local, buckets, contacts))
    ensures AllSettled(local, InsertedAll(local, buckets, contacts), contacts)
  {
    if contacts != [] {
      var n := |contacts| - 1;
      var before, after := InsertedAll(local, buckets, contacts[..n]), InsertedAll(local, buckets, contacts);
      InsertedAllGrows(local, buckets, contacts[..n]);
      InsertedGrows(local, before, contacts[n]);
      AllSettledStays(local, before, after, contacts[..n]);
    }
  }

  // ---------- what every step of the lookup keeps ----------

  ghost predicate Distinct(asked: seq<Question>) {
    forall i, j | 0 <= i < j < |asked| :: asked[i] != asked[j]
  }

  /** Every question so far was about local, to a contact still known and so never to local itself, and no peer was
      asked twice; whatever was answered is known by now or kept out by a full bucket. */
  ghost predicate Sane(local: NodeId, p: Progress, answers: seq<seq<NodeContact>>) {
    && Valid(local, p.buckets)
    && Distinct(p.asked)
    && (forall q | q in p.asked :: q.target == local && Find(local, p.buckets, q.peer).Some?)
    && AnswersSettled(local, p.buckets, |p.asked|, answers)
  }

  /** Whoever was named in the first n answers is settled. */
  ghost predicate AnswersSettled(local: NodeId, buckets: Buckets, n: nat, answers: seq<seq<NodeContact>>) {
    forall i | 0 <= i < n :: AllSettled(local, buckets, AnswerAt(answers, i))
  }

  /** Every contact of the list is known or kept out by a full bucket. */
  ghost predicate AllSettled(local: NodeId, buckets: Buckets, contacts: seq<NodeContact>) {
    forall c | c in contacts :: Settled(local, buckets, c.id)
  }

  lemma AllSettledStays(local: NodeId, before: Buckets, after: Buckets, contacts: seq<NodeContact>)
    requires Valid(local, before) && Grows(local, before, after) && AllSettled(local, before, contacts)
    ensures AllSettled(local, after, contacts)
  {
    forall c | c in contacts ensures Settled(local, after, c.id) {
      SettledStays(local, before, after, c.id);
    }
  }

  lemma OneMoreSettled(
      local: NodeId, before: Buckets, after: Buckets, n: nat, answers: seq<seq<NodeContact>>)
    requires Valid(local, before) && Grows(local, before, after) && AnswersSettled(local, before, n, answers)
    requires AllSettled(local, after, AnswerAt(answers, n))
    ensures AnswersSettled(local, after, n + 1, answers)
  {
    forall i | 0 <= i < n ensures AllSettled(local, after, AnswerAt(answers, i)) {
      AllSettledStays(local, before, after, AnswerAt(answers, i));
    }
  }

  lemma AskedSane(local: NodeId, p: Progress, peer: NodeId, answers: seq<seq<NodeContact>>)
    requires Sane(local, p, answers)
    requires Find(local, p.buckets, peer).Some? && Question(peer, local) !in p.asked
    ensures Sane(local, Asked(local, p, peer, answers), answers)
    ensures Grows(local, p.buckets, Asked(local, p, peer, answers).buckets)
  {
    var p' := Asked(local, p, peer, answers);
    InsertedAllGrows(local, p.buckets, AnswerAt(answers, |p.asked|));
    OneMoreSettled(local, p.buckets, p'.buckets, |p.asked|, answers);
  }

  ghost predicate Eligible(local: NodeId, p: Progress, peers: seq<NodeContact>) {
    && UniqueIds(peers)
    && forall c | c in peers :: Find(local, p.buckets, c.id).Some? && Question(c.id, local) !in p.asked
  }

  function Questions(local: NodeId, peers: seq<NodeContact>): (qs: seq<Question>)
    ensures |qs| == |peers|
  {
    seq(|peers|, i requires 0 <= i < |peers| => Question(peers[i].id, local))
  }

  lemma LastEligible(local: NodeId, p: Progress, peers: seq<NodeContact>, q: Progress)
    requires Eligible(local, p, peers) && peers != []
    requires Grows(local, p.buckets, q.buckets) && q.asked == p.asked + Questions(local, peers[..|peers| - 1])
    ensures var last := peers[|peers| - 1];
            Find(local, q.buckets, last.id).Some? && Question(last.id, local) !in q.asked
    ensures Eligible(local, p, peers[..|peers| - 1])
  {
    assert peers[|peers| - 1] in peers;
  }

  lemma GrowsFurther(local: NodeId, a: Buckets, b: Buckets, c: Buckets)
    requires Grows(local, a, b) && Grows(local, b, c)
    ensures Grows(local, a, c)
  {
  }

  lemma {:induction false} AskedAllAsks(local: NodeId, p: Progress, peers: seq<NodeContact>,
                                        answers: seq<seq<NodeContact>>)
    ensures AskedAll(local, p, peers, answers).asked == p.asked + Questions(local, peers)
  {
    if peers != [] {
      var n := |peers| - 1;
      AskedAllAsks(local, p, peers[..n], answers);
      assert Questions(local, peers) == Questions(local, peers[..n]) + [Question(peers[n].id, local)];
    }
  }

  lemma {:induction false} AskedAllSane(local: NodeId, p: Progress, peers: seq<NodeContact>,
                                        answers: seq<seq<NodeContact>>)
    requires Sane(local, p, answers) && Eligible(local, p, peers)
    ensures Sane(local, AskedAll(local, p, peers, answers), answers)
    ensures Grows(local, p.buckets, AskedAll(local, p, peers, answers).buckets)
  {
    if peers != [] {
      var init := peers[..|peers| - 1];
      assert Eligible(local, p, init);
      AskedAllSane(local, p, init, answers);
      AskedAllAsks(local, p, init, answers);
      var q := AskedAll(local, p, init, answers);
      LastEligible(local, p, peers, q);
      AskedSane(local, q, peers[|peers| - 1].id, answers);
      GrowsFurther(local, p.buckets, q.buckets, AskedAll(local, p, peers, answers).buckets);
    }
  }

  lemma {:induction false} UnaskedOf(candidates: seq<NodeContact>, local: NodeId, asked: seq<Question>)
    requires UniqueIds(candidates)
    ensures UniqueIds(Unasked(candidates, local, asked))
    ensures forall c :: c in Unasked(candidates, local, asked) <==> c in candidates && Question(c.id, local) !in asked
  {
    if candidates != [] {
      var n := |candidates| - 1;
      UnaskedOf(candidates[..n], local, asked);
      assert candidates == candidates[..n] + [candidates[n]];
    }
  }

  lemma NextPeersEligible(local: NodeId, p: Progress, alpha: nat)
    requires Valid(local, p.buckets)
    ensures Eligible(local, p, NextPeers(local, p, alpha)) && |NextPeers(local, p, alpha)| <= alpha
    ensures NextPeers(local, p, alpha) == [] && alpha > 0 ==>
              forall c | c in Closest(local, KADEMLIA_K, Flat(p.buckets)) :: Question(c.id, local) in p.asked
  {
    var all := Flat(p.buckets);
    var candidates := Closest(local, KADEMLIA_K, all);
    FindIsScan(local, p.buckets, local);
    ClosestIsClosest(local, KADEMLIA_K, all);
    UnaskedOf(candidates, local, p.asked);
    forall c | c in candidates ensures Find(local, p.buckets, c.id).Some? {
      FindIsScan(local, p.buckets, c.id);
      FindInIs(all, c);
    }
    assert alpha > 0 && NextPeers(local, p, alpha) == [] ==> Unasked(candidates, local, p.asked) == [];
  }

  lemma {:induction false} UnaskedAscends(candidates: seq<NodeContact>, local: NodeId, asked: seq<Question>)
    requires Ascending(local, candidates) && UniqueIds(candidates)
    ensures Ascending(local, Unasked(candidates, local, asked))
  {
    if candidates != [] {
      var n := |candidates| - 1;
      UnaskedAscends(candidates[..n], local, asked);
      UnaskedOf(candidates[..n], local, asked);
      forall c | c in candidates[..n] ensures Gap(local, c.id) < Gap(local, candidates[n].id) {
        var i :| 0 <= i < n && candidates[i] == c;
      }
      FartherLast(local, Unasked(candidates[..n], local, asked), candidates[n]);
    }
  }

  lemma FartherLast(target: NodeId, s: seq<NodeContact>, c: NodeContact)
    requires Ascending(target, s) && forall d | d in s :: Gap(target, d.id) < Gap(target, c.id)
    ensures Ascending(target, s + [c]) && s + [] == s
  {
    assert forall i | 0 <= i < |s| :: s[i] in s;
  }

  /** A round asks the nearest of the closest contacts not asked yet, as many as it may. */
  lemma NextPeersAreNearest(local: NodeId, p: Progress, alpha: nat, left: NodeContact)
    requires Valid(local, p.buckets)
    ensures left in Closest(local, KADEMLIA_K, Flat(p.buckets)) && Question(left.id, local) !in p.asked
            && left !in NextPeers(local, p, alpha) ==>
              && |NextPeers(local, p, alpha)| == alpha
              && forall c | c in NextPeers(local, p, alpha) :: Gap(local, c.id) < Gap(local, left.id)
  {
    var candidates, next := Closest(local, KADEMLIA_K, Flat(p.buckets)), NextPeers(local, p, alpha);
    var unasked := Unasked(candidates, local, p.asked);
    FindIsScan(local, p.buckets, local);
    ClosestIsClosest(local, KADEMLIA_K, Flat(p.buckets));
    UnaskedOf(candidates, local, p.asked);
    UnaskedAscends(candidates, local, p.asked);
    if left in unasked && left !in next {
      assert |next| < |unasked| by {
        assert |next| == |unasked| ==> next == unasked;
      }
      forall c | c in next ensures Gap(local, c.id) < Gap(local, left.id) {
        LeftOutIsFarther(local, unasked, |next|, left, c);
      }
    }
  }

  // ---------- the whole lookup ----------

  lemma RoundSane(local: NodeId, p: Progress, answers: seq<seq<NodeContact>>, alpha: nat)
    requires Sane(local, p, answers)
    ensures Sane(local, Round(local, p, answers, alpha), answers)
    ensures Grows(local, p.buckets, Round(local, p, answers, alpha).buckets)
    ensures |Round(local, p, answers, alpha).asked| == |p.asked| + |NextPeers(local, p, alpha)| <= |p.asked| + alpha
  {
    NextPeersEligible(local, p, alpha);
    AskedAllSane(local, p, NextPeers(local, p, alpha), answers);
    AskedAllAsks(local, p, NextPeers(local, p, alpha), answers);
  }

  lemma {:induction false} IterateKeeps<T>(step: T -> T, p: T, n: nat, keeps: (T, nat) -> bool)
    requires keeps(p, 0) && forall q, k: nat {:trigger keeps(q, k)} | keeps(q, k) :: keeps(step(q), k + 1)
    ensures keeps(Iterate(step, p, n), n)
  {
    if n > 0 {
      IterateKeeps(step, p, n - 1, keeps);
    }
  }

  lemma {:induction false} IterateFixed<T>(step: T -> T, p: T, n: nat, m: nat)
    requires n <= m && step(Iterate(step, p, n)) == Iterate(step, p, n)
    ensures Iterate(step, p, m) == Iterate(step, p, n)
  {
    if m > n {
      IterateFixed(step, p, n, m - 1);
    }
  }

  /** Sane, grown from this table, and at most alpha questions in every round so far. */
  ghost predicate Underway(
      local: NodeId, buckets: Buckets, answers: seq<seq<NodeContact>>, alpha: nat, p: Progress, rounds: nat) {
    Sane(local, p, answers) && Grows(local, buckets, p.buckets) && |p.asked| <= rounds * alpha
  }

  lemma RoundUnderway(local: NodeId, buckets: Buckets, answers: seq<seq<NodeContact>>, alpha: nat, p: Progress,
                      rounds: nat)
    requires Underway(local, buckets, answers, alpha, p, rounds)
    ensures Underway(local, buckets, answers, alpha, Round(local, p, answers, alpha), rounds + 1)
  {
    RoundSane(local, p, answers, alpha);
    GrowsFurther(local, buckets, p.buckets, Round(local, p, answers, alpha).buckets);
    assert (rounds + 1) * alpha == rounds * alpha + alpha;
  }

  lemma LookupUnderway(local: NodeId, buckets: Buckets, answers: seq<seq<NodeContact>>, alpha: nat, rounds: nat)
    requires Valid(local, buckets)
    ensures Underway(local, buckets, answers, alpha, Lookup(local, buckets, answers, alpha, rounds), rounds)
  {
    var keeps := (p, n: nat) => Underway(local, buckets, answers, alpha, p, n);
    var step := Rounds(local, answers, alpha);
    forall p, n: nat | keeps(p, n) ensures keeps(step(p), n + 1) {
      RoundUnderway(local, buckets, answers, alpha, p, n);
    }
    IterateKeeps(step, Progress(buckets, []), rounds, keeps);
  }

  /** A contact among the closest. */
  ghost predicate Near(local: NodeId, buckets: Buckets, c: NodeContact) {
    exists r: seq<NodeContact> :: IsClosest(local, KADEMLIA_K, Flat(buckets), r) && c in r
  }

  lemma LookupStep(local: NodeId, buckets: Buckets, answers: seq<seq<NodeContact>>, alpha: nat, n: nat)
    ensures Lookup(local, buckets, answers, alpha, n + 1)
            == Round(local, Lookup(local, buckets, answers, alpha, n), answers, alpha)
  {
  }

  lemma IdleRound(local: NodeId, p: Progress, answers: seq<seq<NodeContact>>, alpha: nat)
    requires NextPeers(local, p, alpha) == []
    ensures Round(local, p, answers, alpha) == p
  {
  }

  /** Nobody is left to ask after n rounds. */
  predicate Idle(local: NodeId, buckets: Buckets, answers: seq<seq<NodeContact>>, alpha: nat, n: nat) {
    NextPeers(local, Lookup(local, buckets, answers, alpha, n), alpha) == []
  }

  /** Once there is nobody left to ask, further rounds change nothing. */
  lemma IdleFromHere(local: NodeId, buckets: Buckets, answers: seq<seq<NodeContact>>, alpha: nat, n: nat, m: nat)
    requires n <= m && Idle(local, buckets, answers, alpha, n)
    ensures Lookup(local, buckets, answers, alpha, m) == Lookup(local, buckets, answers, alpha, n)
    ensures Idle(local, buckets, answers, alpha, m)
  {
    IdleRound(local, Lookup(local, buckets, answers, alpha, n), answers, alpha);
    IterateFixed(Rounds(local, answers, alpha), Progress(buckets, []), n, m);
  }

  /** From any valid table and whatever the peers answer: no peer is asked twice and local never; there are at most
      10 * alpha questions; nobody known is forgotten and everybody heard of is known or kept out by a full
      bucket. */
  lemma LookupKeeps(local: NodeId, buckets: Buckets, answers: seq<seq<NodeContact>>, alpha: nat)
    requires Valid(local, buckets)
    ensures var end := Lookup(local, buckets, answers, alpha, MAX_ROUNDS);
            && Distinct(end.asked) && |end.asked| <= 10 * alpha
            && (forall q | q in end.asked :: q.target == local && q.peer != local)
            && Valid(local, end.buckets)
            && (forall id | Find(local, buckets, id).Some? :: Find(local, end.buckets, id).Some?)
            && AnswersSettled(local, end.buckets, |end.asked|, answers)
  {
    LookupUnderway(local, buckets, answers, alpha, MAX_ROUNDS);
    var end := Lookup(local, buckets, answers, alpha, MAX_ROUNDS);
    BucketIndexRange(local, local);
    assert Find(local, end.buckets, local).None?;
  }

  /** A lookup that finds nobody left to ask before its rounds are over has asked every one of the contacts that are
      then closest, and its last rounds are no rounds at all. */
  lemma LeavingEarlyAskedAll(local: NodeId, buckets: Buckets, answers: seq<seq<NodeContact>>, alpha: nat, n: nat,
                             c: NodeContact)
    requires Valid(local, buckets) && alpha > 0 && n <= MAX_ROUNDS && Idle(local, buckets, answers, alpha, n)
    requires Near(local, Lookup(local, buckets, answers, alpha, MAX_ROUNDS).buckets, c)
    ensures Question(c.id, local) in Lookup(local, buckets, answers, alpha, MAX_ROUNDS).asked
    ensures Lookup(local, buckets, answers, alpha, MAX_ROUNDS) == Lookup(local, buckets, answers, alpha, n)
  {
    var end := Lookup(local, buckets, answers, alpha, MAX_ROUNDS);
    LookupUnderway(local, buckets, answers, alpha, MAX_ROUNDS);
    IdleFromHere(local, buckets, answers, alpha, n, MAX_ROUNDS);
    NextPeersEligible(local, end, alpha);
    FindIsScan(local, end.buckets, local);
    ClosestIsClosest(local, KADEMLIA_K, Flat(end.buckets));
    var r :| IsClosest(local, KADEMLIA_K, Flat(end.buckets), r) && c in r;
    ClosestIsUnique(local, KADEMLIA_K, Flat(end.buckets), r, Closest(local, KADEMLIA_K, Flat(end.buckets)));
  }

  /** At least n questions so far, or nobody is left to ask. */
  ghost predicate AsksOn(local: NodeId, answers: seq<seq<NodeContact>>, alpha: nat, p: Progress, n: nat) {
    Sane(local, p, answers) && (|p.asked| >= n || NextPeers(local, p, alpha) == [])
  }

  /** A round asks somebody as long as there is somebody left to ask. */
  lemma RoundAsks(local: NodeId, answers: seq<seq<NodeContact>>, alpha: nat, p: Progress, n: nat)
    requires AsksOn(local, answers, alpha, p, n)
    ensures AsksOn(local, answers, alpha, Round(local, p, answers, alpha), n + 1)
  {
    RoundSane(local, p, answers, alpha);
    if NextPeers(local, p, alpha) == [] {
      IdleRound(local, p, answers, alpha);
    }
  }

  lemma RoundsAsk(local: NodeId, buckets: Buckets, answers: seq<seq<NodeContact>>, alpha: nat, n: nat)
    requires Valid(local, buckets)
    ensures AsksOn(local, answers, alpha, Lookup(local, buckets, answers, alpha, n), n)
  {
    var keeps := (p, k: nat) => AsksOn(local, answers, alpha, p, k);
    var step := Rounds(local, answers, alpha);
    forall p, k: nat | keeps(p, k) ensures keeps(step(p), k + 1) {
      RoundAsks(local, answers, alpha, p, k);
    }
    IterateKeeps(step, Progress(buckets, []), n, keeps);
  }

  /** A lookup does not give up early: it asks at least ten questions, one for each of ten rounds, unless it has asked
      every one of the contacts that are closest in the end. */
  lemma LookupGoesOn(local: NodeId, buckets: Buckets, answers: seq<seq<NodeContact>>, alpha: nat, c: NodeContact)
    requires Valid(local, buckets) && alpha > 0
    ensures var end := Lookup(local, buckets, answers, alpha, MAX_ROUNDS);
            |end.asked| >= 10 || (Near(local, end.buckets, c) ==> Question(c.id, local) in end.asked)
  {
    RoundsAsk(local, buckets, answers, alpha, MAX_ROUNDS);
    var end := Lookup(local, buckets, answers, alpha, MAX_ROUNDS);
    if Idle(local, buckets, answers, alpha, MAX_ROUNDS) && Near(local, end.buckets, c) {
      LeavingEarlyAskedAll(local, buckets, answers, alpha, MAX_ROUNDS, c);
    }
  }

  // ---------- the lookup as it runs ----------

  /** The query callback, with what it will answer and a record of what it was asked. */
  class Peers {
    var answers: seq<seq<NodeContact>>
    var asked: seq<Question>

    method Query(peer: NodeId, target: NodeId) returns (contacts: seq<NodeContact>)
      modifies this
      ensures contacts == AnswerAt(old(answers), 0) && asked == old(asked) + [Question(peer, target)]
      ensures answers == Drop(old(answers), 1)
    {
      contacts := AnswerAt(answers, 0);
      answers := Drop(answers, 1);
      asked := asked + [Question(peer, target)];
    }
  }

  function Drop(answers: seq<seq<NodeContact>>, n: nat): (rest: seq<seq<NodeContact>>)
    ensures forall i: nat :: AnswerAt(rest, i) == AnswerAt(answers, n + i)
  {
    if n <= |answers| then answers[n..] else []
  }

  method InsertAll(table: KademliaTable, contacts: seq<NodeContact>)
    requires table.HasBuckets()
    modifies table.buckets
    ensures table.Contents() == InsertedAll(table.localId, old(table.Contents()), contacts)
  {
    BucketIndexRange(table.localId, table.localId);
    for i := 0 to |contacts|
      invariant table.Contents() == InsertedAll(table.localId, old(table.Contents()), contacts[..i])
    {
      assert contacts[..i + 1][..i] == contacts[..i];
      if contacts[i].id != table.localId {
        var _ := table.Insert(contacts[i], None);
      }
    }
    assert contacts[..|contacts|] == contacts;
  }

  method ChooseUnasked(candidates: seq<NodeContact>, local: NodeId, queried: set<NodeId>, alpha: nat,
                       ghost asked: seq<Question>)
      returns (chosen: seq<NodeContact>)
    requires alpha > 0 && forall id :: id in queried <==> Question(id, local) in asked
    ensures chosen == ToQuery(candidates, local, asked, alpha)
  {
    chosen := [];
    for i := 0 to |candidates|
      invariant chosen == Unasked(candidates[..i], local, asked) && |chosen| < alpha
    {
      assert candidates[..i + 1][..i] == candidates[..i];
      if candidates[i].id !in queried {
        chosen := chosen + [candidates[i]];
        if |chosen| >= alpha {
          UnaskedPrefix(candidates, i + 1, local, asked);
          return;
        }
      }
    }
    assert candidates[..|candidates|] == candidates;
  }

  lemma {:induction false} UnaskedPrefix(candidates: seq<NodeContact>, i: nat, local: NodeId, asked: seq<Question>)
    requires i <= |candidates|
    ensures Unasked(candidates[..i], local, asked) <= Unasked(candidates, local, asked)
  {
    if i < |candidates| {
      var n := |candidates| - 1;
      UnaskedPrefix(candidates[..n], i, local, asked);
      assert candidates[..n][..i] == candidates[..i];
    } else {
      assert candidates[..i] == candidates;
    }
  }

  /** Follows the peers' questions and answers from one state of the callback to a later one. */
  ghost predicate InStep(peers: Peers, log: seq<Question>, answers: seq<seq<NodeContact>>, asked: seq<Question>)
    reads peers
  {
    peers.asked == log + asked && peers.answers == Drop(answers, |asked|)
  }

  ghost predicate Recorded(queried: set<NodeId>, local: NodeId, asked: seq<Question>) {
    forall id :: id in queried <==> Question(id, local) in asked
  }

  /** The table, the callback and the set of queried peers are where p says. */
  ghost predicate Reached(
      table: KademliaTable, peers: Peers, queried: set<NodeId>, p: Progress, answers: seq<seq<NodeContact>>,
      log: seq<Question>)
    reads table, table.buckets, peers
  {
    && table.HasBuckets() && table.Contents() == p.buckets
    && InStep(peers, log, answers, p.asked) && Recorded(queried, table.localId, p.asked)
  }

  method AskPeer(
      table: KademliaTable, peers: Peers, peer: NodeId, queried: set<NodeId>,
      ghost p: Progress, ghost p': Progress, ghost answers: seq<seq<NodeContact>>, ghost log: seq<Question>)
      returns (queried': set<NodeId>)
    requires Reached(table, peers, queried, p, answers, log) && p' == Asked(table.localId, p, peer, answers)
    modifies table.buckets, peers
    ensures Reached(table, peers, queried', p', answers, log)
  {
    queried' := queried + {peer};
    var returned := peers.Query(peer, table.localId);
    InsertAll(table, returned);
  }

  method AskPeers(
      table: KademliaTable, peers: Peers, toQuery: seq<NodeContact>, queried: set<NodeId>,
      ghost p: Progress, ghost answers: seq<seq<NodeContact>>, ghost log: seq<Question>)
      returns (queried': set<NodeId>)
    requires Reached(table, peers, queried, p, answers, log)
    modifies table.buckets, peers
    ensures Reached(table, peers, queried', AskedAll(table.localId, p, toQuery, answers), answers, log)
  {
    queried' := queried;
    ghost var p' := p;
    for i := 0 to |toQuery|
      invariant p' == AskedAll(table.localId, p, toQuery[..i], answers)
      invariant Reached(table, peers, queried', p', answers, log)
    {
      ghost var next := Asked(table.localId, p', toQuery[i].id, answers);
      assert toQuery[..i + 1][..i] == toQuery[..i];
      queried' := AskPeer(table, peers, toQuery[i].id, queried', p', next, answers, log);
      p' := next;
    }
    assert toQuery[..|toQuery|] == toQuery;
  }

  ghost predicate Follows(local: NodeId, p: Progress, p': Progress, answers: seq<seq<NodeContact>>, alpha: nat) {
    p' == Round(local, p, answers, alpha)
  }

  /** Where the lookup is before each round and after the last one. */
  ghost predicate IsRun(run: seq<Progress>, local: NodeId, answers: seq<seq<NodeContact>>, alpha: nat) {
    |run| == MAX_ROUNDS + 1 && forall i | 0 <= i < MAX_ROUNDS :: Follows(local, run[i], run[i + 1], answers, alpha)
  }

  ghost predicate NobodyLeft(local: NodeId, p: Progress, alpha: nat) {
    NextPeers(local, p, alpha) == []
  }

  lemma {:induction false} RunStaysIdle(
      run: seq<Progress>, local: NodeId, answers: seq<seq<NodeContact>>, alpha: nat, n: nat, m: nat)
    requires IsRun(run, local, answers, alpha) && n <= m <= MAX_ROUNDS && NobodyLeft(local, run[n], alpha)
    ensures run[m] == run[n]
  {
    if m > n {
      RunStaysIdle(run, local, answers, alpha, n, m - 1);
      assert Follows(local, run[m - 1], run[m - 1 + 1], answers, alpha);
      IdleRound(local, run[n], answers, alpha);
    }
  }

  /** One round of the lookup; done when there is nobody left to ask. */
  method AskRound(
      table: KademliaTable, peers: Peers, alpha: nat, queried: set<NodeId>,
      ghost p: Progress, ghost p': Progress, ghost answers: seq<seq<NodeContact>>, ghost log: seq<Question>)
      returns (done: bool, queried': set<NodeId>)
    requires alpha > 0 && Follows(table.localId, p, p', answers, alpha)
    requires Reached(table, peers, queried, p, answers, log)
    modifies table.buckets, peers
    ensures Reached(table, peers, queried', p', answers, log)
    ensures done ==> NobodyLeft(table.localId, p, alpha)
  {
    var candidates := table.FindClosest(table.localId, KADEMLIA_K);
    var toQuery := ChooseUnasked(candidates, table.localId, queried, alpha, p.asked);
    if toQuery == [] {
      IdleRound(table.localId, p, answers, alpha);
      return true, queried;
    }
    queried' := AskPeers(table, peers, toQuery, queried, p, answers, log);
    done := false;
  }

  /** At most MAX_ROUNDS rounds, and none after one that finds nobody left to ask. */
  method AskRounds(
      table: KademliaTable, peers: Peers, alpha: nat,
      ghost run: seq<Progress>, ghost answers: seq<seq<NodeContact>>, ghost log: seq<Question>)
      returns (queried: set<NodeId>)
    requires alpha > 0 && IsRun(run, table.localId, answers, alpha)
    requires Reached(table, peers, {}, run[0], answers, log)
    modifies table.buckets, peers
    ensures Reached(table, peers, queried, run[MAX_ROUNDS], answers, log)
  {
    var round, done := 0, false;
    queried := {};
    while round < MAX_ROUNDS && !done
      invariant 0 <= round <= MAX_ROUNDS
      invariant Reached(table, peers, queried, run[round], answers, log)
      invariant done ==> run[MAX_ROUNDS] == run[round]
    {
      done, queried := AskRound(table, peers, alpha, queried, run[round], run[round + 1], answers, log);
      if done {
        RunStaysIdle(run, table.localId, answers, alpha, round, round + 1);
        RunStaysIdle(run, table.localId, answers, alpha, round, MAX_ROUNDS);
      }
      round := round + 1;
    }
  }

  ghost function RunOf(local: NodeId, buckets: Buckets, answers: seq<seq<NodeContact>>,
                       alpha: nat): (run: seq<Progress>)
    ensures |run| == MAX_ROUNDS + 1
  {
    seq(MAX_ROUNDS + 1, i requires 0 <= i => Lookup(local, buckets, answers, alpha, i))
  }

  lemma RunOfIsRun(local: NodeId, buckets: Buckets, answers: seq<seq<NodeContact>>, alpha: nat)
    ensures IsRun(RunOf(local, buckets, answers, alpha), local, answers, alpha)
    ensures RunOf(local, buckets, answers, alpha)[0] == Progress(buckets, [])
    ensures RunOf(local, buckets, answers, alpha)[MAX_ROUNDS] == Lookup(local, buckets, answers, alpha, MAX_ROUNDS)
  {
    var run := RunOf(local, buckets, answers, alpha);
    forall i | 0 <= i < MAX_ROUNDS ensures Follows(local, run[i], run[i + 1], answers, alpha) {
      RunOfFollows(local, buckets, answers, alpha, run, i);
    }
  }

  lemma RunOfFollows(
      local: NodeId, buckets: Buckets, answers: seq<seq<NodeContact>>, alpha: nat, run: seq<Progress>, i: nat)
    requires i < MAX_ROUNDS && run == RunOf(local, buckets, answers, alpha)
    ensures Follows(local, run[i], run[i + 1], answers, alpha)
  {
    LookupFollows(local, buckets, answers, alpha, i, i + 1);
  }

  lemma LookupFollows(local: NodeId, buckets: Buckets, answers: seq<seq<NodeContact>>, alpha: nat, i: nat, next: nat)
    requires next == i + 1
    ensures Follows(local, Lookup(local, buckets, answers, alpha, i), Lookup(local, buckets, answers, alpha, next),
                    answers, alpha)
  {
    LookupStep(local, buckets, answers, alpha, i);
  }

  /** kademlia_self_lookup; with alpha 0 it does nothing, and so without a callback. */
  method KademliaSelfLookup(table: KademliaTable, peers: Peers, alpha: nat)
    requires table.HasBuckets()
    modifies table.buckets, peers
    ensures alpha == 0 ==> table.Contents() == old(table.Contents()) && peers.asked == old(peers.asked)
    ensures alpha > 0 ==>
              var end := Lookup(table.localId, old(table.Contents()), old(peers.answers), alpha, MAX_ROUNDS);
              table.Contents() == end.buckets && peers.asked == old(peers.asked) + end.asked
  {
    if alpha > 0 {
      RunOfIsRun(table.localId, table.Contents(), peers.answers, alpha);
      ghost var run := RunOf(table.localId, table.Contents(), peers.answers, alpha);
      var queried := AskRounds(table, peers, alpha, run, peers.answers, peers.asked);
    }
  }
}
