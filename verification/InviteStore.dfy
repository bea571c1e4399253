/** The one-time invitations a node keeps in its state directory (invite_store and invite_consume in
    src/security/invite.cpp). The directory is a map from the secret in a file's name to the file's contents. */
module InviteStore {
  import opened Bytes
  import opened Sequences
  import opened Invite
  import opened PrivateStorage

  const MAX_ACTIVE_INVITES: nat := 64
  const MAX_FILE_SIZE: nat := 513

  /** What each file decodes to; None for a file that is too long, lacks the final newline or holds no token. */
  type Directory = map<Secret, Option<InviteTicket>>

  // ---------- what the two operations may do to the directory ----------

  predicate Expired(held: Option<InviteTicket>, createdAt: uint64) {
    held.Some? && held.value.expiresAt <= createdAt
  }

  /** The invitations that have not expired when a ticket is created. */
  ghost function Active(dir: Directory, createdAt: uint64): Directory {
    map s | s in dir && !Expired(dir[s], createdAt) :: dir[s]
  }

  ghost predicate AllReadable(dir: Directory) {
    forall s | s in dir :: dir[s].Some?
  }

  ghost predicate OnlyExpiredGone(before: Directory, after: Directory, createdAt: uint64) {
    && (forall s | s in after :: s in before && after[s] == before[s])
    && forall s | s in before && s !in after :: Expired(before[s], createdAt)
  }

  /** The scan so far: the files not in rest have been looked at, and count of them were kept. */
  ghost predicate Scanned(before: Directory, dir: Directory, rest: set<Secret>, count: nat, createdAt: uint64) {
    && OnlyExpiredGone(before, dir, createdAt) && rest <= dir.Keys
    && (forall s | s in before && s !in rest :: before[s].Some?)
    && (forall s | s in dir && s !in rest :: !Expired(dir[s], createdAt))
    && count == |dir.Keys - rest|
  }

  lemma ScanRemoves(before: Directory, dir: Directory, rest: set<Secret>, count: nat, createdAt: uint64, s: Secret)
    requires Scanned(before, dir, rest, count, createdAt) && s in rest && Expired(dir[s], createdAt)
    ensures Scanned(before, dir - {s}, rest - {s}, count, createdAt)
  {
    assert (dir - {s}).Keys - (rest - {s}) == dir.Keys - rest;
  }

  lemma ScanKeeps(before: Directory, dir: Directory, rest: set<Secret>, count: nat, createdAt: uint64, s: Secret)
    requires Scanned(before, dir, rest, count, createdAt) && s in rest && dir[s].Some? && !Expired(dir[s], createdAt)
    ensures Scanned(before, dir, rest - {s}, count + 1, createdAt)
  {
    assert dir.Keys - (rest - {s}) == dir.Keys - rest + {s};
  }

  lemma ScanDone(before: Directory, dir: Directory, count: nat, createdAt: uint64)
    requires Scanned(before, dir, {}, count, createdAt)
    ensures AllReadable(before) && dir == Active(before, createdAt) && count == |dir|
  {
    assert dir.Keys - {} == dir.Keys;
  }

  /** The ticket as it will be read back. */
  function Issued(t: InviteTicket): InviteTicket {
    t.(consumed := false)
  }

  ghost predicate Storable(parses: EndpointParser, before: Directory, t: InviteTicket) {
    && ValidTicket(parses, t)
    && AllReadable(before)
    && |Active(before, t.createdAt)| < MAX_ACTIVE_INVITES
    && t.secret !in Active(before, t.createdAt)
  }

  /** invite_store installs the ticket after clearing expired ones, or fails having cleared some of them. It may install
      the ticket and report a failure; smooth says that every file operation went through. */
  ghost predicate StoreStep(parses: EndpointParser, before: Directory, after: Directory, t: InviteTicket,
                            smooth: bool, ok: bool, installed: bool) {
    && (ok ==> installed)
    && (smooth ==> (ok <==> Storable(parses, before, t)))
    && if installed
       then Storable(parses, before, t) && after == Active(before, t.createdAt)[t.secret := Some(Issued(t))]
       else OnlyExpiredGone(before, after, t.createdAt)
  }

  /** The presented ticket is the one held under its secret, and presented to the node that issued it. */
  predicate Matches(dir: Directory, p: InviteTicket, expectedInviter: NodeId) {
    p.inviterId == expectedInviter && p.secret in dir && dir[p.secret] == Some(p) && !p.consumed
  }

  predicate InTime(t: InviteTicket, now: uint64) {
    t.createdAt <= now < t.expiresAt
  }

  /** invite_consume does nothing, or burns the matching ticket; it succeeds only when it burns it in time, and then it
      does when every file operation goes through. */
  ghost predicate ConsumeStep(before: Directory, after: Directory, p: InviteTicket, expectedInviter: NodeId,
                              now: uint64, smooth: bool, ok: bool) {
    if Matches(before, p, expectedInviter)
    then || (!smooth && after == before && !ok)
         || (after == before - {p.secret} && (ok ==> InTime(p, now)) && (smooth ==> (ok <==> InTime(p, now))))
    else after == before && !ok
  }

  // ---------- the files ----------

  function Held(parses: EndpointParser, contents: string): Option<InviteTicket> {
    if contents == "" || |contents| > MAX_FILE_SIZE || contents[|contents| - 1] != '\n' then None
    else TicketOf(parses, contents[..|contents| - 1])
  }

  lemma HeldAfterWrite(parses: EndpointParser, t: InviteTicket)
    requires ValidTicket(parses, t)
    ensures Held(parses, Token(t) + "\n") == Some(Issued(t))
  {
    var contents := Token(t) + "\n";
    TokenSize(t);
    TokenRoundTrip(parses, t);
    Appended(Token(t), '\n');
  }

  /** A file holds a ticket exactly if it is the token of one that may be issued, and a newline. */
  lemma HeldIff(parses: EndpointParser, contents: string, t: InviteTicket)
    ensures Held(parses, contents) == Some(t)
            <==> && |contents| >= 1 && contents[|contents| - 1] == '\n' && Issuable(parses, t) && !t.consumed
                 && TokenLaidOut(t, contents[..|contents| - 1])
  {
    if |contents| >= 1 && contents[|contents| - 1] == '\n' {
      var token := contents[..|contents| - 1];
      LaidOutTokenIff(parses, token, t);
      if TicketOf(parses, token) == Some(t) {
        TokenSize(t);
      }
    }
  }

  class TrustState {
    const parses: EndpointParser
    var files: map<Secret, string>
    ghost var dir: Directory

    /** dir says what the files decode to. */
    ghost predicate Valid()
      reads this
    {
      files.Keys == dir.Keys && forall s {:trigger files[s]} | s in files :: dir[s] == Held(parses, files[s])
    }

    constructor (parses: EndpointParser)
      ensures this.parses == parses && Valid() && dir == map[]
    {
      this.parses, files, dir := parses, map[], map[];
    }

    /** private_read_file, the newline test and invite_decode. */
    method ReadTicket(s: Secret) returns (r: Option<InviteTicket>)
      requires Valid() && s in files
      ensures r == dir[s]
    {
      var contents := files[s];
      if contents == "" || |contents| > MAX_FILE_SIZE || contents[|contents| - 1] != '\n' {
        return None;
      }
      r := InviteDecode(parses, contents[..|contents| - 1]);
    }

    method RemoveTicket(s: Secret)
      requires Valid()
      modifies this
      ensures Valid() && dir == old(dir) - {s}
    {
      files := files - {s};
      dir := dir - {s};
    }

    method WriteTicket(t: InviteTicket, token: string)
      requires Valid() && ValidTicket(parses, t) && token == Token(t)
      modifies this
      ensures Valid() && dir == old(dir)[t.secret := Some(Issued(t))]
    {
      HeldAfterWrite(parses, t);
      files := files[t.secret := token + "\n"];
      dir := dir[t.secret := Some(Issued(t))];
    }

    /** The directory scan of invite_store: removes expired invitations and counts the others. It stops at a file that
        cannot be read or removed (failing) or does not decode. */
    method ClearExpired(createdAt: uint64, failing: set<Secret>) returns (active: Option<nat>)
      requires Valid()
      modifies this
      ensures Valid() && OnlyExpiredGone(old(dir), dir, createdAt)
      ensures active.Some? ==> AllReadable(old(dir)) && dir == Active(old(dir), createdAt) && active.value == |dir|
      ensures failing == {} ==> (active.Some? <==> AllReadable(old(dir)))
    {
      var count := 0;
      var rest := files.Keys;
      assert dir.Keys - rest == {};
      while rest != {}
        invariant Valid() && Scanned(old(dir), dir, rest, count, createdAt)
        decreases rest
      {
        var s :| s in rest;
        if s in failing {
          return None;
        }
        var existing := ReadTicket(s);
        if existing.None? {
          return None;
        }
        if existing.value.expiresAt <= createdAt {
          ScanRemoves(old(dir), dir, rest, count, createdAt, s);
          RemoveTicket(s);
        } else {
          ScanKeeps(old(dir), dir, rest, count, createdAt, s);
          count := count + 1;
        }
        rest := rest - {s};
      }
      ScanDone(old(dir), dir, count, createdAt);
      return Some(count);
    }

    /** invite_store; write says how the final write ends. */
    method Store(t: InviteTicket, failing: set<Secret>, write: Write) returns (ok: bool, ghost installed: bool)
      requires Valid()
      modifies this
      ensures Valid() && StoreStep(parses, old(dir), dir, t, failing == {} && write == Written, ok, installed)
      ensures installed ==> write != NotWritten && (ok <==> write == Written)
      ensures failing == {} ==> (installed <==> write != NotWritten && Storable(parses, old(dir), t))
    {
      var token := InviteEncode(parses, t);
      if token == "" {
        return false, false;
      }
      var active := ClearExpired(t.createdAt, failing);
      if active.None? {
        return false, false;
      }
      if active.value >= MAX_ACTIVE_INVITES {
        return false, false;
      }
      if t.secret in files {
        return false, false;
      }
      if write.Installs() {
        WriteTicket(t, token);
      }
      return write == Written, write.Installs();
    }

    /** invite_consume; the flags say which file operations go through. */
    method Consume(p: InviteTicket, expectedInviter: NodeId, now: uint64,
                   readable: bool, removable: bool, synced: bool) returns (ok: bool)
      requires Valid()
      modifies this
      ensures Valid()
      ensures ConsumeStep(old(dir), dir, p, expectedInviter, now, readable && removable && synced, ok)
    {
      if p.inviterId != expectedInviter || p.consumed {
        return false;
      }
      if !readable || p.secret !in files {
        return false;
      }
      var decoded := ReadTicket(p.secret);
      if decoded.None? {
        return false;
      }
      var d := decoded.value;
      if || d.secret != p.secret || d.network != p.network || d.inviterId != p.inviterId
         || d.inviterEndpoint != p.inviterEndpoint || d.createdAt != p.createdAt || d.expiresAt != p.expiresAt {
        return false;
      }
      DecodedIsUnconsumed(p.secret);
      assert d == p;
      if !removable {
        return false;
      }
      RemoveTicket(p.secret);
      if !synced {
        return false;
      }
      return d.createdAt <= now < d.expiresAt;
    }

    lemma DecodedIsUnconsumed(s: Secret)
      requires Valid() && s in files
      ensures dir[s].Some? ==> !dir[s].value.consumed
    {
      var contents := files[s];
      if dir[s].Some? {
        TokenIff(parses, contents[..|contents| - 1], dir[s].value);
      }
    }
  }

  // ---------- over every run ----------

  /** An attempt to store a ticket, or a ticket presented; smooth if every file operation went through. A store that did
      not go smoothly may install its ticket and report a failure. */
  datatype Event =
    | Stored(ticket: InviteTicket, smooth: bool, ok: bool, installed: bool)
    | Presented(ticket: InviteTicket, expectedInviter: NodeId, now: uint64, smooth: bool, ok: bool)

  ghost predicate Step(parses: EndpointParser, before: Directory, e: Event, after: Directory) {
    match e
    case Stored(t, smooth, ok, installed) => StoreStep(parses, before, after, t, smooth, ok, installed)
    case Presented(p, expectedInviter, now, smooth, ok) =>
      ConsumeStep(before, after, p, expectedInviter, now, smooth, ok)
  }

  /** states[i] is the directory before events[i]; the run starts empty. */
  ghost predicate Run(parses: EndpointParser, states: seq<Directory>, events: seq<Event>) {
    && |states| == |events| + 1 && states[0] == map[]
    && forall i | 0 <= i < |events| :: Step(parses, states[i], events[i], states[i + 1])
  }

  predicate Stores(e: Event, s: Secret) {
    e.Stored? && e.ok && e.ticket.secret == s
  }

  /** The ticket is in place and its issuer was told otherwise. */
  predicate InstallsUnreported(e: Event, s: Secret) {
    e.Stored? && !e.ok && e.installed && e.ticket.secret == s
  }

  predicate Consumes(e: Event, s: Secret) {
    e.Presented? && e.ok && e.ticket.secret == s
  }

  function StoreCount(events: seq<Event>, s: Secret): nat {
    if events == [] then 0
    else StoreCount(events[..|events| - 1], s) + if Stores(events[|events| - 1], s) then 1 else 0
  }

  function UnreportedCount(events: seq<Event>, s: Secret): nat {
    if events == [] then 0
    else UnreportedCount(events[..|events| - 1], s) + if InstallsUnreported(events[|events| - 1], s) then 1 else 0
  }

  function ConsumeCount(events: seq<Event>, s: Secret): nat {
    if events == [] then 0
    else ConsumeCount(events[..|events| - 1], s) + if Consumes(events[|events| - 1], s) then 1 else 0
  }

  /** events[j] installed exactly this ticket and it has not been consumed since. */
  ghost predicate IssuedAt(events: seq<Event>, j: nat, t: InviteTicket) {
    && j < |events| && events[j].Stored? && events[j].installed && Issued(events[j].ticket) == t
    && forall k | j < k < |events| :: !Consumes(events[k], t.secret)
  }

  /** Every file holds a ticket under its own secret that was issued and not consumed since. */
  ghost predicate Accounted(dir: Directory, events: seq<Event>) {
    && |dir| <= MAX_ACTIVE_INVITES
    && forall s | s in dir ::
         dir[s].Some? && dir[s].value.secret == s && exists j :: IssuedAt(events, j, dir[s].value)
  }

  lemma {:induction false} SubmapSize(a: Directory, b: Directory)
    requires forall s | s in a :: s in b
    ensures |a| <= |b|
    decreases |a|
  {
    if a != map[] {
      var s :| s in a;
      SubmapSize(a - {s}, b - {s});
    }
  }

  lemma StillIssued(events: seq<Event>, e: Event, j: nat, t: InviteTicket)
    requires IssuedAt(events, j, t) && !Consumes(e, t.secret)
    ensures IssuedAt(events + [e], j, t)
  {
  }

  lemma KeepsAccounted(before: Directory, e: Event, after: Directory, events: seq<Event>)
    requires Accounted(before, events)
    requires forall s | s in after :: s in before && after[s] == before[s] && !Consumes(e, s)
    ensures Accounted(after, events + [e])
  {
    SubmapSize(after, before);
    forall s | s in after ensures exists j :: IssuedAt(events + [e], j, after[s].value) {
      var j :| IssuedAt(events, j, before[s].value);
      StillIssued(events, e, j, before[s].value);
    }
  }

  lemma AddsAccounted(kept: Directory, t: InviteTicket, events: seq<Event>, e: Event)
    requires e.Stored? && e.installed && e.ticket == t
    requires Accounted(kept, events + [e]) && |kept| < MAX_ACTIVE_INVITES
    ensures Accounted(kept[t.secret := Some(Issued(t))], events + [e])
  {
    assert IssuedAt(events + [e], |events|, Issued(t));
    assert kept[t.secret := Some(Issued(t))].Keys == kept.Keys + {t.secret};
  }

  lemma StepAccounted(parses: EndpointParser, before: Directory, e: Event, after: Directory, events: seq<Event>)
    requires Accounted(before, events) && Step(parses, before, e, after)
    ensures Accounted(after, events + [e])
  {
    if e.Stored? && e.installed {
      KeepsAccounted(before, e, Active(before, e.ticket.createdAt), events);
      AddsAccounted(Active(before, e.ticket.createdAt), e.ticket, events, e);
    } else {
      KeepsAccounted(before, e, after, events);
    }
  }

  /** What was consumed and what is held is covered by what was installed, reported or not. */
  ghost predicate Balanced(dir: Directory, events: seq<Event>, s: Secret) {
    ConsumeCount(events, s) + (if s in dir then 1 else 0) <= StoreCount(events, s) + UnreportedCount(events, s)
  }

  lemma StepBalanced(parses: EndpointParser, before: Directory, e: Event, after: Directory, events: seq<Event>,
                     s: Secret)
    requires Balanced(before, events, s) && Step(parses, before, e, after)
    ensures Balanced(after, events + [e], s)
  {
    Counts(events, e, s);
  }

  lemma Counts(events: seq<Event>, e: Event, s: Secret)
    ensures StoreCount(events + [e], s) == StoreCount(events, s) + if Stores(e, s) then 1 else 0
    ensures UnreportedCount(events + [e], s) == UnreportedCount(events, s) + if InstallsUnreported(e, s) then 1 else 0
    ensures ConsumeCount(events + [e], s) == ConsumeCount(events, s) + if Consumes(e, s) then 1 else 0
  {
    assert (events + [e])[..|events|] == events;
  }

  ghost predicate AccountedAt(states: seq<Directory>, events: seq<Event>, n: nat, s: Secret)
    requires n < |states| == |events| + 1
  {
    Accounted(states[n], events[..n]) && Balanced(states[n], events[..n], s)
  }

  lemma AccountedAtFirst(states: seq<Directory>, events: seq<Event>, n: nat, s: Secret)
    requires n == 0 < |states| == |events| + 1 && states[0] == map[]
    ensures AccountedAt(states, events, n, s)
  {
  }

  lemma AccountedNext(
      parses: EndpointParser, states: seq<Directory>, events: seq<Event>, n: nat, next: nat, s: Secret)
    requires Run(parses, states, events) && next == n + 1 <= |events| && AccountedAt(states, events, n, s)
    ensures AccountedAt(states, events, next, s)
  {
    assert Step(parses, states[n], events[n], states[n + 1]);
    OneFurther(events, n);
    StepAccounted(parses, states[n], events[n], states[n + 1], events[..n]);
    StepBalanced(parses, states[n], events[n], states[n + 1], events[..n], s);
  }

  lemma {:induction false} AccountedUpTo(
      parses: EndpointParser, states: seq<Directory>, events: seq<Event>, n: nat, s: Secret)
    requires Run(parses, states, events) && n <= |events|
    ensures AccountedAt(states, events, n, s)
  {
    if n == 0 {
      AccountedAtFirst(states, events, n, s);
    } else {
      AccountedUpTo(parses, states, events, n - 1, s);
      AccountedNext(parses, states, events, n - 1, n, s);
    }
  }

  /** The invariant over runs, and the balance of issuing and consuming for each secret: consumptions and the ticket
      held never exceed the installations, reported and unreported ones. */
  lemma RunAccounted(parses: EndpointParser, states: seq<Directory>, events: seq<Event>, s: Secret)
    requires Run(parses, states, events)
    ensures Accounted(states[|events|], events)
    ensures Balanced(states[|events|], events, s)
  {
    AccountedUpTo(parses, states, events, |events|, s);
    assert events[..|events|] == events;
  }

  lemma {:induction false} CountedIff(events: seq<Event>, s: Secret)
    ensures UnreportedCount(events, s) > 0 <==> exists i :: 0 <= i < |events| && InstallsUnreported(events[i], s)
  {
    if events != [] {
      var n := |events| - 1;
      CountedIff(events[..n], s);
      if i :| 0 <= i < n && InstallsUnreported(events[i], s) {
        assert events[..n][i] == events[i];
      }
    }
  }

  /** As long as no store of a secret installs it unreported, it is consumed and held at most as often as its issuer was
      told that it is stored. */
  lemma ReportedBalance(parses: EndpointParser, states: seq<Directory>, events: seq<Event>, s: Secret)
    requires Run(parses, states, events)
    requires forall i | 0 <= i < |events| :: !InstallsUnreported(events[i], s)
    ensures ConsumeCount(events, s) + (if s in states[|events|] then 1 else 0) <= StoreCount(events, s)
  {
    RunAccounted(parses, states, events, s);
    CountedIff(events, s);
  }

  /** Of a secret the issuer was never told to be stored: it is in the directory at some moment if and only if a store
      of it installed the ticket and reported a failure. */
  lemma UnreportedIff(parses: EndpointParser, states: seq<Directory>, events: seq<Event>, s: Secret)
    requires Run(parses, states, events) && StoreCount(events, s) == 0
    ensures (exists i :: 0 <= i < |states| && s in states[i])
            <==> exists i :: 0 <= i < |events| && InstallsUnreported(events[i], s)
  {
    CountedIff(events, s);
    if i :| 0 <= i < |states| && s in states[i] {
      AccountedUpTo(parses, states, events, i, s);
      CountsGrow(events, i, s);
    }
    if i :| 0 <= i < |events| && InstallsUnreported(events[i], s) {
      assert Step(parses, states[i], events[i], states[i + 1]);
    }
  }

  lemma {:induction false} CountsGrow(events: seq<Event>, i: nat, s: Secret)
    requires i <= |events|
    ensures StoreCount(events[..i], s) <= StoreCount(events, s)
    ensures UnreportedCount(events[..i], s) <= UnreportedCount(events, s)
    decreases |events| - i
  {
    if i < |events| {
      assert events[..i + 1][..i] == events[..i];
      CountsGrow(events, i + 1, s);
    } else {
      assert events[..i] == events;
    }
  }

  /** The run that shows the difference: a store whose directory synchronisation fails reports a failure, and the ticket
      is accepted all the same. */
  lemma UnreportedIsAccepted(parses: EndpointParser, t: InviteTicket, now: uint64)
    returns (states: seq<Directory>, events: seq<Event>)
    requires ValidTicket(parses, t) && InTime(t, now)
    ensures Run(parses, states, events)
    ensures StoreCount(events, t.secret) == 0 && ConsumeCount(events, t.secret) == 1
  {
    var p := Issued(t);
    var before: Directory, held := map[], map[t.secret := Some(p)];
    states := [before, held, before];
    events := [Stored(t, false, false, true), Presented(p, p.inviterId, now, true, true)];
    assert Active(before, t.createdAt) == before;
    assert held == before[t.secret := Some(p)];
    assert held - {p.secret} == before;
    assert Step(parses, states[0], events[0], states[1]);
    assert Step(parses, states[1], events[1], states[2]);
    Counts([], events[0], t.secret);
    Counts([events[0]], events[1], t.secret);
    assert [events[0]] + [events[1]] == events;
  }

  /** A successful consumption presents, in time and to its issuer, exactly a ticket that was installed before and not
      consumed in between; afterwards no file holds that secret. */
  lemma ConsumptionIsJustified(parses: EndpointParser, states: seq<Directory>, events: seq<Event>, i: nat)
    requires Run(parses, states, events) && i < |events| && events[i].Presented? && events[i].ok
    ensures events[i].ticket.createdAt <= events[i].now < events[i].ticket.expiresAt
    ensures events[i].ticket.inviterId == events[i].expectedInviter
    ensures exists j :: IssuedAt(events[..i], j, events[i].ticket)
    ensures events[i].ticket.secret !in states[i + 1]
  {
    assert Step(parses, states[i], events[i], states[i + 1]);
    AccountedUpTo(parses, states, events, i, events[i].ticket.secret);
  }

  // ---------- what survives, and what succeeds ----------

  /** The ticket t is held under its secret. */
  predicate Holds(dir: Directory, t: InviteTicket) {
    t.secret in dir && dir[t.secret] == Some(t)
  }

  /** What neither burns the ticket nor lets it expire: a presentation of another ticket or to another inviter, a store
      that takes place before the ticket expires. */
  predicate Spares(e: Event, t: InviteTicket) {
    match e
    case Stored(other, _, _, _) => other.createdAt < t.expiresAt
    case Presented(p, expectedInviter, _, _, _) => !(p == t && expectedInviter == t.inviterId)
  }

  lemma StepSpares(parses: EndpointParser, before: Directory, e: Event, after: Directory, t: InviteTicket)
    requires Step(parses, before, e, after) && Holds(before, t) && Spares(e, t)
    ensures Holds(after, t)
  {
  }

  /** A ticket is held from its installation on, by whatever store, as long as it is spared. */
  lemma {:induction false} InstalledSurvives(
      parses: EndpointParser, states: seq<Directory>, events: seq<Event>, j: nat, i: nat)
    requires Run(parses, states, events) && j < i <= |events| && events[j].Stored? && events[j].installed
    requires forall k | j < k < i :: Spares(events[k], Issued(events[j].ticket))
    ensures Holds(states[i], Issued(events[j].ticket))
  {
    assert Step(parses, states[i - 1], events[i - 1], states[i]);
    if i > j + 1 {
      InstalledSurvives(parses, states, events, j, i - 1);
      StepSpares(parses, states[i - 1], events[i - 1], states[i], Issued(events[j].ticket));
    }
  }

  /** An invitation that was issued works: presented to its issuer for the first time it is burnt, and accepted exactly
      if it is in time, provided that the file operations go through and no store took place after its expiry. */
  lemma InvitationWorks(parses: EndpointParser, states: seq<Directory>, events: seq<Event>, j: nat, i: nat)
    requires Run(parses, states, events) && j < i < |events| && events[j].Stored? && events[j].installed
    requires forall k | j < k < i :: Spares(events[k], Issued(events[j].ticket))
    requires events[i].Presented? && events[i].smooth && events[i].ticket == Issued(events[j].ticket)
    requires events[i].expectedInviter == events[i].ticket.inviterId
    ensures events[i].ok <==> events[j].ticket.createdAt <= events[i].now < events[j].ticket.expiresAt
    ensures events[i].ticket.secret !in states[i + 1]
  {
    InstalledSurvives(parses, states, events, j, i);
    assert Step(parses, states[i], events[i], states[i + 1]);
  }

  /** The secrets of the tickets that are held and expire later than now. */
  ghost function Unexpired(dir: Directory, now: uint64): set<Secret> {
    set s | s in dir && dir[s].Some? && now < dir[s].value.expiresAt
  }

  lemma UnexpiredAreActive(dir: Directory, now: uint64)
    requires AllReadable(dir)
    ensures Active(dir, now).Keys == Unexpired(dir, now)
  {
  }

  /** Issuing succeeds exactly for an issuable ticket whose secret no unexpired one has, while fewer than 64 are
      unexpired; then exactly those and the new one are held, and nothing else about them has changed. */
  lemma StoreSucceedsIff(parses: EndpointParser, states: seq<Directory>, events: seq<Event>, i: nat)
    requires Run(parses, states, events) && i < |events| && events[i].Stored? && events[i].smooth
    ensures var t, unexpired := events[i].ticket, Unexpired(states[i], events[i].ticket.createdAt);
            && (events[i].ok <==> ValidTicket(parses, t) && t.secret !in unexpired && |unexpired| < 64)
            && (events[i].ok ==> states[i + 1].Keys == unexpired + {t.secret} && Holds(states[i + 1], Issued(t))
                                 && forall s | s in unexpired :: states[i + 1][s] == states[i][s])
  {
    var t := events[i].ticket;
    AccountedUpTo(parses, states, events, i, t.secret);
    UnexpiredAreActive(states[i], t.createdAt);
    assert |Active(states[i], t.createdAt)| == |Active(states[i], t.createdAt).Keys|;
    assert Step(parses, states[i], events[i], states[i + 1]);
  }
}
