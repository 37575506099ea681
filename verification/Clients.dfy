/**
  Clients, sessions and leases: SETCLIENTID and SETCLIENTID_CONFIRM (sections 16.33 and 16.34 of
  RFC 7530), EXCHANGE_ID, CREATE_SESSION, DESTROY_SESSION, DESTROY_CLIENTID and SEQUENCE
  (sections 18.35 to 18.37, 18.46 and 18.50 of RFC 5661) and `cleanup_expired`. Time is counted
  in nanoseconds.
*/
module Clients {
  import opened Wire

  /** 300 seconds. */
  const LEASE_TIMEOUT: nat := 300_000_000_000

  type SessionKey = seq<byte>
  type Verifier = seq<byte>

  const ZERO_VERIFIER: Verifier := [0, 0, 0, 0, 0, 0, 0, 0]

  datatype ClientRecord = ClientRecord(
    clientId: u64, verifier: Verifier, idString: seq<byte>, callbackProgram: u32,
    confirmed: bool, confirmVerifier: Verifier, sequence: u32, lastUsed: nat)

  datatype SessionRecord = SessionRecord(
    sessionId: SessionKey, clientId: u64, sequence: u32, highestSlot: u32,
    foreMaxOps: u32, foreMaxReqs: u32, lastUsed: nat)

  datatype State = State(
    clients: map<u64, ClientRecord>,
    owners: map<seq<byte>, u64>,
    counter: u64,
    sessions: map<SessionKey, SessionRecord>)

  /** One request, or one round of the cleanup task, at time `now`. `seen` is the record of the
      same id string that the scan of SETCLIENTID meets first, in whatever order the table is
      walked; `confirm` is the verifier it makes up. */
  datatype Event =
    | SetClientId(verifier: Verifier, idString: seq<byte>, callback: u32, confirm: Verifier,
                  seen: Option<u64>, now: nat)
    | ConfirmClientId(client: u64)
    | ExchangeId(owner: seq<byte>, now: nat)
    | CreateSession(client: u64, maxOps: u32, maxReqs: u32, now: nat)
    | DestroySession(session: SessionKey)
    | DestroyClientId(client: u64)
    | Sequence(session: SessionKey, seqId: u32, highestSlot: u32, now: nat)
    | Cleanup(now: nat)

  datatype Reply =
    | Done
    | ClientIs(id: u64, confirm: Verifier)
    | InUse
    | StaleClient
    | Exchanged(id: u64, seqId: u32)
    | SessionIs(session: SessionKey)
    | BadSession
    | Sequenced(highest: u32)

  // ----- sessions -----

  /** The session id derived from the client id. */
  function SessionId(client: u64): (k: SessionKey)
    ensures |k| == 16
  {
    Be64(client) + [0, 0, 0, 0, 0, 0, 0, 1]
  }

  lemma SessionIdInjective(a: u64, b: u64)
    requires SessionId(a) == SessionId(b)
    ensures a == b
  {
    assert Be64(a) == SessionId(a)[..8] == SessionId(b)[..8] == Be64(b);
    Be64Injective(a, b);
  }

  /** `n.min(high).max(low)`: the nearest number in the range. */
  function Clamp(n: u32, low: u32, high: u32): (r: u32)
    requires low <= high
    ensures low <= r <= high
    ensures r > low ==> r <= n
    ensures r < high ==> r >= n
  {
    var m := if n < high then n else high;
    if m < low then low else m
  }

  function NewSession(client: u64, maxOps: u32, maxReqs: u32, now: nat): SessionRecord {
    var reqs := Clamp(maxReqs, 1, 64);
    SessionRecord(SessionId(client), client, 1, reqs - 1, Clamp(maxOps, 1, 100), reqs, now)
  }

  predicate Accepts(s: State, session: SessionKey, seqId: u32) {
    session in s.sessions && seqId >= s.sessions[session].sequence
  }

  function Touched(r: SessionRecord, seqId: u32, highestSlot: u32, now: nat): SessionRecord {
    r.(sequence := seqId, lastUsed := now,
       highestSlot := if highestSlot > r.highestSlot then highestSlot else r.highestSlot)
  }

  // ----- clients -----

  ghost predicate Matches(s: State, idString: seq<byte>, id: u64) {
    id in s.clients && s.clients[id].idString == idString
  }

  /** What a scan can meet first. */
  ghost predicate CanSee(s: State, idString: seq<byte>, seen: Option<u64>) {
    match seen
    case None => forall id: u64 :: !Matches(s, idString, id)
    case Some(id) => Matches(s, idString, id)
  }

  /** What EXCHANGE_ID answers for an owner. */
  function IdOf(s: State, owner: seq<byte>): u64 {
    if owner in s.owners then s.owners[owner] else s.counter
  }

  // ----- expiry -----

  predicate Expired(lastUsed: nat, now: nat) { now > lastUsed + LEASE_TIMEOUT }

  function KeptSessions(sessions: map<SessionKey, SessionRecord>, now: nat): map<SessionKey, SessionRecord> {
    map k | k in sessions && !Expired(sessions[k].lastUsed, now) :: sessions[k]
  }

  ghost predicate HasSession(sessions: map<SessionKey, SessionRecord>, client: u64) {
    exists k :: k in sessions && sessions[k].clientId == client
  }

  /** The clients a cleanup removes: idle too long and without a session that survives it. */
  ghost predicate Lapsed(s: State, now: nat, client: u64) {
    && client in s.clients
    && Expired(s.clients[client].lastUsed, now)
    && !HasSession(KeptSessions(s.sessions, now), client)
  }

  /** The cleanup drops the mapping of this owner. */
  ghost predicate Forgets(s: State, now: nat, owner: seq<byte>) {
    exists id: u64 :: Lapsed(s, now, id) && s.clients[id].idString == owner
  }

  ghost function IdStrings(clients: map<u64, ClientRecord>, ids: set<u64>): set<seq<byte>>
    requires ids <= clients.Keys
  {
    set id | id in ids :: clients[id].idString
  }

  ghost function IdleIds(clients: map<u64, ClientRecord>, sessions: map<SessionKey, SessionRecord>, now: nat)
    : (r: set<u64>)
    ensures r <= clients.Keys
  {
    set id | id in clients && Expired(clients[id].lastUsed, now) && !HasSession(sessions, id)
  }

  lemma KeptByRemoval(sessions: map<SessionKey, SessionRecord>, now: nat)
    ensures KeptSessions(sessions, now) ==
            sessions - set k | k in sessions && Expired(sessions[k].lastUsed, now)
  {
    hide Expired;
    var gone := set k | k in sessions && Expired(sessions[k].lastUsed, now);
    forall k ensures k in KeptSessions(sessions, now) <==> k in sessions - gone {
    }
  }

  lemma NoIdStrings(clients: map<u64, ClientRecord>)
    ensures IdStrings(clients, {}) == {}
  {
  }

  lemma DropOne(clients: map<u64, ClientRecord>, owners: map<seq<byte>, u64>, gone: set<u64>, id: u64)
    requires gone <= clients.Keys && id in clients
    ensures clients - gone - {id} == clients - (gone + {id})
    ensures owners - IdStrings(clients, gone) - {clients[id].idString} ==
            owners - IdStrings(clients, gone + {id})
  {
    assert IdStrings(clients, gone + {id}) == IdStrings(clients, gone) + {clients[id].idString};
    hide IdStrings;
  }

  ghost function AfterCleanup(s: State, now: nat): State {
    State(
      map id | id in s.clients && !Lapsed(s, now, id) :: s.clients[id],
      map o | o in s.owners && !Forgets(s, now, o) :: s.owners[o],
      s.counter,
      KeptSessions(s.sessions, now))
  }

  // ----- the machine -----

  const INITIAL: State := State(map[], map[], 1, map[])

  /** The scan can go this way, and an allocation does not overflow the counter. */
  ghost predicate Enabled(s: State, e: Event) {
    && (e.SetClientId? ==> CanSee(s, e.idString, e.seen) && (e.seen.None? ==> s.counter < MAX_U64))
    && (e.ExchangeId? && e.owner !in s.owners ==> s.counter < MAX_U64)
  }

  ghost function Next(s: State, e: Event): (State, Reply)
    requires Enabled(s, e)
  {
    match e
    case SetClientId(verifier, idString, callback, confirm, seen, now) =>
      if seen.None? then
        var r := ClientRecord(s.counter, verifier, idString, callback, false, confirm, 0, now);
        (s.(clients := s.clients[s.counter := r], counter := s.counter + 1), ClientIs(s.counter, confirm))
      else
        var id, r := seen.value, s.clients[seen.value];
        if r.verifier != verifier then (s, InUse)
        else (s.(clients := s.clients[id := r.(confirmVerifier := confirm)]), ClientIs(id, confirm))
    case ConfirmClientId(client) =>
      if client !in s.clients then (s, StaleClient)
      else (s.(clients := s.clients[client := s.clients[client].(confirmed := true)]), Done)
    case ExchangeId(owner, now) =>
      var id := IdOf(s, owner);
      var seqId := if id in s.clients then s.clients[id].sequence else 1;
      var r := ClientRecord(id, ZERO_VERIFIER, [], 0, false, ZERO_VERIFIER, 1, now);
      (State(s.clients[id := r], s.owners[owner := id],
             if owner in s.owners then s.counter else s.counter + 1, s.sessions),
       Exchanged(id, seqId))
    case CreateSession(client, maxOps, maxReqs, now) =>
      (s.(sessions := s.sessions[SessionId(client) := NewSession(client, maxOps, maxReqs, now)]),
       SessionIs(SessionId(client)))
    case DestroySession(session) => (s.(sessions := s.sessions - {session}), Done)
    case DestroyClientId(client) =>
      (s.(sessions := map k | k in s.sessions && s.sessions[k].clientId != client :: s.sessions[k]), Done)
    case Sequence(session, seqId, highestSlot, now) =>
      if !Accepts(s, session, seqId) then (s, BadSession)
      else
        var r := Touched(s.sessions[session], seqId, highestSlot, now);
        (s.(sessions := s.sessions[session := r]), Sequenced(r.highestSlot))
    case Cleanup(now) => (AfterCleanup(s, now), Done)
  }

  lemma CleanupParts(s: State, now: nat)
    ensures var kept := KeptSessions(s.sessions, now);
            var idle := IdleIds(s.clients, kept, now);
            AfterCleanup(s, now) ==
            State(s.clients - idle, s.owners - IdStrings(s.clients, idle), s.counter, kept)
  {
    hide KeptSessions, HasSession, Expired;
    var idle := IdleIds(s.clients, KeptSessions(s.sessions, now), now);
    assert forall id: u64 :: Lapsed(s, now, id) <==> id in idle;
    assert AfterCleanup(s, now).clients == s.clients - idle;
    forall o ensures Forgets(s, now, o) <==> o in IdStrings(s.clients, idle) {
      if o in IdStrings(s.clients, idle) {
        var id :| id in idle && s.clients[id].idString == o;
        assert Lapsed(s, now, id);
      }
    }
    assert AfterCleanup(s, now).owners == s.owners - IdStrings(s.clients, idle);
  }

  // ----- the server -----

  class ClientManager {
    var clients: map<u64, ClientRecord>
    var owners: map<seq<byte>, u64>
    var counter: u64
    var sessions: map<SessionKey, SessionRecord>

    ghost function View(): State
      reads this
    {
      State(clients, owners, counter, sessions)
    }

    constructor ()
      ensures View() == INITIAL
    {
      clients, owners, counter, sessions := map[], map[], 1, map[];
    }

    /** The scan for the id string, in whatever order the table is walked. */
    method FindIdString(idString: seq<byte>) returns (seen: Option<u64>)
      ensures CanSee(View(), idString, seen)
    {
      var remaining := clients.Keys;
      while remaining != {}
        invariant remaining <= clients.Keys
        invariant forall id :: id in clients && id !in remaining ==> clients[id].idString != idString
        decreases |remaining|
      {
        var id :| id in remaining;
        if clients[id].idString == idString { return Some(id); }
        remaining := remaining - {id};
      }
      return None;
    }

    /** `op_setclientid` after its arguments are parsed. */
    method OpSetClientId(verifier: Verifier, idString: seq<byte>, callback: u32, confirm: Verifier, now: nat)
      returns (r: Reply, seen: Option<u64>)
      requires counter < MAX_U64
      modifies this
      ensures var e := SetClientId(verifier, idString, callback, confirm, seen, now);
              Enabled(old(View()), e) && (View(), r) == Next(old(View()), e)
    {
      seen := FindIdString(idString);
      if seen.Some? {
        var record := clients[seen.value];
        if record.verifier == verifier {
          clients := clients[seen.value := record.(confirmVerifier := confirm)];
          return ClientIs(seen.value, confirm), seen;
        }
        return InUse, seen;
      }
      var clientId := counter;
      counter := counter + 1;
      clients := clients[clientId := ClientRecord(clientId, verifier, idString, callback, false, confirm, 0, now)];
      return ClientIs(clientId, confirm), seen;
    }

    /** `op_setclientid_confirm` */
    method OpSetClientIdConfirm(client: u64) returns (r: Reply)
      modifies this
      ensures (View(), r) == Next(old(View()), ConfirmClientId(client))
    {
      if client !in clients { return StaleClient; }
      clients := clients[client := clients[client].(confirmed := true)];
      return Done;
    }

    /** `op_exchange_id` after its arguments are parsed. */
    method OpExchangeId(owner: seq<byte>, now: nat) returns (r: Reply)
      requires counter < MAX_U64
      modifies this
      ensures (View(), r) == Next(old(View()), ExchangeId(owner, now))
    {
      var id: u64;
      if owner in owners {
        id := owners[owner];
        assert owners[owner := id] == owners;
      } else {
        id := counter;
        counter := counter + 1;
        owners := owners[owner := id];
      }
      var seqId := if id in clients then clients[id].sequence else 1;
      clients := clients[id := ClientRecord(id, ZERO_VERIFIER, [], 0, false, ZERO_VERIFIER, 1, now)];
      return Exchanged(id, seqId);
    }

    /** `op_create_session` after its arguments are parsed. */
    method OpCreateSession(client: u64, maxOps: u32, maxReqs: u32, now: nat) returns (r: Reply)
      modifies this
      ensures (View(), r) == Next(old(View()), CreateSession(client, maxOps, maxReqs, now))
    {
      var sessionId := SessionId(client);
      var ops := Clamp(maxOps, 1, 100);
      var reqs := Clamp(maxReqs, 1, 64);
      sessions := sessions[sessionId := SessionRecord(sessionId, client, 1, reqs - 1, ops, reqs, now)];
      return SessionIs(sessionId);
    }

    /** `op_destroy_session` */
    method OpDestroySession(session: SessionKey) returns (r: Reply)
      modifies this
      ensures (View(), r) == Next(old(View()), DestroySession(session))
    {
      sessions := sessions - {session};
      return Done;
    }

    /** `op_destroy_clientid`: `retain` walks the sessions. */
    method OpDestroyClientId(client: u64) returns (r: Reply)
      modifies this
      ensures (View(), r) == Next(old(View()), DestroyClientId(client))
    {
      var remaining := sessions.Keys;
      while remaining != {}
        invariant remaining <= sessions.Keys
        invariant clients == old(clients) && owners == old(owners) && counter == old(counter)
        invariant forall k :: k in sessions <==>
                    k in old(sessions) && (k in remaining || old(sessions)[k].clientId != client)
        invariant forall k :: k in sessions ==> sessions[k] == old(sessions)[k]
        decreases |remaining|
      {
        var k :| k in remaining;
        remaining := remaining - {k};
        if sessions[k].clientId == client { sessions := sessions - {k}; }
      }
      assert sessions == map k | k in old(sessions) && old(sessions)[k].clientId != client :: old(sessions)[k];
      return Done;
    }

    /** `op_sequence` after its arguments are parsed. */
    method OpSequence(session: SessionKey, seqId: u32, highestSlot: u32, now: nat) returns (r: Reply)
      modifies this
      ensures (View(), r) == Next(old(View()), Sequence(session, seqId, highestSlot, now))
    {
      if session !in sessions { return BadSession; }
      var s := sessions[session];
      if seqId < s.sequence { return BadSession; }
      s := s.(sequence := seqId, lastUsed := now);
      if highestSlot > s.highestSlot { s := s.(highestSlot := highestSlot); }
      sessions := sessions[session := s];
      return Sequenced(s.highestSlot);
    }

    /** `cleanup_expired`: first the sessions, then the clients that no session keeps. */
    method CleanupExpired(now: nat)
      modifies this
      ensures View() == Next(old(View()), Cleanup(now)).0
    {
      DropSessions(now);
      var expired := IdleClients(now);
      DropClients(expired);
      CleanupParts(old(View()), now);
    }

    method DropSessions(now: nat)
      modifies this
      ensures View() == old(View()).(sessions := KeptSessions(old(sessions), now))
    {
      hide KeptSessions, Expired;
      var expired := set k | k in sessions && Expired(sessions[k].lastUsed, now);
      ghost var all := expired;
      while expired != {}
        invariant expired <= all
        invariant clients == old(clients) && owners == old(owners) && counter == old(counter)
        invariant sessions == old(sessions) - (all - expired)
        decreases |expired|
      {
        var k :| k in expired;
        expired := expired - {k};
        sessions := sessions - {k};
      }
      KeptByRemoval(old(sessions), now);
    }

    method IdleClients(now: nat) returns (expired: set<u64>)
      ensures expired == IdleIds(clients, sessions, now)
    {
      var active := set k | k in sessions :: sessions[k].clientId;
      expired := set id | id in clients && Expired(clients[id].lastUsed, now) && id !in active;
    }

    method DropClients(all: set<u64>)
      requires all <= clients.Keys
      modifies this
      ensures sessions == old(sessions) && counter == old(counter)
      ensures clients == old(clients) - all
      ensures owners == old(owners) - IdStrings(old(clients), all)
    {
      hide IdStrings;
      ghost var gone: set<u64> := {};
      var expired := all;
      NoIdStrings(clients);
      while expired != {}
        invariant gone + expired == all && gone !! expired
        invariant sessions == old(sessions) && counter == old(counter)
        invariant clients == old(clients) - gone
        invariant owners == old(owners) - IdStrings(old(clients), gone)
        decreases |expired|
      {
        var id :| id in expired;
        expired := expired - {id};
        DropOne(old(clients), old(owners), gone, id);
        if id in clients {
          var record := clients[id];
          clients := clients - {id};
          owners := owners - {record.idString};
        }
        gone := gone + {id};
      }
      assert gone == all;
    }
  }
}
