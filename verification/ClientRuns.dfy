/**
  What holds over every run of the client and session machine: which ids are handed to whom,
  which sessions and clients are alive, and when an owner loses its client id. Every event is
  atomic; nothing is asked of the clock.
*/
module ClientRuns {
  import opened Wire
  import opened Clients

  /** `ss[i]` is the state before event `i`. */
  ghost predicate Run(es: seq<Event>, ss: seq<State>) {
    && |ss| == |es| + 1
    && ss[0] == INITIAL
    && forall i :: 0 <= i < |es| ==> Enabled(ss[i], es[i]) && ss[i + 1] == Next(ss[i], es[i]).0
  }

  lemma RunNext(es: seq<Event>, ss: seq<State>, n: nat)
    requires Run(es, ss) && n < |es|
    ensures Enabled(ss[n], es[n]) && ss[n + 1] == Next(ss[n], es[n]).0
  {
  }

  lemma EmptyAtFirst(es: seq<Event>, ss: seq<State>)
    requires Run(es, ss)
    ensures |ss| == |es| + 1 && ss[0] == INITIAL
  {
  }

  // ----- sessions: one key for each client -----

  ghost predicate Keyed(s: State) {
    forall k :: k in s.sessions ==> k == SessionId(s.sessions[k].clientId) == s.sessions[k].sessionId
  }

  lemma StepKeyed(s: State, e: Event)
    requires Enabled(s, e) && Keyed(s)
    ensures Keyed(Next(s, e).0)
  {
    hide SessionId, Expired, Lapsed, Forgets;
  }

  lemma {:induction false} AlwaysKeyed(es: seq<Event>, ss: seq<State>, n: nat)
    requires Run(es, ss) && n <= |es|
    ensures Keyed(ss[n])
  {
    if n > 0 {
      AlwaysKeyed(es, ss, n - 1);
      StepKeyed(ss[n - 1], es[n - 1]);
    }
  }

  /** A client has one session at most, under its own key. */
  lemma OneSession(s: State, client: u64)
    requires Keyed(s)
    ensures HasSession(s.sessions, client) <==> SessionId(client) in s.sessions
    ensures forall k :: k in s.sessions ==> (s.sessions[k].clientId == client <==> k == SessionId(client))
  {
    forall k | k in s.sessions ensures s.sessions[k].clientId == client <==> k == SessionId(client) {
      if k == SessionId(client) { SessionIdInjective(client, s.sessions[k].clientId); }
    }
    hide SessionId;
  }

  /** DESTROY_CLIENTID, which scans all sessions, does what DESTROY_SESSION does to one. */
  lemma DestroyClientIsDestroySession(s: State, client: u64)
    requires Keyed(s)
    ensures Next(s, DestroyClientId(client)) == Next(s, DestroySession(SessionId(client)))
  {
    OneSession(s, client);
    hide SessionId;
    assert (map k | k in s.sessions && s.sessions[k].clientId != client :: s.sessions[k]) ==
           s.sessions - {SessionId(client)};
  }

  // ----- sessions: alive exactly while used -----

  function Time(e: Event): nat {
    match e
    case SetClientId(_, _, _, _, _, now) => now
    case ExchangeId(_, now) => now
    case CreateSession(_, _, _, now) => now
    case Sequence(_, _, _, now) => now
    case Cleanup(now) => now
    case _ => 0
  }

  /** The sequence id a use leaves in the session. */
  function SeqOf(e: Event): u32 {
    if e.Sequence? then e.seqId else 1
  }

  /** A CREATE_SESSION for this key or a SEQUENCE on it that succeeds. */
  ghost predicate Uses(s: State, e: Event, k: SessionKey) {
    || (e.CreateSession? && k == SessionId(e.client))
    || (e.Sequence? && k == e.session && k in s.sessions && e.seqId >= s.sessions[k].sequence)
  }

  ghost predicate Destroys(e: Event, k: SessionKey) {
    || (e.DestroySession? && k == e.session)
    || (e.DestroyClientId? && k == SessionId(e.client))
  }

  /** Event `i` is the last use of the session, nothing has destroyed it since, and no cleanup has
      come more than 300 seconds after it. */
  ghost predicate InLease(es: seq<Event>, ss: seq<State>, n: nat, k: SessionKey, i: nat) {
    && i < n <= |es| < |ss|
    && Uses(ss[i], es[i], k)
    && forall j :: i < j < n ==>
         && !Uses(ss[j], es[j], k)
         && !Destroys(es[j], k)
         && (es[j].Cleanup? ==> Time(es[j]) <= Time(es[i]) + 300_000_000_000)
  }

  lemma InLeaseGrows(es: seq<Event>, ss: seq<State>, n: nat, k: SessionKey)
    requires 0 < n <= |es| < |ss|
    ensures forall i: nat :: InLease(es, ss, n, k, i) <==>
              if i == n - 1 then Uses(ss[n - 1], es[n - 1], k)
              else
                && InLease(es, ss, n - 1, k, i)
                && !Uses(ss[n - 1], es[n - 1], k)
                && !Destroys(es[n - 1], k)
                && (es[n - 1].Cleanup? ==> Time(es[n - 1]) <= Time(es[i]) + 300_000_000_000)
  {
    hide Uses, Destroys, Expired, Time;
  }

  lemma SessionStep(s: State, e: Event, k: SessionKey)
    requires Enabled(s, e) && Keyed(s)
    ensures var after := Next(s, e).0.sessions;
            if Uses(s, e, k) then k in after && after[k].lastUsed == Time(e) && after[k].sequence == SeqOf(e)
            else
              && (k in after <==>
                    && k in s.sessions
                    && !Destroys(e, k)
                    && (e.Cleanup? ==> Time(e) <= s.sessions[k].lastUsed + 300_000_000_000))
              && (k in after ==> after[k] == s.sessions[k])
  {
    if e.DestroyClientId? { OneSession(s, e.client); }
    hide SessionId, Lapsed, Forgets;
  }

  /** A session is alive exactly when its last successful SEQUENCE or CREATE_SESSION was at most
      300 seconds before every cleanup since, and nothing has destroyed it. It then holds the time and
      the sequence id of that last use. */
  lemma {:induction false} SessionAliveIffInLease(es: seq<Event>, ss: seq<State>, n: nat, k: SessionKey)
    requires Run(es, ss) && n <= |es|
    ensures k in ss[n].sessions <==> exists i: nat :: InLease(es, ss, n, k, i)
    ensures forall i: nat :: InLease(es, ss, n, k, i) ==>
              && k in ss[n].sessions
              && ss[n].sessions[k].lastUsed == Time(es[i])
              && ss[n].sessions[k].sequence == SeqOf(es[i])
  {
    if n > 0 {
      SessionAliveIffInLease(es, ss, n - 1, k);
      AlwaysKeyed(es, ss, n - 1);
      SessionStep(ss[n - 1], es[n - 1], k);
      InLeaseGrows(es, ss, n, k);
      hide InLease, Uses, Destroys, Expired, Enabled, Next;
      if Uses(ss[n - 1], es[n - 1], k) {
        assert InLease(es, ss, n, k, n - 1);
      } else if k in ss[n].sessions {
        var i: nat :| InLease(es, ss, n - 1, k, i);
        assert InLease(es, ss, n, k, i);
      }
    }
  }

  // ----- clients: alive while recent or in session -----

  /** The event puts a fresh record for this client into the table. */
  ghost predicate Registers(s: State, e: Event, client: u64) {
    || (e.ExchangeId? && client == if e.owner in s.owners then s.owners[e.owner] else s.counter)
    || (e.SetClientId? && e.seen.None? && client == s.counter)
  }

  /** Event `i` is the last registration of the client, and at every cleanup since, the client was
      recent or had a session that survived it. */
  ghost predicate Kept(es: seq<Event>, ss: seq<State>, n: nat, client: u64, i: nat) {
    && i < n <= |es| < |ss|
    && Registers(ss[i], es[i], client)
    && forall j :: i < j < n ==>
         && !Registers(ss[j], es[j], client)
         && (es[j].Cleanup? ==>
               Time(es[j]) <= Time(es[i]) + 300_000_000_000 || SessionId(client) in ss[j + 1].sessions)
  }

  lemma KeptGrows(es: seq<Event>, ss: seq<State>, n: nat, client: u64)
    requires 0 < n <= |es| < |ss|
    ensures forall i: nat :: Kept(es, ss, n, client, i) <==>
              if i == n - 1 then Registers(ss[n - 1], es[n - 1], client)
              else
                && Kept(es, ss, n - 1, client, i)
                && !Registers(ss[n - 1], es[n - 1], client)
                && (es[n - 1].Cleanup? ==>
                      Time(es[n - 1]) <= Time(es[i]) + 300_000_000_000 || SessionId(client) in ss[n].sessions)
  {
    hide Registers, Expired, Time, SessionId;
  }

  lemma KeptEarlier(es: seq<Event>, ss: seq<State>, n: nat, client: u64, i: nat)
    requires Kept(es, ss, n, client, i)
    ensures i < n
  {
  }

  lemma KeptLater(es: seq<Event>, ss: seq<State>, client: u64)
    ensures forall i: nat :: !Kept(es, ss, 0, client, i)
  {
  }

  /** One round of the cleanup: a client stays exactly when it is recent or has a session left. */
  lemma ClientStep(s: State, e: Event, client: u64)
    requires Enabled(s, e) && Keyed(s)
    ensures var after := Next(s, e).0;
            if Registers(s, e, client) then client in after.clients && after.clients[client].lastUsed == Time(e)
            else
              && (client in after.clients <==>
                    && client in s.clients
                    && (e.Cleanup? ==>
                          || Time(e) <= s.clients[client].lastUsed + 300_000_000_000
                          || SessionId(client) in after.sessions))
              && (client in after.clients ==> after.clients[client].lastUsed == s.clients[client].lastUsed)
  {
    StepKeyed(s, e);
    OneSession(Next(s, e).0, client);
    hide SessionId, Forgets, HasSession, KeptSessions;
  }

  /** A client is in the table exactly when, at every cleanup since it was last registered, it was
      recent or had a live session; no other operation removes one. */
  lemma {:induction false} ClientAliveIffKept(es: seq<Event>, ss: seq<State>, n: nat, client: u64)
    requires Run(es, ss) && n <= |es|
    ensures client in ss[n].clients <==> exists i: nat :: Kept(es, ss, n, client, i)
    ensures forall i: nat :: Kept(es, ss, n, client, i) ==>
              client in ss[n].clients && ss[n].clients[client].lastUsed == Time(es[i])
  {
    hide Run, Kept, Registers, Enabled, Next, SessionId, Time, Keyed;
    EmptyAtFirst(es, ss);
    if n == 0 {
      KeptLater(es, ss, client);
    } else {
      var m := n - 1;
      ClientAliveIffKept(es, ss, m, client);
      AlwaysKeyed(es, ss, m);
      RunNext(es, ss, m);
      ClientStep(ss[m], es[m], client);
      KeptGrows(es, ss, n, client);
      if Registers(ss[m], es[m], client) {
        assert Kept(es, ss, n, client, m);
      } else if client in ss[n].clients {
        var i: nat :| Kept(es, ss, m, client, i);
        KeptEarlier(es, ss, m, client, i);
        assert Kept(es, ss, n, client, i);
      }
    }
  }

  // ----- identity: who has been given which id -----

  /** Whom an id was allocated for: the owner of an EXCHANGE_ID or the id string of a SETCLIENTID. */
  datatype Origin = ByOwner(owner: seq<byte>) | ByString(idString: seq<byte>)

  ghost function Allocated(s: State, e: Event): map<u64, Origin> {
    if e.ExchangeId? && e.owner !in s.owners then map[s.counter := ByOwner(e.owner)]
    else if e.SetClientId? && e.seen.None? then map[s.counter := ByString(e.idString)]
    else map[]
  }

  /** Every allocation made before event `n`. */
  ghost function History(es: seq<Event>, ss: seq<State>, n: nat): map<u64, Origin>
    requires n <= |es| < |ss|
  {
    if n == 0 then map[] else History(es, ss, n - 1) + Allocated(ss[n - 1], es[n - 1])
  }

  ghost predicate IdsAgree(s: State, h: map<u64, Origin>) {
    && 1 <= s.counter
    && forall id: u64 :: id in h <==> 1 <= id < s.counter
  }

  ghost predicate OwnersAgree(s: State, h: map<u64, Origin>) {
    forall o :: o in s.owners ==> s.owners[o] in h && h[s.owners[o]] == ByOwner(o)
  }

  ghost predicate ClientsAgree(s: State, h: map<u64, Origin>) {
    forall id: u64 :: id in s.clients ==>
      && id in h
      && s.clients[id].clientId == id
      && s.clients[id].idString == (if h[id].ByOwner? then [] else h[id].idString)
      && (h[id].ByOwner? ==> s.clients[id].verifier == ZERO_VERIFIER && s.clients[id].sequence == 1)
  }

  ghost predicate Agrees(s: State, h: map<u64, Origin>) {
    IdsAgree(s, h) && OwnersAgree(s, h) && ClientsAgree(s, h)
  }

  /** A non-empty id string has one record at most. */
  ghost predicate OneRecord(s: State) {
    forall x: seq<byte>, a: u64, b: u64 :: x != [] && Matches(s, x, a) && Matches(s, x, b) ==> a == b
  }

  /** No operation but a SETCLIENTID for `x` adds a record for `x`. */
  lemma StepMatches(s: State, e: Event, x: seq<byte>, id: u64)
    requires Enabled(s, e) && x != []
    requires Matches(Next(s, e).0, x, id)
    ensures Matches(s, x, id) || (e.SetClientId? && e.idString == x && e.seen.None? && id == s.counter)
  {
    hide SessionId, Expired, Lapsed, Forgets;
  }

  lemma {:induction false} AlwaysOneRecord(es: seq<Event>, ss: seq<State>, n: nat)
    requires Run(es, ss) && n <= |es|
    ensures OneRecord(ss[n])
  {
    if n > 0 {
      AlwaysOneRecord(es, ss, n - 1);
      var s, e := ss[n - 1], es[n - 1];
      hide Next, Matches;
      forall x: seq<byte>, a: u64, b: u64 | x != [] && Matches(ss[n], x, a) && Matches(ss[n], x, b)
        ensures a == b
      {
        StepMatches(s, e, x, a);
        StepMatches(s, e, x, b);
      }
    }
  }

  lemma StepIdsAgree(s: State, e: Event, h: map<u64, Origin>)
    requires Enabled(s, e) && IdsAgree(s, h)
    ensures IdsAgree(Next(s, e).0, h + Allocated(s, e))
    ensures forall id: u64 :: id in h ==> id !in Allocated(s, e)
  {
    hide SessionId, Expired, Lapsed, Forgets;
  }

  lemma StepRecord(s: State, e: Event, id: u64)
    requires Enabled(s, e) && id in Next(s, e).0.clients
    ensures var r := Next(s, e).0.clients[id];
            || (id in s.clients && r.clientId == s.clients[id].clientId && r.idString == s.clients[id].idString
                && r.verifier == s.clients[id].verifier && r.sequence == s.clients[id].sequence)
            || (e.ExchangeId? && id == IdOf(s, e.owner) && r.clientId == id && r.idString == []
                && r.verifier == ZERO_VERIFIER && r.sequence == 1)
            || (e.SetClientId? && e.seen.None? && id == s.counter && r.clientId == id && r.idString == e.idString)
  {
    hide SessionId, Expired, Lapsed, Forgets;
  }

  lemma StepOwner(s: State, e: Event, o: seq<byte>)
    requires Enabled(s, e) && o in Next(s, e).0.owners
    ensures var id := Next(s, e).0.owners[o];
            || (o in s.owners && id == s.owners[o])
            || (e.ExchangeId? && e.owner == o && o !in s.owners && id == s.counter)
  {
    hide SessionId, Expired, Lapsed, Forgets;
  }

  lemma StepAgrees(s: State, e: Event, h: map<u64, Origin>)
    requires Enabled(s, e) && Agrees(s, h)
    ensures Agrees(Next(s, e).0, h + Allocated(s, e))
    ensures forall id: u64 :: id in h ==> id !in Allocated(s, e)
  {
    StepIdsAgree(s, e, h);
    assert s.counter !in h;
    hide Next, Enabled, IdsAgree;
    var next, h' := Next(s, e).0, h + Allocated(s, e);
    forall o | o in next.owners ensures next.owners[o] in h' && h'[next.owners[o]] == ByOwner(o) {
      StepOwner(s, e, o);
    }
    forall id: u64 | id in next.clients
      ensures id in h' && next.clients[id].clientId == id
      ensures next.clients[id].idString == if h'[id].ByOwner? then [] else h'[id].idString
      ensures h'[id].ByOwner? ==> next.clients[id].verifier == ZERO_VERIFIER && next.clients[id].sequence == 1
    {
      StepRecord(s, e, id);
    }
  }

  lemma {:induction false} AlwaysAgrees(es: seq<Event>, ss: seq<State>, n: nat)
    requires Run(es, ss) && n <= |es|
    ensures Agrees(ss[n], History(es, ss, n))
  {
    if n > 0 {
      AlwaysAgrees(es, ss, n - 1);
      StepAgrees(ss[n - 1], es[n - 1], History(es, ss, n - 1));
    }
  }

  /** An id is allocated once in a run, whatever the cleanups remove. */
  lemma {:induction false} HistoryGrows(es: seq<Event>, ss: seq<State>, m: nat, n: nat)
    requires Run(es, ss) && m <= n <= |es|
    ensures forall id :: id in History(es, ss, m) ==>
              id in History(es, ss, n) && History(es, ss, n)[id] == History(es, ss, m)[id]
    decreases n - m
  {
    if m < n {
      HistoryGrows(es, ss, m, n - 1);
      AlwaysAgrees(es, ss, n - 1);
      StepAgrees(ss[n - 1], es[n - 1], History(es, ss, n - 1));
    }
  }

  /** The id in a successful answer, and whom it was asked for. */
  ghost function Answer(s: State, e: Event): Option<(u64, Origin)>
    requires Enabled(s, e)
  {
    match Next(s, e).1
    case Exchanged(id, _) => if e.ExchangeId? then Some((id, ByOwner(e.owner))) else None
    case ClientIs(id, _) => if e.SetClientId? then Some((id, ByString(e.idString))) else None
    case _ => None
  }

  /** A SETCLIENTID that is answered with an id allocated for the owner of an EXCHANGE_ID. */
  ghost predicate Borrows(s: State, e: Event, h: map<u64, Origin>)
    requires Enabled(s, e)
  {
    e.SetClientId? && Answer(s, e).Some? && Answer(s, e).value.0 in h && h[Answer(s, e).value.0].ByOwner?
  }

  lemma AnswerIsRecorded(s: State, e: Event, h: map<u64, Origin>)
    requires Enabled(s, e) && Agrees(s, h) && Answer(s, e).Some?
    ensures var (id, who) := Answer(s, e).value;
            var all := h + Allocated(s, e);
            && id in all
            && (all[id] == who <==> !Borrows(s, e, h))
            && (Borrows(s, e, h) ==> who == ByString([]) && all[id].ByOwner? && e.verifier == ZERO_VERIFIER)
  {
  }

  ghost predicate BorrowsAt(es: seq<Event>, ss: seq<State>, i: nat)
    requires Run(es, ss) && i < |es|
  {
    Borrows(ss[i], es[i], History(es, ss, i))
  }

  lemma RecordedAt(es: seq<Event>, ss: seq<State>, i: nat)
    requires Run(es, ss) && i < |es| && Answer(ss[i], es[i]).Some?
    ensures var (id, who) := Answer(ss[i], es[i]).value;
            var h := History(es, ss, i + 1);
            && id in h
            && (h[id] == who <==> !BorrowsAt(es, ss, i))
            && (BorrowsAt(es, ss, i) ==> who == ByString([]) && h[id].ByOwner? && es[i].verifier == ZERO_VERIFIER)
  {
    hide Next, Enabled, Agrees, Answer, Allocated, Borrows;
    AlwaysAgrees(es, ss, i);
    AnswerIsRecorded(ss[i], es[i], History(es, ss, i));
  }

  /** A SETCLIENTID with the empty id string and the zero verifier. */
  predicate Blank(e: Event) { e.SetClientId? && e.idString == [] && e.verifier == ZERO_VERIFIER }

  /** Two answers with one id were asked for by one client, exactly unless one of the two is a
      SETCLIENTID that borrows an owner's id and the other is not; so always, if neither is blank. */
  lemma AnswersIdentify(es: seq<Event>, ss: seq<State>, i: nat, j: nat)
    requires Run(es, ss) && i <= j < |es|
    requires Answer(ss[i], es[i]).Some? && Answer(ss[j], es[j]).Some?
    requires Answer(ss[i], es[i]).value.0 == Answer(ss[j], es[j]).value.0
    ensures Answer(ss[i], es[i]).value.1 == Answer(ss[j], es[j]).value.1 <==>
            (BorrowsAt(es, ss, i) <==> BorrowsAt(es, ss, j))
    ensures !Blank(es[i]) ==> !BorrowsAt(es, ss, i)
    ensures !Blank(es[j]) ==> !BorrowsAt(es, ss, j)
  {
    RecordedAt(es, ss, i);
    RecordedAt(es, ss, j);
    HistoryGrows(es, ss, i + 1, j + 1);
    BorrowerIsBlank(es, ss, i);
    BorrowerIsBlank(es, ss, j);
    hide Next, Enabled, Run, Answer, History, BorrowsAt, Blank;
  }

  lemma BorrowerIsBlank(es: seq<Event>, ss: seq<State>, i: nat)
    requires Run(es, ss) && i < |es|
    ensures BorrowsAt(es, ss, i) ==> Blank(es[i])
  {
    if BorrowsAt(es, ss, i) {
      RecordedAt(es, ss, i);
      hide Next, Enabled, History;
    }
  }

  /** Some record in the table is that of an EXCHANGE_ID. */
  ghost predicate HoldsOwner(s: State, h: map<u64, Origin>) {
    exists id: u64 :: id in s.clients && id in h && h[id].ByOwner?
  }

  /** In every run: a SETCLIENTID can be answered with an owner's id exactly when its id string is
      empty, its verifier is zero, and the record of some EXCHANGE_ID is in the table. */
  lemma BorrowsIffEmptyAndZero(
      es: seq<Event>, ss: seq<State>, n: nat,
      verifier: Verifier, idString: seq<byte>, callback: u32, confirm: Verifier, now: nat)
    requires Run(es, ss) && n <= |es| && ss[n].counter < MAX_U64
    ensures (exists seen: Option<u64> ::
               && CanSee(ss[n], idString, seen)
               && Borrows(ss[n], SetClientId(verifier, idString, callback, confirm, seen, now), History(es, ss, n)))
            <==> idString == [] && verifier == ZERO_VERIFIER && HoldsOwner(ss[n], History(es, ss, n))
  {
    AlwaysAgrees(es, ss, n);
    var s, h := ss[n], History(es, ss, n);
    hide SessionId, Run;
    if idString == [] && verifier == ZERO_VERIFIER && HoldsOwner(s, h) {
      var id: u64 :| id in s.clients && id in h && h[id].ByOwner?;
      assert Matches(s, idString, id);
      assert CanSee(s, idString, Some(id));
      assert Borrows(s, SetClientId(verifier, idString, callback, confirm, Some(id), now), h);
    }
    if seen: Option<u64> :| CanSee(s, idString, seen) &&
                            Borrows(s, SetClientId(verifier, idString, callback, confirm, seen, now), h) {
      assert seen.Some?;
      assert HoldsOwner(s, h);
    }
  }

  /** It does happen. */
  lemma EmptyIdStringTakesAnOwnersId()
    ensures var e := ExchangeId([7], 0);
            var s := Next(INITIAL, e).0;
            var f := SetClientId(ZERO_VERIFIER, [], 0, ZERO_VERIFIER, Some(1), 0);
            && Enabled(INITIAL, e) && Enabled(s, f)
            && Answer(INITIAL, e) == Some((1, ByOwner([7])))
            && Answer(s, f) == Some((1, ByString([])))
  {
  }

  // ----- the scan of SETCLIENTID -----

  /** What the scan leads to does not depend on the order of the table. */
  ghost predicate OrderBlind(s: State, idString: seq<byte>, verifier: Verifier) {
    forall a: u64, b: u64 :: Matches(s, idString, a) && Matches(s, idString, b) && a != b ==>
      s.clients[a].verifier != verifier && s.clients[b].verifier != verifier
  }

  /** The answer is a function of the request exactly in that case. */
  lemma ScanDecided(s: State, idString: seq<byte>, verifier: Verifier, callback: u32, confirm: Verifier, now: nat)
    requires s.counter < MAX_U64
    ensures OrderBlind(s, idString, verifier) <==>
            forall x: Option<u64>, y: Option<u64> ::
              CanSee(s, idString, x) && CanSee(s, idString, y) ==>
                Next(s, SetClientId(verifier, idString, callback, confirm, x, now)) ==
                Next(s, SetClientId(verifier, idString, callback, confirm, y, now))
  {
    if a: u64, b: u64 :| Matches(s, idString, a) && Matches(s, idString, b) && a != b &&
                         (s.clients[a].verifier == verifier || s.clients[b].verifier == verifier) {
      var x, y := SetClientId(verifier, idString, callback, confirm, Some(a), now),
                  SetClientId(verifier, idString, callback, confirm, Some(b), now);
      assert CanSee(s, idString, Some(a)) && CanSee(s, idString, Some(b));
      assert Next(s, x).1 != Next(s, y).1;
    }
  }

  /** In every run it is so for every id string but the empty one. */
  lemma ScanIsOrderBlind(es: seq<Event>, ss: seq<State>, n: nat, idString: seq<byte>, verifier: Verifier)
    requires Run(es, ss) && n <= |es| && idString != []
    ensures OrderBlind(ss[n], idString, verifier)
    ensures forall a: u64, b: u64 :: Matches(ss[n], idString, a) && Matches(ss[n], idString, b) ==> a == b
  {
    AlwaysOneRecord(es, ss, n);
  }

  // ----- the owner map -----

  /** A record whose id string is `o` is there before and gone after. */
  ghost predicate Loses(s: State, after: State, o: seq<byte>) {
    exists id: u64 :: id in s.clients && id !in after.clients && s.clients[id].idString == o
  }

  /** What a cleanup leaves: sessions used in the last 300 seconds, clients that are recent or have
      such a session, and the owners that no removed record names; all of them as they were. */
  lemma CleanupExact(s: State, now: nat)
    requires Keyed(s)
    ensures var after := Next(s, Cleanup(now)).0;
            && after.counter == s.counter
            && (forall k :: k in after.sessions <==>
                  k in s.sessions && now <= s.sessions[k].lastUsed + 300_000_000_000)
            && (forall k :: k in after.sessions ==> after.sessions[k] == s.sessions[k])
            && (forall id: u64 :: id in after.clients <==>
                  id in s.clients &&
                  (now <= s.clients[id].lastUsed + 300_000_000_000 || SessionId(id) in after.sessions))
            && (forall id: u64 :: id in after.clients ==> after.clients[id] == s.clients[id])
            && (forall o :: o in after.owners <==> o in s.owners && !Loses(s, after, o))
            && (forall o :: o in after.owners ==> after.owners[o] == s.owners[o])
  {
    var after := Next(s, Cleanup(now)).0;
    forall o ensures Loses(s, after, o) <==> Forgets(s, now, o) { CleanupLoses(s, now, o); }
    StepKeyed(s, Cleanup(now));
    forall id: u64 ensures HasSession(after.sessions, id) <==> SessionId(id) in after.sessions {
      OneSession(after, id);
    }
    hide SessionId, HasSession, Forgets, Loses;
  }

  lemma CleanupLoses(s: State, now: nat, o: seq<byte>)
    ensures Loses(s, AfterCleanup(s, now), o) <==> Forgets(s, now, o)
  {
    hide Expired, HasSession;
    if Loses(s, AfterCleanup(s, now), o) {
      var id: u64 :| id in s.clients && id !in AfterCleanup(s, now).clients && s.clients[id].idString == o;
      assert Lapsed(s, now, id);
    }
  }

  /** A cleanup drops the mapping of `o` at event `k`. */
  ghost predicate ForgetsAt(es: seq<Event>, ss: seq<State>, k: int, o: seq<byte>)
    requires 0 <= k < |es| && |ss| == |es| + 1
  {
    es[k].Cleanup? && Loses(ss[k], ss[k + 1], o)
  }

  lemma OwnerStep(s: State, e: Event, h: map<u64, Origin>, o: seq<byte>)
    requires Enabled(s, e) && Agrees(s, h)
    ensures var after := Next(s, e).0;
            && after.counter >= s.counter
            && (o in s.owners && !(e.Cleanup? && Loses(s, after, o)) ==>
                  o in after.owners && after.owners[o] == s.owners[o])
            && (e.Cleanup? && Loses(s, after, o) ==> o !in after.owners)
            && (o !in s.owners && o in after.owners ==> after.owners[o] == s.counter)
            && (e.ExchangeId? && e.owner == o ==>
                  o in after.owners && after.owners[o] == IdOf(s, o) < after.counter)
  {
    if e.Cleanup? { CleanupLoses(s, e.now, o); }
    hide SessionId, Expired, Lapsed, Forgets, Loses;
  }

  ghost predicate Remembers(es: seq<Event>, ss: seq<State>, i: nat, n: nat, o: seq<byte>)
    requires n <= |es| && |ss| == |es| + 1
  {
    forall k :: i < k < n ==> !ForgetsAt(es, ss, k, o)
  }

  lemma {:induction false} OwnerSince(es: seq<Event>, ss: seq<State>, i: nat, n: nat, o: seq<byte>)
    requires Run(es, ss) && i < n <= |es| && es[i] == ExchangeId(o, Time(es[i]))
    ensures var id := IdOf(ss[i], o);
            && id < ss[n].counter
            && if Remembers(es, ss, i, n, o)
               then o in ss[n].owners && ss[n].owners[o] == id
               else o in ss[n].owners ==> ss[n].owners[o] > id
    decreases n
  {
    hide Next, Enabled, Loses;
    AlwaysAgrees(es, ss, n - 1);
    OwnerStep(ss[n - 1], es[n - 1], History(es, ss, n - 1), o);
    if n == i + 1 {
      AlwaysAgrees(es, ss, n);
    } else {
      OwnerSince(es, ss, i, n - 1, o);
      assert Remembers(es, ss, i, n, o) <==>
             Remembers(es, ss, i, n - 1, o) && !ForgetsAt(es, ss, n - 1, o);
      hide Remembers;
    }
  }

  /** Two EXCHANGE_IDs of one owner get one id exactly when no cleanup in between removed a client
      whose id string equals the owner. */
  lemma SameOwnerSameId(es: seq<Event>, ss: seq<State>, i: nat, j: nat, o: seq<byte>)
    requires Run(es, ss) && i < j < |es|
    requires es[i] == ExchangeId(o, Time(es[i])) && es[j] == ExchangeId(o, Time(es[j]))
    ensures Answer(ss[i], es[i]).value.0 == Answer(ss[j], es[j]).value.0 <==>
            Remembers(es, ss, i, j, o)
  {
    OwnerSince(es, ss, i, j, o);
  }

  /** So an owner keeps its id for good if it is not empty and no SETCLIENTID ever used it as an id
      string, even when its own client lapses. */
  lemma OwnerKeepsId(es: seq<Event>, ss: seq<State>, i: nat, j: nat, o: seq<byte>)
    requires Run(es, ss) && i < j < |es|
    requires es[i] == ExchangeId(o, Time(es[i])) && es[j] == ExchangeId(o, Time(es[j]))
    requires o != [] && forall k :: 0 <= k < j && es[k].SetClientId? ==> es[k].idString != o
    ensures Answer(ss[i], es[i]).value.0 == Answer(ss[j], es[j]).value.0
  {
    forall k | i < k < j ensures !ForgetsAt(es, ss, k, o) {
      StringsComeFromRequests(es, ss, k, o);
      forall id: u64 ensures !(id in ss[k].clients && ss[k].clients[id].idString == o) {
        assert !Matches(ss[k], o, id);
      }
    }
    hide ForgetsAt;
    SameOwnerSameId(es, ss, i, j, o);
  }

  lemma {:induction false} StringsComeFromRequests(es: seq<Event>, ss: seq<State>, n: nat, x: seq<byte>)
    requires Run(es, ss) && n <= |es|
    requires x != [] && forall k :: 0 <= k < n && es[k].SetClientId? ==> es[k].idString != x
    ensures forall id: u64 :: !Matches(ss[n], x, id)
  {
    if n > 0 {
      StringsComeFromRequests(es, ss, n - 1, x);
      hide Next, Matches;
      forall id: u64 ensures !Matches(ss[n], x, id) {
        if Matches(ss[n], x, id) { StepMatches(ss[n - 1], es[n - 1], x, id); }
      }
    }
  }

  /** A session in its lease keeps its client, but not the mapping of the client's owner. */
  lemma CleanupSpares(s: State, now: nat, k: SessionKey, o: seq<byte>, lapsed: u64)
    requires k in s.sessions && !Expired(s.sessions[k].lastUsed, now)
    requires lapsed in s.clients && s.clients[lapsed].idString == o && Expired(s.clients[lapsed].lastUsed, now)
    requires !HasSession(s.sessions, lapsed)
    ensures var after := AfterCleanup(s, now);
            && after.counter == s.counter
            && k in after.sessions
            && (s.sessions[k].clientId in s.clients ==> s.sessions[k].clientId in after.clients)
            && o !in after.owners
  {
    assert k in KeptSessions(s.sessions, now);
    assert Lapsed(s, now, lapsed);
    hide Expired;
  }

  const SET_CLIENT: Event := SetClientId(ZERO_VERIFIER, [7], 0, ZERO_VERIFIER, None, 0)
  const EXCHANGE: Event := ExchangeId([7], 0)
  const OPEN_SESSION: Event := CreateSession(2, 8, 8, LEASE_TIMEOUT)
  const CLEAN: Event := Cleanup(LEASE_TIMEOUT + 1)
  const EXCHANGE_AGAIN: Event := ExchangeId([7], LEASE_TIMEOUT + 1)

  lemma UpToTheCleanup() returns (s1: State, s2: State, s3: State)
    ensures Enabled(INITIAL, SET_CLIENT) && s1 == Next(INITIAL, SET_CLIENT).0
    ensures Enabled(s1, EXCHANGE) && s2 == Next(s1, EXCHANGE).0 && Answer(s1, EXCHANGE) == Some((2, ByOwner([7])))
    ensures s3 == Next(s2, OPEN_SESSION).0 && s3.counter == 3
    ensures 1 in s3.clients && s3.clients[1].idString == [7] && s3.clients[1].lastUsed == 0
    ensures 2 in s3.clients
    ensures s3.sessions == map[SessionId(2) := NewSession(2, 8, 8, LEASE_TIMEOUT)]
  {
    hide SessionId;
    s1 := Next(INITIAL, SET_CLIENT).0;
    s2 := Next(s1, EXCHANGE).0;
    s3 := Next(s2, OPEN_SESSION).0;
  }

  /** Otherwise it can lose it: the client of a SETCLIENTID with the same bytes lapses, and the
      owner, whose own client and session are alive, is given a new id. */
  lemma OwnerLosesId() returns (es: seq<Event>, ss: seq<State>)
    ensures Run(es, ss)
    ensures es == [SET_CLIENT, EXCHANGE, OPEN_SESSION, CLEAN, EXCHANGE_AGAIN]
    ensures SessionId(2) in ss[4].sessions && 2 in ss[4].clients
    ensures Answer(ss[1], es[1]) == Some((2, ByOwner([7])))
    ensures Answer(ss[4], es[4]) == Some((3, ByOwner([7])))
  {
    hide SessionId, AfterCleanup;
    var s1, s2, s3 := UpToTheCleanup();
    CleanupSpares(s3, LEASE_TIMEOUT + 1, SessionId(2), [7], 1);
    var s4 := Next(s3, CLEAN).0;
    assert Answer(s4, EXCHANGE_AGAIN) == Some((3, ByOwner([7])));
    assert SessionId(2) in s4.sessions && 2 in s4.clients;
    hide Next, Enabled, Answer;
    es := [SET_CLIENT, EXCHANGE, OPEN_SESSION, CLEAN, EXCHANGE_AGAIN];
    ss := [INITIAL, s1, s2, s3, s4, Next(s4, EXCHANGE_AGAIN).0];
  }

  // ----- what each request stores and answers -----

  /** SETCLIENTID: another verifier for a known id string is refused and changes nothing; otherwise
      the record with the id in the answer has the verifier and id string of the request and the
      verifier to confirm with that was sent. A new record is unconfirmed and takes the next number;
      a known one keeps all else. */
  lemma SetClientIdStores(s: State, e: Event)
    requires Enabled(s, e) && e.SetClientId?
    ensures var (t, r) := Next(s, e);
            if e.seen.Some? && s.clients[e.seen.value].verifier != e.verifier then t == s && r == InUse
            else
              && r == ClientIs(if e.seen.Some? then e.seen.value else s.counter, e.confirm)
              && t.owners == s.owners && t.sessions == s.sessions
              && t.counter == s.counter + (if e.seen.Some? then 0 else 1)
              && r.id in t.clients && t.clients - {r.id} == s.clients - {r.id}
              && t.clients[r.id].verifier == e.verifier && t.clients[r.id].idString == e.idString
              && t.clients[r.id].confirmVerifier == e.confirm
              && (if e.seen.Some? then t.clients[r.id] == s.clients[r.id].(confirmVerifier := e.confirm)
                  else
                    && t.clients[r.id].callbackProgram == e.callback && !t.clients[r.id].confirmed
                    && t.clients[r.id].sequence == 0 && t.clients[r.id].lastUsed == e.now)
  {
  }

  /** In every run EXCHANGE_ID answers with sequence id 1, for new and known owners alike. */
  lemma ExchangeAnswersOne(es: seq<Event>, ss: seq<State>, n: nat)
    requires Run(es, ss) && n < |es| && es[n].ExchangeId?
    ensures var r := Next(ss[n], es[n]).1;
            r.Exchanged? && r.seqId == 1
  {
    AlwaysAgrees(es, ss, n);
    if es[n].owner !in ss[n].owners { assert ss[n].counter !in ss[n].clients; }
  }

  /** Event `i` confirms the client, which is not registered afresh since. */
  ghost predicate ConfirmsLast(es: seq<Event>, ss: seq<State>, n: nat, client: u64, i: nat) {
    && i < n <= |es| < |ss|
    && es[i] == ConfirmClientId(client) && client in ss[i].clients
    && forall j :: i < j < n ==> !Registers(ss[j], es[j], client)
  }

  lemma ConfirmStep(s: State, e: Event, client: u64)
    requires Enabled(s, e) && client in Next(s, e).0.clients
    ensures var r := Next(s, e).0.clients[client];
            if Registers(s, e, client) then !r.confirmed
            else client in s.clients && (r.confirmed <==> s.clients[client].confirmed || e == ConfirmClientId(client))
  {
    hide SessionId, Expired, Lapsed, Forgets;
  }

  /** In every run a client is confirmed exactly when a SETCLIENTID_CONFIRM has named it since it
      was last registered. */
  lemma {:induction false} ConfirmedIffNamed(es: seq<Event>, ss: seq<State>, n: nat, client: u64)
    requires Run(es, ss) && n <= |es| && client in ss[n].clients
    ensures ss[n].clients[client].confirmed <==> exists i: nat :: ConfirmsLast(es, ss, n, client, i)
  {
    if n > 0 {
      var m := n - 1;
      var s, e := ss[m], es[m];
      ConfirmStep(s, e, client);
      if client in s.clients { ConfirmedIffNamed(es, ss, m, client); }
      hide Next, Enabled, Registers;
      if i: nat :| i < m && ConfirmsLast(es, ss, n, client, i) {
        assert ConfirmsLast(es, ss, m, client, i);
      }
      if !Registers(s, e, client) {
        if i: nat :| ConfirmsLast(es, ss, m, client, i) { assert ConfirmsLast(es, ss, n, client, i); }
        if e == ConfirmClientId(client) { assert ConfirmsLast(es, ss, n, client, m); }
      }
    }
  }

  /** It is accepted exactly for a client that is known, and otherwise changes nothing. */
  lemma ConfirmAnswers(s: State, client: u64)
    ensures var (t, r) := Next(s, ConfirmClientId(client));
            && (client in s.clients ==> r == Done)
            && (client !in s.clients ==> r == StaleClient && t == s)
  {
  }

  /** CREATE_SESSION: 1 to 64 requests and 1 to 100 operations, as near as can be to what was asked,
      and slots up to the number of requests. */
  lemma SessionNegotiated(s: State, e: Event)
    requires Enabled(s, e) && e.CreateSession?
    ensures var (t, r) := Next(s, e);
            var k := Be64(e.client) + [0, 0, 0, 0, 0, 0, 0, 1];
            && r == SessionIs(k) && k in t.sessions
            && t == s.(sessions := s.sessions[k := t.sessions[k]])
            && var x := t.sessions[k];
               && x.sessionId == k && x.clientId == e.client && x.sequence == 1 && x.lastUsed == e.now
               && 1 <= x.foreMaxReqs <= 64 && 1 <= x.foreMaxOps <= 100
               && (1 <= e.maxReqs <= 64 ==> x.foreMaxReqs == e.maxReqs)
               && (1 <= e.maxOps <= 100 ==> x.foreMaxOps == e.maxOps)
               && (e.maxReqs > 64 ==> x.foreMaxReqs == 64)
               && (e.maxOps > 100 ==> x.foreMaxOps == 100)
               && x.highestSlot + 1 == x.foreMaxReqs
  {
    hide Be;
  }

  /** In every run SEQUENCE is accepted exactly when the session is in lease and the sequence id is
      not below that of its last use; the highest slot it answers with is the larger of the one it
      was sent and the one known before. A refusal changes nothing. */
  lemma SequenceAnswers(es: seq<Event>, ss: seq<State>, n: nat)
    requires Run(es, ss) && n < |es| && es[n].Sequence?
    ensures var e, k := es[n], es[n].session;
            var (t, r) := Next(ss[n], e);
            if exists i: nat :: InLease(es, ss, n, k, i) && e.seqId >= SeqOf(es[i]) then
              && k in ss[n].sessions && k in t.sessions
              && r == Sequenced(t.sessions[k].highestSlot)
              && t.sessions[k].highestSlot >= e.highestSlot
              && t.sessions[k].highestSlot >= ss[n].sessions[k].highestSlot
              && t.sessions[k].highestSlot in {e.highestSlot, ss[n].sessions[k].highestSlot}
            else t == ss[n] && r == BadSession
  {
    hide InLease;
    SessionAliveIffInLease(es, ss, n, es[n].session);
  }
}
