/**
  EXCHANGE_ID and SETCLIENTID take their locks one after the other: they look the client up, then
  take a number, then enter it. Here those steps of any number of requests interleave with each
  other and with cleanups.
*/
module ClientRaces {
  import opened Wire
  import opened Clients
  import opened ClientRuns

  /** A request under way. EXCHANGE_ID enters the owner map (`Mapped`) before the client table. */
  datatype Flight =
    | Missed(who: Origin, verifier: Verifier)
    | Took(who: Origin, verifier: Verifier, id: u64)
    | Mapped(who: Origin, id: u64)

  /** The part of a client record that is looked at here. */
  datatype Rec = Rec(idString: seq<byte>, verifier: Verifier)

  /** `issued` says whom each number was taken for; `answers` are the ids sent, and whom they were
      asked for. */
  datatype Machine = Machine(
    owners: map<seq<byte>, u64>,
    clients: map<u64, Rec>,
    counter: u64,
    flights: seq<Flight>,
    issued: map<u64, Origin>,
    answers: set<(u64, Origin)>)

  const EMPTY: Machine := Machine(map[], map[], 1, [], map[], {})

  datatype Action =
    | LookOwner(owner: seq<byte>)
    | LookString(idString: seq<byte>, verifier: Verifier, seen: Option<u64>)
    | Take(k: nat)
    | Map(k: nat)
    | Record(k: nat)
    | Clean(gone: set<u64>)

  predicate Has(m: Machine, x: seq<byte>, id: u64) {
    id in m.clients && m.clients[id].idString == x
  }

  /** The action is one that can come next; numbers do not run out. */
  ghost predicate Possible(m: Machine, a: Action) {
    match a
    case LookOwner(_) => true
    case LookString(x, _, seen) =>
      if seen.Some? then Has(m, x, seen.value) else forall id: u64 :: !Has(m, x, id)
    case Take(k) => k < |m.flights| && m.flights[k].Missed? && m.counter < MAX_U64
    case Map(k) => k < |m.flights| && m.flights[k].Took? && m.flights[k].who.ByOwner?
    case Record(k) =>
      k < |m.flights| && (m.flights[k].Mapped? || (m.flights[k].Took? && m.flights[k].who.ByString?))
    case Clean(gone) => gone <= m.clients.Keys
  }

  function Strings(m: Machine, gone: set<u64>): set<seq<byte>>
    requires gone <= m.clients.Keys
  {
    set id | id in gone :: m.clients[id].idString
  }

  function Act(m: Machine, a: Action): Machine
    requires Possible(m, a)
  {
    match a
    case LookOwner(o) =>
      var f := if o in m.owners then Mapped(ByOwner(o), m.owners[o]) else Missed(ByOwner(o), ZERO_VERIFIER);
      m.(flights := m.flights + [f])
    case LookString(x, verifier, seen) =>
      if seen.None? then m.(flights := m.flights + [Missed(ByString(x), verifier)])
      else if m.clients[seen.value].verifier == verifier then m.(answers := m.answers + {(seen.value, ByString(x))})
      else m
    case Take(k) =>
      var who := m.flights[k].who;
      m.(flights := m.flights[k := Took(who, m.flights[k].verifier, m.counter)], counter := m.counter + 1,
         issued := m.issued[m.counter := who])
    case Map(k) =>
      var f := m.flights[k];
      m.(flights := m.flights[k := Mapped(f.who, f.id)], owners := m.owners[f.who.owner := f.id])
    case Record(k) =>
      var f := m.flights[k];
      m.(flights := m.flights[..k] + m.flights[k + 1..],
         clients := m.clients[f.id := if f.Took? then Rec(f.who.idString, f.verifier) else Rec([], ZERO_VERIFIER)],
         answers := m.answers + {(f.id, f.who)})
    case Clean(gone) => m.(clients := m.clients - gone, owners := m.owners - Strings(m, gone))
  }

  /** The part of the state of `Clients` that is looked at here. */
  ghost predicate Mirrors(m: Machine, s: State) {
    && m.owners == s.owners && m.counter == s.counter
    && m.clients == map id | id in s.clients :: Rec(s.clients[id].idString, s.clients[id].verifier)
  }

  /** A request whose steps nothing comes between: the last flight goes through all of them. */
  function Finish(m: Machine): Machine
    requires m.flights != [] && m.counter < MAX_U64 && m.flights[|m.flights| - 1].Missed?
  {
    var k := |m.flights| - 1;
    var m1 := Act(m, Take(k));
    if m.flights[k].who.ByOwner? then Act(Act(m1, Map(k)), Record(k)) else Act(m1, Record(k))
  }

  /** What it leaves: the next number entered for the one who asked. */
  lemma FinishEnters(m: Machine, f: Flight)
    requires m.counter < MAX_U64 && f.Missed?
    ensures var done := Finish(m.(flights := m.flights + [f]));
            var record := if f.who.ByOwner? then Rec([], ZERO_VERIFIER) else Rec(f.who.idString, f.verifier);
            done == Machine(
              if f.who.ByOwner? then m.owners[f.who.owner := m.counter] else m.owners,
              m.clients[m.counter := record], m.counter + 1, m.flights,
              m.issued[m.counter := f.who], m.answers + {(m.counter, f.who)})
  {
    hide Strings;
    var k := |m.flights|;
    assert (m.flights + [f])[..k] == m.flights;
  }

  /** EXCHANGE_ID without interruption does to the tables what the atomic request does, and sends the
      same id. */
  lemma ExchangeAtOnce(m: Machine, s: State, owner: seq<byte>, now: nat)
    requires Mirrors(m, s) && m.counter < MAX_U64
    ensures var looked := Act(m, LookOwner(owner));
            var done := if owner in m.owners then Act(looked, Record(|m.flights|)) else Finish(looked);
            var (t, r) := Next(s, ExchangeId(owner, now));
            Mirrors(done, t) && done.flights == m.flights && done.answers == m.answers + {(r.id, ByOwner(owner))}
  {
    hide SessionId, Expired, Lapsed, Forgets, KeptSessions, Strings, Finish;
    var (t, r) := Next(s, ExchangeId(owner, now));
    assert t.clients.Keys == s.clients.Keys + {r.id};
    if owner in m.owners {
      assert t.owners == s.owners;
      assert Act(Act(m, LookOwner(owner)), Record(|m.flights|)).flights == m.flights;
    } else {
      FinishEnters(m, Missed(ByOwner(owner), ZERO_VERIFIER));
    }
  }

  /** And so does SETCLIENTID. */
  lemma SetClientIdAtOnce(m: Machine, s: State, e: Event)
    requires Mirrors(m, s) && m.counter < MAX_U64 && e.SetClientId? && Enabled(s, e)
    requires Possible(m, LookString(e.idString, e.verifier, e.seen))
    ensures var looked := Act(m, LookString(e.idString, e.verifier, e.seen));
            var done := if e.seen.Some? then looked else Finish(looked);
            var (t, r) := Next(s, e);
            && Mirrors(done, t) && done.flights == m.flights
            && done.answers == m.answers + if r.ClientIs? then {(r.id, ByString(e.idString))} else {}
  {
    hide SessionId, Expired, Lapsed, Forgets, KeptSessions, Strings, Finish;
    if e.seen.None? { FinishEnters(m, Missed(ByString(e.idString), e.verifier)); }
  }

  // ----- under every interleaving -----

  ghost predicate FlightSound(m: Machine, f: Flight) {
    f.Missed? ||
    (f.id in m.issued && m.issued[f.id] == f.who && (f.Mapped? ==> f.who.ByOwner?) &&
     (f.Took? ==> f.id !in m.clients && f.id !in m.owners.Values))
  }

  /** A number that was taken and not entered yet is nobody else's. */
  predicate Apart(f: Flight, g: Flight) {
    f.Took? && !g.Missed? ==> f.id != g.id
  }

  /** A SETCLIENTID was answered with an id that was taken for an owner. */
  predicate Borrowed(m: Machine, id: u64, who: Origin) {
    who == ByString([]) && id in m.issued && m.issued[id].ByOwner?
  }

  ghost predicate TablesSound(m: Machine) {
    && 1 <= m.counter
    && (forall id: u64 :: id in m.issued <==> 1 <= id < m.counter)
    && (forall o :: o in m.owners ==> m.owners[o] in m.issued && m.issued[m.owners[o]] == ByOwner(o))
    && (forall id: u64 :: id in m.clients ==>
          && id in m.issued
          && match m.issued[id]
             case ByString(x) => m.clients[id].idString == x
             case ByOwner(_) => m.clients[id] == Rec([], ZERO_VERIFIER))
  }

  ghost predicate AnswersSound(m: Machine) {
    forall a :: a in m.answers ==> a.0 in m.issued && (m.issued[a.0] == a.1 || Borrowed(m, a.0, a.1))
  }

  ghost predicate FlightsSound(m: Machine) {
    && (forall k :: 0 <= k < |m.flights| ==> FlightSound(m, m.flights[k]))
    && (forall j, k :: 0 <= j < |m.flights| && 0 <= k < |m.flights| && j != k ==> Apart(m.flights[j], m.flights[k]))
  }

  /** Every id in sight belongs to the one it was issued for. */
  ghost predicate Sound(m: Machine) {
    TablesSound(m) && AnswersSound(m) && FlightsSound(m)
  }

  lemma ActTablesSound(m: Machine, a: Action)
    requires Sound(m) && Possible(m, a)
    ensures TablesSound(Act(m, a))
  {
    if a.Map? || a.Record? { assert FlightSound(m, m.flights[a.k]); }
    hide FlightSound, Apart, Strings, AnswersSound;
  }

  lemma ActAnswersSound(m: Machine, a: Action)
    requires Sound(m) && Possible(m, a)
    ensures AnswersSound(Act(m, a))
    ensures m.answers <= Act(m, a).answers
  {
    if a.Record? { assert FlightSound(m, m.flights[a.k]); }
    hide FlightSound, Apart, Strings;
  }

  lemma ActApart(m: Machine, a: Action)
    requires Sound(m) && Possible(m, a)
    ensures var fs := Act(m, a).flights;
            forall j, k :: 0 <= j < |fs| && 0 <= k < |fs| && j != k ==> Apart(fs[j], fs[k])
  {
    hide Strings;
    if a.Take? {
      assert forall k :: 0 <= k < |m.flights| ==> FlightSound(m, m.flights[k]);
    }
  }

  lemma ActFlightsSound(m: Machine, a: Action)
    requires Sound(m) && Possible(m, a)
    ensures FlightsSound(Act(m, a))
  {
    hide Strings;
    ActApart(m, a);
    var after := Act(m, a);
    forall k | 0 <= k < |after.flights| ensures FlightSound(after, after.flights[k]) {
      var k' := if a.Record? && k >= a.k then k + 1 else k;
      if k' < |m.flights| { assert FlightSound(m, m.flights[k']); }
    }
  }

  lemma ActSound(m: Machine, a: Action)
    requires Sound(m) && Possible(m, a)
    ensures Sound(Act(m, a))
    ensures m.answers <= Act(m, a).answers
  {
    ActTablesSound(m, a);
    ActAnswersSound(m, a);
    ActFlightsSound(m, a);
    hide *;
  }

  /** `ms[i]` is the machine before action `i`. */
  ghost predicate Run(actions: seq<Action>, ms: seq<Machine>) {
    && |ms| == |actions| + 1
    && ms[0] == EMPTY
    && forall i :: 0 <= i < |actions| ==> Possible(ms[i], actions[i]) && ms[i + 1] == Act(ms[i], actions[i])
  }

  lemma {:induction false} RunSound(actions: seq<Action>, ms: seq<Machine>, n: nat)
    requires Run(actions, ms) && n <= |actions|
    ensures Sound(ms[n])
  {
    if n > 0 {
      RunSound(actions, ms, n - 1);
      ActSound(ms[n - 1], actions[n - 1]);
    }
  }

  /** However the requests interleave, one id is sent for two clients exactly when one of the two
      borrowed it from an owner and the other did not. */
  lemma InterleavedAnswersIdentify(actions: seq<Action>, ms: seq<Machine>, n: nat, id: u64, a: Origin, b: Origin)
    requires Run(actions, ms) && n <= |actions|
    requires (id, a) in ms[n].answers && (id, b) in ms[n].answers
    ensures a == b <==> (Borrowed(ms[n], id, a) <==> Borrowed(ms[n], id, b))
  {
    RunSound(actions, ms, n);
  }

  ghost predicate HoldsOwner(m: Machine) {
    exists id: u64 :: id in m.clients && id in m.issued && m.issued[id].ByOwner?
  }

  /** The action sends an id for the empty id string that was taken for an owner. */
  ghost predicate Lends(m: Machine, a: Action)
    requires Possible(m, a)
  {
    && a.LookString? && a.seen.Some? && a.idString == [] && m.clients[a.seen.value].verifier == a.verifier
    && Borrowed(Act(m, a), a.seen.value, ByString([]))
  }

  /** No other action adds a borrowed answer. */
  lemma OnlyLendingBorrows(m: Machine, a: Action, id: u64, who: Origin)
    requires Sound(m) && Possible(m, a) && !Lends(m, a)
    requires (id, who) in Act(m, a).answers && Borrowed(Act(m, a), id, who)
    ensures (id, who) in m.answers && Borrowed(m, id, who)
  {
    if a.Record? { assert FlightSound(m, m.flights[a.k]); }
  }

  /** And a SETCLIENTID can be lent an owner's id exactly when its id string is empty, its verifier
      is zero, and the record of some EXCHANGE_ID is in the table. */
  lemma LendsIffEmptyAndZero(m: Machine, x: seq<byte>, verifier: Verifier)
    requires Sound(m)
    ensures (exists seen: Option<u64> ::
               Possible(m, LookString(x, verifier, seen)) && Lends(m, LookString(x, verifier, seen)))
            <==> x == [] && verifier == ZERO_VERIFIER && HoldsOwner(m)
  {
    if x == [] && verifier == ZERO_VERIFIER && HoldsOwner(m) {
      var id: u64 :| id in m.clients && id in m.issued && m.issued[id].ByOwner?;
      assert Has(m, x, id);
      assert Possible(m, LookString(x, verifier, Some(id))) && Lends(m, LookString(x, verifier, Some(id)));
    }
  }

  // ----- what a race breaks -----

  ghost predicate OneRecord(m: Machine) {
    forall x, a: u64, b: u64 :: x != [] && Has(m, x, a) && Has(m, x, b) ==> a == b
  }

  /** A SETCLIENTID is about to enter an id string that another one has entered meanwhile. */
  ghost predicate Duplicates(m: Machine, a: Action) {
    && a.Record? && a.k < |m.flights| && m.flights[a.k].who.ByString?
    && m.flights[a.k].who.idString != []
    && exists id: u64 :: Has(m, m.flights[a.k].who.idString, id)
  }

  /** An EXCHANGE_ID is about to map an owner that another one has mapped meanwhile. */
  predicate Remaps(m: Machine, a: Action, o: seq<byte>) {
    a.Map? && a.k < |m.flights| && m.flights[a.k].who == ByOwner(o) && o in m.owners
  }

  /** An id string keeps a single record exactly when the step is not such a race. */
  lemma OneRecordIffNoDuplicate(m: Machine, a: Action)
    requires Sound(m) && OneRecord(m) && Possible(m, a)
    ensures OneRecord(Act(m, a)) <==> !Duplicates(m, a)
  {
    if Duplicates(m, a) {
      var f := m.flights[a.k];
      var id: u64 :| Has(m, f.who.idString, id);
      assert FlightSound(m, f);
      assert Has(Act(m, a), f.who.idString, id) && Has(Act(m, a), f.who.idString, f.id);
    } else if a.Record? {
      var f, after := m.flights[a.k], Act(m, a);
      assert FlightSound(m, f);
      forall x: seq<byte>, i: u64, j: u64 | x != [] && Has(after, x, i) && Has(after, x, j) ensures i == j {
        assert i != f.id ==> Has(m, x, i);
        assert j != f.id ==> Has(m, x, j);
      }
    } else {
      assert forall x, id: u64 :: Has(Act(m, a), x, id) ==> Has(m, x, id);
    }
  }

  /** A mapped owner keeps its id exactly when the step neither maps it again nor cleans up a
      record whose id string it is. */
  lemma MappingKept(m: Machine, a: Action, o: seq<byte>)
    requires Sound(m) && Possible(m, a) && o in m.owners
    ensures (o in Act(m, a).owners && Act(m, a).owners[o] == m.owners[o]) <==>
            !Remaps(m, a, o) && !(a.Clean? && o in Strings(m, a.gone))
  {
    if a.Map? { assert FlightSound(m, m.flights[a.k]); }
  }

  // ----- requests of one client one after the other -----

  /** A request for `who` has looked, found nothing, and not entered its own number yet. */
  predicate Busy(m: Machine, who: Origin) {
    exists k :: 0 <= k < |m.flights| && !m.flights[k].Mapped? && m.flights[k].who == who
  }

  /** Nobody looks for `who` while another request for `who` is busy. Requests of different clients
      overlap freely. */
  predicate Orderly(m: Machine, a: Action) {
    && (a.LookOwner? ==> !Busy(m, ByOwner(a.owner)))
    && (a.LookString? ==> !Busy(m, ByString(a.idString)))
  }

  ghost predicate Present(m: Machine, who: Origin) {
    match who
    case ByOwner(o) => o in m.owners
    case ByString(x) => x != [] && exists id: u64 :: Has(m, x, id)
  }

  /** What a busy request enters is still not there, and no two are busy with the same. */
  ghost predicate Guarded(m: Machine) {
    && (forall k :: 0 <= k < |m.flights| && !m.flights[k].Mapped? ==> !Present(m, m.flights[k].who))
    && (forall j, k :: 0 <= j < k < |m.flights| && !m.flights[j].Mapped? && !m.flights[k].Mapped? ==>
          m.flights[j].who != m.flights[k].who)
  }

  lemma StepPresent(m: Machine, a: Action, who: Origin)
    requires Sound(m) && Possible(m, a) && Present(Act(m, a), who)
    ensures Present(m, who) || ((a.Map? || a.Record?) && !m.flights[a.k].Mapped? && m.flights[a.k].who == who)
  {
    if a.Map? || a.Record? { assert FlightSound(m, m.flights[a.k]); }
    hide Sound, Strings;
    if who.ByString? {
      var id: u64 :| Has(Act(m, a), who.idString, id);
      assert Has(m, who.idString, id) || (a.Record? && id == m.flights[a.k].id);
    }
  }

  lemma ActGuarded(m: Machine, a: Action)
    requires Sound(m) && Guarded(m) && Possible(m, a) && Orderly(m, a)
    ensures Guarded(Act(m, a))
    ensures !Duplicates(m, a) && forall o :: !Remaps(m, a, o)
  {
    var after := Act(m, a);
    forall k | 0 <= k < |after.flights| && !after.flights[k].Mapped? ensures !Present(after, after.flights[k].who) {
      var who := after.flights[k].who;
      if Present(after, who) { StepPresent(m, a, who); }
    }
    if a.Map? || a.Record? { assert FlightSound(m, m.flights[a.k]); }
    assert a.LookString? && a.seen.None? ==> !Present(m, ByString(a.idString));
    hide Present, Strings, FlightSound, Apart;
  }

  /** Every mapping stays as it is, but for those a cleanup drops. */
  ghost predicate KeepsMappings(m: Machine, a: Action) {
    Possible(m, a) &&
    forall o :: (o in m.owners && !(a.Clean? && o in Strings(m, a.gone))) ==>
      o in Act(m, a).owners && Act(m, a).owners[o] == m.owners[o]
  }

  /** So it is enough that requests for the same owner or id string do not overlap: then every id
      string has one record, and a mapped owner keeps its id until a cleanup drops it. */
  lemma {:induction false} OrderlyRunsKeepIds(actions: seq<Action>, ms: seq<Machine>, n: nat)
    requires Run(actions, ms) && n <= |actions|
    requires forall i :: 0 <= i < n ==> Orderly(ms[i], actions[i])
    ensures Sound(ms[n]) && Guarded(ms[n]) && OneRecord(ms[n])
    ensures forall i: nat :: i < n ==> KeepsMappings(ms[i], actions[i])
  {
    if n > 0 {
      OrderlyRunsKeepIds(actions, ms, n - 1);
      var m, a := ms[n - 1], actions[n - 1];
      ActSound(m, a);
      ActGuarded(m, a);
      OneRecordIffNoDuplicate(m, a);
      hide Act, Possible, Sound, Guarded, OneRecord, Strings;
      forall o | o in m.owners && !(a.Clean? && o in Strings(m, a.gone))
        ensures o in Act(m, a).owners && Act(m, a).owners[o] == m.owners[o]
      {
        MappingKept(m, a, o);
      }
    }
  }

  const WHO: Origin := ByOwner([7])
  const LOOKED: Flight := Missed(WHO, ZERO_VERIFIER)
  const BLANK_RECORD: Rec := Rec([], ZERO_VERIFIER)

  function Numbered(id: u64): Flight { Took(WHO, ZERO_VERIFIER, id) }

  /** Two requests for one owner that both have their number. */
  const BOTH_NUMBERED: Machine :=
    Machine(map[], map[], 3, [Numbered(1), Numbered(2)], map[1 := WHO, 2 := WHO], {})

  lemma BothNumbered() returns (ms: seq<Machine>)
    ensures |ms| == 5 && ms[0] == EMPTY && ms[4] == BOTH_NUMBERED
    ensures forall i :: 0 <= i < 4 ==>
              var a := [LookOwner([7]), LookOwner([7]), Take(0), Take(1)][i];
              Possible(ms[i], a) && ms[i + 1] == Act(ms[i], a)
  {
    var m1 := EMPTY.(flights := [LOOKED]);
    var m2 := EMPTY.(flights := [LOOKED, LOOKED]);
    var m3 := m2.(flights := [Numbered(1), LOOKED], counter := 2, issued := map[1 := WHO]);
    ms := [EMPTY, m1, m2, m3, BOTH_NUMBERED];
    assert Act(EMPTY, LookOwner([7])) == m1;
    assert Act(m1, LookOwner([7])) == m2;
    assert Act(m2, Take(0)) == m3;
    assert Act(m3, Take(1)) == BOTH_NUMBERED;
  }

  lemma BothAnswered() returns (ms: seq<Machine>)
    ensures |ms| == 5 && ms[0] == BOTH_NUMBERED && ms[4].answers == {(1, WHO), (2, WHO)}
    ensures forall i :: 0 <= i < 4 ==>
              var a := [Map(0), Map(1), Record(0), Record(0)][i];
              Possible(ms[i], a) && ms[i + 1] == Act(ms[i], a)
  {
    var m1 := BOTH_NUMBERED.(flights := [Mapped(WHO, 1), Numbered(2)], owners := map[[7] := 1]);
    var m2 := m1.(flights := [Mapped(WHO, 1), Mapped(WHO, 2)], owners := map[[7] := 2]);
    var m3 := m2.(flights := [Mapped(WHO, 2)], clients := map[1 := BLANK_RECORD], answers := {(1, WHO)});
    var m4 := m3.(flights := [], clients := map[1 := BLANK_RECORD, 2 := BLANK_RECORD],
                  answers := {(1, WHO), (2, WHO)});
    ms := [BOTH_NUMBERED, m1, m2, m3, m4];
    assert Act(BOTH_NUMBERED, Map(0)) == m1;
    assert Act(m1, Map(1)) == m2;
    assert Act(m2, Record(0)) == m3;
    assert Act(m3, Record(0)) == m4;
  }

  /** When they do overlap, one owner can be sent two ids. */
  lemma TwoIdsForOneOwner() returns (actions: seq<Action>, ms: seq<Machine>)
    ensures Run(actions, ms)
    ensures (1, WHO) in ms[|actions|].answers && (2, WHO) in ms[|actions|].answers
  {
    hide Possible, Act;
    var first := BothNumbered();
    var second := BothAnswered();
    var a, b := [LookOwner([7]), LookOwner([7]), Take(0), Take(1)], [Map(0), Map(1), Record(0), Record(0)];
    actions := a + b;
    ms := first + second[1..];
    forall i | 0 <= i < 8 ensures Possible(ms[i], actions[i]) && ms[i + 1] == Act(ms[i], actions[i]) {
      if i < 4 {
        assert ms[i] == first[i] && ms[i + 1] == first[i + 1] && actions[i] == a[i];
      } else {
        assert ms[i] == second[i - 4] && ms[i + 1] == second[i - 3] && actions[i] == b[i - 4];
      }
    }
  }
}
