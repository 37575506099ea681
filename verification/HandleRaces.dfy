/**
  `get_or_create_fh` and `try_rebuild_fh` take their locks one after the other: one looks the path
  up, numbers a new handle and enters it into both maps; the other looks the number up, searches
  the exports and enters what it found. Here those steps of any number of calls interleave.
*/
module HandleRaces {
  import opened Wire
  import opened PathHash
  import opened PathSearch
  import opened FileHandles

  /** What a call has decided to enter and has not entered yet. */
  datatype Pending = Pending(id: u64, path: Path, root: Path)

  datatype Machine = Machine(t: Table, creating: seq<Pending>, repairing: seq<Pending>)

  datatype Action =
    | Number(path: Path, root: Path)               // a lookup that missed, then the counter
    | Enter(k: nat)                                // both maps, under both locks
    | NumberSynthetic                              // alloc_synthetic_handle
    | Search(h: seq<byte>, exports: seq<Node>)     // try_rebuild_fh up to its write locks
    | Repair(k: nat)                               // both maps and the counter, under all three locks

  function Without(ps: seq<Pending>, k: nat): seq<Pending>
    requires k < |ps|
  {
    ps[..k] + ps[k + 1..]
  }

  function Act(m: Machine, a: Action): Machine {
    match a
    case Number(path, root) =>
      m.(t := m.t.(counter := Bump(m.t.counter)), creating := m.creating + [Pending(m.t.counter, path, root)])
    case Enter(k) =>
      if k >= |m.creating| then m
      else
        var p := m.creating[k];
        m.(t := Insert(m.t, p.id, p.path, p.root), creating := Without(m.creating, k))
    case NumberSynthetic => m.(t := m.t.(counter := Bump(m.t.counter)))
    case Search(h, exports) =>
      (match RebuildTarget(m.t, h, exports)
       case None => m
       case Some((id, found, root)) => m.(repairing := m.repairing + [Pending(id, found, root)]))
    case Repair(k) =>
      if k >= |m.repairing| then m
      else
        var p := m.repairing[k];
        m.(t := Enroll(m.t, p.id, p.path, p.root), repairing := Without(m.repairing, k))
  }

  /** A repair whose steps nothing comes between is `try_rebuild_fh` as one step. */
  lemma RepairAtOnce(m: Machine, h: seq<byte>, exports: seq<Node>)
    requires RebuildTarget(m.t, h, exports).Some?
    ensures Act(Act(m, Search(h, exports)), Repair(|m.repairing|)) == m.(t := Rebuild(m.t, h, exports))
  {
    hide RebuildTarget, Fnv1a;
    var between := Act(m, Search(h, exports)).repairing;
    assert Without(between, |m.repairing|) == m.repairing;
  }

  /** And a call for an unknown path whose steps nothing comes between is `get_or_create_fh`. */
  lemma CreateAtOnce(mac: Mac, m: Machine, path: Path, root: Path, salt: u32)
    requires !Known(m.t, path)
    ensures Act(Act(m, Number(path, root)), Enter(|m.creating|)) == m.(t := GetOrCreate(mac, m.t, path, root, salt).0)
  {
    hide Fnv1a, EncodeHandle;
    var between := Act(m, Number(path, root)).creating;
    assert Without(between, |m.creating|) == m.creating;
  }

  function EntryOf(p: Pending): FhEntry { FhEntry(p.path, p.root, Fnv1a(p.path), 1) }

  predicate Waits(m: Machine, id: u64) {
    exists k :: 0 <= k < |m.creating| && m.creating[k].id == id
  }

  /** The number of the repair is in the table by now with another entry, or about to be entered
      by a call that was given it. */
  predicate Races(m: Machine, a: Action) {
    a.Repair? && a.k < |m.repairing| &&
    var p := m.repairing[a.k];
    Waits(m, p.id) || (p.id in m.t.fhMap && m.t.fhMap[p.id] != EntryOf(p))
  }

  /** The action takes the last number there is. */
  predicate WrapsCounter(m: Machine, a: Action) {
    (a.Number? || a.NumberSynthetic?) && m.t.counter == MAX_U64
  }

  /** Numbers being created are distinct, below the counter, and not in the table yet; those being
      repaired are neither zero nor the last. */
  ghost predicate PendingSound(m: Machine) {
    && (forall k :: 0 <= k < |m.creating| ==> 1 <= m.creating[k].id < m.t.counter && m.creating[k].id !in m.t.fhMap)
    && (forall j, k :: 0 <= j < k < |m.creating| ==> m.creating[j].id != m.creating[k].id)
    && (forall k :: 0 <= k < |m.repairing| ==> 1 <= m.repairing[k].id < MAX_U64)
  }

  ghost predicate Healthy(m: Machine) {
    Entries(m.t) && Agree(m.t) && PendingSound(m)
  }

  lemma RepairKeeps(m: Machine, k: nat)
    requires Healthy(m) && k < |m.repairing| && !Races(m, Repair(k))
    ensures Healthy(Act(m, Repair(k))) && Extends(m.t, Act(m, Repair(k)).t)
  {
    hide Fnv1a;
    var p, m' := m.repairing[k], Act(m, Repair(k));
    assert forall j :: 0 <= j < |m.creating| ==> m.creating[j].id != p.id;
    assert m'.creating == m.creating && m'.t.counter >= m.t.counter;
  }

  lemma EnterKeeps(m: Machine, k: nat)
    requires Healthy(m) && k < |m.creating|
    ensures Healthy(Act(m, Enter(k))) && Extends(m.t, Act(m, Enter(k)).t)
  {
    hide Fnv1a;
  }

  lemma ActKeeps(m: Machine, a: Action)
    requires Healthy(m) && !Races(m, a) && !WrapsCounter(m, a)
    ensures Healthy(Act(m, a)) && Extends(m.t, Act(m, a).t)
  {
    hide Fnv1a, SearchExports, FromBe;
    match a
    case Repair(k) =>
      if k < |m.repairing| { RepairKeeps(m, k); }
    case Enter(k) =>
      if k < |m.creating| { EnterKeeps(m, k); }
    case _ => hide Races, Enroll, Insert;
  }

  lemma RaceBreaks(m: Machine, a: Action)
    requires Healthy(m) && (Races(m, a) || WrapsCounter(m, a))
    ensures !(Healthy(Act(m, a)) && Extends(m.t, Act(m, a).t))
  {
    hide Fnv1a;
    if Races(m, a) {
      var p := m.repairing[a.k];
      if Waits(m, p.id) {
        var k :| 0 <= k < |m.creating| && m.creating[k].id == p.id;
        assert Act(m, a).creating[k].id in Act(m, a).t.fhMap;
      } else {
        assert Act(m, a).t.fhMap[p.id] == EntryOf(p);
      }
    }
  }

  /** A step keeps the maps in agreement and every entry as it is exactly when it is neither a
      racing repair nor the one that wraps the counter. */
  lemma HealthyIffNoRace(m: Machine, a: Action)
    requires Healthy(m)
    ensures Healthy(Act(m, a)) && Extends(m.t, Act(m, a).t) <==> !Races(m, a) && !WrapsCounter(m, a)
  {
    if Races(m, a) || WrapsCounter(m, a) { RaceBreaks(m, a); } else { ActKeeps(m, a); }
  }

  // ----- runs -----

  function RunAll(m: Machine, actions: seq<Action>): Machine {
    if actions == [] then m else Act(RunAll(m, actions[..|actions| - 1]), actions[|actions| - 1])
  }

  lemma RunAllNext(m: Machine, actions: seq<Action>, k: nat)
    requires k < |actions|
    ensures RunAll(m, actions[..k + 1]) == Act(RunAll(m, actions[..k]), actions[k])
  {
    hide Act;
    assert actions[..k + 1][..k] == actions[..k];
  }

  /** Neither a race nor a wrap anywhere in the run. */
  ghost predicate RaceFree(m: Machine, actions: seq<Action>) {
    forall k: nat :: k < |actions| ==>
      !Races(RunAll(m, actions[..k]), actions[k]) && !WrapsCounter(RunAll(m, actions[..k]), actions[k])
  }

  lemma {:induction false} RaceFreeKeeps(m: Machine, actions: seq<Action>, n: nat)
    requires Healthy(m) && RaceFree(m, actions) && n <= |actions|
    ensures Healthy(RunAll(m, actions[..n])) && Extends(m.t, RunAll(m, actions[..n]).t)
    decreases n
  {
    if n > 0 {
      hide Act, Races, WrapsCounter;
      RaceFreeKeeps(m, actions, n - 1);
      RunAllNext(m, actions, n - 1);
      ActKeeps(RunAll(m, actions[..n - 1]), actions[n - 1]);
    }
  }

  /** Step `k` of the run leaves the machine healthy and no entry changed. */
  ghost predicate StepSound(m: Machine, actions: seq<Action>, k: nat)
    requires k < |actions|
  {
    Healthy(RunAll(m, actions[..k + 1])) && Extends(RunAll(m, actions[..k]).t, RunAll(m, actions[..k + 1]).t)
  }

  /** Under every interleaving: the maps agree, inodes are hashes and no entry is ever removed or
      overwritten, all through the run, exactly when it has neither a race nor a wrap. */
  lemma InterleavedAgreement(m: Machine, actions: seq<Action>)
    requires Healthy(m)
    ensures (forall k: nat :: k < |actions| ==> StepSound(m, actions, k)) <==> RaceFree(m, actions)
    ensures RaceFree(m, actions) ==>
              Healthy(RunAll(m, actions)) && Extends(m.t, RunAll(m, actions).t)
  {
    hide Act, Races, WrapsCounter, Healthy, Extends;
    if RaceFree(m, actions) {
      forall k: nat | k < |actions| ensures StepSound(m, actions, k) {
        RaceFreeKeeps(m, actions, k);
        RunAllNext(m, actions, k);
        HealthyIffNoRace(RunAll(m, actions[..k]), actions[k]);
      }
      RaceFreeKeeps(m, actions, |actions|);
      assert actions[..|actions|] == actions;
    }
    if forall k: nat :: k < |actions| ==> StepSound(m, actions, k) {
      forall k: nat | k < |actions|
        ensures !Races(RunAll(m, actions[..k]), actions[k]) && !WrapsCounter(RunAll(m, actions[..k]), actions[k])
      {
        assert k > 0 ==> StepSound(m, actions, k - 1);
        assert actions[..0] == [];
        assert StepSound(m, actions, k);
        RunAllNext(m, actions, k);
        HealthyIffNoRace(RunAll(m, actions[..k]), actions[k]);
      }
    }
  }

  /** The action enters another path under the number `id`. */
  predicate TakesOver(m: Machine, a: Action, id: u64, path: Path) {
    || (a.Enter? && a.k < |m.creating| && m.creating[a.k].id == id && m.creating[a.k].path != path)
    || (a.Repair? && a.k < |m.repairing| && m.repairing[a.k].id == id && m.repairing[a.k].path != path)
  }

  lemma ActNames(m: Machine, a: Action, id: u64, path: Path)
    requires Names(m.t, id, path)
    ensures Names(Act(m, a).t, id, path) <==> !TakesOver(m, a, id, path)
  {
    hide Fnv1a, RebuildTarget;
  }

  ghost predicate NeverTakenOver(m: Machine, actions: seq<Action>, id: u64, path: Path) {
    forall k: nat :: k < |actions| ==> !TakesOver(RunAll(m, actions[..k]), actions[k], id, path)
  }

  ghost predicate AlwaysNames(m: Machine, actions: seq<Action>, id: u64, path: Path) {
    forall n: nat :: n <= |actions| ==> Names(RunAll(m, actions[..n]).t, id, path)
  }

  lemma {:induction false} NamesUntilTakenOver(m: Machine, actions: seq<Action>, id: u64, path: Path, n: nat)
    requires Names(m.t, id, path) && NeverTakenOver(m, actions, id, path) && n <= |actions|
    ensures Names(RunAll(m, actions[..n]).t, id, path)
    decreases n
  {
    if n > 0 {
      hide Act, Names, TakesOver;
      NamesUntilTakenOver(m, actions, id, path, n - 1);
      RunAllNext(m, actions, n - 1);
      ActNames(RunAll(m, actions[..n - 1]), actions[n - 1], id, path);
    }
  }

  lemma NamedIffNeverTakenOver(m: Machine, actions: seq<Action>, id: u64, path: Path)
    requires Names(m.t, id, path)
    ensures AlwaysNames(m, actions, id, path) <==> NeverTakenOver(m, actions, id, path)
  {
    hide Act, Names, TakesOver;
    if NeverTakenOver(m, actions, id, path) {
      forall n: nat | n <= |actions| ensures Names(RunAll(m, actions[..n]).t, id, path) {
        NamesUntilTakenOver(m, actions, id, path, n);
      }
    }
    if AlwaysNames(m, actions, id, path) {
      forall k: nat | k < |actions| ensures !TakesOver(RunAll(m, actions[..k]), actions[k], id, path) {
        RunAllNext(m, actions, k);
        assert Names(RunAll(m, actions[..k + 1]).t, id, path);
        ActNames(RunAll(m, actions[..k]), actions[k], id, path);
      }
    }
  }

  /** The handle of a call that entered its path keeps naming it, under any interleaving, exactly
      until some step enters another path under its number; and where nothing races or wraps, none
      ever does. */
  lemma EnteredHandlePermanent(mac: Mac, m: Machine, k: nat, salt: u32, actions: seq<Action>)
    requires Healthy(m) && k < |m.creating|
    ensures var p, m1 := m.creating[k], Act(m, Enter(k));
            var h := EncodeHandle(mac, p.id, Fnv1a(p.path), 1, salt);
            && ((forall n: nat :: n <= |actions| ==> Resolve(mac, RunAll(m1, actions[..n]).t, h) == Some(p.path)) <==>
                NeverTakenOver(m1, actions, p.id, p.path))
            && (RaceFree(m1, actions) ==> NeverTakenOver(m1, actions, p.id, p.path))
  {
    var p, m1 := m.creating[k], Act(m, Enter(k));
    var h := EncodeHandle(mac, p.id, Fnv1a(p.path), 1, salt);
    ActKeeps(m, Enter(k));
    assert Names(m1.t, p.id, p.path);
    EncodedHandleVerifies(mac, p.id, Fnv1a(p.path), 1, salt);
    assert forall t :: Resolve(mac, t, h) == Some(p.path) <==> Names(t, p.id, p.path) by {
      hide Fnv1a, EncodeHandle, VerifyMac, Act;
    }
    hide Act, Fnv1a, EncodeHandle, VerifyMac, Races, WrapsCounter, TakesOver, Resolve;
    NamedIffNeverTakenOver(m1, actions, p.id, p.path);
    assert AlwaysNames(m1, actions, p.id, p.path) <==>
           forall n: nat :: n <= |actions| ==> Resolve(mac, RunAll(m1, actions[..n]).t, h) == Some(p.path);
    if RaceFree(m1, actions) {
      forall n: nat | n <= |actions| ensures Names(RunAll(m1, actions[..n]).t, p.id, p.path) {
        RaceFreeKeeps(m1, actions, n);
      }
    }
  }

  // ----- what a race does -----

  /** A repair of a number that a call is about to enter: once both are in, the maps agree exactly
      when both meant the same path. */
  lemma RaceOutcome(m: Machine, j: nat, k: nat)
    requires Healthy(m) && j < |m.repairing| && k < |m.creating| && m.repairing[j].id == m.creating[k].id
    ensures Agree(Act(Act(m, Repair(j)), Enter(k)).t) <==> m.repairing[j].path == m.creating[k].path
  {
    hide Fnv1a;
    var p, q := m.repairing[j], m.creating[k];
    var t1 := Act(m, Repair(j)).t;
    var t2 := Act(Act(m, Repair(j)), Enter(k)).t;
    assert t2 == Insert(t1, p.id, q.path, q.root);
    if p.path != q.path {
      assert t2.pathToId[p.path] == p.id && t2.fhMap[p.id].path == q.path;
    }
  }

  /** A repair of a number that is in the table by now: the maps agree afterwards exactly when the
      path entered under it is the one found, or has been given a newer number. */
  lemma LateRepairOutcome(m: Machine, j: nat)
    requires Healthy(m) && j < |m.repairing| && m.repairing[j].id in m.t.fhMap
    ensures var p := m.repairing[j];
            var earlier := m.t.fhMap[p.id].path;
            Agree(Act(m, Repair(j)).t) <==>
            earlier == p.path || !(earlier in m.t.pathToId && m.t.pathToId[earlier] == p.id)
  {
    hide Fnv1a;
    var p := m.repairing[j];
    var after := Act(m, Repair(j)).t;
    assert after.pathToId == m.t.pathToId[p.path := p.id];
    assert after.fhMap[p.id].path == p.path;
    var earlier := m.t.fhMap[p.id].path;
    if earlier != p.path && earlier in m.t.pathToId && m.t.pathToId[earlier] == p.id {
      assert after.pathToId[earlier] == p.id;
    }
  }

  /** Both races exist. A handle from before a restart, for the root of an export, can carry the
      number that the first call after the restart is given: entered before that call enters its
      path, it leaves the maps in disagreement; entered after, it takes over the handle that call
      has been given. */
  lemma RestartRace(mac: Mac, path: Path, root: Path, exportPath: Path, salt: u32)
    requires path != exportPath
    ensures var m := Act(Act(Machine(EMPTY, [], []),
                             Search(Unsigned(1, exportPath), [Node(exportPath, true, true, [])])),
                         Number(path, root));
            var issued := EncodeHandle(mac, 1, Fnv1a(path), 1, salt);
            && !Agree(Act(Act(m, Repair(0)), Enter(0)).t)
            && Resolve(mac, Act(m, Enter(0)).t, issued) == Some(path)
            && Resolve(mac, Act(Act(m, Enter(0)), Repair(0)).t, issued) == Some(exportPath)
  {
    hide Fnv1a, EncodeHandle, VerifyMac, RebuildTarget, Unsigned;
    UnsignedRebuilds(EMPTY, 1, exportPath);
    EncodedHandleVerifies(mac, 1, Fnv1a(path), 1, salt);
    var m := Act(Act(Machine(EMPTY, [], []), Search(Unsigned(1, exportPath), [Node(exportPath, true, true, [])])),
                 Number(path, root));
    assert m == Machine(EMPTY.(counter := 2), [Pending(1, path, root)], [Pending(1, exportPath, exportPath)]);
    RaceOutcome(m, 0, 0);
  }
}
