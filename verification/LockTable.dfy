/**
  Byte-range locks (`check_lock_conflict`, `op_lock`, `op_lockt`, `op_locku`), sections 18.10
  to 18.12 of RFC 5661. Lists of locks are kept per state id.
*/
module LockTable {
  import opened Wire

  const READ_LT: u32 := 1
  const WRITE_LT: u32 := 2
  const READW_LT: u32 := 3
  const WRITEW_LT: u32 := 4

  datatype FileLock = FileLock(
    offset: u64, length: u64, lockType: u32, owner: seq<byte>, clientId: u64, stateid: seq<byte>)

  datatype Table = Table(locks: map<u64, seq<FileLock>>, counter: nat)

  /** The parsed arguments of LOCK, LOCKT and LOCKU; `key` picks the list. */
  datatype Args = Args(key: u64, lockType: u32, offset: u64, length: u64, owner: seq<byte>, clientId: u64)

  datatype Reply = Granted(stateid: seq<byte>) | Free | Denied(holder: FileLock) | Released(found: Option<seq<byte>>)

  // ----- conflicts -----

  /** `saturating_add` */
  function SatAdd(a: u64, b: u64): u64 {
    if a + b > MAX_U64 then MAX_U64 else a + b
  }

  /** The test the server makes on two ranges. */
  predicate RangesMeet(o1: u64, l1: u64, o2: u64, l2: u64) {
    o1 < SatAdd(o2, l2) && o2 < SatAdd(o1, l1)
  }

  predicate IsWrite(lockType: u32) {
    lockType == WRITE_LT || lockType == READW_LT || lockType == WRITEW_LT
  }

  predicate Conflict(l: FileLock, lockType: u32, offset: u64, length: u64) {
    RangesMeet(offset, length, l.offset, l.length) && (IsWrite(lockType) || IsWrite(l.lockType))
  }

  function FirstConflict(existing: seq<FileLock>, lockType: u32, offset: u64, length: u64): (r: Option<FileLock>)
    ensures r.None? <==> forall k :: 0 <= k < |existing| ==> !Conflict(existing[k], lockType, offset, length)
    ensures r.Some? ==> r.value in existing && Conflict(r.value, lockType, offset, length)
    ensures r.Some? ==> exists k :: 0 <= k < |existing| && existing[k] == r.value &&
                          forall j :: 0 <= j < k ==> !Conflict(existing[j], lockType, offset, length)
  {
    if existing == [] then None
    else if Conflict(existing[0], lockType, offset, length) then Some(existing[0])
    else FirstConflict(existing[1..], lockType, offset, length)
  }

  method CheckLockConflict(existing: seq<FileLock>, newType: u32, newOffset: u64, newLength: u64)
    returns (r: Option<FileLock>)
    ensures r == FirstConflict(existing, newType, newOffset, newLength)
  {
    var newEnd := SatAdd(newOffset, newLength);
    var newIsWrite := newType == WRITE_LT || newType == READW_LT || newType == WRITEW_LT;
    for i := 0 to |existing|
      invariant FirstConflict(existing, newType, newOffset, newLength) ==
                FirstConflict(existing[i..], newType, newOffset, newLength)
    {
      var lock := existing[i];
      assert existing[i..][0] == lock && existing[i..][1..] == existing[i + 1..];
      var lockEnd := SatAdd(lock.offset, lock.length);
      if newOffset < lockEnd && lock.offset < newEnd {
        var existingIsWrite := lock.lockType == WRITE_LT || lock.lockType == READW_LT || lock.lockType == WRITEW_LT;
        if newIsWrite || existingIsWrite {
          return Some(lock);
        }
      }
    }
    return None;
  }

  predicate InRange(b: int, o: u64, l: u64) {
    o <= b < o + l
  }

  /** Two ranges share a byte below the last 64-bit position. */
  ghost predicate ShareByte(o1: u64, l1: u64, o2: u64, l2: u64) {
    exists b :: b < MAX_U64 && InRange(b, o1, l1) && InRange(b, o2, l2)
  }

  /** An empty range strictly inside another range. */
  predicate EmptyInside(o: u64, l: u64, o': u64, l': u64) {
    l == 0 && o' < o < SatAdd(o', l')
  }

  /** The server's test says whether two ranges share a byte, for exactly the pairs in which
      neither is an empty range strictly inside the other. */
  lemma RangeTestExact(o1: u64, l1: u64, o2: u64, l2: u64)
    ensures (RangesMeet(o1, l1, o2, l2) <==> ShareByte(o1, l1, o2, l2))
            <==> !EmptyInside(o1, l1, o2, l2) && !EmptyInside(o2, l2, o1, l1)
    ensures l1 > 0 && l2 > 0 ==> (RangesMeet(o1, l1, o2, l2) <==> ShareByte(o1, l1, o2, l2))
  {
    if RangesMeet(o1, l1, o2, l2) && l1 > 0 && l2 > 0 {
      var b: u64 := if o1 < o2 then o2 else o1;
      assert b < MAX_U64 && InRange(b, o1, l1) && InRange(b, o2, l2);
    }
  }

  // ----- what the operations do to the table -----

  /** The `other` field of the state id with number `n`. */
  function Stateid(n: nat): seq<byte> {
    Be(n, 8) + [0, 0, 0, 0]
  }

  function ListAt(t: Table, key: u64): seq<FileLock> {
    if key in t.locks then t.locks[key] else []
  }

  function NewLock(t: Table, a: Args): FileLock {
    FileLock(a.offset, a.length, a.lockType, a.owner, a.clientId, Stateid(t.counter))
  }

  function Lock(t: Table, a: Args): (Table, Reply) {
    match FirstConflict(ListAt(t, a.key), a.lockType, a.offset, a.length)
    case Some(holder) => (t, Denied(holder))
    case None =>
      (Table(t.locks[a.key := ListAt(t, a.key) + [NewLock(t, a)]], t.counter + 1), Granted(Stateid(t.counter)))
  }

  function Lockt(t: Table, a: Args): Reply {
    match FirstConflict(ListAt(t, a.key), a.lockType, a.offset, a.length)
    case Some(holder) => Denied(holder)
    case None => Free
  }

  predicate IsMatch(l: FileLock, a: Args) {
    l.offset == a.offset && l.length == a.length && l.lockType == a.lockType && l.owner == a.owner
  }

  function Unmatched(s: seq<FileLock>, a: Args): seq<FileLock> {
    if s == [] then []
    else Unmatched(s[..|s| - 1], a) + (if IsMatch(s[|s| - 1], a) then [] else [s[|s| - 1]])
  }

  /** The state id of the last lock that matches. */
  function LastMatch(s: seq<FileLock>, a: Args): Option<seq<byte>> {
    if s == [] then None
    else if IsMatch(s[|s| - 1], a) then Some(s[|s| - 1].stateid)
    else LastMatch(s[..|s| - 1], a)
  }

  function Locku(t: Table, a: Args): (Table, Reply) {
    if a.key !in t.locks then (t, Released(None))
    else
      var list := t.locks[a.key];
      (t.(locks := t.locks[a.key := Unmatched(list, a)]), Released(LastMatch(list, a)))
  }

  class LockManager {
    var locks: map<u64, seq<FileLock>>
    var lockCounter: nat

    constructor ()
      ensures Abs() == Table(map[], 1)
    {
      locks := map[];
      lockCounter := 1;
    }

    ghost function Abs(): Table
      reads this
    {
      Table(locks, lockCounter)
    }

    /** `op_lock`; the counter is a u64 that must not wrap. */
    method OpLock(a: Args) returns (reply: Reply)
      requires lockCounter < MAX_U64
      modifies this
      ensures (Abs(), reply) == Lock(old(Abs()), a)
    {
      var fileLocks := if a.key in locks then locks[a.key] else [];
      var conflicting := CheckLockConflict(fileLocks, a.lockType, a.offset, a.length);
      if conflicting.Some? {
        return Denied(conflicting.value);
      }
      var id := lockCounter;
      lockCounter := lockCounter + 1;
      var sid := Be64(id) + [0, 0, 0, 0];
      fileLocks := fileLocks + [FileLock(a.offset, a.length, a.lockType, a.owner, a.clientId, sid)];
      locks := locks[a.key := fileLocks];
      reply := Granted(sid);
    }

    /** `op_lockt` */
    method OpLockt(a: Args) returns (reply: Reply)
      ensures reply == Lockt(Abs(), a)
    {
      if a.key in locks {
        var conflicting := CheckLockConflict(locks[a.key], a.lockType, a.offset, a.length);
        if conflicting.Some? {
          return Denied(conflicting.value);
        }
      }
      reply := Free;
    }

    /** `op_locku` */
    method OpLocku(a: Args) returns (reply: Reply)
      modifies this
      ensures (Abs(), reply) == Locku(old(Abs()), a)
    {
      var foundSid: Option<seq<byte>> := None;
      if a.key in locks {
        var fileLocks := locks[a.key];
        var kept: seq<FileLock> := [];
        for i := 0 to |fileLocks|
          invariant kept == Unmatched(fileLocks[..i], a)
          invariant foundSid == LastMatch(fileLocks[..i], a)
        {
          var l := fileLocks[i];
          assert fileLocks[..i + 1][..i] == fileLocks[..i];
          if l.offset == a.offset && l.length == a.length && l.lockType == a.lockType && l.owner == a.owner {
            foundSid := Some(l.stateid);
          } else {
            kept := kept + [l];
          }
        }
        assert fileLocks[..|fileLocks|] == fileLocks;
        locks := locks[a.key := kept];
      }
      reply := Released(foundSid);
    }
  }

  // ----- runs -----

  datatype Op = DoLock(a: Args) | DoLockt(a: Args) | DoLocku(a: Args)

  function Step(t: Table, op: Op): Table {
    match op
    case DoLock(a) => Lock(t, a).0
    case DoLockt(a) => t
    case DoLocku(a) => Locku(t, a).0
  }

  function Run(ops: seq<Op>): Table {
    if ops == [] then Table(map[], 1) else Step(Run(ops[..|ops| - 1]), ops[|ops| - 1])
  }

  lemma RunAppend(ops: seq<Op>, op: Op)
    ensures Run(ops + [op]) == Step(Run(ops), op)
  {
    assert (ops + [op])[..|ops|] == ops;
  }

  /** Locks held together do not conflict, whichever came first. */
  ghost predicate Compatible(s: seq<FileLock>) {
    forall i, j :: 0 <= i < j < |s| ==> !Conflict(s[i], s[j].lockType, s[j].offset, s[j].length)
  }

  lemma {:induction false} UnmatchedMembers(s: seq<FileLock>, a: Args) returns (index: seq<nat>)
    ensures |index| == |Unmatched(s, a)|
    ensures forall i :: 0 <= i < |index| ==> index[i] < |s| && Unmatched(s, a)[i] == s[index[i]]
    ensures forall i, j :: 0 <= i < j < |index| ==> index[i] < index[j]
    ensures forall k :: 0 <= k < |s| ==> (k in index <==> !IsMatch(s[k], a))
  {
    if s == [] {
      index := [];
    } else {
      index := UnmatchedMembers(s[..|s| - 1], a);
      if !IsMatch(s[|s| - 1], a) { index := index + [|s| - 1]; }
    }
  }

  ghost predicate AllCompatible(t: Table) {
    forall key :: key in t.locks ==> Compatible(t.locks[key])
  }

  lemma {:induction false} RunCompatible(ops: seq<Op>)
    ensures AllCompatible(Run(ops))
  {
    if ops != [] {
      RunCompatible(ops[..|ops| - 1]);
      var t := Run(ops[..|ops| - 1]);
      match ops[|ops| - 1]
      case DoLock(a) =>
      case DoLockt(a) =>
      case DoLocku(a) =>
        if a.key in t.locks {
          var index := UnmatchedMembers(t.locks[a.key], a);
        }
    }
  }

  predicate Covers(l: FileLock, b: u64) {
    InRange(b, l.offset, l.length)
  }

  /** Byte `b` is covered by at most one lock, or by non-write locks only. */
  ghost predicate SafeAt(s: seq<FileLock>, b: u64) {
    forall i, j :: 0 <= i < j < |s| && Covers(s[i], b) && Covers(s[j], b) ==>
      !IsWrite(s[i].lockType) && !IsWrite(s[j].lockType)
  }

  lemma LockSafety(ops: seq<Op>, key: u64, b: u64)
    requires b < MAX_U64
    ensures SafeAt(ListAt(Run(ops), key), b)
  {
    RunCompatible(ops);
    var s := ListAt(Run(ops), key);
    forall i, j | 0 <= i < j < |s| && Covers(s[i], b) && Covers(s[j], b)
      ensures !IsWrite(s[i].lockType) && !IsWrite(s[j].lockType)
    {
      assert !Conflict(s[i], s[j].lockType, s[j].offset, s[j].length);
    }
  }

  /** Exactly one byte position is not protected by the lock table: the last one. */
  lemma ProtectedBytes(b: u64)
    ensures (forall ops, key :: SafeAt(ListAt(Run(ops), key), b)) <==> b != MAX_U64
  {
    if b != MAX_U64 {
      forall ops, key ensures SafeAt(ListAt(Run(ops), key), b) { LockSafety(ops, key, b); }
    } else {
      var a := Args(7, WRITE_LT, MAX_U64, 1, [], 0);
      RunAppend([], DoLock(a));
      RunAppend([] + [DoLock(a)], DoLock(a));
      var ops := [] + [DoLock(a)] + [DoLock(a)];
      var s := ListAt(Run(ops), 7);
      assert |s| == 2 && Covers(s[0], b) && Covers(s[1], b) && IsWrite(s[0].lockType);
    }
  }

  // ----- state ids -----

  predicate Slot(t: Table, key: u64, i: nat) {
    key in t.locks && i < |t.locks[key]|
  }

  function SidAt(t: Table, key: u64, i: nat): seq<byte>
    requires Slot(t, key, i)
  {
    t.locks[key][i].stateid
  }

  /** The number a state id was made from. */
  predicate NumberedBelow(sid: seq<byte>, n: nat) {
    |sid| == 12 && FromBe(sid[..8]) < n && sid == Stateid(FromBe(sid[..8]))
  }

  ghost predicate Numbered(t: Table) {
    forall key, i :: Slot(t, key, i) ==> NumberedBelow(SidAt(t, key, i), t.counter)
  }

  ghost predicate Distinct(t: Table) {
    forall k1, i1, k2, i2 :: Slot(t, k1, i1) && Slot(t, k2, i2) && SidAt(t, k1, i1) == SidAt(t, k2, i2) ==>
      k1 == k2 && i1 == i2
  }

  lemma StateidNumber(n: nat)
    requires n <= MAX_U64
    ensures NumberedBelow(Stateid(n), n + 1) && FromBe(Stateid(n)[..8]) == n
  {
    assert Stateid(n)[..8] == Be64(n);
    RoundTrip64(n);
  }

  lemma LockKeepsDistinct(t: Table, a: Args)
    requires Numbered(t) && Distinct(t) && t.counter <= MAX_U64
    ensures Numbered(Lock(t, a).0) && Distinct(Lock(t, a).0)
  {
    hide FirstConflict, Stateid, FromBe;
    var t' := Lock(t, a).0;
    StateidNumber(t.counter);
    if Lock(t, a).1.Granted? {
      var n := |ListAt(t, a.key)|;
      forall key: u64, i: nat | Slot(t', key, i)
        ensures NumberedBelow(SidAt(t', key, i), t'.counter)
        ensures (key, i) != (a.key, n) ==> Slot(t, key, i) && SidAt(t', key, i) == SidAt(t, key, i)
      {
        if (key, i) != (a.key, n) { assert Slot(t, key, i); }
      }
      forall key: u64, i: nat | Slot(t, key, i) ensures SidAt(t, key, i) != Stateid(t.counter) {
        assert NumberedBelow(SidAt(t, key, i), t.counter);
      }
    }
  }

  lemma UnlockKeepsDistinct(t: Table, a: Args)
    requires Numbered(t) && Distinct(t) && a.key in t.locks
    ensures Numbered(Locku(t, a).0) && Distinct(Locku(t, a).0)
  {
    hide Unmatched, LastMatch, Stateid, FromBe;
    var t' := Locku(t, a).0;
    var index := UnmatchedMembers(t.locks[a.key], a);
    var origin := (key: u64, i: nat) => if key == a.key && i < |index| then index[i] else i;
    forall key: u64, i: nat | Slot(t', key, i)
      ensures Slot(t, key, origin(key, i)) && SidAt(t', key, i) == SidAt(t, key, origin(key, i))
      ensures NumberedBelow(SidAt(t', key, i), t.counter)
    {
      assert Slot(t, key, origin(key, i));
    }
    forall k1: u64, i1: nat, k2: u64, i2: nat |
      Slot(t', k1, i1) && Slot(t', k2, i2) && SidAt(t', k1, i1) == SidAt(t', k2, i2)
      ensures k1 == k2 && i1 == i2
    {
      assert Slot(t, k1, origin(k1, i1)) && Slot(t, k2, origin(k2, i2));
    }
  }

  lemma {:induction false} RunDistinct(ops: seq<Op>)
    requires |ops| < MAX_U64
    ensures Numbered(Run(ops)) && Distinct(Run(ops)) && Run(ops).counter <= 1 + |ops|
  {
    if ops != [] {
      RunDistinct(ops[..|ops| - 1]);
      var t := Run(ops[..|ops| - 1]);
      match ops[|ops| - 1]
      case DoLock(a) => LockKeepsDistinct(t, a);
      case DoLockt(a) =>
      case DoLocku(a) => if a.key in t.locks { UnlockKeepsDistinct(t, a); }
    }
  }

  /** In every run short enough not to wrap the counter, all held locks of all files carry
      different state ids. */
  lemma StateidsDistinct(ops: seq<Op>, k1: u64, i1: nat, k2: u64, i2: nat)
    requires |ops| < MAX_U64
    requires Slot(Run(ops), k1, i1) && Slot(Run(ops), k2, i2)
    ensures SidAt(Run(ops), k1, i1) == SidAt(Run(ops), k2, i2) <==> k1 == k2 && i1 == i2
  {
    RunDistinct(ops);
  }

  // ----- the operations together -----

  /** LOCKT answers for LOCK: it finds the range free exactly when LOCK would be granted, and
      both name the same holder when it is not. */
  lemma TestPredictsLock(t: Table, a: Args)
    ensures Lockt(t, a) == Free <==> Lock(t, a).1.Granted?
    ensures Lockt(t, a).Denied? ==> Lock(t, a) == (t, Lockt(t, a))
    ensures Lock(t, a).1.Granted? <==>
            forall k :: 0 <= k < |ListAt(t, a.key)| ==> !Conflict(ListAt(t, a.key)[k], a.lockType, a.offset, a.length)
  {
  }

  ghost predicate HasMatch(s: seq<FileLock>, a: Args) {
    exists k :: 0 <= k < |s| && IsMatch(s[k], a)
  }

  lemma {:induction false} UnmatchedSame(s: seq<FileLock>, a: Args)
    ensures |Unmatched(s, a)| <= |s|
    ensures Unmatched(s, a) == s <==> !HasMatch(s, a)
    ensures LastMatch(s, a).None? <==> !HasMatch(s, a)
  {
    if s != [] {
      var n := |s| - 1;
      UnmatchedSame(s[..n], a);
      assert s == s[..n] + [s[n]];
      if HasMatch(s[..n], a) {
        var k :| 0 <= k < n && IsMatch(s[..n][k], a);
        assert IsMatch(s[k], a);
        assert |Unmatched(s[..n], a)| < n by { UnmatchedShrinks(s[..n], a, k); }
      } else if HasMatch(s, a) {
        assert IsMatch(s[n], a);
      }
    }
  }

  lemma {:induction false} UnmatchedShrinks(s: seq<FileLock>, a: Args, k: nat)
    requires k < |s| && IsMatch(s[k], a)
    ensures |Unmatched(s, a)| < |s|
  {
    var n := |s| - 1;
    if k < n { UnmatchedShrinks(s[..n], a, k); } else { UnmatchedBound(s[..n], a); }
  }

  lemma {:induction false} UnmatchedBound(s: seq<FileLock>, a: Args)
    ensures |Unmatched(s, a)| <= |s|
  {
    if s != [] { UnmatchedBound(s[..|s| - 1], a); }
  }

  /** LOCKU frees exactly the locks with its range, type and owner, tells whether there was one,
      and touches nothing else. */
  lemma UnlockReleases(t: Table, a: Args)
    ensures var (t', r) := Locku(t, a);
            && !HasMatch(ListAt(t', a.key), a)
            && (r == Released(None) <==> !HasMatch(ListAt(t, a.key), a))
            && (ListAt(t', a.key) == ListAt(t, a.key) <==> !HasMatch(ListAt(t, a.key), a))
            && (forall l :: l in ListAt(t', a.key) <==> l in ListAt(t, a.key) && !IsMatch(l, a))
            && (forall key :: key != a.key ==> ListAt(t', key) == ListAt(t, key))
            && t'.counter == t.counter
  {
    UnmatchedSame(ListAt(t, a.key), a);
    UnmatchedKeeps(ListAt(t, a.key), a);
  }

  lemma {:induction false} UnmatchedKeeps(s: seq<FileLock>, a: Args)
    ensures forall l :: l in Unmatched(s, a) <==> l in s && !IsMatch(l, a)
  {
    if s != [] {
      var n := |s| - 1;
      UnmatchedKeeps(s[..n], a);
      assert s == s[..n] + [s[n]];
    }
  }

  /** A granted LOCK is undone by the LOCKU with the same arguments, which returns the state id
      LOCK gave out, exactly when no lock with that range, type and owner was held before. For a
      write lock on a non-empty range that starts below the last byte this is always so. */
  lemma LockThenUnlock(t: Table, a: Args)
    requires Lock(t, a).1.Granted?
    ensures var (t1, granted) := Lock(t, a);
            var (t2, released) := Locku(t1, a);
            && released == Released(Some(granted.stateid))
            && (ListAt(t2, a.key) == ListAt(t, a.key) <==> !HasMatch(ListAt(t, a.key), a))
            && (forall key :: key != a.key ==> ListAt(t2, key) == ListAt(t, key))
    ensures IsWrite(a.lockType) && a.length > 0 && a.offset < MAX_U64 ==> !HasMatch(ListAt(t, a.key), a)
  {
    var s := ListAt(t, a.key);
    var l := NewLock(t, a);
    assert (s + [l])[..|s|] == s;
    assert Unmatched(s + [l], a) == Unmatched(s, a);
    UnmatchedSame(s, a);
  }

  // ----- in terms of the requests alone -----

  /** Two locks conflict exactly when one of them is for writing (types 2, 3 and 4) and they share a
      byte below 2^64-1, or one of them is empty and inside the other. */
  lemma ConflictExact(l: FileLock, lockType: u32, offset: u64, length: u64)
    ensures Conflict(l, lockType, offset, length) <==>
            && (lockType in {2, 3, 4} || l.lockType in {2, 3, 4})
            && (|| (exists b :: InRange(b, offset, length) && InRange(b, l.offset, l.length)
                                && b < 0xFFFF_FFFF_FFFF_FFFF)
                || (length == 0 && l.offset < offset < l.offset + l.length && offset < 0xFFFF_FFFF_FFFF_FFFF)
                || (l.length == 0 && offset < l.offset < offset + length && l.offset < 0xFFFF_FFFF_FFFF_FFFF))
  {
    if RangesMeet(offset, length, l.offset, l.length) && length > 0 && l.length > 0 {
      var b := if offset < l.offset then l.offset else offset;
      assert InRange(b, offset, length) && InRange(b, l.offset, l.length) && b < MAX_U64;
    }
  }

  /** The lock is the one the request describes. */
  predicate Describes(a: Args, l: FileLock) {
    l.offset == a.offset && l.length == a.length && l.lockType == a.lockType && l.owner == a.owner
  }

  /** LOCK puts what was asked for behind the locks of its list, for the client that asked, under a
      state id made of the counter, and touches no other list; or it names the first lock in its
      way and changes nothing. */
  lemma LockRecords(t: Table, a: Args)
    requires t.counter <= MAX_U64
    ensures var (t', r) := Lock(t, a);
            var list := ListAt(t, a.key);
            if r.Granted? then
              && a.key in t'.locks && |t'.locks[a.key]| == |list| + 1 && list <= t'.locks[a.key]
              && var l := t'.locks[a.key][|list|];
                 && Describes(a, l) && l.clientId == a.clientId
                 && r.stateid == l.stateid == Be64(t.counter) + [0, 0, 0, 0]
                 && t'.counter == t.counter + 1
                 && t'.locks - {a.key} == t.locks - {a.key}
            else
              && t' == t && r.Denied?
              && exists k :: 0 <= k < |list| && list[k] == r.holder &&
                   Conflict(list[k], a.lockType, a.offset, a.length) &&
                   forall j :: 0 <= j < k ==> !Conflict(list[j], a.lockType, a.offset, a.length)
  {
    hide Be, Conflict;
  }

  /** LOCKU keeps exactly the locks it does not describe, in their order, and answers with the state
      id of the last one it does. */
  lemma UnlockRecords(t: Table, a: Args) returns (kept: seq<nat>)
    ensures var (t', r) := Locku(t, a);
            var before, after := ListAt(t, a.key), ListAt(t', a.key);
            && |kept| == |after|
            && (forall i :: 0 <= i < |kept| ==> kept[i] < |before| && after[i] == before[kept[i]])
            && (forall i, j :: 0 <= i < j < |kept| ==> kept[i] < kept[j])
            && (forall k :: 0 <= k < |before| ==> (k in kept <==> !Describes(a, before[k])))
            && r.Released?
            && (r.found.None? <==> forall k :: 0 <= k < |before| ==> !Describes(a, before[k]))
            && (r.found.Some? ==> exists k :: 0 <= k < |before| && Describes(a, before[k])
                                    && before[k].stateid == r.found.value
                                    && forall j :: k < j < |before| ==> !Describes(a, before[j]))
            && t'.counter == t.counter && t'.locks - {a.key} == t.locks - {a.key}
  {
    kept := UnmatchedMembers(ListAt(t, a.key), a);
    LastDescribed(ListAt(t, a.key), a);
    if a.key !in t.locks {
      assert kept == [];
    } else {
      hide Unmatched, LastMatch;
    }
  }

  lemma {:induction false} LastDescribed(s: seq<FileLock>, a: Args)
    ensures LastMatch(s, a).None? <==> forall k :: 0 <= k < |s| ==> !Describes(a, s[k])
    ensures LastMatch(s, a).Some? ==> exists k :: 0 <= k < |s| && Describes(a, s[k])
                                        && s[k].stateid == LastMatch(s, a).value
                                        && forall j :: k < j < |s| ==> !Describes(a, s[j])
    decreases |s|
  {
    if s != [] {
      var n := |s| - 1;
      LastDescribed(s[..n], a);
      if !IsMatch(s[n], a) && LastMatch(s, a).Some? {
        var k :| 0 <= k < n && Describes(a, s[..n][k]) && s[..n][k].stateid == LastMatch(s, a).value
                 && forall j :: k < j < n ==> !Describes(a, s[..n][j]);
        forall j | k < j < |s| ensures !Describes(a, s[j]) {
          if j < n { assert s[..n][j] == s[j]; }
        }
        assert s[k] == s[..n][k];
      }
      if forall k :: 0 <= k < n ==> !Describes(a, s[..n][k]) {
        forall k | 0 <= k < n ensures !Describes(a, s[k]) { assert s[..n][k] == s[k]; }
      }
    }
  }
}
