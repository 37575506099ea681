/**
  The file-handle table of the exports manager: two maps and a counter that must agree, and
  40-byte handles signed with a keyed MAC.
*/
module FileHandles {
  import opened Wire
  import opened PathHash
  import opened PathSearch

  const FH_SIZE: nat := 40
  const SEARCH_DEPTH: nat := 8

  type Path = seq<byte>

  /** HMAC-SHA256 under the server's key, truncated to 16 bytes; nothing else is known of it. */
  type Mac = f: (u64, u64, u32, u32) -> seq<byte> | forall id, ino, gen, salt :: |f(id, ino, gen, salt)| == 16
    witness (id: u64, ino: u64, gen: u32, salt: u32) => Zeros(16)

  datatype FhEntry = FhEntry(path: Path, exportRoot: Path, inode: u64, gen: u32)

  datatype Table = Table(fhMap: map<u64, FhEntry>, pathToId: map<Path, u64>, counter: u64)

  // ----- handles -----

  /** `encode_handle`; the salt comes from the clock. */
  function EncodeHandle(mac: Mac, fhid: u64, inode: u64, gen: u32, salt: u32): (h: seq<byte>)
    ensures |h| == FH_SIZE
  {
    Be64(fhid) + Be64(inode) + Be32(gen) + Be32(salt) + mac(fhid, inode, gen, salt)
  }

  /** `verify_fh_mac` */
  function VerifyMac(mac: Mac, h: seq<byte>): Option<u64> {
    if |h| < FH_SIZE then None
    else
      var fhid, inode, gen, salt := Read64(h[0..8]), Read64(h[8..16]), Read32(h[16..20]), Read32(h[20..24]);
      if h[24..40] == mac(fhid, inode, gen, salt) then Some(fhid) else None
  }

  predicate AllZero(h: seq<byte>) { forall i :: 0 <= i < |h| ==> h[i] == 0 }

  /** `verify_and_decode_fhid`: the zero handle is the root probe. */
  function VerifyAndDecode(mac: Mac, h: seq<byte>): Option<u64> {
    if AllZero(h) then Some(0) else VerifyMac(mac, h)
  }

  /** `decode_fhid`: no verification. */
  function DecodeFhid(h: seq<byte>): Option<u64> {
    if |h| < 8 then None else Some(Read64(h[0..8]))
  }

  /** The table lookup of `resolve_fh`. */
  function Resolve(mac: Mac, t: Table, h: seq<byte>): Option<Path> {
    match VerifyAndDecode(mac, h)
    case None => None
    case Some(fhid) => if fhid != 0 && fhid in t.fhMap then Some(t.fhMap[fhid].path) else None
  }

  /** A freshly encoded handle passes verification and decodes to its id, salt or no salt. */
  lemma EncodedHandleVerifies(mac: Mac, fhid: u64, inode: u64, gen: u32, salt: u32)
    ensures var h := EncodeHandle(mac, fhid, inode, gen, salt);
            && VerifyMac(mac, h) == Some(fhid)
            && VerifyAndDecode(mac, h) == Some(fhid)
            && DecodeFhid(h) == Some(fhid)
  {
    hide Be, FromBe;
    var h := EncodeHandle(mac, fhid, inode, gen, salt);
    assert h[0..8] == Be64(fhid) && h[8..16] == Be64(inode);
    assert h[16..20] == Be32(gen) && h[20..24] == Be32(salt) && h[24..40] == mac(fhid, inode, gen, salt);
    RoundTrip64(fhid);
    RoundTrip64(inode);
    RoundTrip32(gen);
    RoundTrip32(salt);
    if AllZero(h) {
      assert AllZero(h[0..8]);
      ZerosAreZero(h[0..8]);
    }
  }

  lemma {:induction false} ZerosAreZero(s: seq<byte>)
    requires AllZero(s)
    ensures FromBe(s) == 0
  {
    if s != [] { ZerosAreZero(s[..|s| - 1]); }
  }

  // ----- the table operations, each under its locks -----

  function Insert(t: Table, id: u64, path: Path, root: Path): Table {
    Table(t.fhMap[id := FhEntry(path, root, Fnv1a(path), 1)], t.pathToId[path := id], t.counter)
  }

  predicate Known(t: Table, path: Path) {
    path in t.pathToId && t.pathToId[path] in t.fhMap
  }

  /** `*counter += 1` on a u64 of the release build: it wraps. */
  function Bump(id: u64): u64 { (id + 1) % 0x1_0000_0000_0000_0000 }

  /** `get_or_create_fh` */
  function GetOrCreate(mac: Mac, t: Table, path: Path, root: Path, salt: u32): (Table, seq<byte>) {
    if Known(t, path) then
      var id := t.pathToId[path];
      (t, EncodeHandle(mac, id, t.fhMap[id].inode, t.fhMap[id].gen, salt))
    else
      var id := t.counter;
      (Insert(t, id, path, root).(counter := Bump(id)), EncodeHandle(mac, id, Fnv1a(path), 1, salt))
  }

  /** `alloc_synthetic_handle`: a numbered handle without a table entry. */
  function AllocSynthetic(mac: Mac, t: Table, path: Path, salt: u32): (Table, seq<byte>) {
    (t.(counter := Bump(t.counter)), EncodeHandle(mac, t.counter, Fnv1a(path), 1, salt))
  }

  /** The first export whose tree holds a path with this inode, and that path. */
  function SearchExports(exports: seq<Node>, inode: u64): Option<(Path, Path)> {
    if exports == [] then None
    else
      match FirstMatch(Preorder(exports[0], SEARCH_DEPTH), inode)
      case Some(found) => Some((found, exports[0].path))
      case None => SearchExports(exports[1..], inode)
  }

  /** What `try_rebuild_fh` would insert: the id, the path found and its export. */
  function RebuildTarget(t: Table, h: seq<byte>, exports: seq<Node>): Option<(u64, Path, Path)> {
    match DecodeFhid(h)
    case None => None
    case Some(fhid) =>
      if fhid == MAX_U64 || fhid == 0 || fhid in t.fhMap || |h| < 16 then None
      else
        match SearchExports(exports, Read64(h[8..16]))
        case None => None
        case Some((found, root)) => Some((fhid, found, root))
  }

  /** Entering what was found, and moving the counter past its id. */
  function Enroll(t: Table, fhid: u64, found: Path, root: Path): Table {
    Insert(t, fhid, found, root).(counter := if fhid >= t.counter then Bump(fhid) else t.counter)
  }

  /** `try_rebuild_fh` */
  function Rebuild(t: Table, h: seq<byte>, exports: seq<Node>): Table {
    match RebuildTarget(t, h, exports)
    case None => t
    case Some((fhid, found, root)) => Enroll(t, fhid, found, root)
  }

  lemma {:induction false} SearchExportsHash(exports: seq<Node>, inode: u64)
    ensures SearchExports(exports, inode).Some? ==> Fnv1a(SearchExports(exports, inode).value.0) == inode
  {
    hide Fnv1a, Preorder;
    if exports != [] {
      FirstMatchExact(Preorder(exports[0], SEARCH_DEPTH), inode);
      SearchExportsHash(exports[1..], inode);
    }
  }

  class ExportsManager {
    var fhMap: map<u64, FhEntry>
    var pathToFhid: map<Path, u64>
    var fhCounter: u64
    const mac: Mac

    constructor (mac: Mac)
      ensures this.mac == mac && Abs() == Table(map[], map[], 1)
    {
      this.mac := mac;
      fhMap, pathToFhid, fhCounter := map[], map[], 1;
    }

    ghost function Abs(): Table
      reads this
    {
      Table(fhMap, pathToFhid, fhCounter)
    }

    method GetOrCreateFh(realPath: Path, exportRoot: Path, salt: u32) returns (h: seq<byte>)
      modifies this
      ensures (Abs(), h) == GetOrCreate(mac, old(Abs()), realPath, exportRoot, salt)
    {
      if realPath in pathToFhid {
        var known := pathToFhid[realPath];
        if known in fhMap {
          var entry := fhMap[known];
          return EncodeHandle(mac, known, entry.inode, entry.gen, salt);
        }
      }
      var inode := GetInode(realPath);
      var gen := 1;
      var fhid: u64 := fhCounter;
      fhCounter := Bump(fhCounter);
      fhMap := fhMap[fhid := FhEntry(realPath, exportRoot, inode, gen)];
      pathToFhid := pathToFhid[realPath := fhid];
      h := EncodeHandle(mac, fhid, inode, gen, salt);
    }

    method AllocSyntheticHandle(path: Path, salt: u32) returns (h: seq<byte>)
      modifies this
      ensures (Abs(), h) == AllocSynthetic(mac, old(Abs()), path, salt)
    {
      var inode := GetInode(path);
      var fhid: u64 := fhCounter;
      fhCounter := Bump(fhCounter);
      h := EncodeHandle(mac, fhid, inode, 1, salt);
    }

    method TryRebuildFh(h: seq<byte>, exports: seq<Node>)
      modifies this
      ensures Abs() == Rebuild(old(Abs()), h, exports)
    {
      hide Fnv1a, Preorder, FromBe;
      if |h| < 8 { return; }
      var fhid := Read64(h[0..8]);
      if fhid == MAX_U64 || fhid == 0 { return; }
      if fhid in fhMap { return; }
      if |h| < 16 { return; }
      var storedInode := Read64(h[8..16]);
      SearchExportsHash(exports, storedInode);
      for i := 0 to |exports|
        invariant Abs() == old(Abs())
        invariant SearchExports(exports, storedInode) == SearchExports(exports[i..], storedInode)
      {
        assert exports[i..][0] == exports[i] && exports[i..][1..] == exports[i + 1..];
        var found := FindPathByInode(exports[i], storedInode, 0, SEARCH_DEPTH);
        if found.Some? {
          if fhid >= fhCounter {
            fhCounter := Bump(fhid);
          }
          fhMap := fhMap[fhid := FhEntry(found.value, exports[i].path, storedInode, 1)];
          pathToFhid := pathToFhid[found.value := fhid];
          return;
        }
      }
    }

    /** The table lookup of `resolve_fh`, before its symbolic-link filter. */
    method LookupFh(h: seq<byte>) returns (path: Option<Path>)
      ensures path == Resolve(mac, Abs(), h)
    {
      var id := VerifyAndDecode(mac, h);
      if id.None? || id.value == 0 || id.value !in fhMap { return None; }
      path := Some(fhMap[id.value].path);
    }
  }

  // ----- runs of whole operations -----

  datatype Op =
    | Create(path: Path, root: Path, salt: u32)
    | Synthetic(path: Path, salt: u32)
    | TryRebuild(h: seq<byte>, exports: seq<Node>)

  function Step(mac: Mac, t: Table, op: Op): Table {
    match op
    case Create(path, root, salt) => GetOrCreate(mac, t, path, root, salt).0
    case Synthetic(path, salt) => AllocSynthetic(mac, t, path, salt).0
    case TryRebuild(h, exports) => Rebuild(t, h, exports)
  }

  function RunFrom(mac: Mac, t: Table, ops: seq<Op>): Table {
    if ops == [] then t else Step(mac, RunFrom(mac, t, ops[..|ops| - 1]), ops[|ops| - 1])
  }

  lemma RunNext(mac: Mac, t: Table, ops: seq<Op>, k: nat)
    requires k < |ops|
    ensures RunFrom(mac, t, ops[..k + 1]) == Step(mac, RunFrom(mac, t, ops[..k]), ops[k])
  {
    hide Step;
    assert ops[..k + 1][..k] == ops[..k];
  }

  const EMPTY: Table := Table(map[], map[], 1)

  /** The reverse map agrees with the entries. */
  ghost predicate Agree(t: Table) {
    forall p :: p in t.pathToId ==> t.pathToId[p] in t.fhMap && t.fhMap[t.pathToId[p]].path == p
  }

  /** Every entry is numbered between 1 and the counter and carries its path's hash. */
  ghost predicate Entries(t: Table) {
    && t.counter >= 1
    && forall id :: id in t.fhMap ==>
         1 <= id < t.counter && t.fhMap[id].inode == Fnv1a(t.fhMap[id].path) && t.fhMap[id].gen == 1
  }

  ghost predicate Extends(t: Table, t': Table) {
    t.counter <= t'.counter && forall id :: id in t.fhMap ==> id in t'.fhMap && t'.fhMap[id] == t.fhMap[id]
  }

  /** What every table should be: sound, and still holding every entry of `t0`. */
  ghost predicate Keeps(t0: Table, t: Table) {
    Entries(t) && Agree(t) && Extends(t0, t)
  }

  // ----- agreement, exactly until the counter wraps -----

  /** The operation takes the last number there is. */
  predicate Wraps(t: Table, op: Op) {
    t.counter == MAX_U64 && match op
                            case Create(path, _, _) => !Known(t, path)
                            case Synthetic(_, _) => true
                            case TryRebuild(_, _) => false
  }

  lemma RebuildKeeps(t: Table, h: seq<byte>, exports: seq<Node>)
    requires Entries(t)
    ensures Entries(Rebuild(t, h, exports)) && Extends(t, Rebuild(t, h, exports))
    ensures Agree(t) ==> Agree(Rebuild(t, h, exports))
  {
    hide Fnv1a, FromBe, SearchExports;
  }

  /** An operation keeps the table sound and all its entries exactly when it does not wrap the
      counter. */
  lemma StepKeepsIffNoWrap(mac: Mac, t: Table, op: Op)
    requires Entries(t) && Agree(t)
    ensures Keeps(t, Step(mac, t, op)) <==> !Wraps(t, op)
  {
    hide Fnv1a, EncodeHandle, Rebuild;
    match op
    case Create(path, root, salt) =>
    case Synthetic(path, salt) =>
    case TryRebuild(h, exports) => RebuildKeeps(t, h, exports);
  }

  ghost predicate WrapFree(mac: Mac, t: Table, ops: seq<Op>) {
    forall k: nat :: k < |ops| ==> !Wraps(RunFrom(mac, t, ops[..k]), ops[k])
  }

  /** In every state of a run the two maps agree, ids are below the counter, inodes are hashes and
      no entry has been removed or overwritten: exactly for the runs that do not wrap the counter. */
  lemma TableAgreement(mac: Mac, t: Table, ops: seq<Op>)
    requires Entries(t) && Agree(t)
    ensures (forall k: nat :: k <= |ops| ==> Keeps(t, RunFrom(mac, t, ops[..k]))) <==> WrapFree(mac, t, ops)
  {
    hide Step, Keeps, Wraps;
    if WrapFree(mac, t, ops) {
      forall k: nat | k <= |ops| ensures Keeps(t, RunFrom(mac, t, ops[..k])) {
        WrapFreeKeeps(mac, t, ops, k);
      }
    }
    if forall k: nat :: k <= |ops| ==> Keeps(t, RunFrom(mac, t, ops[..k])) {
      forall k: nat | k < |ops| ensures !Wraps(RunFrom(mac, t, ops[..k]), ops[k]) {
        RunNext(mac, t, ops, k);
        assert Keeps(t, RunFrom(mac, t, ops[..k + 1]));
        if Wraps(RunFrom(mac, t, ops[..k]), ops[k]) { WrapBreaks(mac, t, RunFrom(mac, t, ops[..k]), ops[k]); }
      }
    }
  }

  lemma WrapBreaks(mac: Mac, t0: Table, t: Table, op: Op)
    requires Wraps(t, op)
    ensures !Keeps(t0, Step(mac, t, op))
  {
    hide EncodeHandle;
  }

  lemma {:induction false} WrapFreeKeeps(mac: Mac, t: Table, ops: seq<Op>, k: nat)
    requires Entries(t) && Agree(t) && WrapFree(mac, t, ops) && k <= |ops|
    ensures Keeps(t, RunFrom(mac, t, ops[..k]))
    decreases k
  {
    hide Step, Keeps, Wraps, RunFrom;
    if k > 0 {
      var before := RunFrom(mac, t, ops[..k - 1]);
      WrapFreeKeeps(mac, t, ops, k - 1);
      RunNext(mac, t, ops, k - 1);
      assert Entries(before) && Agree(before) by { KeptIsSound(t, before); }
      StepKeepsIffNoWrap(mac, before, ops[k - 1]);
      KeepsJoins(t, before, RunFrom(mac, t, ops[..k]));
    } else {
      assert ops[..0] == [];
      RunNone(mac, t);
    }
  }

  lemma RunNone(mac: Mac, t: Table)
    requires Entries(t) && Agree(t)
    ensures RunFrom(mac, t, []) == t && Keeps(t, t)
  {
  }

  lemma KeptIsSound(t: Table, u: Table)
    requires Keeps(t, u)
    ensures Entries(u) && Agree(u)
  {
  }

  lemma KeepsJoins(t: Table, u: Table, v: Table)
    requires Keeps(t, u) && Keeps(u, v)
    ensures Keeps(t, v)
  {
    hide Entries, Agree;
  }

  /** The handle given to `try_rebuild_fh` carries an id below `bound`, or none. */
  predicate Carries(op: Op, bound: u64) {
    op.TryRebuild? ==> DecodeFhid(op.h).None? || DecodeFhid(op.h).value < bound
  }

  lemma StepCounter(mac: Mac, t: Table, op: Op, bound: u64, k: nat)
    requires Carries(op, bound) && 1 <= t.counter <= bound + k < MAX_U64
    ensures 1 <= Step(mac, t, op).counter <= bound + k + 1
    ensures !Wraps(t, op)
  {
    hide DecodeFhid, SearchExports, Fnv1a, EncodeHandle, Known;
  }

  /** What a caller can look at: no run wraps that is shorter than the distance between the ids it
      brings and the limit. */
  lemma {:induction false} ModestRunsDoNotWrap(mac: Mac, ops: seq<Op>, bound: u64, k: nat)
    requires 1 <= bound && bound + |ops| <= MAX_U64 && k <= |ops|
    requires forall i :: 0 <= i < |ops| ==> Carries(ops[i], bound)
    ensures 1 <= RunFrom(mac, EMPTY, ops[..k]).counter <= bound + k
    ensures k == |ops| ==> WrapFree(mac, EMPTY, ops)
    decreases k
  {
    hide Step, Carries, Wraps;
    if k > 0 {
      ModestRunsDoNotWrap(mac, ops, bound, k - 1);
      RunNext(mac, EMPTY, ops, k - 1);
      StepCounter(mac, RunFrom(mac, EMPTY, ops[..k - 1]), ops[k - 1], bound, k - 1);
    }
    if k == |ops| {
      forall i: nat | i < |ops| ensures !Wraps(RunFrom(mac, EMPTY, ops[..i]), ops[i]) {
        ModestRunsDoNotWrap(mac, ops, bound, i);
        StepCounter(mac, RunFrom(mac, EMPTY, ops[..i]), ops[i], bound, i);
      }
    }
  }

  // ----- handles, exactly until their number comes round again -----

  /** The operation gives the number `id` to another path. */
  predicate Reissues(t: Table, op: Op, id: u64, path: Path) {
    op.Create? && !Known(t, op.path) && t.counter == id && op.path != path
  }

  predicate Names(t: Table, id: u64, path: Path) {
    id in t.fhMap && t.fhMap[id].path == path
  }

  /** In any state whatever, sound or not, an entry keeps its path exactly when its number is not
      given to another one. */
  lemma StepNames(mac: Mac, t: Table, op: Op, id: u64, path: Path)
    requires Names(t, id, path)
    ensures Names(Step(mac, t, op), id, path) <==> !Reissues(t, op, id, path)
  {
    hide Fnv1a, EncodeHandle, FromBe, SearchExports;
  }

  ghost predicate NeverReissued(mac: Mac, t: Table, ops: seq<Op>, id: u64, path: Path) {
    forall k: nat :: k < |ops| ==> !Reissues(RunFrom(mac, t, ops[..k]), ops[k], id, path)
  }

  lemma {:induction false} NamesUntilReissued(mac: Mac, t: Table, ops: seq<Op>, id: u64, path: Path, n: nat)
    requires Names(t, id, path) && NeverReissued(mac, t, ops, id, path) && n <= |ops|
    ensures Names(RunFrom(mac, t, ops[..n]), id, path)
    decreases n
  {
    if n > 0 {
      hide Step, Names, Reissues;
      NamesUntilReissued(mac, t, ops, id, path, n - 1);
      RunNext(mac, t, ops, n - 1);
      StepNames(mac, RunFrom(mac, t, ops[..n - 1]), ops[n - 1], id, path);
    }
  }

  /** The number a path is given. */
  function IdFor(t: Table, path: Path): u64 {
    if Known(t, path) then t.pathToId[path] else t.counter
  }

  ghost predicate AlwaysResolves(mac: Mac, t: Table, ops: seq<Op>, h: seq<byte>, path: Path) {
    forall k: nat :: k <= |ops| ==> Resolve(mac, RunFrom(mac, t, ops[..k]), h) == Some(path)
  }

  lemma IssuedHandle(mac: Mac, t: Table, path: Path, root: Path, salt: u32)
    ensures var (t', h) := GetOrCreate(mac, t, path, root, salt);
            var id := IdFor(t, path);
            && VerifyMac(mac, h) == Some(id)
            && (forall u, p :: Resolve(mac, u, h) == Some(p) <==> id != 0 && Names(u, id, p))
  {
    hide EncodeHandle, VerifyMac, Fnv1a;
    var id := IdFor(t, path);
    var inode := if Known(t, path) then t.fhMap[id].inode else Fnv1a(path);
    var gen := if Known(t, path) then t.fhMap[id].gen else 1;
    EncodedHandleVerifies(mac, id, inode, gen, salt);
  }

  /** After any run, with wraps or without: a handle issued for a path passes verification, and
      names that path in every later state exactly when its number is not zero, it names the path
      at once, and its number is never given to another path. */
  lemma HandlePermanence(mac: Mac, t0: Table, path: Path, root: Path, salt: u32, after: seq<Op>)
    ensures var (t, h) := GetOrCreate(mac, t0, path, root, salt);
            var id := IdFor(t0, path);
            && VerifyMac(mac, h) == Some(id)
            && (AlwaysResolves(mac, t, after, h, path) <==>
                  id != 0 && Names(t, id, path) && NeverReissued(mac, t, after, id, path))
  {
    var (t, h) := GetOrCreate(mac, t0, path, root, salt);
    var id := IdFor(t0, path);
    IssuedHandle(mac, t0, path, root, salt);
    hide GetOrCreate, Step, Names, Reissues, Resolve, VerifyMac, Known;
    if AlwaysResolves(mac, t, after, h, path) {
      assert after[..0] == [] && Resolve(mac, RunFrom(mac, t, after[..0]), h) == Some(path);
      forall k: nat | k < |after| ensures !Reissues(RunFrom(mac, t, after[..k]), after[k], id, path) {
        assert Resolve(mac, RunFrom(mac, t, after[..k]), h) == Some(path);
        assert Resolve(mac, RunFrom(mac, t, after[..k + 1]), h) == Some(path);
        RunNext(mac, t, after, k);
        StepNames(mac, RunFrom(mac, t, after[..k]), after[k], id, path);
      }
    }
    if id != 0 && Names(t, id, path) && NeverReissued(mac, t, after, id, path) {
      forall k: nat | k <= |after| ensures Resolve(mac, RunFrom(mac, t, after[..k]), h) == Some(path) {
        NamesUntilReissued(mac, t, after, id, path, k);
      }
    }
  }

  /** In a run that does not wrap the counter every issued handle is permanent. */
  lemma PermanentWithoutWrap(mac: Mac, t0: Table, path: Path, root: Path, salt: u32, after: seq<Op>)
    requires Entries(t0) && Agree(t0) && !Wraps(t0, Create(path, root, salt))
    requires WrapFree(mac, GetOrCreate(mac, t0, path, root, salt).0, after)
    ensures var (t, h) := GetOrCreate(mac, t0, path, root, salt);
            AlwaysResolves(mac, t, after, h, path)
  {
    var (t, h) := GetOrCreate(mac, t0, path, root, salt);
    var id := IdFor(t0, path);
    StepKeepsIffNoWrap(mac, t0, Create(path, root, salt));
    assert Names(t, id, path) && 1 <= id < t.counter by { hide EncodeHandle, Fnv1a; }
    hide GetOrCreate, Step, Known;
    forall k: nat | k < |after| ensures !Reissues(RunFrom(mac, t, after[..k]), after[k], id, path) {
      WrapFreeKeeps(mac, t, after, k);
    }
    HandlePermanence(mac, t0, path, root, salt, after);
  }

  // ----- a run that wraps -----

  /** A handle nobody issued; `try_rebuild_fh` takes its number without verifying it. */
  function Unsigned(id: u64, path: Path): seq<byte> { Be64(id) + Be64(Fnv1a(path)) }

  lemma UnsignedDecodes(id: u64, path: Path)
    ensures var h := Unsigned(id, path);
            |h| == 16 && DecodeFhid(h) == Some(id) && Read64(h[8..16]) == Fnv1a(path)
  {
    hide Be, FromBe, Fnv1a;
    var h := Unsigned(id, path);
    RoundTrip64(id);
    RoundTrip64(Fnv1a(path));
    assert h[0..8] == Be64(id) && h[8..16] == Be64(Fnv1a(path));
  }

  /** Rebuilding the root of an export from such a handle. */
  lemma UnsignedRebuilds(t: Table, id: u64, root: Path)
    requires id != 0 && id != MAX_U64 && id !in t.fhMap
    ensures RebuildTarget(t, Unsigned(id, root), [Node(root, true, true, [])]) == Some((id, root, root))
  {
    hide Fnv1a, FromBe, Unsigned;
    UnsignedDecodes(id, root);
    var exports := [Node(root, true, true, [])];
    assert Preorder(exports[0], SEARCH_DEPTH)[0] == root;
  }

  predicate Distinct(paths: seq<Path>) {
    forall i, j :: 0 <= i < j < |paths| ==> paths[i] != paths[j]
  }

  lemma UpToTheLimit(mac: Mac, a: Path, root: Path, salt: u32)
    requires a != root
    ensures var t1 := GetOrCreate(mac, EMPTY, a, root, salt).0;
            var t2 := Rebuild(t1, Unsigned(MAX_U64 - 1, root), [Node(root, true, true, [])]);
            && Names(t1, 1, a)
            && t2.counter == MAX_U64 && t2.pathToId == map[a := 1, root := MAX_U64 - 1]
  {
    hide EncodeHandle, Fnv1a, RebuildTarget;
    UnsignedRebuilds(GetOrCreate(mac, EMPTY, a, root, salt).0, MAX_U64 - 1, root);
  }

  lemma PastTheLimit(mac: Mac, t2: Table, b: Path, c: Path, d: Path, root: Path, salt: u32)
    requires Distinct([b, c, d]) && t2.counter == MAX_U64
    requires b !in t2.pathToId && c !in t2.pathToId && d !in t2.pathToId
    ensures var t3 := GetOrCreate(mac, t2, b, root, salt).0;
            var t4 := GetOrCreate(mac, t3, c, root, salt).0;
            && IdFor(t2, b) == MAX_U64 && IdFor(t3, c) == 0 && IdFor(t4, d) == 1
            && Names(GetOrCreate(mac, t4, d, root, salt).0, 1, d)
  {
    hide EncodeHandle, Fnv1a;
    assert [b, c, d][0] != [b, c, d][1] && [b, c, d][0] != [b, c, d][2] && [b, c, d][1] != [b, c, d][2];
  }

  /** Five calls: a path is given a handle, an unsigned handle moves the counter to its limit, and
      the third new path after that takes over the first number. In between, one path is given the
      number 0, which never resolves. */
  lemma WrappedCounterReissues(mac: Mac, a: Path, b: Path, c: Path, d: Path, root: Path, salt: u32)
    requires Distinct([b, c, d]) && a != root && {b, c, d} !! {a, root}
    ensures var (t1, ha) := GetOrCreate(mac, EMPTY, a, root, salt);
            var t2 := Rebuild(t1, Unsigned(MAX_U64 - 1, root), [Node(root, true, true, [])]);
            var t3 := GetOrCreate(mac, t2, b, root, salt).0;
            var (t4, hc) := GetOrCreate(mac, t3, c, root, salt);
            var t5 := GetOrCreate(mac, t4, d, root, salt).0;
            && Resolve(mac, t1, ha) == Some(a)
            && Resolve(mac, t4, hc) == None
            && VerifyMac(mac, ha).Some? && Resolve(mac, t5, ha) == Some(d)
  {
    hide GetOrCreate, Rebuild, VerifyMac, Resolve, Names;
    var (t1, ha) := GetOrCreate(mac, EMPTY, a, root, salt);
    var t2 := Rebuild(t1, Unsigned(MAX_U64 - 1, root), [Node(root, true, true, [])]);
    var t3 := GetOrCreate(mac, t2, b, root, salt).0;
    var (t4, hc) := GetOrCreate(mac, t3, c, root, salt);
    UpToTheLimit(mac, a, root, salt);
    PastTheLimit(mac, t2, b, c, d, root, salt);
    IssuedHandle(mac, EMPTY, a, root, salt);
    IssuedHandle(mac, t3, c, root, salt);
    assert forall p :: Resolve(mac, t4, hc) != Some(p);
  }

  // ----- what a handle is made of -----

  /** 8 bytes of number, 8 of inode, 4 of generation, 4 of salt, 16 of MAC over these. */
  lemma HandleLayout(mac: Mac, fhid: u64, inode: u64, gen: u32, salt: u32)
    ensures var h := EncodeHandle(mac, fhid, inode, gen, salt);
            && |h| == 40
            && h[0..8] == Be64(fhid) && h[8..16] == Be64(inode)
            && h[16..20] == Be32(gen) && h[20..24] == Be32(salt)
            && h[24..40] == mac(fhid, inode, gen, salt)
  {
    hide Be;
  }

  /** Only a handle of at least 40 bytes with the right MAC, or one of all zeros, is accepted, and
      nothing is resolved but the number it carries. */
  lemma ResolveExact(mac: Mac, t: Table, h: seq<byte>, path: Path)
    ensures Resolve(mac, t, h) == Some(path) <==>
            && |h| >= 40
            && var id, inode, gen, salt := Read64(h[0..8]), Read64(h[8..16]), Read32(h[16..20]), Read32(h[20..24]);
               && h[24..40] == mac(id, inode, gen, salt)
               && id != 0 && id in t.fhMap && t.fhMap[id].path == path
  {
    hide FromBe;
    if |h| >= 40 && AllZero(h) {
      assert AllZero(h[0..8]);
      ZerosAreZero(h[0..8]);
      assert Read64(h[0..8]) == 0;
    }
  }

  /** A handle of zeros, of whatever length, is the root probe; any other needs its MAC, or 40 bytes
      to begin with. */
  lemma RootProbe(mac: Mac, h: seq<byte>)
    ensures (forall i :: 0 <= i < |h| ==> h[i] == 0) ==> VerifyAndDecode(mac, h) == Some(0)
    ensures (exists i :: 0 <= i < |h| && h[i] != 0) ==> VerifyAndDecode(mac, h) == VerifyMac(mac, h)
    ensures |h| < 40 ==> VerifyMac(mac, h) == None
  {
  }

  /** What `get_or_create_fh` answers in a sound table: a handle of the path's own number, with the
      hash of the path as inode. A new path is entered under the next number, and nothing else
      changes; a known one changes nothing. */
  lemma CreatedExactly(mac: Mac, t: Table, path: Path, root: Path, salt: u32)
    requires Entries(t) && Agree(t)
    ensures var (t', h) := GetOrCreate(mac, t, path, root, salt);
            && |h| == 40 && h[8..16] == Be64(Fnv1a(path)) && h[16..20] == Be32(1)
            && if path in t.pathToId then t' == t && h[0..8] == Be64(t.pathToId[path])
               else
                 && h[0..8] == Be64(t.counter)
                 && t'.counter == (if t.counter == MAX_U64 then 0 else t.counter + 1)
                 && t'.fhMap == t.fhMap[t.counter := FhEntry(path, root, Fnv1a(path), 1)]
                 && t'.pathToId == t.pathToId[path := t.counter]
  {
    hide Fnv1a, Be, EncodeHandle;
    var id := if path in t.pathToId then t.pathToId[path] else t.counter;
    HandleLayout(mac, id, Fnv1a(path), 1, salt);
  }

  /** `alloc_synthetic_handle` takes the next number for the hash of its path, and enters nothing:
      the handle is accepted and resolves to nothing. */
  lemma SyntheticExactly(mac: Mac, t: Table, path: Path, salt: u32)
    requires Entries(t)
    ensures var (t', h) := AllocSynthetic(mac, t, path, salt);
            && |h| == 40 && h[0..8] == Be64(t.counter) && h[8..16] == Be64(Fnv1a(path)) && h[16..20] == Be32(1)
            && t'.fhMap == t.fhMap && t'.pathToId == t.pathToId
            && t'.counter == (if t.counter == MAX_U64 then 0 else t.counter + 1)
            && VerifyMac(mac, h) == Some(t.counter) && Resolve(mac, t', h) == None
  {
    hide Fnv1a, Be, FromBe, EncodeHandle, VerifyMac;
    HandleLayout(mac, t.counter, Fnv1a(path), 1, salt);
    EncodedHandleVerifies(mac, t.counter, Fnv1a(path), 1, salt);
  }

  /** No path of these exports within 8 levels has the inode. */
  ghost predicate NoneReaches(exports: seq<Node>, inode: u64) {
    forall k, p :: 0 <= k < |exports| && WithinReach(exports[k], 8, p) ==> Fnv1a(p) != inode
  }

  lemma NoneReachesFront(exports: seq<Node>, inode: u64)
    requires exports != []
    ensures NoneReaches(exports, inode) <==> NoneReaches([exports[0]], inode) && NoneReaches(exports[1..], inode)
  {
    hide Fnv1a, WithinReach;
    var later := exports[1..];
    if NoneReaches(exports, inode) {
      forall k, p | 0 <= k < |later| && WithinReach(later[k], 8, p) ensures Fnv1a(p) != inode {
        assert WithinReach(exports[k + 1], 8, p);
      }
    }
    if NoneReaches([exports[0]], inode) && NoneReaches(later, inode) {
      forall k, p | 0 <= k < |exports| && WithinReach(exports[k], 8, p) ensures Fnv1a(p) != inode {
        if k == 0 { assert WithinReach([exports[0]][0], 8, p); } else { assert WithinReach(later[k - 1], 8, p); }
      }
    }
  }

  /** The exports are searched one after the other, to a depth of 8: the first that has a path with
      the inode within reach decides. */
  lemma {:induction false} SearchExportsExact(exports: seq<Node>, inode: u64)
    ensures SearchExports(exports, inode).None? <==> NoneReaches(exports, inode)
    ensures SearchExports(exports, inode).Some? ==>
              var (p, root) := SearchExports(exports, inode).value;
              && Fnv1a(p) == inode
              && exists k :: 0 <= k < |exports| && exports[k].path == root && WithinReach(exports[k], 8, p)
                   && NoneReaches(exports[..k], inode)
  {
    hide Fnv1a, Preorder, WithinReach, FirstMatch;
    if exports != [] {
      SearchExact(exports[0], inode, 8);
      assert NoneReaches([exports[0]], inode) <==> FirstMatch(Preorder(exports[0], 8), inode).None? by {
        assert [exports[0]][0] == exports[0];
      }
      NoneReachesFront(exports, inode);
      SearchExportsExact(exports[1..], inode);
      hide NoneReaches;
      if FirstMatch(Preorder(exports[0], 8), inode).Some? {
        NoneReachesNone(inode);
        assert exports[..0] == [];
      } else if SearchExports(exports, inode).Some? {
        var later := exports[1..];
        var (p, root) := SearchExports(later, inode).value;
        var k :| 0 <= k < |later| && later[k].path == root && WithinReach(later[k], 8, p)
                 && NoneReaches(later[..k], inode);
        var front := exports[..k + 1];
        NoneReachesFront(front, inode);
        assert front[1..] == later[..k] && exports[k + 1] == later[k];
      }
    }
  }

  lemma NoneReachesNone(inode: u64)
    ensures NoneReaches([], inode)
  {
  }

  /** `try_rebuild_fh` enters something exactly for a handle of at least 16 bytes whose number is
      neither 0 nor 2^64-1 nor in the table, and whose inode the search finds; then the path found
      under that number, and the counter is past it. The MAC is not looked at. */
  lemma RebuiltExactly(t: Table, h: seq<byte>, exports: seq<Node>)
    ensures var t' := Rebuild(t, h, exports);
            if |h| >= 16 && (var id := Read64(h[0..8]);
                             id != 0 && id != 0xFFFF_FFFF_FFFF_FFFF && id !in t.fhMap
                             && SearchExports(exports, Read64(h[8..16])).Some?)
            then
              var id, (path, root) := Read64(h[0..8]), SearchExports(exports, Read64(h[8..16])).value;
              && t'.fhMap == t.fhMap[id := FhEntry(path, root, Read64(h[8..16]), 1)]
              && t'.pathToId == t.pathToId[path := id]
              && t'.counter == (if id >= t.counter then id + 1 else t.counter)
            else t' == t
  {
    hide FromBe, SearchExports, Fnv1a;
    if |h| >= 16 { SearchExportsHash(exports, Read64(h[8..16])); }
  }
}
