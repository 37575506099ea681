/**
  The COMPOUND interpreter (`handle_compound` and the file-handle part of `dispatch_op`),
  section 16.2 of RFC 5661. Operations run in order over a current and a saved file handle
  until one fails; the reply carries the results of those that were attempted.
*/
module Compound {
  import opened Wire

  type Handle = h: seq<byte> | |h| < 0x1_0000_0000 witness []

  const NFS4_OK: u32 := 0
  const NFS4ERR_PERM: u32 := 1
  const NFS4ERR_BADHANDLE: u32 := 10001
  const NFS4ERR_RESOURCE: u32 := 10018
  const NFS4ERR_NOFILEHANDLE: u32 := 10020
  const NFS4ERR_MINOR_VERS_MISMATCH: u32 := 10021
  const NFS4ERR_RESTOREFH: u32 := 10030
  const NFS4ERR_BADXDR: u32 := 10036

  const MAX_OPS_PER_COMPOUND: nat := 64
  const MAX_XDR_OPAQUE: nat := 4 * 1024 * 1024

  const OP_CLOSE: u32 := 4
  const OP_COMMIT: u32 := 5
  const OP_CREATE: u32 := 6
  const OP_DELEGRETURN: u32 := 8
  const OP_GETFH: u32 := 10
  const OP_LINK: u32 := 11
  const OP_LOCK: u32 := 12
  const OP_LOCKU: u32 := 14
  const OP_OPEN: u32 := 18
  const OP_PUTFH: u32 := 22
  const OP_PUTPUBFH: u32 := 23
  const OP_PUTROOTFH: u32 := 24
  const OP_REMOVE: u32 := 28
  const OP_RENAME: u32 := 29
  const OP_RESTOREFH: u32 := 31
  const OP_SAVEFH: u32 := 32
  const OP_SETATTR: u32 := 34
  const OP_WRITE: u32 := 38
  const OP_ALLOCATE: u32 := 59
  const OP_COPY: u32 := 60
  const OP_DEALLOCATE: u32 := 62
  const OP_WRITE_SAME: u32 := 70
  const OP_CLONE: u32 := 71
  const OP_ILLEGAL: u32 := 10044

  predicate IsWriteOpcode(op: u32) {
    op in {OP_WRITE, OP_CREATE, OP_REMOVE, OP_RENAME, OP_SETATTR, OP_LINK, OP_OPEN, OP_LOCK, OP_LOCKU, OP_CLOSE,
           OP_DELEGRETURN, OP_COMMIT, OP_COPY, OP_CLONE, OP_ALLOCATE, OP_DEALLOCATE, OP_WRITE_SAME}
  }

  /** What the server has been asked to do: to rebuild a handle, or to perform an operation whose
      arguments start at `p`. */
  datatype Call =
    | Rebuild(fh: Handle)
    | Perform(op: u32, request: seq<byte>, p: nat, current: Option<Handle>, saved: Option<Handle>)

  /** The state of the server is all it has been asked so far. */
  type Server = seq<Call>

  /** What an operation hands back to the interpreter. */
  datatype Effect =
    Effect(server: Server, body: seq<byte>, advance: nat, current: Option<Handle>, saved: Option<Handle>, status: u32)

  /** The answer to a Perform: none of these operations returns a handle to save. */
  datatype Answer = Answer(body: seq<byte>, advance: nat, current: Option<Handle>, status: u32)

  /** What the interpreter calls: the root-squash test, and the operations that are not about file
      handles, whose answer is to the last call. */
  datatype Env = Env(squashes: (Server, Handle) -> bool, perform: Server -> Answer)

  datatype Machine = Machine(server: Server, p: nat, current: Option<Handle>, saved: Option<Handle>)

  datatype OpResult = OpResult(op: u32, status: u32, body: seq<byte>)

  // ----- the operations on file handles -----

  /** `encode_synthetic_handle(u64::MAX, b"nfs4root")` */
  function RootHandle(): Handle {
    hide Be, Zeros;
    Be64(MAX_U64) + Be64(1) + Be32(1) + [110, 102, 115, 52, 114, 111, 111, 116] + Zeros(4)
  }

  function PutFh(server: Server, request: seq<byte>, p: nat): Effect {
    if p + 4 > |request| then Effect(server, [], 0, None, None, NFS4ERR_BADXDR)
    else
      var n := Read32(request[p..p + 4]);
      if p + 4 + n > |request| then Effect(server, [], p + 4, None, None, NFS4ERR_BADXDR)
      else
        var fh: Handle := request[p + 4..p + 4 + n];
        var consumed := 4 + Pad4(n);
        if n == 0 then Effect(server, [], consumed, None, None, NFS4ERR_BADHANDLE)
        else Effect(server + [Rebuild(fh)], [], consumed, Some(fh), None, NFS4_OK)
  }

  function Dispatch(env: Env, op: u32, request: seq<byte>, m: Machine): Effect {
    if op == OP_PUTROOTFH || op == OP_PUTPUBFH then
      Effect(m.server, [], 0, Some(RootHandle()), None, NFS4_OK)
    else if op == OP_PUTFH then
      PutFh(m.server, request, m.p)
    else if op == OP_GETFH then
      if m.current.None? then Effect(m.server, [], 0, None, None, NFS4ERR_NOFILEHANDLE)
      else Effect(m.server, Opaque(m.current.value), 0, None, None, NFS4_OK)
    else if op == OP_SAVEFH then
      if m.current.None? then Effect(m.server, [], 0, None, None, NFS4ERR_NOFILEHANDLE)
      else Effect(m.server, [], 0, None, m.current, NFS4_OK)
    else if op == OP_RESTOREFH then
      if m.saved.None? then Effect(m.server, [], 0, None, None, NFS4ERR_RESTOREFH)
      else Effect(m.server, [], 0, m.saved, None, NFS4_OK)
    else
      var server := m.server + [Perform(op, request, m.p, m.current, m.saved)];
      var a := env.perform(server);
      Effect(server, a.body, a.advance, a.current, None, a.status)
  }

  // ----- the specification: a fold that stops at the first failure -----

  predicate Squashed(env: Env, uid: u32, op: u32, m: Machine) {
    uid == 0 && IsWriteOpcode(op) && m.current.Some? && env.squashes(m.server, m.current.value)
  }

  /** One operation whose opcode has been read. */
  function Attempt(env: Env, uid: u32, request: seq<byte>, op: u32, m: Machine): (OpResult, Machine) {
    if Squashed(env, uid, op, m) then (OpResult(op, NFS4ERR_PERM, []), m)
    else
      var e := Dispatch(env, op, request, m);
      (OpResult(op, e.status, e.body),
       Machine(e.server, m.p + e.advance,
               if e.current.Some? then e.current else m.current,
               if e.saved.Some? then e.saved else m.saved))
  }

  /** `truncated`: the request ended where an opcode was due. */
  datatype Run = Run(results: seq<OpResult>, truncated: bool, last: Machine)

  function RunOps(env: Env, uid: u32, request: seq<byte>, count: nat, m: Machine): Run {
    if count == 0 then Run([], false, m)
    else if m.p + 4 > |request| then Run([], true, m)
    else
      var (r, next) := Attempt(env, uid, request, Read32(request[m.p..m.p + 4]), m.(p := m.p + 4));
      if r.status != NFS4_OK then Run([r], false, next)
      else
        var rest := RunOps(env, uid, request, count - 1, next);
        rest.(results := [r] + rest.results)
  }

  /** What has been run so far, continued. */
  function Joined(run: Run, rest: Run): Run {
    rest.(results := run.results + rest.results)
  }

  function Status(run: Run): u32 {
    if run.truncated then NFS4ERR_BADXDR
    else if run.results == [] then NFS4_OK
    else run.results[|run.results| - 1].status
  }

  // ----- the request header -----

  datatype Header = Header(tag: Handle, count: nat, p: nat) | Refused(status: u32)

  function ParseHeader(request: seq<byte>, start: nat): (h: Header)
    ensures h.Header? ==> |h.tag| <= MAX_XDR_OPAQUE && h.count <= MAX_OPS_PER_COMPOUND
  {
    if start + 4 > |request| then Refused(NFS4ERR_BADXDR)
    else
      var n := Read32(request[start..start + 4]);
      var p := start + 4 + Pad4(n);
      if n > MAX_XDR_OPAQUE || start + 4 + n > |request| || p + 4 > |request| then Refused(NFS4ERR_BADXDR)
      else if Read32(request[p..p + 4]) > 2 then Refused(NFS4ERR_MINOR_VERS_MISMATCH)
      else if p + 8 > |request| then Refused(NFS4ERR_BADXDR)
      else
        var count := Read32(request[p + 4..p + 8]);
        if count > MAX_OPS_PER_COMPOUND then Refused(NFS4ERR_RESOURCE)
        else Header(request[start + 4..start + 4 + n], count, p + 8)
  }

  function EncodeHeader(tag: Handle, minor: u32, count: u32): seq<byte> {
    Opaque(tag) + Be32(minor) + Be32(count)
  }

  lemma HeaderSlices(
      s: seq<byte>, p: nat, len: seq<byte>, tag: seq<byte>, pad: seq<byte>, minor: seq<byte>, count: seq<byte>)
    requires |len| == |minor| == |count| == 4
    requires p <= |s| && len + tag + pad + minor + count <= s[p..]
    ensures var q := p + 4 + |tag| + |pad|;
            && q + 8 <= |s|
            && s[p..p + 4] == len
            && s[p + 4..p + 4 + |tag|] == tag
            && s[q..q + 4] == minor
            && s[q + 4..q + 8] == count
  {
    var all := len + tag + pad + minor + count;
    var q := 4 + |tag| + |pad|;
    assert s[p..p + |all|] == all;
    assert all[..4] == len && all[4..4 + |tag|] == tag;
    assert all[q..q + 4] == minor && all[q + 4..q + 8] == count;
  }

  /** What a client encodes is what the server reads, or refuses for exactly these reasons. */
  lemma HeaderRoundTrip(request: seq<byte>, start: nat, tag: Handle, minor: u32, count: u32)
    requires start <= |request| && EncodeHeader(tag, minor, count) <= request[start..]
    ensures ParseHeader(request, start) ==
            if |tag| > 4 * 1024 * 1024 then Refused(10036)
            else if minor > 2 then Refused(10021)
            else if count > 64 then Refused(10018)
            else Header(tag, count, start + |EncodeHeader(tag, minor, count)|)
  {
    hide Be, FromBe;
    var pad := Zeros(Pad4(|tag|) - |tag|);
    assert EncodeHeader(tag, minor, count) == Be32(|tag|) + tag + pad + Be32(minor) + Be32(count);
    HeaderSlices(request, start, Be32(|tag|), tag, pad, Be32(minor), Be32(count));
    RoundTrip32(|tag|);
    RoundTrip32(minor);
    RoundTrip32(count);
  }

  /** Nothing else is accepted; the padding of the tag may be anything. */
  lemma AcceptedHeader(request: seq<byte>, start: nat)
    requires ParseHeader(request, start).Header?
    ensures var h := ParseHeader(request, start);
            var q := start + 4 + Pad4(|h.tag|);
            && h.p == q + 8 <= |request|
            && |h.tag| <= 4 * 1024 * 1024 && h.count <= 64
            && request[start..start + 4] == Be32(|h.tag|)
            && request[start + 4..start + 4 + |h.tag|] == h.tag
            && request[q + 4..q + 8] == Be32(h.count)
            && (exists minor: u32 :: minor <= 2 && request[q..q + 4] == Be32(minor))
  {
    hide FromBe;
    var h := ParseHeader(request, start);
    var q := start + 4 + Pad4(|h.tag|);
    EncodeDecode(request[start..start + 4]);
    EncodeDecode(request[q..q + 4]);
    EncodeDecode(request[q + 4..q + 8]);
    assert request[q..q + 4] == Be32(Read32(request[q..q + 4]));
  }

  // ----- the reply -----

  /** The body of a failed operation is not sent. */
  function EncodeResult(r: OpResult): seq<byte> {
    Be32(r.op) + Be32(r.status) + (if r.status == NFS4_OK then r.body else [])
  }

  function EncodeResults(rs: seq<OpResult>): seq<byte> {
    if rs == [] then [] else EncodeResult(rs[0]) + EncodeResults(rs[1..])
  }

  lemma {:induction false} EncodeResultsAppend(a: seq<OpResult>, b: seq<OpResult>)
    ensures EncodeResults(a + b) == EncodeResults(a) + EncodeResults(b)
  {
    hide EncodeResult;
    if a == [] {
      assert a + b == b;
    } else {
      EncodeResultsAppend(a[1..], b);
      assert (a + b)[1..] == a[1..] + b;
    }
  }

  /** The pair that follows the counted results when the request ended too early. */
  function Tail(truncated: bool): seq<byte> {
    if truncated then Be32(OP_ILLEGAL) + Be32(NFS4ERR_BADXDR) else []
  }

  function EncodeReply(tag: Handle, run: Run): seq<byte>
    requires |run.results| <= MAX_OPS_PER_COMPOUND
  {
    Be32(Status(run)) + Opaque(tag) + Be32(|run.results|) + (EncodeResults(run.results) + Tail(run.truncated))
  }

  /** `make_compound_error` */
  function CompoundError(status: u32): seq<byte> {
    Be32(status) + Be32(0) + Be32(0)
  }

  function Start(server: Server, p: nat): Machine { Machine(server, p, None, None) }

  /** `handle_compound`; `server'` is what the server has been asked in the end. */
  method HandleCompound(env: Env, server: Server, request: seq<byte>, argsStart: nat, callerUid: u32)
    returns (body: seq<byte>, server': Server)
    ensures var h := ParseHeader(request, argsStart);
            h.Refused? ==> body == CompoundError(h.status) && server' == server
    ensures var h := ParseHeader(request, argsStart);
            h.Header? ==>
              var run := RunOps(env, callerUid, request, h.count, Start(server, h.p));
              |run.results| <= h.count && body == EncodeReply(h.tag, run) && server' == run.last.server
  {
    hide Be, RunOps, EncodeResults;
    server' := server;
    var p := argsStart;
    if p + 4 > |request| { return CompoundError(NFS4ERR_BADXDR), server; }
    var tagLen := Read32(request[p..p + 4]);
    if tagLen > MAX_XDR_OPAQUE { return CompoundError(NFS4ERR_BADXDR), server; }
    p := p + 4;
    if p + tagLen > |request| { return CompoundError(NFS4ERR_BADXDR), server; }
    var tag: Handle := request[p..p + tagLen];
    p := p + Pad4(tagLen);
    if p + 4 > |request| { return CompoundError(NFS4ERR_BADXDR), server; }
    var minorVersion := Read32(request[p..p + 4]);
    p := p + 4;
    if minorVersion > 2 { return CompoundError(NFS4ERR_MINOR_VERS_MISMATCH), server; }
    if p + 4 > |request| { return CompoundError(NFS4ERR_BADXDR), server; }
    var opCount := Read32(request[p..p + 4]);
    p := p + 4;
    if opCount > MAX_OPS_PER_COMPOUND { return CompoundError(NFS4ERR_RESOURCE), server; }
    assert ParseHeader(request, argsStart) == Header(tag, opCount, p);

    var opResults, compoundStatus, resOpCount;
    opResults, compoundStatus, resOpCount, server' :=
      RunLoop(env, callerUid, request, opCount, Start(server, p));
    body := Be32(compoundStatus) + Opaque(tag) + Be32(resOpCount) + opResults;
  }

  /** One round of `RunOps`. */
  lemma RunStep(env: Env, uid: u32, request: seq<byte>, count: nat, m: Machine, so: Run)
    requires count > 0
    ensures m.p + 4 > |request| ==> Joined(so, RunOps(env, uid, request, count, m)) == Run(so.results, true, m)
    ensures m.p + 4 <= |request| ==>
              var (r, next) := Attempt(env, uid, request, Read32(request[m.p..m.p + 4]), m.(p := m.p + 4));
              var all := Joined(so, RunOps(env, uid, request, count, m));
              var one := Run(so.results + [r], false, next);
              if r.status != NFS4_OK then all == one
              else all == Joined(one, RunOps(env, uid, request, count - 1, next))
  {
    hide Attempt;
    if m.p + 4 <= |request| {
      var (r, next) := Attempt(env, uid, request, Read32(request[m.p..m.p + 4]), m.(p := m.p + 4));
      var rest := RunOps(env, uid, request, count - 1, next).results;
      assert so.results + ([r] + rest) == so.results + [r] + rest;
    }
  }

  lemma RunNothing(env: Env, uid: u32, request: seq<byte>, m: Machine)
    ensures RunOps(env, uid, request, 0, m) == Run([], false, m)
    ensures EncodeResults([]) == []
  {
  }

  lemma AttemptIs(env: Env, uid: u32, request: seq<byte>, op: u32, m: Machine)
    ensures var (r, next) := Attempt(env, uid, request, op, m);
            var e := Dispatch(env, op, request, m);
            if uid == 0 && IsWriteOpcode(op) && m.current.Some? && env.squashes(m.server, m.current.value)
            then r == OpResult(op, NFS4ERR_PERM, []) && next == m
            else
              && r == OpResult(op, e.status, e.body)
              && next.server == e.server
              && next.p == m.p + e.advance
              && next.current == (if e.current.Some? then e.current else m.current)
              && next.saved == (if e.saved.Some? then e.saved else m.saved)
  {
    hide Dispatch, IsWriteOpcode;
  }

  lemma EncodeOneMore(before: seq<OpResult>, r: OpResult)
    ensures EncodeResults(before + [r]) == EncodeResults(before) + EncodeResult(r)
  {
    EncodeResultsAppend(before, [r]);
    assert [r][1..] == [];
  }

  /** The loop of `handle_compound`. */
  method RunLoop(env: Env, callerUid: u32, request: seq<byte>, opCount: nat, start: Machine)
    returns (opResults: seq<byte>, compoundStatus: u32, resOpCount: nat, server': Server)
    ensures var run := RunOps(env, callerUid, request, opCount, start);
            && opResults == EncodeResults(run.results) + Tail(run.truncated)
            && compoundStatus == Status(run)
            && resOpCount == |run.results| <= opCount
            && server' == run.last.server
  {
    hide RunOps, Attempt, Dispatch, Squashed, EncodeResults, IsWriteOpcode, Be, FromBe;
    var m := start;
    opResults, compoundStatus, resOpCount := [], NFS4_OK, 0;
    ghost var run: Run := Run([], false, m);
    RunNothing(env, callerUid, request, m);
    for opIdx := 0 to opCount
      invariant resOpCount == |run.results| == opIdx
      invariant run.last == m && !run.truncated
      invariant RunOps(env, callerUid, request, opCount, start) ==
                Joined(run, RunOps(env, callerUid, request, opCount - opIdx, m))
      invariant opResults == EncodeResults(run.results)
      invariant compoundStatus == Status(run) == NFS4_OK
    {
      RunStep(env, callerUid, request, opCount - opIdx, m, run);
      if m.p + 4 > |request| {
        compoundStatus := NFS4ERR_BADXDR;
        opResults := opResults + Be32(OP_ILLEGAL) + Be32(compoundStatus);
        run := run.(truncated := true);
        break;
      }
      var opcode := Read32(request[m.p..m.p + 4]);
      m := m.(p := m.p + 4);
      ghost var (r, next) := Attempt(env, callerUid, request, opcode, m);
      AttemptIs(env, callerUid, request, opcode, m);
      EncodeOneMore(run.results, r);
      run := Run(run.results + [r], false, next);
      var squashed := false;
      if callerUid == 0 && IsWriteOpcode(opcode) {
        if m.current.Some? {
          squashed := env.squashes(m.server, m.current.value);
        }
      }
      if squashed {
        opResults := opResults + Be32(opcode) + Be32(NFS4ERR_PERM);
        resOpCount := resOpCount + 1;
        compoundStatus := NFS4ERR_PERM;
        break;
      }
      var e := Dispatch(env, opcode, request, m);
      opResults := opResults + Be32(opcode) + Be32(e.status);
      if e.status == NFS4_OK {
        opResults := opResults + e.body;
      }
      resOpCount := resOpCount + 1;
      m := m.(server := e.server, p := m.p + e.advance);
      if e.current.Some? { m := m.(current := e.current); }
      if e.saved.Some? { m := m.(saved := e.saved); }
      if e.status != NFS4_OK {
        compoundStatus := e.status;
        break;
      }
    }
    RunNothing(env, callerUid, request, m);
    assert run.results + [] == run.results;
    assert run == RunOps(env, callerUid, request, opCount, start);
    server' := m.server;
  }

  // ----- what a run looks like -----

  ghost predicate AllOk(rs: seq<OpResult>) {
    forall i :: 0 <= i < |rs| ==> rs[i].status == NFS4_OK
  }

  predicate Stopped(run: Run) {
    Status(run) != NFS4_OK
  }

  /** Every result but the last is NFS4_OK, and so is the last one of a truncated run; a run that
      did not stop attempted everything, and the reply says NFS4_OK exactly then. */
  lemma {:induction false} RunShape(env: Env, uid: u32, request: seq<byte>, count: nat, m: Machine)
    ensures var run := RunOps(env, uid, request, count, m);
            && |run.results| <= count
            && (run.results != [] ==> AllOk(run.results[..|run.results| - 1]))
            && (run.truncated ==> |run.results| < count && AllOk(run.results))
            && (Status(run) == NFS4_OK <==> |run.results| == count && AllOk(run.results))
  {
    hide Attempt;
    if count > 0 && m.p + 4 <= |request| {
      var (r, next) := Attempt(env, uid, request, Read32(request[m.p..m.p + 4]), m.(p := m.p + 4));
      if r.status == NFS4_OK {
        RunShape(env, uid, request, count - 1, next);
        var run, rest := RunOps(env, uid, request, count, m), RunOps(env, uid, request, count - 1, next);
        assert run.results == [r] + rest.results;
        if rest.results != [] {
          assert run.results[..|run.results| - 1] == [r] + rest.results[..|rest.results| - 1];
          assert run.results[|run.results| - 1] == rest.results[|rest.results| - 1];
        }
      }
    }
  }

  /** A run can be cut anywhere: what follows starts where the first part ended, and nothing
      follows a failure. */
  lemma {:induction false} RunSplits(env: Env, uid: u32, request: seq<byte>, a: nat, b: nat, m: Machine)
    ensures var first := RunOps(env, uid, request, a, m);
            RunOps(env, uid, request, a + b, m) ==
            if Stopped(first) then first else Joined(first, RunOps(env, uid, request, b, first.last))
  {
    hide Attempt;
    if a == 0 {
      var rest := RunOps(env, uid, request, b, m).results;
      assert [] + rest == rest;
    } else if m.p + 4 <= |request| {
      var (r, next) := Attempt(env, uid, request, Read32(request[m.p..m.p + 4]), m.(p := m.p + 4));
      if r.status == NFS4_OK {
        RunSplits(env, uid, request, a - 1, b, next);
        var first := RunOps(env, uid, request, a - 1, next);
        assert RunOps(env, uid, request, a, m).results == [r] + first.results;
        var rest := RunOps(env, uid, request, b, first.last).results;
        assert [r] + (first.results + rest) == [r] + first.results + rest;
      }
    }
  }

  /** The machine before operation `i`. */
  function Before(env: Env, uid: u32, request: seq<byte>, m: Machine, i: nat): Machine {
    RunOps(env, uid, request, i, m).last
  }

  /** A run of fewer operations is the beginning of the run. */
  lemma RunPrefix(env: Env, uid: u32, request: seq<byte>, count: nat, m: Machine, i: nat)
    requires i < |RunOps(env, uid, request, count, m).results|
    ensures var run := RunOps(env, uid, request, count, m);
            var first := RunOps(env, uid, request, i, m);
            && i < count
            && first == Run(run.results[..i], false, Before(env, uid, request, m, i))
            && AllOk(first.results)
            && run == Joined(first, RunOps(env, uid, request, count - i, first.last))
            && RunOps(env, uid, request, i + 1, m) == Joined(first, RunOps(env, uid, request, 1, first.last))
  {
    hide RunOps;
    RunShape(env, uid, request, count, m);
    RunShape(env, uid, request, i, m);
    RunSplits(env, uid, request, i, count - i, m);
    RunSplits(env, uid, request, i, 1, m);
  }

  /** Operation `i` of a run is attempted on the machine before it. */
  lemma OperationAt(env: Env, uid: u32, request: seq<byte>, count: nat, m: Machine, i: nat)
    requires i < |RunOps(env, uid, request, count, m).results|
    ensures var run := RunOps(env, uid, request, count, m);
            var b := Before(env, uid, request, m, i);
            && (forall k :: 0 <= k < i ==> run.results[k].status == NFS4_OK)
            && b.p + 4 <= |request|
            && (run.results[i], Before(env, uid, request, m, i + 1)) ==
               Attempt(env, uid, request, Read32(request[b.p..b.p + 4]), b.(p := b.p + 4))
  {
    hide RunOps, Attempt;
    RunPrefix(env, uid, request, count, m, i);
    var run, b := RunOps(env, uid, request, count, m), Before(env, uid, request, m, i);
    var none := Run([], false, b);
    assert forall k :: 0 <= k < i ==> run.results[..i][k] == run.results[k];
    RunStep(env, uid, request, count - i, b, none);
    RunStep(env, uid, request, 1, b, none);
    if b.p + 4 <= |request| {
      var (r, next) := Attempt(env, uid, request, Read32(request[b.p..b.p + 4]), b.(p := b.p + 4));
      RunNothing(env, uid, request, next);
      assert none.results + RunOps(env, uid, request, count - i, b).results ==
             RunOps(env, uid, request, count - i, b).results;
      assert none.results + RunOps(env, uid, request, 1, b).results == RunOps(env, uid, request, 1, b).results;
    }
  }

  // ----- the saved file handle -----

  ghost predicate LastSave(rs: seq<OpResult>, i: nat, j: nat) {
    j < i <= |rs| && rs[j].op == OP_SAVEFH && forall k :: j < k < i ==> rs[k].op != OP_SAVEFH
  }

  lemma AttemptSaves(env: Env, uid: u32, request: seq<byte>, op: u32, m: Machine)
    ensures var (r, next) := Attempt(env, uid, request, op, m);
            && r.op == op
            && (op != OP_SAVEFH ==> next.saved == m.saved)
            && (op == OP_SAVEFH && r.status == NFS4_OK ==>
                  m.current.Some? && next.saved == m.current && next.current == m.current)
            && (op == OP_RESTOREFH ==>
                  && (r.status == NFS4_OK <==> m.saved.Some?)
                  && (r.status == NFS4_OK ==> next.current == m.saved))
  {
  }

  /** The saved handle is the one that was current at the last SAVEFH, however the current handle
      has moved since. */
  lemma {:induction false} SavedIsLastSave(
      env: Env, uid: u32, request: seq<byte>, count: nat, m: Machine, i: nat)
    requires i < |RunOps(env, uid, request, count, m).results|
    ensures var rs := RunOps(env, uid, request, count, m).results;
            && ((forall k: nat :: k < i ==> rs[k].op != OP_SAVEFH) ==>
                  Before(env, uid, request, m, i).saved == m.saved)
            && (forall j: nat :: LastSave(rs, i, j) ==>
                  && Before(env, uid, request, m, j).current.Some?
                  && Before(env, uid, request, m, i).saved == Before(env, uid, request, m, j).current)
  {
    hide Attempt, RunOps;
    var rs := RunOps(env, uid, request, count, m).results;
    if i == 0 {
      RunNothing(env, uid, request, m);
    } else {
      SavedIsLastSave(env, uid, request, count, m, i - 1);
      OperationAt(env, uid, request, count, m, i - 1);
      OperationAt(env, uid, request, count, m, i);
      var b := Before(env, uid, request, m, i - 1);
      AttemptSaves(env, uid, request, Read32(request[b.p..b.p + 4]), b.(p := b.p + 4));
      forall j: nat | LastSave(rs, i, j)
        ensures Before(env, uid, request, m, j).current.Some?
        ensures Before(env, uid, request, m, i).saved == Before(env, uid, request, m, j).current
      {
        if j < i - 1 {
          assert rs[i - 1].op != OP_SAVEFH;
          assert LastSave(rs, i - 1, j);
        }
      }
    }
  }

  /** RESTOREFH succeeds exactly when a SAVEFH came before it in the request, and then it makes
      current the very handle that was current at the last of them. */
  lemma RestoreReturnsToSave(
      env: Env, uid: u32, request: seq<byte>, count: nat, server: Server, p: nat, i: nat)
    requires i < |RunOps(env, uid, request, count, Start(server, p)).results|
    requires RunOps(env, uid, request, count, Start(server, p)).results[i].op == OP_RESTOREFH
    ensures var m := Start(server, p);
            var rs := RunOps(env, uid, request, count, m).results;
            && (rs[i].status == NFS4_OK <==> exists j: nat :: j < i && rs[j].op == OP_SAVEFH)
            && (forall j: nat :: LastSave(rs, i, j) ==>
                  Before(env, uid, request, m, i + 1).current == Before(env, uid, request, m, j).current)
  {
    var m := Start(server, p);
    var rs := RunOps(env, uid, request, count, m).results;
    SavedIsLastSave(env, uid, request, count, m, i);
    OperationAt(env, uid, request, count, m, i);
    var b := Before(env, uid, request, m, i);
    AttemptSaves(env, uid, request, Read32(request[b.p..b.p + 4]), b.(p := b.p + 4));
    hide Attempt, RunOps, Before;
    if exists j: nat :: j < i && rs[j].op == OP_SAVEFH {
      var j := SomeLastSave(rs, i);
    }
  }

  lemma {:induction false} SomeLastSave(rs: seq<OpResult>, i: nat) returns (j: nat)
    requires i <= |rs| && exists j: nat :: j < i && rs[j].op == OP_SAVEFH
    ensures LastSave(rs, i, j)
  {
    j := i - 1;
    while rs[j].op != OP_SAVEFH
      invariant j < i && exists k: nat :: k <= j && rs[k].op == OP_SAVEFH
      invariant forall k :: j < k < i ==> rs[k].op != OP_SAVEFH
      decreases j
    {
      j := j - 1;
    }
  }

  // ----- the reply, read by a client -----

  /** How many bytes the result of an operation takes at the head of the bytes that follow its
      NFS4_OK. */
  type Sizer = (u32, seq<byte>) -> nat

  /** The client knows the results of these operations. */
  ghost predicate Understands(size: Sizer, rs: seq<OpResult>) {
    forall i, rest ::
      0 <= i < |rs| && rs[i].status == NFS4_OK ==> size(rs[i].op, rs[i].body + rest) == |rs[i].body|
  }

  function Sent(r: OpResult): OpResult {
    if r.status == NFS4_OK then r else r.(body := [])
  }

  function SentAll(rs: seq<OpResult>): seq<OpResult> {
    seq(|rs|, i requires 0 <= i < |rs| => Sent(rs[i]))
  }

  function DecodeResults(size: Sizer, n: nat, b: seq<byte>): Option<(seq<OpResult>, seq<byte>)> {
    if n == 0 then Some(([], b))
    else if |b| < 8 then None
    else
      var op, status := Read32(b[..4]), Read32(b[4..8]);
      var len := if status == NFS4_OK then size(op, b[8..]) else 0;
      if |b| < 8 + len then None
      else
        var rest := DecodeResults(size, n - 1, b[8 + len..]);
        if rest.None? then None
        else Some(([OpResult(op, status, b[8..8 + len])] + rest.value.0, rest.value.1))
  }

  datatype Reply = Reply(status: u32, tag: seq<byte>, results: seq<OpResult>, rest: seq<byte>)

  function DecodeReply(size: Sizer, b: seq<byte>): Option<Reply> {
    if |b| < 8 then None
    else
      var n := Read32(b[4..8]);
      if |b| < 12 + Pad4(n) then None
      else
        var rs := DecodeResults(size, Read32(b[8 + Pad4(n)..12 + Pad4(n)]), b[12 + Pad4(n)..]);
        if rs.None? then None
        else Some(Reply(Read32(b[..4]), b[8..8 + n], rs.value.0, rs.value.1))
  }

  lemma ResultDecodes(size: Sizer, r: OpResult, n: nat, more: seq<byte>, later: seq<OpResult>, rest: seq<byte>)
    requires r.status == NFS4_OK ==> size(r.op, r.body + more) == |r.body|
    requires DecodeResults(size, n, more) == Some((later, rest))
    ensures DecodeResults(size, n + 1, EncodeResult(r) + more) == Some(([Sent(r)] + later, rest))
  {
    hide Be;
    var b, sent := EncodeResult(r) + more, Sent(r).body;
    RoundTrip32(r.op);
    RoundTrip32(r.status);
    assert b[..4] == Be32(r.op) && b[4..8] == Be32(r.status);
    assert b[8..] == sent + more;
    assert b[8..8 + |sent|] == sent && b[8 + |sent|..] == more;
  }

  lemma UnderstandsParts(size: Sizer, rs: seq<OpResult>, more: seq<byte>)
    requires Understands(size, rs) && rs != []
    ensures rs[0].status == NFS4_OK ==> size(rs[0].op, rs[0].body + more) == |rs[0].body|
    ensures Understands(size, rs[1..])
  {
    var later := rs[1..];
    forall i: nat, t | i < |later| && later[i].status == NFS4_OK
      ensures size(later[i].op, later[i].body + t) == |later[i].body|
    {
      assert later[i] == rs[i + 1];
    }
  }

  lemma {:induction false} ResultsDecode(size: Sizer, rs: seq<OpResult>, rest: seq<byte>)
    requires Understands(size, rs)
    ensures DecodeResults(size, |rs|, EncodeResults(rs) + rest) == Some((SentAll(rs), rest))
  {
    hide EncodeResult, Sent;
    if rs == [] {
      assert EncodeResults(rs) + rest == rest;
    } else {
      var later, more := rs[1..], EncodeResults(rs[1..]) + rest;
      UnderstandsParts(size, rs, more);
      ResultsDecode(size, later, rest);
      ResultDecodes(size, rs[0], |later|, more, SentAll(later), rest);
      hide DecodeResults, Understands;
      assert EncodeResults(rs) + rest == EncodeResult(rs[0]) + more;
      assert SentAll(rs) == [Sent(rs[0])] + SentAll(later);
    }
  }

  /** The client recovers the status, the tag and exactly the results of the operations that were
      attempted, without the body of a failed one. What it finds after them is the uncounted
      pair of a truncated request, and nothing otherwise. */
  lemma ReplyDecodes(size: Sizer, tag: Handle, run: Run)
    requires |run.results| <= MAX_OPS_PER_COMPOUND && Understands(size, run.results)
    ensures DecodeReply(size, EncodeReply(tag, run)) ==
            Some(Reply(Status(run), tag, SentAll(run.results),
                       if run.truncated then Be32(10044) + Be32(10036) else []))
  {
    hide EncodeResults, SentAll, Be, DecodeResults;
    var b, n, q := EncodeReply(tag, run), |run.results|, Pad4(|tag|);
    var ops := EncodeResults(run.results) + Tail(run.truncated);
    RoundTrip32(Status(run));
    RoundTrip32(|tag|);
    RoundTrip32(n);
    ResultsDecode(size, run.results, Tail(run.truncated));
    assert b[..4] == Be32(Status(run));
    assert b[4..8] == Be32(|tag|);
    assert b[8..8 + |tag|] == tag;
    assert b[8 + q..12 + q] == Be32(n);
    assert b[12 + q..] == ops;
  }

  // ----- handles through the interpreter -----

  /** PUTFH followed by GETFH gives the handle back. */
  lemma PutThenGet(env: Env, uid: u32, request: seq<byte>, m: Machine, fh: Handle)
    requires fh != [] && m.p <= |request|
    requires Be32(OP_PUTFH) + (Opaque(fh) + Be32(OP_GETFH)) <= request[m.p..]
    ensures var run := RunOps(env, uid, request, 2, m);
            && run.results == [OpResult(OP_PUTFH, NFS4_OK, []), OpResult(OP_GETFH, NFS4_OK, Opaque(fh))]
            && run.last == Machine(m.server + [Rebuild(fh)], m.p + 8 + |Opaque(fh)|, Some(fh), m.saved)
  {
    hide RunOps, Be, Opaque, Dispatch;
    Slices(request, m.p, Be32(OP_PUTFH), Opaque(fh), Be32(OP_GETFH));
    var q := 4 + |Opaque(fh)|;
    RoundTrip32(OP_PUTFH);
    RoundTrip32(OP_GETFH);
    PutFhParses(env, request, m.(p := m.p + 4), fh);
    var second := Machine(m.server + [Rebuild(fh)], m.p + q, Some(fh), m.saved);
    GetFhAnswers(env, request, second.(p := m.p + q + 4));
    var none := Run([], false, m);
    var one := Run(none.results + [OpResult(OP_PUTFH, NFS4_OK, [])], false, second);
    RunStep(env, uid, request, 2, m, none);
    RunStep(env, uid, request, 1, second, one);
    RunNothing(env, uid, request, second.(p := m.p + q + 4));
    var run := RunOps(env, uid, request, 2, m);
    assert run.results == none.results + run.results;
    var both := one.results + [OpResult(OP_GETFH, NFS4_OK, Opaque(fh))];
    assert both + [] == both;
  }

  lemma Slices(s: seq<byte>, p: nat, a: seq<byte>, b: seq<byte>, c: seq<byte>)
    requires p <= |s| && a + (b + c) <= s[p..]
    ensures p + |a| + |b| + |c| <= |s|
    ensures s[p..p + |a|] == a
    ensures b <= s[p + |a|..]
    ensures s[p + |a| + |b|..p + |a| + |b| + |c|] == c
  {
    var all := a + (b + c);
    assert s[p..p + |all|] == all;
    assert s[p + |a|..p + |a| + |b|] == all[|a|..|a| + |b|] == b;
    assert s[p + |a| + |b|..p + |all|] == all[|a| + |b|..] == c;
  }

  lemma PutFhParses(env: Env, request: seq<byte>, m: Machine, fh: Handle)
    requires fh != [] && m.p <= |request| && Opaque(fh) <= request[m.p..]
    ensures Dispatch(env, OP_PUTFH, request, m) ==
            Effect(m.server + [Rebuild(fh)], [], |Opaque(fh)|, Some(fh), None, NFS4_OK)
  {
    hide Be;
    var sent := Opaque(fh);
    RoundTrip32(|fh|);
    assert request[m.p..m.p + |sent|] == sent;
    assert request[m.p..m.p + 4] == sent[..4] == Be32(|fh|);
    assert request[m.p + 4..m.p + 4 + |fh|] == sent[4..4 + |fh|] == fh;
  }

  lemma GetFhAnswers(env: Env, request: seq<byte>, m: Machine)
    requires m.current.Some?
    ensures Dispatch(env, OP_GETFH, request, m) ==
            Effect(m.server, Opaque(m.current.value), 0, None, None, NFS4_OK)
  {
  }

  /** A refused request is answered with its status, no tag and no results. */
  lemma RefusalDecodes(size: Sizer, status: u32)
    ensures DecodeReply(size, CompoundError(status)) == Some(Reply(status, [], [], []))
  {
    hide Be, FromBe;
    RoundTrip32(status);
    RoundTrip32(0);
    var b := CompoundError(status);
    assert b[..4] == Be32(status) && b[4..8] == Be32(0) && b[8..12] == Be32(0) && b[12..] == [];
    assert b[8..8] == [];
  }

  // ----- what one operation does -----

  /** An operation that writes, from root, on an export that squashes root: refused with status 1, and
      neither the server nor the handles notice. */
  ghost predicate RootRefused(env: Env, uid: u32, op: u32, m: Machine) {
    && uid == 0
    && op in {4, 5, 6, 8, 11, 12, 14, 18, 28, 29, 34, 38, 59, 60, 62, 70, 71}
    && m.current.Some? && env.squashes(m.server, m.current.value)
  }

  lemma WritingRefused(env: Env, uid: u32, request: seq<byte>, op: u32, m: Machine)
    ensures RootRefused(env, uid, op, m) ==>
              Attempt(env, uid, request, op, m) == (OpResult(op, 1, []), m)
    ensures RootRefused(env, uid, op, m) <==> Squashed(env, uid, op, m)
  {
    hide Dispatch;
  }

  /** GETFH, SAVEFH and RESTOREFH. */
  lemma HandleOperations(env: Env, uid: u32, request: seq<byte>, m: Machine)
    ensures Attempt(env, uid, request, 10, m) ==
            (if m.current.None? then OpResult(10, 10020, []) else OpResult(10, 0, Opaque(m.current.value)), m)
    ensures Attempt(env, uid, request, 32, m) ==
            (OpResult(32, if m.current.None? then 10020 else 0, []),
             if m.current.None? then m else m.(saved := m.current))
    ensures Attempt(env, uid, request, 31, m) ==
            (OpResult(31, if m.saved.None? then 10030 else 0, []),
             if m.saved.None? then m else m.(current := m.saved))
  {
    hide Be;
  }

  /** PUTROOTFH and PUTPUBFH make the root's handle current: 32 bytes, with 2^64-1 for a number. */
  lemma RootOperations(env: Env, uid: u32, request: seq<byte>, op: u32, m: Machine)
    requires op == 24 || op == 23
    ensures var (r, next) := Attempt(env, uid, request, op, m);
            && r == OpResult(op, 0, [])
            && next.current.Some? && next == m.(current := next.current)
            && var h := next.current.value;
               && |h| == 32 && h[..8] == [255, 255, 255, 255, 255, 255, 255, 255]
               && h[8..16] == Be64(1) && h[16..20] == Be32(1)
               && h[20..32] == [110, 102, 115, 52, 114, 111, 111, 116, 0, 0, 0, 0]
  {
    AllOnes();
    hide Be;
  }

  lemma AllOnes()
    ensures Be64(0xFFFF_FFFF_FFFF_FFFF) == [255, 255, 255, 255, 255, 255, 255, 255]
  {
    Be64Words(0xFFFF_FFFF_FFFF_FFFF);
    Be32Bytes(0xFFFF_FFFF);
    hide Be;
  }

  /** PUTFH takes a length and that many bytes: a handle that is not empty becomes current, and the
      server is asked to rebuild it. */
  lemma PutOperation(env: Env, uid: u32, request: seq<byte>, m: Machine)
    ensures var (r, next) := Attempt(env, uid, request, 22, m);
            if m.p + 4 > |request| then r.status == 10036
            else
              var n := Read32(request[m.p..m.p + 4]);
              if m.p + 4 + n > |request| then r.status == 10036
              else if n == 0 then r.status == 10001
              else
                var fh := request[m.p + 4..m.p + 4 + n];
                r == OpResult(22, 0, []) &&
                next == Machine(m.server + [Rebuild(fh)], m.p + 4 + Pad4(n), Some(fh), m.saved)
    ensures var (r, next) := Attempt(env, uid, request, 22, m);
            r.status != 0 ==> next.server == m.server && next.current == m.current && next.saved == m.saved
  {
    hide FromBe;
  }

  /** Every other operation is asked of the server with what is current and saved, and answered by it
      alone; it moves the cursor, may set the current handle, and leaves the saved one. */
  lemma OtherOperations(env: Env, uid: u32, request: seq<byte>, op: u32, m: Machine)
    requires op !in {10, 22, 23, 24, 31, 32} && !RootRefused(env, uid, op, m)
    ensures var asked := m.server + [Perform(op, request, m.p, m.current, m.saved)];
            var a := env.perform(asked);
            Attempt(env, uid, request, op, m) ==
            (OpResult(op, a.status, a.body),
             Machine(asked, m.p + a.advance, if a.current.Some? then a.current else m.current, m.saved))
  {
    WritingRefused(env, uid, request, op, m);
    hide Squashed, RootRefused;
  }

  /** A run is truncated only where no opcode is left to read, and its status is then 10036; that of
      any other run is the status of its last result. */
  lemma {:induction false} TruncatedAtEnd(env: Env, uid: u32, request: seq<byte>, count: nat, m: Machine)
    ensures var run := RunOps(env, uid, request, count, m);
            && (run.truncated ==> run.last.p + 4 > |request| && Status(run) == 10036)
            && (!run.truncated ==>
                  Status(run) == if run.results == [] then 0 else run.results[|run.results| - 1].status)
  {
    hide Attempt;
    if count > 0 && m.p + 4 <= |request| {
      var (r, next) := Attempt(env, uid, request, Read32(request[m.p..m.p + 4]), m.(p := m.p + 4));
      TruncatedAtEnd(env, uid, request, count - 1, next);
    }
  }
}
