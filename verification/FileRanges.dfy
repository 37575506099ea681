/**
  Reading, writing and copying byte ranges: NFSv4 READ, READ_PLUS, WRITE, COPY and CLONE and
  NFSv3 READ and WRITE, each coded on its own. A file is the sequence of its bytes.
*/
module FileRanges {
  import opened Wire

  type Path = seq<byte>
  type File = seq<byte>

  const NFS4_OK: u32 := 0
  const NFS4ERR_IO: u32 := 5
  const NFS4ERR_INVAL: u32 := 22
  const NFS4ERR_STALE: u32 := 70
  const NFS4ERR_BADHANDLE: u32 := 10001

  /** Seeking goes through a signed 64-bit offset. */
  const SEEK_LIMIT: nat := 0x8000_0000_0000_0000

  datatype ReadReply = ReadReply(data: seq<byte>, eof: bool)

  function Min(a: nat, b: nat): nat { if a < b then a else b }

  // ----- what a read returns -----

  /** The bytes of `f` at offset..offset+count, and whether the file ends there. */
  ghost predicate IsRead(f: File, offset: nat, count: nat, r: ReadReply) {
    && |r.data| == Min(count, if offset <= |f| then |f| - offset else 0)
    && (forall i :: 0 <= i < |r.data| ==> r.data[i] == f[offset + i])
    && (r.eof <==> offset + count >= |f|)
  }

  /** READ: slice the whole file. */
  method SliceWholeFile(f: File, offset: u64, count: u32) returns (r: ReadReply)
    ensures IsRead(f, offset, count, r)
  {
    var start := if offset < |f| then offset else |f|;
    var end := if start + count < |f| then start + count else |f|;
    r := ReadReply(f[start..end], end >= |f|);
  }

  /** READ_PLUS: seek and read what is needed; `got` is how many bytes the system call delivers
      of the `Min(count, |f| - offset)` asked for. */
  method SeekAndRead(f: File, offset: u64, count: u32, got: nat) returns (r: ReadReply)
    requires offset < |f| ==> got <= Min(count, |f| - offset)
    ensures offset < |f| && got == Min(count, |f| - offset) ==> IsRead(f, offset, count, r)
    ensures offset >= |f| ==> IsRead(f, offset, count, r)
    ensures offset <= |f| ==> Delivers(f, offset, r) && |r.data| == if offset < |f| then got else 0
  {
    if offset >= |f| {
      return ReadReply([], true);
    }
    var data := f[offset..offset + got];
    r := ReadReply(data, offset + |data| >= |f|);
  }

  /** One reply for given arguments. */
  lemma ReadUnique(f: File, offset: nat, count: nat, r: ReadReply, s: ReadReply)
    requires IsRead(f, offset, count, r) && IsRead(f, offset, count, s)
    ensures r == s
  {
    assert r.data == s.data;
  }

  /** The bytes of a reply continue the file from `offset`; eof says that nothing is left. */
  ghost predicate Delivers(f: File, offset: nat, r: ReadReply) {
    && offset + |r.data| <= |f|
    && r.data == f[offset..offset + |r.data|]
    && (r.eof <==> offset + |r.data| == |f|)
  }

  lemma ReadDelivers(f: File, offset: nat, count: nat, r: ReadReply)
    requires IsRead(f, offset, count, r) && offset <= |f|
    ensures Delivers(f, offset, r)
    ensures count > 0 && !r.eof ==> |r.data| == count
  {
    assert r.data == f[offset..offset + |r.data|];
  }

  /** READ_PLUS answers like READ exactly when the system call delivers everything asked for. */
  lemma ReadPlusAgrees(f: File, offset: nat, count: nat, got: nat, plus: ReadReply, plain: ReadReply)
    requires offset < |f| && got <= Min(count, |f| - offset)
    requires Delivers(f, offset, plus) && |plus.data| == got
    requires IsRead(f, offset, count, plain)
    ensures plus == plain <==> got == Min(count, |f| - offset)
    ensures plus.data <= plain.data
  {
    ReadDelivers(f, offset, count, plain);
    assert plain.data[..got] == f[offset..offset + got];
  }

  function Gathered(replies: seq<ReadReply>): seq<byte> {
    if replies == [] then [] else Gathered(replies[..|replies| - 1]) + replies[|replies| - 1].data
  }

  /** Each read starts where the bytes so far end. */
  ghost predicate Consecutive(f: File, replies: seq<ReadReply>) {
    forall i :: 0 <= i < |replies| ==> Delivers(f, |Gathered(replies[..i])|, replies[i])
  }

  /** Consecutive reads, of any of the three kinds and any sizes, gather a prefix of the file;
      it is the whole file exactly when the last of them says eof. */
  lemma {:induction false} ReadsReassemble(f: File, replies: seq<ReadReply>)
    requires Consecutive(f, replies) && replies != []
    ensures Gathered(replies) <= f
    ensures replies[|replies| - 1].eof <==> Gathered(replies) == f
    decreases |replies|
  {
    var n := |replies| - 1;
    var before := Gathered(replies[..n]);
    if n == 0 {
      assert replies[..n] == [];
    } else {
      forall i | 0 <= i < n ensures Delivers(f, |Gathered(replies[..n][..i])|, replies[..n][i]) {
        assert replies[..n][..i] == replies[..i];
      }
      ReadsReassemble(f, replies[..n]);
    }
    assert Gathered(replies) == f[..|before|] + f[|before|..|before| + |replies[n].data|];
    assert Gathered(replies) == f[..|Gathered(replies)|];
  }

  /** Reads of at least one byte make progress until eof, so `|f|` of them are enough. */
  lemma {:induction false} ReadsFinish(f: File, replies: seq<ReadReply>)
    requires Consecutive(f, replies)
    requires forall i :: 0 <= i < |replies| ==> replies[i].eof || |replies[i].data| > 0
    ensures |Gathered(replies)| >= Min(|replies|, |f|)
    decreases |replies|
  {
    if replies != [] {
      var n := |replies| - 1;
      forall i | 0 <= i < n ensures Delivers(f, |Gathered(replies[..n][..i])|, replies[..n][i]) {
        assert replies[..n][..i] == replies[..i];
      }
      ReadsFinish(f, replies[..n]);
    }
  }

  // ----- writing at an offset -----

  /** Seek and write_all: a gap is filled with zeros, and nothing happens for no data. */
  function WriteAt(f: File, offset: nat, data: seq<byte>): File {
    if data == [] then f
    else
      var g := if |f| < offset then f + Zeros(offset - |f|) else f;
      g[..offset] + data + (if offset + |data| < |g| then g[offset + |data|..] else [])
  }

  function Max(a: nat, b: nat): nat { if a < b then b else a }

  predicate InRange(i: int, offset: nat, data: seq<byte>) { offset <= i < offset + |data| }

  /** The written bytes are where they were written, every other byte of the file is unchanged,
      and the gap, if any, reads as zeros. */
  lemma WriteAtBytes(f: File, offset: nat, data: seq<byte>)
    ensures var r := WriteAt(f, offset, data);
            && |r| == (if data == [] then |f| else Max(|f|, offset + |data|))
            && (forall i :: 0 <= i < |r| ==>
                  r[i] == if InRange(i, offset, data) then data[i - offset] else if i < |f| then f[i] else 0)
  {
  }

  /** A READ of the range just written returns what was written. */
  lemma ReadAfterWrite(f: File, offset: nat, data: seq<byte>, r: ReadReply)
    requires data != []
    requires IsRead(WriteAt(f, offset, data), offset, |data|, r)
    ensures r.data == data
    ensures r.eof <==> offset + |data| >= |f|
  {
    WriteAtBytes(f, offset, data);
  }

  /** Two WRITEs commute exactly when they agree wherever they overlap; in particular when they
      are disjoint. */
  lemma WritesCommute(f: File, o1: nat, d1: seq<byte>, o2: nat, d2: seq<byte>)
    ensures WriteAt(WriteAt(f, o1, d1), o2, d2) == WriteAt(WriteAt(f, o2, d2), o1, d1) <==>
            forall i :: InRange(i, o1, d1) && InRange(i, o2, d2) ==> d1[i - o1] == d2[i - o2]
  {
    hide WriteAt;
    var a, b := WriteAt(WriteAt(f, o1, d1), o2, d2), WriteAt(WriteAt(f, o2, d2), o1, d1);
    WriteAtBytes(f, o1, d1);
    WriteAtBytes(f, o2, d2);
    WriteAtBytes(WriteAt(f, o1, d1), o2, d2);
    WriteAtBytes(WriteAt(f, o2, d2), o1, d1);
    assert |a| == |b|;
    if a == b {
      forall i | InRange(i, o1, d1) && InRange(i, o2, d2) ensures d1[i - o1] == d2[i - o2] {
        assert a[i] == d2[i - o2] && b[i] == d1[i - o1];
      }
    }
    if forall i :: InRange(i, o1, d1) && InRange(i, o2, d2) ==> d1[i - o1] == d2[i - o2] {
      forall i | 0 <= i < |a| ensures a[i] == b[i] { }
    }
  }

  /** The store after `data` was written at `offset`, whether the file was there or not: the bytes
      written are in place, the others as they were, a gap is zero, and no other file is touched. */
  ghost predicate WriteDone(before: Files, after: Files, path: Path, offset: nat, data: seq<byte>) {
    && after.Keys == before.Keys + {path}
    && (forall p :: p in before && p != path ==> after[p] == before[p])
    && var f, r := if path in before then before[path] else [], after[path];
       && |r| == (if data == [] then |f| else Max(|f|, offset + |data|))
       && forall i :: 0 <= i < |r| ==>
            r[i] == if InRange(i, offset, data) then data[i - offset] else if i < |f| then f[i] else 0
  }

  /** A READ of the range then returns what was written, and says eof exactly if nothing of the old
      file is behind it. */
  lemma ReadAfterWriteDone(
      before: Files, after: Files, path: Path, offset: nat, data: seq<byte>, r: ReadReply)
    requires WriteDone(before, after, path, offset, data) && data != []
    requires IsRead(after[path], offset, |data|, r)
    ensures r.data == data
    ensures r.eof <==> path !in before || offset + |data| >= |before[path]|
  {
  }

  lemma WriteNothing(f: File)
    ensures WriteAt(f, 0, []) == f
  {
  }

  lemma WriteAtDone(before: Files, path: Path, offset: nat, data: seq<byte>)
    ensures var f := if path in before then before[path] else [];
            WriteDone(before, before[path := WriteAt(f, offset, data)], path, offset, data)
  {
    WriteAtBytes(if path in before then before[path] else [], offset, data);
    hide WriteAt;
  }

  // ----- the store -----

  type Files = map<Path, File>

  /** WRITE opens or creates the file before it seeks; `opens` is whether the system lets it. */
  function Written(files: Files, opens: bool, path: Path, offset: u64, data: seq<byte>): (Files, u32) {
    var f := if path in files then files[path] else [];
    if !opens then (files, NFS4ERR_IO)
    else if offset >= SEEK_LIMIT then (files[path := f], NFS4ERR_IO)
    else (files[path := WriteAt(f, offset, data)], NFS4_OK)
  }

  /** The bytes a copy moves: what the source holds of the range, as it was before. */
  function CopyBytes(f: File, offset: nat, count: nat): seq<byte>
    requires offset <= |f|
  {
    f[offset..offset + Min(count, |f| - offset)]
  }

  /** COPY and CLONE: the whole source is read first; the sink must exist. */
  function Copied(
      files: Files, opens: bool, source: Option<Path>, from: u64, count: u32, sink: Option<Path>, to: u64)
    : (Files, u32)
  {
    if source.None? || sink.None? then (files, NFS4ERR_BADHANDLE)
    else if source.value !in files then (files, NFS4ERR_IO)
    else if from > |files[source.value]| then (files, NFS4ERR_INVAL)
    else if !opens || sink.value !in files || to >= SEEK_LIMIT then (files, NFS4ERR_IO)
    else
      var moved := CopyBytes(files[source.value], from, count);
      (files[sink.value := WriteAt(files[sink.value], to, moved)], NFS4_OK)
  }

  /** The outcome of a copy: its status for every failure, which changes nothing; and on success the
      range of the source, as far as the source goes and as it was before, is written to the sink. */
  ghost predicate CopyDone(
      before: Files, after: Files, status: u32, opens: bool,
      source: Option<Path>, from: nat, count: nat, sink: Option<Path>, to: nat)
  {
    if source.None? || sink.None? then status == 10001 && after == before
    else if source.value !in before then status == 5 && after == before
    else if from > |before[source.value]| then status == 22 && after == before
    else if !opens || sink.value !in before || to >= 0x8000_0000_0000_0000 then status == 5 && after == before
    else
      var f := before[source.value];
      status == 0 &&
      WriteDone(before, after, sink.value, to, if from + count < |f| then f[from..from + count] else f[from..])
  }

  lemma CopiedIsDone(
      files: Files, opens: bool, source: Option<Path>, from: u64, count: u32, sink: Option<Path>, to: u64)
    ensures var (after, status) := Copied(files, opens, source, from, count, sink, to);
            CopyDone(files, after, status, opens, source, from, count, sink, to)
  {
    if source.Some? && sink.Some? && source.value in files && from <= |files[source.value]| && sink.value in files {
      WriteAtDone(files, sink.value, to, CopyBytes(files[source.value], from, count));
    }
    hide WriteAt, WriteDone;
  }

  class Store {
    var files: Files

    constructor (files: Files)
      ensures this.files == files
    {
      this.files := files;
    }

    /** A file opened for writing, sought and written, as std::fs does it. */
    method SeekWrite(path: Path, offset: u64, data: seq<byte>) returns (ok: bool)
      requires path in files
      modifies this
      ensures ok <==> offset < SEEK_LIMIT
      ensures files == if ok then old(files)[path := WriteAt(old(files)[path], offset, data)] else old(files)
    {
      if offset >= SEEK_LIMIT { return false; }
      var f := files[path];
      if data != [] {
        if |f| < offset { f := f + Zeros(offset - |f|); }
        f := f[..offset] + data + (if offset + |data| < |f| then f[offset + |data|..] else []);
      }
      files := files[path := f];
      ok := true;
    }

    /** `op_read`; `path` is the resolved handle. */
    method OpRead(path: Option<Path>, offset: u64, count: u32) returns (status: u32, r: ReadReply)
      ensures status == if path.None? then 70 else if path.value in files then 0 else 5
      ensures status == 0 ==> IsRead(files[path.value], offset, count, r)
    {
      r := ReadReply([], false);
      if path.None? { return NFS4ERR_STALE, r; }
      if path.value !in files { return NFS4ERR_IO, r; }
      r := SliceWholeFile(files[path.value], offset, count);
      status := NFS4_OK;
    }

    /** The read of v3 `handle_read`, which reports success whatever happens. */
    method HandleRead(path: Option<Path>, offset: u64, count: u32) returns (r: ReadReply)
      ensures if path.Some? && path.value in files then IsRead(files[path.value], offset, count, r)
              else r == ReadReply([], true)
    {
      if path.None? || path.value !in files { return ReadReply([], true); }
      var f := files[path.value];
      var start := if offset < |f| then offset else |f|;
      var end := if start + count < |f| then start + count else |f|;
      r := ReadReply(f[start..end], end >= |f|);
    }

    /** `op_write`, past the read-only check. */
    method OpWrite(path: Option<Path>, opens: bool, offset: u64, data: seq<byte>) returns (status: u32, written: nat)
      modifies this
      ensures path.None? ==> status == NFS4ERR_STALE && files == old(files)
      ensures path.Some? ==> (files, status) == Written(old(files), opens, path.value, offset, data)
      ensures status == 0 <==> path.Some? && opens && offset < 0x8000_0000_0000_0000
      ensures status == 0 ==> written == |data| && WriteDone(old(files), files, path.value, offset, data)
      ensures path.None? ==> status == 70
      ensures path.Some? && status != 0 ==> status == 5 && written == 0
      ensures path.Some? && !opens ==> files == old(files)
      ensures path.Some? && opens && offset >= 0x8000_0000_0000_0000 ==>
                WriteDone(old(files), files, path.value, 0, [])
    {
      if path.Some? {
        WriteAtDone(files, path.value, offset, data);
        WriteAtDone(files, path.value, 0, []);
        WriteNothing(if path.value in files then files[path.value] else []);
      }
      hide WriteAt, WriteDone;
      written := 0;
      if path.None? { return NFS4ERR_STALE, 0; }
      if !opens { return NFS4ERR_IO, 0; }
      ghost var f := if path.value in files then files[path.value] else [];
      if path.value !in files { files := files[path.value := []]; }
      assert files == old(files)[path.value := f];
      assert files[path.value := WriteAt(f, offset, data)] == old(files)[path.value := WriteAt(f, offset, data)];
      var ok := SeekWrite(path.value, offset, data);
      if !ok { return NFS4ERR_IO, 0; }
      return NFS4_OK, |data|;
    }

    /** The write of v3 `handle_write`: failures are reported as zero bytes written. */
    method HandleWrite(path: Option<Path>, opens: bool, offset: u64, data: seq<byte>) returns (written: nat)
      modifies this
      ensures path.None? ==> files == old(files) && written == 0
      ensures path.Some? ==> files == Written(old(files), opens, path.value, offset, data).0
      ensures path.Some? && opens && offset < 0x8000_0000_0000_0000 ==>
                written == |data| && WriteDone(old(files), files, path.value, offset, data)
      ensures path.Some? && !(opens && offset < 0x8000_0000_0000_0000) ==> written == 0
      ensures path.Some? && !opens ==> files == old(files)
      ensures path.Some? && opens && offset >= 0x8000_0000_0000_0000 ==>
                WriteDone(old(files), files, path.value, 0, [])
    {
      if path.Some? {
        WriteAtDone(files, path.value, offset, data);
        WriteAtDone(files, path.value, 0, []);
        WriteNothing(if path.value in files then files[path.value] else []);
      }
      hide WriteAt, WriteDone;
      written := 0;
      if path.Some? && opens {
        ghost var f := if path.value in files then files[path.value] else [];
        if path.value !in files { files := files[path.value := []]; }
        assert files == old(files)[path.value := f];
        assert files[path.value := WriteAt(f, offset, data)] == old(files)[path.value := WriteAt(f, offset, data)];
        var ok := SeekWrite(path.value, offset, data);
        if ok { written := |data|; }
      }
    }

    /** `op_copy` after its arguments are parsed and found to be intra-server. */
    method OpCopy(opens: bool, source: Option<Path>, from: u64, count: u32, sink: Option<Path>, to: u64)
      returns (status: u32, written: nat)
      modifies this
      ensures (files, status) == Copied(old(files), opens, source, from, count, sink, to)
      ensures CopyDone(old(files), files, status, opens, source, from, count, sink, to)
      ensures status == 0 ==> written == Min(count, |old(files)[source.value]| - from)
    {
      CopiedIsDone(files, opens, source, from, count, sink, to);
      hide WriteAt, CopyDone;
      written := 0;
      if sink.None? { return NFS4ERR_BADHANDLE, 0; }
      if source.None? { return NFS4ERR_BADHANDLE, 0; }
      if source.value !in files { return NFS4ERR_IO, 0; }
      var data := files[source.value];
      if from > |data| { return NFS4ERR_INVAL, 0; }
      var actual := if count < |data| - from then count else |data| - from;
      var copyData := data[from..from + actual];
      if !opens || sink.value !in files { return NFS4ERR_IO, 0; }
      var ok := SeekWrite(sink.value, to, copyData);
      if !ok { return NFS4ERR_IO, 0; }
      return NFS4_OK, actual;
    }

    /** `op_clone` */
    method OpClone(opens: bool, source: Option<Path>, from: u64, count: u32, sink: Option<Path>, to: u64)
      returns (status: u32)
      modifies this
      ensures (files, status) == Copied(old(files), opens, source, from, count, sink, to)
      ensures CopyDone(old(files), files, status, opens, source, from, count, sink, to)
    {
      CopiedIsDone(files, opens, source, from, count, sink, to);
      hide WriteAt, CopyDone;
      if source.None? { return NFS4ERR_BADHANDLE; }
      if sink.None? { return NFS4ERR_BADHANDLE; }
      if source.value !in files { return NFS4ERR_IO; }
      var data := files[source.value];
      if from > |data| { return NFS4ERR_INVAL; }
      var actual := if count < |data| - from then count else |data| - from;
      if !opens || sink.value !in files { return NFS4ERR_IO; }
      var ok := SeekWrite(sink.value, to, data[from..from + actual]);
      if !ok { return NFS4ERR_IO; }
      return NFS4_OK;
    }
  }

  // ----- copying -----

  /** A successful copy moves bytes as they were before it, even within one file and onto itself,
      leaves every other byte alone and fills a gap with zeros. */
  lemma CopyMovesOldBytes(files: Files, source: Path, from: u64, count: u32, sink: Path, to: u64)
    requires Copied(files, true, Some(source), from, count, Some(sink), to).1 == NFS4_OK
    ensures var after := Copied(files, true, Some(source), from, count, Some(sink), to).0;
            var n := Min(count, |files[source]| - from);
            && after.Keys == files.Keys
            && (forall p :: p in files && p != sink ==> after[p] == files[p])
            && |after[sink]| == (if n == 0 then |files[sink]| else Max(|files[sink]|, to + n))
            && (forall i :: 0 <= i < |after[sink]| ==>
                  after[sink][i] ==
                  if to <= i < to + n then files[source][from + (i - to)]
                  else if i < |files[sink]| then files[sink][i] else 0)
  {
    WriteAtBytes(files[sink], to, CopyBytes(files[source], from, count));
    hide WriteAt;
  }

  /** Copying a range is reading it and writing what was read. */
  lemma CopyIsReadThenWrite(files: Files, source: Path, from: u64, count: u32, sink: Path, to: u64, r: ReadReply)
    requires source in files && sink in files && from <= |files[source]|
    requires IsRead(files[source], from, count, r)
    ensures Copied(files, true, Some(source), from, count, Some(sink), to) == Written(files, true, sink, to, r.data)
  {
    hide WriteAt;
    assert r.data == CopyBytes(files[source], from, count);
    assert files == files[sink := files[sink]];
  }
}
