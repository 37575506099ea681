/**
  Reassembly of NFS records from a TCP byte stream (`handle_nfs_stream`), with the record
  marking of section 11 of RFC 5531: a 4-byte header whose top bit says "last fragment" and
  whose low 31 bits give the length.
*/
module RecordStream {
  import opened Wire

  const MAX_RECV_BUF: nat := 4 * 1024 * 1024
  const MAX_RECORD_LENGTH: nat := 1024 * 1024
  const READ_SIZE: nat := 65536
  const MIN_RPC: nat := 20

  const LAST_FRAGMENT: u32 := 0x8000_0000
  const LENGTH_MASK: u32 := 0x7FFF_FFFF

  const NFS_PROGRAM: u32 := 100003
  const NFS_ACL_PROGRAM: u32 := 100227

  datatype Route = ToV4 | ToV3 | AclUnavailable | Unsupported

  datatype CloseReason = Fragmented | Oversized | WriteFailed | BufferExceeded | PeerClosed | ReadFailed

  /** What the two protocol servers answer, as a function of every record this connection has
      dispatched, and whether the n-th write to the socket succeeds. */
  datatype Server = Server(
    v4: seq<seq<byte>> -> Option<seq<byte>>,
    v3: seq<seq<byte>> -> Option<seq<byte>>,
    writable: nat -> bool)

  /** Everything observable about a connection: records dispatched, replies sent. */
  datatype Conn = Conn(records: seq<seq<byte>>, replies: seq<seq<byte>>)

  datatype Verdict = Waiting(rest: seq<byte>) | Closed(reason: CloseReason)

  // ----- dispatch of one complete record -----

  function RouteOf(record: seq<byte>): Route
    requires |record| >= MIN_RPC
  {
    var program := Read32(record[12..16]);
    var version := Read32(record[16..20]);
    if program == NFS_PROGRAM then
      if version == 4 then ToV4 else if version == 3 then ToV3 else Unsupported
    else if program == NFS_ACL_PROGRAM then AclUnavailable
    else Unsupported
  }

  /** `make_rpc_error_reply` */
  function ErrorReply(record: seq<byte>, code: u32): seq<byte>
    requires |record| >= MIN_RPC
  {
    record[..4] + Be32(0) + Be32(0) + Be32(0) + Be32(0) + Be32(code)
  }

  function ReplyTo(server: Server, earlier: seq<seq<byte>>, record: seq<byte>): Option<seq<byte>>
    requires |record| >= MIN_RPC
  {
    match RouteOf(record)
    case ToV4 => server.v4(earlier + [record])
    case ToV3 => server.v3(earlier + [record])
    case AclUnavailable => Some(ErrorReply(record, 1))
    case Unsupported => None
  }

  /** The connection after `record`, or None when sending the reply fails. */
  function Dispatch(server: Server, c: Conn, record: seq<byte>): (Conn, bool)
    requires |record| >= MIN_RPC
  {
    var seen := c.records + [record];
    match ReplyTo(server, c.records, record)
    case None => (c.(records := seen), true)
    case Some(reply) =>
      if server.writable(|c.replies|)
      then (Conn(seen, c.replies + [reply]), true)
      else (c.(records := seen), false)
  }

  // ----- one decode of a whole stream -----

  function Drain(server: Server, c: Conn, buf: seq<byte>): (Conn, Verdict)
    decreases |buf|
  {
    if |buf| < 4 then (c, Waiting(buf))
    else
      var marking := Read32(buf[..4]);
      var length := BitAnd(marking, LENGTH_MASK);
      if BitAnd(marking, LAST_FRAGMENT) == 0 then (c, Closed(Fragmented))
      else if length < MIN_RPC then Drain(server, c, buf[4..])
      else if length > MAX_RECORD_LENGTH then (c, Closed(Oversized))
      else if |buf| < 4 + length then (c, Waiting(buf))
      else
        var (next, sent) := Dispatch(server, c, buf[4..4 + length]);
        if !sent then (next, Closed(WriteFailed))
        else Drain(server, next, buf[4 + length..])
  }

  function Flatten(chunks: seq<seq<byte>>): seq<byte> {
    if chunks == [] then [] else Flatten(chunks[..|chunks| - 1]) + chunks[|chunks| - 1]
  }

  /** The decode of a longer stream picks up where the decode of its prefix stopped. */
  lemma {:induction false} DrainResumes(server: Server, c: Conn, a: seq<byte>, b: seq<byte>)
    ensures var (c', v) := Drain(server, c, a);
            Drain(server, c, a + b) ==
            match v
            case Closed(reason) => (c', v)
            case Waiting(rest) => Drain(server, c', rest + b)
    decreases |a|
  {
    hide BitAnd, FromBe, Dispatch;
    if |a| >= 4 {
      var marking := Read32(a[..4]);
      var length := BitAnd(marking, LENGTH_MASK);
      assert (a + b)[..4] == a[..4];
      if BitAnd(marking, LAST_FRAGMENT) == 0 {
      } else if length < MIN_RPC {
        DrainResumes(server, c, a[4..], b);
        assert (a + b)[4..] == a[4..] + b;
      } else if length <= MAX_RECORD_LENGTH && |a| >= 4 + length {
        assert (a + b)[4..4 + length] == a[4..4 + length];
        var (next, sent) := Dispatch(server, c, a[4..4 + length]);
        DrainResumes(server, next, a[4 + length..], b);
        assert (a + b)[4 + length..] == a[4 + length..] + b;
      }
    }
  }

  /** What waits for more data is an incomplete record, so it is never longer than one. */
  lemma {:induction false} LeftoverBound(server: Server, c: Conn, buf: seq<byte>)
    ensures var (c', v) := Drain(server, c, buf);
            v.Waiting? ==>
              && |v.rest| <= MAX_RECORD_LENGTH + 3
              && |v.rest| <= |buf|
    decreases |buf|
  {
    if |buf| >= 4 {
      var marking := Read32(buf[..4]);
      var length := BitAnd(marking, LENGTH_MASK);
      if BitAnd(marking, LAST_FRAGMENT) == 0 {
      } else if length < MIN_RPC {
        LeftoverBound(server, c, buf[4..]);
      } else if length <= MAX_RECORD_LENGTH && |buf| >= 4 + length {
        var (next, sent) := Dispatch(server, c, buf[4..4 + length]);
        LeftoverBound(server, next, buf[4 + length..]);
      }
    }
  }

  lemma {:induction false} FlattenSplit(chunks: seq<seq<byte>>, k: nat)
    requires k <= |chunks|
    ensures Flatten(chunks) == Flatten(chunks[..k]) + Flatten(chunks[k..])
    decreases |chunks|
  {
    if k == |chunks| {
      assert chunks[..k] == chunks;
    } else {
      var n := |chunks| - 1;
      FlattenSplit(chunks[..n], k);
      assert chunks[..n][..k] == chunks[..k];
      assert chunks[k..][..n - k] == chunks[..n][k..];
    }
  }

  lemma FlattenAppend(chunks: seq<seq<byte>>, k: nat)
    requires k < |chunks|
    ensures Flatten(chunks[..k + 1]) == Flatten(chunks[..k]) + chunks[k]
  {
    assert chunks[..k + 1][..k] == chunks[..k];
  }

  /**
    The connection loop. `chunks` are the successful reads the socket delivers, `last` the read
    that ends the connection if nothing else does. However the stream is cut into reads, the
    records dispatched, the replies sent and the reason for closing are those of one decode of
    the whole stream, and the receive-buffer limit is never what closes the connection.
  */
  method HandleNfsStream(server: Server, chunks: seq<seq<byte>>, last: CloseReason)
    returns (conn: Conn, reason: CloseReason)
    requires forall i :: 0 <= i < |chunks| ==> 1 <= |chunks[i]| <= READ_SIZE
    requires last == PeerClosed || last == ReadFailed
    ensures var (c, v) := Drain(server, Conn([], []), Flatten(chunks));
            conn == c && reason == if v.Closed? then v.reason else last
    ensures reason != BufferExceeded
    ensures Answered(server, conn, reason)
  {
    hide BitAnd, FromBe, Be, Answered;
    StreamIsAnswered(server, Flatten(chunks), last);
    conn := Conn([], []);
    var recvBuf: seq<byte> := [];
    var k := 0;
    while true
      invariant 0 <= k <= |chunks|
      invariant |recvBuf| <= MAX_RECORD_LENGTH + 3 + READ_SIZE
      invariant Drain(server, conn, recvBuf) == Drain(server, Conn([], []), Flatten(chunks[..k]))
      decreases |chunks| - k
    {
      while |recvBuf| >= 4
        invariant |recvBuf| <= MAX_RECORD_LENGTH + 3 + READ_SIZE
        invariant Drain(server, conn, recvBuf) == Drain(server, Conn([], []), Flatten(chunks[..k]))
        decreases |recvBuf|
      {
        FlattenSplit(chunks, k);
        DrainResumes(server, Conn([], []), Flatten(chunks[..k]), Flatten(chunks[k..]));
        var marking := Read32(recvBuf[..4]);
        var isLast := BitAnd(marking, LAST_FRAGMENT) != 0;
        var length := BitAnd(marking, LENGTH_MASK);
        if !isLast {
          reason := Fragmented;
          return;
        }
        if length < MIN_RPC {
          recvBuf := recvBuf[4..];
          continue;
        }
        if length > MAX_RECORD_LENGTH {
          reason := Oversized;
          return;
        }
        var total := 4 + length;
        if |recvBuf| < total {
          break;
        }
        var record := recvBuf[4..total];
        recvBuf := recvBuf[total..];
        var (next, sent) := Dispatch(server, conn, record);
        conn := next;
        if !sent {
          reason := WriteFailed;
          return;
        }
      }
      LeftoverBound(server, conn, recvBuf);
      assert Drain(server, conn, recvBuf) == (conn, Waiting(recvBuf));
      if k == |chunks| {
        assert chunks[..k] == chunks;
        reason := last;
        return;
      }
      DrainResumes(server, Conn([], []), Flatten(chunks[..k]), chunks[k]);
      FlattenAppend(chunks, k);
      recvBuf := recvBuf + chunks[k];
      k := k + 1;
      if |recvBuf| > MAX_RECV_BUF {
        assert false;
      }
    }
  }

  /** The decoder fed read by read. */
  function Feed(server: Server, c: Conn, buf: seq<byte>, chunks: seq<seq<byte>>): (Conn, Verdict)
    decreases |chunks|
  {
    var (c', v) := Drain(server, c, buf);
    if v.Closed? || chunks == [] then (c', v)
    else Feed(server, c', v.rest + chunks[0], chunks[1..])
  }

  /** Two ways of cutting one stream into chunks cannot be told apart: fed read by read, the
      decoder reaches the verdict of the uncut stream. */
  lemma {:induction false} ReadBoundariesInvisible(
      server: Server, c: Conn, buf: seq<byte>, chunks: seq<seq<byte>>, other: seq<seq<byte>>)
    requires Flatten(chunks) == Flatten(other)
    ensures Feed(server, c, buf, chunks) == Feed(server, c, buf, other)
  {
    FeedIsDrain(server, c, buf, chunks);
    FeedIsDrain(server, c, buf, other);
  }

  lemma {:induction false} FeedIsDrain(server: Server, c: Conn, buf: seq<byte>, chunks: seq<seq<byte>>)
    ensures Feed(server, c, buf, chunks) == Drain(server, c, buf + Flatten(chunks))
    decreases |chunks|
  {
    hide Drain;
    DrainResumes(server, c, buf, Flatten(chunks));
    var (c', v) := Drain(server, c, buf);
    if v.Closed? {
    } else if chunks == [] {
      assert buf + Flatten(chunks) == buf;
    } else {
      FeedIsDrain(server, c', v.rest + chunks[0], chunks[1..]);
      FlattenSplit(chunks, 1);
      assert Flatten(chunks[..1]) == chunks[0] by {
        assert chunks[..1][..0] == [];
        assert Flatten(chunks[..1]) == [] + chunks[..1][0];
      }
      assert v.rest + chunks[0] + Flatten(chunks[1..]) == v.rest + Flatten(chunks);
    }
  }

  // ----- framing -----

  /** How a message is framed: the marker is the last-fragment bit or-ed with the length,
      which is first truncated to 32 bits. */
  function Marker(message: seq<byte>): nat {
    BitOr(LAST_FRAGMENT, |message| % 0x1_0000_0000)
  }

  function Frame(message: seq<byte>): seq<byte> {
    Be(Marker(message), 4) + message
  }

  function Frames(messages: seq<seq<byte>>): seq<byte> {
    if messages == [] then [] else Frame(messages[0]) + Frames(messages[1..])
  }

  lemma {:induction false} OrModulo(w: nat, k: nat)
    ensures BitOr(Pow2(k), w) % Pow2(k) == w % Pow2(k)
    decreases k
  {
    if k > 0 {
      OrHalves(w, k);
      OrModulo(w / 2, k - 1);
      var or := BitOr(Pow2(k), w);
      assert Pow2(k) == 2 * Pow2(k - 1);
      hide BitOr, Pow2;
      HalveModulo(or, Pow2(k - 1));
      HalveModulo(w, Pow2(k - 1));
    }
  }

  lemma OrHalves(w: nat, k: nat)
    requires k > 0
    ensures BitOr(Pow2(k), w) / 2 == BitOr(Pow2(k - 1), w / 2)
    ensures BitOr(Pow2(k), w) % 2 == w % 2
  {
    assert Pow2(k) / 2 == Pow2(k - 1) && Pow2(k) % 2 == 0;
  }

  /** A frame's marker always carries the last-fragment bit, and carries the message's true
      length exactly when the message is shorter than 2^31 bytes. */
  lemma MarkerLength(message: seq<byte>)
    ensures BitAnd(Marker(message), LAST_FRAGMENT) != 0
    ensures BitAnd(Marker(message), LENGTH_MASK) == |message| <==> |message| < 0x8000_0000
    ensures |message| < 0x8000_0000 ==> Marker(message) == 0x8000_0000 + |message|
  {
    hide BitAnd, BitOr;
    var n := |message| % 0x1_0000_0000;
    MarkerWord(n);
    if |message| < 0x8000_0000 {
      assert n == |message| && n % 0x8000_0000 == n;
    } else {
      assert n % 0x8000_0000 < 0x8000_0000 <= |message|;
    }
  }

  lemma MarkerWord(n: u32)
    ensures BitAnd(BitOr(LAST_FRAGMENT, n), LAST_FRAGMENT) == LAST_FRAGMENT
    ensures BitAnd(BitOr(LAST_FRAGMENT, n), LENGTH_MASK) == n % 0x8000_0000
    ensures n < 0x8000_0000 ==> BitOr(LAST_FRAGMENT, n) == 0x8000_0000 + n
  {
    var w := BitOr(LAST_FRAGMENT, n);
    Pow2Of31();
    assert BitAnd(w, LENGTH_MASK) == n % 0x8000_0000 by {
      MaskIsModulo(w, 31);
      OrModulo(n, 31);
    }
    assert BitAnd(w, LAST_FRAGMENT) == LAST_FRAGMENT by {
      MaskTestsBit(w, 31);
      OrKeepsBits(LAST_FRAGMENT, n, 31);
      TopBit(31);
    }
    if n < 0x8000_0000 { OrWithDisjointBit(n, 31); }
  }

  lemma {:induction false} TopBit(k: nat)
    ensures Bit(Pow2(k), k)
  {
    if k > 0 {
      TopBit(k - 1);
      assert Pow2(k) / 2 == Pow2(k - 1);
    }
  }

  /** Dispatching whole records one after the other, up to the first failed write. */
  function DispatchAll(server: Server, c: Conn, records: seq<seq<byte>>): (Conn, bool)
    requires forall r :: r in records ==> |r| >= MIN_RPC
    decreases |records|
  {
    if records == [] then (c, true)
    else
      var (next, sent) := Dispatch(server, c, records[0]);
      if sent then DispatchAll(server, next, records[1..]) else (next, false)
  }

  lemma FrameHead(message: seq<byte>, tail: seq<byte>)
    requires |message| < 0x8000_0000
    ensures var s := Frame(message) + tail;
            && |s| >= 4 && Read32(s[..4]) == Marker(message)
            && s[4..] == message + tail
            && s[4..4 + |message|] == message
            && s[4 + |message|..] == tail
  {
    hide Be, FromBe;
    MarkerLength(message);
    hide Marker;
    var s := Frame(message) + tail;
    assert s[..4] == Be(Marker(message), 4);
    RoundTrip32(Marker(message));
  }

  /** Decoding inverts framing: records of legal size come out one by one, unchanged and in
      order, and decoding continues with whatever follows them. */
  lemma {:induction false} FramesDecode(server: Server, c: Conn, records: seq<seq<byte>>, tail: seq<byte>)
    requires forall r :: r in records ==> MIN_RPC <= |r| <= MAX_RECORD_LENGTH
    ensures var (c', sent) := DispatchAll(server, c, records);
            Drain(server, c, Frames(records) + tail) ==
            if sent then Drain(server, c', tail) else (c', Closed(WriteFailed))
    decreases |records|
  {
    hide BitAnd, FromBe, Dispatch, Frame, Marker;
    if records == [] {
      assert Frames(records) + tail == tail;
    } else {
      var r := records[0];
      var s := Frames(records) + tail;
      var after := Frames(records[1..]) + tail;
      assert s == Frame(r) + after;
      FrameHead(r, after);
      MarkerLength(r);
      var (next, sent) := Dispatch(server, c, r);
      if sent {
        FramesDecode(server, next, records[1..], tail);
      }
    }
  }

  /** Records of 20 bytes to 1 MB reach the servers in order, and every one of them does. */
  lemma {:induction false} DispatchAllKeepsRecords(server: Server, c: Conn, records: seq<seq<byte>>)
    requires forall r :: r in records ==> |r| >= MIN_RPC
    ensures var (c', sent) := DispatchAll(server, c, records);
            && |c.records| <= |c'.records| <= |c.records| + |records|
            && c'.records == c.records + records[..|c'.records| - |c.records|]
            && (sent ==> c'.records == c.records + records)
    decreases |records|
  {
    hide ReplyTo;
    if records != [] {
      var (next, sent) := Dispatch(server, c, records[0]);
      assert next.records == c.records + records[..1];
      if sent {
        DispatchAllKeepsRecords(server, next, records[1..]);
        var (c', all) := DispatchAll(server, next, records[1..]);
        var k := |c'.records| - |next.records|;
        assert records[..k + 1] == records[..1] + records[1..][..k];
      }
    }
  }

  // ----- records too short to be an RPC call -----

  predicate ShortHeader(word: seq<byte>)
    requires |word| == 4
  {
    0x8000_0000 <= Read32(word) < 0x8000_0000 + MIN_RPC
  }

  /** `s` is made of 4-byte words that each read as the header of a record under 20 bytes. */
  predicate OnlyShortHeaders(s: seq<byte>) {
    s == [] || (|s| >= 4 && ShortHeader(s[..4]) && OnlyShortHeaders(s[4..]))
  }

  lemma MarkingParts(marking: u32)
    ensures BitAnd(marking, LAST_FRAGMENT) != 0 <==> marking >= 0x8000_0000
    ensures BitAnd(marking, LENGTH_MASK) == marking % 0x8000_0000
  {
    Pow2Of31();
    MaskIsModulo(marking, 31);
    MaskTestsBit(marking, 31);
    BitIsQuotient(marking, 31);
  }

  lemma {:induction false} BitIsQuotient(w: nat, k: nat)
    requires w < 2 * Pow2(k)
    ensures Bit(w, k) <==> w >= Pow2(k)
  {
    if k > 0 { BitIsQuotient(w / 2, k - 1); }
  }

  /** A record under 20 bytes loses only its header: its body is read again as headers. */
  lemma ShortRecordBodyIsReread(server: Server, c: Conn, body: seq<byte>, tail: seq<byte>)
    requires |body| < MIN_RPC
    ensures Drain(server, c, Frame(body) + tail) == Drain(server, c, body + tail)
  {
    FrameHead(body, tail);
    MarkerLength(body);
  }

  /** So a short record is skipped as a whole, whatever follows it, exactly when its body is
      itself a run of short headers. */
  lemma ShortRecordSkipped(server: Server, c: Conn, body: seq<byte>)
    requires |body| < MIN_RPC
    ensures (forall tail :: Drain(server, c, Frame(body) + tail) == Drain(server, c, tail))
            <==> OnlyShortHeaders(body)
  {
    if OnlyShortHeaders(body) {
      forall tail ensures Drain(server, c, Frame(body) + tail) == Drain(server, c, tail) {
        ShortRecordBodyIsReread(server, c, body, tail);
        ShortHeadersVanish(server, c, body, tail);
      }
    } else {
      ShortRecordBodyIsReread(server, c, body, []);
      assert body + [] == body;
      OtherBodiesRemain(server, c, body);
    }
  }

  lemma ShortHeaderSkipped(server: Server, c: Conn, buf: seq<byte>)
    requires |buf| >= 4 && ShortHeader(buf[..4])
    ensures Drain(server, c, buf) == Drain(server, c, buf[4..])
  {
    MarkingParts(Read32(buf[..4]));
  }

  lemma {:induction false} ShortHeadersVanish(server: Server, c: Conn, body: seq<byte>, tail: seq<byte>)
    requires OnlyShortHeaders(body)
    ensures Drain(server, c, body + tail) == Drain(server, c, tail)
    decreases |body|
  {
    if body == [] {
      assert body + tail == tail;
    } else {
      assert (body + tail)[..4] == body[..4] && (body + tail)[4..] == body[4..] + tail;
      ShortHeaderSkipped(server, c, body + tail);
      ShortHeadersVanish(server, c, body[4..], tail);
    }
  }

  lemma {:induction false} OtherBodiesRemain(server: Server, c: Conn, body: seq<byte>)
    requires |body| < MIN_RPC && !OnlyShortHeaders(body)
    ensures Drain(server, c, body) != (c, Waiting([]))
    decreases |body|
  {
    if |body| >= 4 {
      MarkingParts(Read32(body[..4]));
      if ShortHeader(body[..4]) { OtherBodiesRemain(server, c, body[4..]); }
    }
  }

  /** The family is not empty: a legal 4-byte record of zeros closes the connection. */
  lemma ShortRecordCanClose(server: Server, c: Conn, tail: seq<byte>)
    ensures Drain(server, c, Frame(Be32(0)) + tail) == (c, Closed(Fragmented))
  {
    var body := Be32(0);
    ShortRecordBodyIsReread(server, c, body, tail);
    assert (body + tail)[..4] == body;
    RoundTrip32(0);
    MarkingParts(0);
    hide BitAnd, FromBe, Be, Frame;
  }

  // ----- what is done with the bytes -----

  /** The answer to a record, read off its bytes: program and version say which server is asked. */
  ghost function AnswerTo(server: Server, earlier: seq<seq<byte>>, record: seq<byte>): Option<seq<byte>> {
    if |record| < 20 then None
    else if record[12..20] == Be32(100003) + Be32(4) then server.v4(earlier + [record])
    else if record[12..20] == Be32(100003) + Be32(3) then server.v3(earlier + [record])
    else if record[12..16] == Be32(100227) then Some(record[..4] + Zeros(16) + Be32(1))
    else None
  }

  lemma WordsMatch(record: seq<byte>, program: u32, version: u32)
    requires |record| >= 20
    ensures record[12..16] == Be32(program) <==> Read32(record[12..16]) == program
    ensures record[12..20] == Be32(program) + Be32(version) <==>
            Read32(record[12..16]) == program && Read32(record[16..20]) == version
  {
    hide Be, FromBe;
    EncodeDecode(record[12..16]);
    EncodeDecode(record[16..20]);
    RoundTrip32(program);
    RoundTrip32(version);
    assert record[12..20] == record[12..16] + record[16..20];
    assert (Be32(program) + Be32(version))[..4] == Be32(program);
    assert (Be32(program) + Be32(version))[4..] == Be32(version);
  }

  /** Version 4 of program 100003 is answered by the one server, version 3 by the other, program
      100227 with an error that carries the call's xid, and nothing else at all. */
  lemma RoutedByBytes(server: Server, earlier: seq<seq<byte>>, record: seq<byte>)
    requires |record| >= 20
    ensures ReplyTo(server, earlier, record) == AnswerTo(server, earlier, record)
  {
    hide Be, FromBe;
    WordsMatch(record, 100003, 4);
    WordsMatch(record, 100003, 3);
    WordsMatch(record, 100227, 0);
    ZeroWord();
    assert Be32(0) + Be32(0) + Be32(0) + Be32(0) == Zeros(16);
    assert record[..4] + Be32(0) + Be32(0) + Be32(0) + Be32(0) == record[..4] + Zeros(16);
  }

  lemma ZeroWord()
    ensures Be32(0) == [0, 0, 0, 0]
  {
    Be32Bytes(0);
  }

  /** The answers to records dispatched one after the other. */
  ghost function Answers(server: Server, records: seq<seq<byte>>): seq<seq<byte>> {
    if records == [] then []
    else
      var n := |records| - 1;
      Answers(server, records[..n]) +
      match AnswerTo(server, records[..n], records[n])
      case Some(reply) => [reply]
      case None => []
  }

  /** The replies sent are the answers, and all of them could be written. */
  ghost predicate AllSent(server: Server, c: Conn) {
    c.replies == Answers(server, c.records) && forall n: nat :: n < |c.replies| ==> server.writable(n)
  }

  /** All answers but the last one were sent, and that one could not be written. */
  ghost predicate LastUnsent(server: Server, c: Conn) {
    var n := |c.replies|;
    && |Answers(server, c.records)| == n + 1
    && c.replies == Answers(server, c.records)[..n]
    && (forall k: nat :: k < n ==> server.writable(k))
    && !server.writable(n)
  }

  ghost predicate Answered(server: Server, c: Conn, reason: CloseReason) {
    if reason == WriteFailed then LastUnsent(server, c) else AllSent(server, c)
  }

  lemma StreamIsAnswered(server: Server, stream: seq<byte>, last: CloseReason)
    requires last == PeerClosed || last == ReadFailed
    ensures var (c, v) := Drain(server, Conn([], []), stream);
            Answered(server, c, if v.Closed? then v.reason else last)
  {
    RepliesAreAnswers(server, Conn([], []), stream);
  }

  lemma DispatchSends(server: Server, c: Conn, record: seq<byte>)
    requires |record| >= 20 && AllSent(server, c)
    ensures var (c', sent) := Dispatch(server, c, record);
            && c'.records == c.records + [record]
            && if sent then AllSent(server, c') else LastUnsent(server, c')
  {
    hide AnswerTo, ReplyTo, Answers;
    RoutedByBytes(server, c.records, record);
    AnswersNext(server, c.records, record);
    var before := Answers(server, c.records);
    match AnswerTo(server, c.records, record)
    case None =>
    case Some(reply) => assert (before + [reply])[..|before|] == before;
  }

  lemma AnswersNext(server: Server, records: seq<seq<byte>>, record: seq<byte>)
    ensures Answers(server, records + [record]) ==
            match AnswerTo(server, records, record)
            case Some(reply) => Answers(server, records) + [reply]
            case None => Answers(server, records)
  {
    hide AnswerTo;
    assert (records + [record])[..|records|] == records;
  }

  /** The replies on a connection are exactly the answers to the dispatched records, in order, up to
      one that could not be written; and that is the only reason for this way of closing. */
  lemma {:induction false} RepliesAreAnswers(server: Server, c: Conn, buf: seq<byte>)
    requires AllSent(server, c)
    ensures var (c', v) := Drain(server, c, buf);
            if v == Closed(WriteFailed) then LastUnsent(server, c') else AllSent(server, c')
    decreases |buf|
  {
    hide Dispatch, AllSent, LastUnsent, BitAnd, FromBe;
    if |buf| >= 4 {
      var marking := Read32(buf[..4]);
      var length := BitAnd(marking, LENGTH_MASK);
      if BitAnd(marking, LAST_FRAGMENT) == 0 {
      } else if length < MIN_RPC {
        RepliesAreAnswers(server, c, buf[4..]);
      } else if length <= MAX_RECORD_LENGTH && |buf| >= 4 + length {
        DispatchSends(server, c, buf[4..4 + length]);
        var (next, sent) := Dispatch(server, c, buf[4..4 + length]);
        if sent { RepliesAreAnswers(server, next, buf[4 + length..]); }
      }
    }
  }

  /** What the first four bytes of the buffer decide. */
  lemma HeaderDecides(server: Server, c: Conn, buf: seq<byte>)
    ensures |buf| < 4 ==> Drain(server, c, buf) == (c, Waiting(buf))
    ensures |buf| >= 4 ==>
              var w := FromBe(buf[..4]);
              var n := w - 0x8000_0000;
              if n < 0 then Drain(server, c, buf) == (c, Closed(Fragmented))
              else if n < 20 then Drain(server, c, buf) == Drain(server, c, buf[4..])
              else if n > 1024 * 1024 then Drain(server, c, buf) == (c, Closed(Oversized))
              else if |buf| < 4 + n then Drain(server, c, buf) == (c, Waiting(buf))
              else
                var (next, sent) := Dispatch(server, c, buf[4..4 + n]);
                next.records == c.records + [buf[4..4 + n]] &&
                Drain(server, c, buf) == if sent then Drain(server, next, buf[4 + n..]) else (next, Closed(WriteFailed))
  {
    hide BitAnd, FromBe, ReplyTo;
    if |buf| >= 4 { MarkingParts(Read32(buf[..4])); }
  }
}
