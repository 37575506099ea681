/**
  VERIFY and NVERIFY (`op_verify`, `compare_attr_vals`): a second, independently written walk
  over a bitmap and its attribute values, compared with what GETATTR produces.
*/
module AttrVerify {
  import opened Wire
  import opened Fattr

  const NFS4_OK: u32 := 0
  const NFS4ERR_STALE: u32 := 70
  const NFS4ERR_SAME: u32 := 10009
  const NFS4ERR_NOFILEHANDLE: u32 := 10020
  const NFS4ERR_NOT_SAME: u32 := 10027
  const NFS4ERR_ATTRNOTSUPP: u32 := 10032
  const NFS4ERR_BADXDR: u32 := 10036

  // ----- what a match means -----

  /** The attributes whose values can be compared. */
  predicate Checkable(bit: nat) {
    bit == 1 || bit == 3 || bit == 4 || bit == 52 || bit == 53
  }

  function TypeWord(m: Option<Meta>): u32 {
    if m.Some? && m.value.isDir then NF4DIR else NF4REG
  }

  function FileLen(m: Option<Meta>): u64 { if m.Some? then m.value.len else 0 }

  /** The value of a checkable attribute as VERIFY sees it: full time stamps. */
  function Observed(m: Option<Meta>, bit: nat): AttrVal {
    if bit == 1 then Word(TypeWord(m))
    else if bit == 3 then Long(ChangeOf(m))
    else if bit == 4 then Long(FileLen(m))
    else if bit == 52 then Stamp(Created(m).secs, Created(m).nanos)
    else Stamp(Modified(m).secs, Modified(m).nanos)
  }

  function ObservedBytes(m: Option<Meta>, bit: nat): (s: seq<byte>)
    ensures 4 <= |s| <= 12
  {
    EncodeVal(Observed(m, bit))
  }

  /** The values a matching request must start with, for the attributes below `bit`. */
  function Expected(m: Option<Meta>, w0: u32, w1: u32, bit: nat): seq<byte> {
    if bit == 0 then []
    else Expected(m, w0, w1, bit - 1) + (if Has(w0, w1, bit - 1) then ObservedBytes(m, bit - 1) else [])
  }

  ghost predicate AllCheckable(w0: u32, w1: u32, bit: nat) {
    forall i :: 0 <= i < bit && Has(w0, w1, i) ==> Checkable(i)
  }

  /** Every named attribute can be compared and has the value given. */
  ghost predicate Matches(m: Option<Meta>, w0: u32, w1: u32, data: seq<byte>) {
    AllCheckable(w0, w1, 64) && Expected(m, w0, w1, 64) <= data
  }

  /** The walk gives up at `bit`: everything below matched, but this attribute cannot be
      compared or its value is cut short. */
  ghost predicate GivesUpAt(m: Option<Meta>, w0: u32, w1: u32, data: seq<byte>, bit: nat) {
    && Has(w0, w1, bit)
    && AllCheckable(w0, w1, bit)
    && Expected(m, w0, w1, bit) <= data
    && (Checkable(bit) ==> |data| < |Expected(m, w0, w1, bit)| + |ObservedBytes(m, bit)|)
  }

  ghost predicate GivesUp(m: Option<Meta>, w0: u32, w1: u32, data: seq<byte>) {
    exists bit :: 0 <= bit < 64 && GivesUpAt(m, w0, w1, data, bit)
  }

  lemma {:induction false} ExpectedGrows(m: Option<Meta>, w0: u32, w1: u32, a: nat, b: nat)
    requires a <= b
    ensures Expected(m, w0, w1, a) <= Expected(m, w0, w1, b)
    decreases b
  {
    hide Has, ObservedBytes;
    if a < b { ExpectedGrows(m, w0, w1, a, b - 1); }
  }

  /** A value that differs decides the answer: nothing later can make the walk give up. */
  lemma DifferenceDecides(m: Option<Meta>, w0: u32, w1: u32, data: seq<byte>, bit: nat)
    requires bit < 64 && Has(w0, w1, bit) && Checkable(bit) && AllCheckable(w0, w1, bit)
    requires Expected(m, w0, w1, bit) <= data
    requires |Expected(m, w0, w1, bit + 1)| <= |data| && !(Expected(m, w0, w1, bit + 1) <= data)
    ensures !GivesUp(m, w0, w1, data) && !Matches(m, w0, w1, data)
  {
    hide Has, ObservedBytes, Checkable;
    ExpectedGrows(m, w0, w1, bit + 1, 64);
    forall b | 0 <= b < 64 ensures !GivesUpAt(m, w0, w1, data, b) {
      if b < bit {
        ExpectedGrows(m, w0, w1, b + 1, bit);
      } else if b > bit {
        ExpectedGrows(m, w0, w1, bit + 1, b);
      }
    }
  }

  lemma PrefixStep(a: seq<byte>, b: seq<byte>, data: seq<byte>)
    requires a <= data && |a| + |b| <= |data|
    ensures a + b <= data <==> data[|a|..|a| + |b|] == b
  {
    assert data[..|a|] == a;
    if data[|a|..|a| + |b|] == b {
      assert data[..|a| + |b|] == data[..|a|] + data[|a|..|a| + |b|];
    }
    if a + b <= data {
      assert (a + b)[|a|..] == b;
      assert data[|a|..|a| + |b|] == (a + b)[|a|..];
    }
  }

  lemma ConcatInjective(a: seq<byte>, b: seq<byte>, x: seq<byte>, y: seq<byte>)
    requires |a| == |b|
    ensures a + x == b + y <==> a == b && x == y
  {
    assert (a + x)[..|a|] == a && (a + x)[|a|..] == x;
    assert (b + y)[..|b|] == b && (b + y)[|b|..] == y;
  }

  // ----- the walk -----

  /** One arm of the walk: the requested value against the file's. */
  method CompareOne(meta: Option<Meta>, bit: nat, window: seq<byte>) returns (same: bool)
    requires Checkable(bit) && |window| == |ObservedBytes(meta, bit)|
    ensures same <==> window == ObservedBytes(meta, bit)
  {
    hide Be, FromBe, ChangeOf;
    match bit {
      case 1 =>
        var actual := if meta.Some? && meta.value.isDir then NF4DIR else NF4REG;
        same := SameWord(window, actual);
      case 3 =>
        same := SameLong(window, ChangeOf(meta));
      case 4 =>
        var actual := if meta.Some? then meta.value.len else 0;
        same := SameLong(window, actual);
      case 52 =>
        same := SameStamp(window, Created(meta));
      case _ =>
        same := SameStamp(window, Modified(meta));
    }
  }

  /** None is the source's Err: an attribute that cannot be compared. */
  method CompareAttrVals(meta: Option<Meta>, bm0: u32, bm1: u32, data: seq<byte>) returns (r: Option<bool>)
    ensures r == None <==> GivesUp(meta, bm0, bm1, data)
    ensures r == Some(true) <==> Matches(meta, bm0, bm1, data)
  {
    hide Bit, Be, FromBe, Test, Pow2, ChangeOf, Created, Modified, GivesUp;
    var offset := 0;
    for bit := 0 to 64
      invariant AllCheckable(bm0, bm1, bit)
      invariant offset == |Expected(meta, bm0, bm1, bit)| <= |data|
      invariant Expected(meta, bm0, bm1, bit) <= data
    {
      var named := if bit < 32 then Test(bm0, bit) else Test(bm1, bit - 32);
      if !named { continue; }
      assert Has(bm0, bm1, bit);
      var size := if bit == 1 then 4 else if bit == 3 || bit == 4 then 8 else if bit == 52 || bit == 53 then 12 else 0;
      if size == 0 || offset + size > |data| {
        Undecided(meta, bm0, bm1, data, bit);
        return None;
      }
      var window := data[offset..offset + size];
      var same := CompareOne(meta, bit, window);
      PrefixStep(Expected(meta, bm0, bm1, bit), ObservedBytes(meta, bit), data);
      if !same {
        DifferenceDecides(meta, bm0, bm1, data, bit);
        return Some(false);
      }
      offset := offset + size;
    }
    Finished(meta, bm0, bm1, data);
    return Some(true);
  }

  predicate SameWord(s: seq<byte>, n: u32)
    requires |s| == 4
    ensures SameWord(s, n) <==> s == Be32(n)
  {
    EncodeDecode(s);
    RoundTrip32(n);
    Read32(s) == n
  }

  predicate SameLong(s: seq<byte>, n: u64)
    requires |s| == 8
    ensures SameLong(s, n) <==> s == Be64(n)
  {
    EncodeDecode(s);
    RoundTrip64(n);
    Read64(s) == n
  }

  predicate SameStamp(s: seq<byte>, t: Time)
    requires |s| == 12
    ensures SameStamp(s, t) <==> s == Be64(t.secs) + Be32(t.nanos)
  {
    assert s == s[..8] + s[8..12];
    SameLong(s[..8], t.secs) && SameWord(s[8..12], t.nanos)
  }

  lemma Undecided(m: Option<Meta>, w0: u32, w1: u32, data: seq<byte>, bit: nat)
    requires bit < 64 && GivesUpAt(m, w0, w1, data, bit)
    ensures GivesUp(m, w0, w1, data) && !Matches(m, w0, w1, data)
  {
    hide Has, ObservedBytes, Checkable;
    ExpectedGrows(m, w0, w1, bit + 1, 64);
  }

  lemma Finished(m: Option<Meta>, w0: u32, w1: u32, data: seq<byte>)
    requires Matches(m, w0, w1, data)
    ensures !GivesUp(m, w0, w1, data)
  {
    hide Has, ObservedBytes, Checkable;
    forall b | 0 <= b < 64 ensures !GivesUpAt(m, w0, w1, data, b) {
      ExpectedGrows(m, w0, w1, b + 1, 64);
    }
  }

  // ----- the operations -----

  ghost function StatusOf(nverify: bool, m: Option<Meta>, w0: u32, w1: u32, data: seq<byte>): u32 {
    if GivesUp(m, w0, w1, data) then NFS4ERR_ATTRNOTSUPP
    else if Matches(m, w0, w1, data) then if nverify then NFS4ERR_SAME else NFS4_OK
    else if nverify then NFS4_OK else NFS4ERR_NOT_SAME
  }

  /** The fattr4 argument: the first two words of the bitmap, the values, and the bytes taken. */
  datatype Args = Args(w0: u32, w1: u32, data: seq<byte>, consumed: nat)

  function ParseArgs(request: seq<byte>, p: nat): Option<Args> {
    if p + 4 > |request| then None
    else
      var n := Read32(request[p..p + 4]);
      var q := p + 4 + n * 4;
      if q + 4 > |request| then None
      else
        var len := Read32(request[q..q + 4]);
        if q + 4 + len > |request| then None
        else
          Some(Args(if n > 0 then Read32(request[p + 4..p + 8]) else 0,
                    if n > 1 then Read32(request[p + 8..p + 12]) else 0,
                    request[q + 4..q + 4 + len],
                    4 + n * 4 + 4 + Pad4(len)))
  }

  /** What VERIFY (NVERIFY) answers: `file` is None when the current handle is not resolved, and
      the inner option is the metadata, if they could be read. */
  ghost function Answer(nverify: bool, current: bool, request: seq<byte>, p: nat, file: Option<Option<Meta>>): u32 {
    if !current then NFS4ERR_NOFILEHANDLE
    else match ParseArgs(request, p)
         case None => NFS4ERR_BADXDR
         case Some(a) =>
           if file.None? then NFS4ERR_STALE else StatusOf(nverify, file.value, a.w0, a.w1, a.data)
  }

  /** `op_verify`; `consumed` counts when the operation succeeds. */
  method OpVerify(nverify: bool, current: bool, request: seq<byte>, p: nat, file: Option<Option<Meta>>)
    returns (status: u32, consumed: nat)
    ensures status == Answer(nverify, current, request, p, file)
    ensures !current ==> status == 10020
    ensures current && ParseArgs(request, p).None? ==> status == 10036
    ensures current && ParseArgs(request, p).Some? && file.None? ==> status == 70
    ensures status == NFS4_OK ==> ParseArgs(request, p).Some? && consumed == ParseArgs(request, p).value.consumed
  {
    hide FromBe;
    if !current { return NFS4ERR_NOFILEHANDLE, 0; }
    var pp := p;
    if pp + 4 > |request| { return NFS4ERR_BADXDR, 0; }
    var bmCount: nat := Read32(request[pp..pp + 4]);
    pp := pp + 4 + bmCount * 4;
    if pp + 4 > |request| { return NFS4ERR_BADXDR, pp - p; }
    var attrLen := Read32(request[pp..pp + 4]);
    pp := pp + 4;
    if pp + attrLen > |request| { return NFS4ERR_BADXDR, pp - p; }
    var attrData := request[pp..pp + attrLen];
    pp := pp + Pad4(attrLen);
    consumed := pp - p;
    if file.None? { return NFS4ERR_STALE, consumed; }
    var bmP := p + 4;
    var bm0 := if bmCount > 0 then Read32(request[bmP..bmP + 4]) else 0;
    bmP := bmP + 4;
    var bm1 := if bmCount > 1 then Read32(request[bmP..bmP + 4]) else 0;
    assert ParseArgs(request, p) == Some(Args(bm0, bm1, attrData, consumed));
    var matched := CompareAttrVals(file.value, bm0, bm1, attrData);
    hide GivesUp, Matches, ParseArgs;
    match matched {
      case None => status := NFS4ERR_ATTRNOTSUPP;
      case Some(same) =>
        status := if nverify then if same then NFS4ERR_SAME else NFS4_OK
                  else if same then NFS4_OK else NFS4ERR_NOT_SAME;
    }
  }

  // ----- GETATTR followed by VERIFY -----

  /** A file GETATTR was answered for, other than the pseudo root. */
  predicate FileObject(o: Object) {
    !o.isRoot && (o.meta.None? ==> o.defaultType == NF4REG)
  }

  /** An unchanged file is observed as GETATTR sent it, but for the sub-seconds. */
  lemma SameWhenWhole(o: Object, bit: nat)
    requires FileObject(o) && Checkable(bit)
    ensures Value(o, bit) == Observed(o.meta, bit) <==>
            (bit == 52 ==> Created(o.meta).nanos == 0) && (bit == 53 ==> Modified(o.meta).nanos == 0)
  {
    hide ChangeOf, Created, Modified, Bm0Provide, Bm1Provide;
  }

  /** Two values of the kind of a checkable attribute. */
  lemma SameBytes(o: Object, now: Option<Meta>, bit: nat)
    requires Checkable(bit)
    ensures |AttrBytes(o, bit)| == |ObservedBytes(now, bit)|
    ensures AttrBytes(o, bit) == ObservedBytes(now, bit) <==> Value(o, bit) == Observed(now, bit)
  {
    hide Be, FromBe, ChangeOf, Created, Modified, Bm0Provide, Bm1Provide;
    EncodingInjective(Value(o, bit), Observed(now, bit));
    hide Observed, Value, EncodeVal;
  }

  lemma EncodingInjective(a: AttrVal, b: AttrVal)
    requires (a.Word? && b.Word?) || (a.Long? && b.Long?) || (a.Stamp? && b.Stamp?)
    ensures |EncodeVal(a)| == |EncodeVal(b)|
    ensures EncodeVal(a) == EncodeVal(b) <==> a == b
  {
    hide Be, FromBe;
    match a {
      case Word(x) => RoundTrip32(x); RoundTrip32(b.n);
      case Long(x) => RoundTrip64(x); RoundTrip64(b.l);
      case Stamp(x, y) =>
        RoundTrip64(x); RoundTrip64(b.secs); RoundTrip32(y); RoundTrip32(b.nsecs);
        assert EncodeVal(a)[..8] == Be64(x) && EncodeVal(a)[8..] == Be32(y);
        assert EncodeVal(b)[..8] == Be64(b.secs) && EncodeVal(b)[8..] == Be32(b.nsecs);
    }
  }

  lemma {:induction false} ValuesSplit(o: Object, w0: u32, w1: u32, mid: nat, hi: nat)
    requires mid <= hi
    ensures Values(o, w0, w1, 0, hi) == Values(o, w0, w1, 0, mid) + Values(o, w0, w1, mid, hi)
    decreases hi
  {
    hide Part;
    if mid < hi { ValuesSplit(o, w0, w1, mid, hi - 1); }
  }

  /** GETATTR sent for attribute `i` what VERIFY sees now. */
  predicate StillSo(o: Object, now: Option<Meta>, i: nat) {
    Value(o, i) == Observed(now, i)
  }

  ghost predicate AllStillSo(o: Object, now: Option<Meta>, w0: u32, w1: u32, bit: nat) {
    forall i :: 0 <= i < bit && Has(w0, w1, i) ==> StillSo(o, now, i)
  }

  /** As far as the named attributes are checkable, the walk stays in step with GETATTR's bytes,
      whatever became of the file, and keeps up exactly while the values are still so. */
  lemma {:induction false} WalkOverGetattr(o: Object, now: Option<Meta>, w0: u32, w1: u32, bit: nat)
    requires bit <= 64 && AllCheckable(w0, w1, bit)
    ensures |Expected(now, w0, w1, bit)| == |Values(o, w0, w1, 0, bit)|
    ensures Expected(now, w0, w1, bit) == Values(o, w0, w1, 0, bit) <==> AllStillSo(o, now, w0, w1, bit)
    decreases bit
  {
    hide Has, ObservedBytes, AttrBytes, StillSo;
    if bit == 0 {
      assert Expected(now, w0, w1, 0) == [] && Values(o, w0, w1, 0, 0) == [];
    } else {
      var k := bit - 1;
      WalkOverGetattr(o, now, w0, w1, k);
      var a, b := Expected(now, w0, w1, k), Values(o, w0, w1, 0, k);
      ValuesBack(o, w0, w1, 0, bit);
      if Has(w0, w1, k) {
        SameBytesStillSo(o, now, k);
        ConcatInjective(a, b, ObservedBytes(now, k), AttrBytes(o, k));
        assert AllStillSo(o, now, w0, w1, bit) <==> AllStillSo(o, now, w0, w1, k) && StillSo(o, now, k);
      } else {
        assert AllStillSo(o, now, w0, w1, bit) <==> AllStillSo(o, now, w0, w1, k);
        assert Expected(now, w0, w1, bit) == a && Values(o, w0, w1, 0, bit) == b + [] == b;
      }
    }
  }

  lemma SameBytesStillSo(o: Object, now: Option<Meta>, bit: nat)
    requires Checkable(bit)
    ensures |AttrBytes(o, bit)| == |ObservedBytes(now, bit)|
    ensures AttrBytes(o, bit) == ObservedBytes(now, bit) <==> StillSo(o, now, bit)
  {
    SameBytes(o, now, bit);
    hide Value, Observed, AttrBytes, ObservedBytes;
  }

  /** The same, against all of GETATTR's bytes, and none of them cut short. */
  lemma WalkInside(o: Object, now: Option<Meta>, w0: u32, w1: u32, bit: nat)
    requires bit <= 64 && AllCheckable(w0, w1, bit)
    ensures Expected(now, w0, w1, bit) <= Values(o, w0, w1, 0, 64) <==> AllStillSo(o, now, w0, w1, bit)
    ensures |Expected(now, w0, w1, bit)| <= |Values(o, w0, w1, 0, 64)|
  {
    hide Values, Expected, AllStillSo;
    WalkOverGetattr(o, now, w0, w1, bit);
    ValuesSplit(o, w0, w1, bit, 64);
    var a, b, rest := Expected(now, w0, w1, bit), Values(o, w0, w1, 0, bit), Values(o, w0, w1, bit, 64);
    assert (b + rest)[..|b|] == b;
  }

  /** The first attribute that cannot be compared comes before any that has changed. */
  ghost predicate Stuck(o: Object, now: Option<Meta>, w0: u32, w1: u32) {
    exists bit :: 0 <= bit < 64 && StuckAt(o, now, w0, w1, bit)
  }

  ghost predicate StuckAt(o: Object, now: Option<Meta>, w0: u32, w1: u32, bit: nat) {
    Has(w0, w1, bit) && !Checkable(bit) && AllCheckable(w0, w1, bit) && AllStillSo(o, now, w0, w1, bit)
  }

  /** The walk over GETATTR's bytes, whatever the bitmap and whatever became of the file. */
  lemma WalkOutcome(o: Object, now: Option<Meta>, w0: u32, w1: u32)
    ensures var data := Values(o, w0, w1, 0, 64);
            && (GivesUp(now, w0, w1, data) <==> Stuck(o, now, w0, w1))
            && (Matches(now, w0, w1, data) <==> AllCheckable(w0, w1, 64) && AllStillSo(o, now, w0, w1, 64))
  {
    var data := Values(o, w0, w1, 0, 64);
    hide Values, Expected, Has, Checkable, ObservedBytes, AllStillSo, AllCheckable;
    if AllCheckable(w0, w1, 64) { WalkInside(o, now, w0, w1, 64); }
    forall b | 0 <= b < 64 ensures GivesUpAt(now, w0, w1, data, b) <==> StuckAt(o, now, w0, w1, b) {
      WalkAt(o, now, w0, w1, b);
    }
  }

  lemma WalkAt(o: Object, now: Option<Meta>, w0: u32, w1: u32, bit: nat)
    requires bit < 64
    ensures GivesUpAt(now, w0, w1, Values(o, w0, w1, 0, 64), bit) <==> StuckAt(o, now, w0, w1, bit)
  {
    hide Values, Has, Checkable, ObservedBytes, AllStillSo;
    if AllCheckable(w0, w1, bit) {
      WalkInside(o, now, w0, w1, bit);
      if Has(w0, w1, bit) && Checkable(bit) {
        assert AllCheckable(w0, w1, bit + 1);
        WalkInside(o, now, w0, w1, bit + 1);
      }
    }
  }

  lemma FrameSlices(
      before: seq<byte>, n: seq<byte>, w0: seq<byte>, w1: seq<byte>, len: seq<byte>,
      data: seq<byte>, pad: seq<byte>, after: seq<byte>)
    requires |n| == |w0| == |w1| == |len| == 4
    ensures var r, p := before + (n + w0 + w1 + (len + data + pad)) + after, |before|;
            && |r| >= p + 16 + |data|
            && r[p..p + 4] == n && r[p + 4..p + 8] == w0 && r[p + 8..p + 12] == w1 && r[p + 12..p + 16] == len
            && r[p + 16..p + 16 + |data|] == data
  {
  }

  /** GETATTR's reply is a fattr4 argument of VERIFY. */
  lemma GetattrParses(o: Object, bitmap: seq<u32>, before: seq<byte>, after: seq<byte>)
    ensures var data := Values(o, Actual0(bitmap), Actual1(bitmap), 0, 64);
            ParseArgs(before + Fattr4(o, bitmap) + after, |before|) ==
            Some(Args(Actual0(bitmap), Actual1(bitmap), data, |Fattr4(o, bitmap)|))
  {
    hide Be, FromBe, Values, Actual0, Actual1;
    var w0, w1 := Actual0(bitmap), Actual1(bitmap);
    var data := Values(o, w0, w1, 0, 64);
    assert |data| <= 16 * 64;
    FrameSlices(before, Be32(2), Be32(w0), Be32(w1), Be32(|data|), data, Zeros(Pad4(|data|) - |data|), after);
    RoundTrip32(2);
    RoundTrip32(w0);
    RoundTrip32(w1);
    RoundTrip32(|data|);
  }

  /**
    The exact bytes GETATTR answered for `o`, handed to VERIFY and NVERIFY when the file is `now`,
    for every bitmap: both refuse exactly when an attribute that cannot be compared comes before
    any that has changed; otherwise VERIFY answers OK, and NVERIFY SAME, exactly when every value
    GETATTR sent is what is observed now.
  */
  lemma VerifyDetectsChange(o: Object, now: Option<Meta>, bitmap: seq<u32>, before: seq<byte>, after: seq<byte>)
    ensures var w0, w1 := Actual0(bitmap), Actual1(bitmap);
            var request := before + Fattr4(o, bitmap) + after;
            var verify := Answer(false, true, request, |before|, Some(now));
            var nverify := Answer(true, true, request, |before|, Some(now));
            if Stuck(o, now, w0, w1) then verify == nverify == NFS4ERR_ATTRNOTSUPP
            else if AllStillSo(o, now, w0, w1, 64) then verify == NFS4_OK && nverify == NFS4ERR_SAME
            else verify == NFS4ERR_NOT_SAME && nverify == NFS4_OK
  {
    var w0, w1 := Actual0(bitmap), Actual1(bitmap);
    hide Actual0, Actual1, Values, ParseArgs, Fattr4, GivesUp, Matches, Stuck, AllStillSo;
    GetattrParses(o, bitmap, before, after);
    WalkOutcome(o, now, w0, w1);
    if !AllCheckable(w0, w1, 64) && AllStillSo(o, now, w0, w1, 64) { UncheckedIsStuck(o, now, w0, w1); }
  }

  lemma UncheckedIsStuck(o: Object, now: Option<Meta>, w0: u32, w1: u32)
    requires !AllCheckable(w0, w1, 64) && AllStillSo(o, now, w0, w1, 64)
    ensures Stuck(o, now, w0, w1)
  {
    hide Has, Checkable, StillSo;
    var bit := FirstUncheckable(w0, w1, 64);
    assert StuckAt(o, now, w0, w1, bit);
  }

  // ----- an unchanged file -----

  /** The sub-second parts that GETATTR drops are zero. */
  predicate WholeSeconds(m: Option<Meta>, w0: u32, w1: u32) {
    && (Has(w0, w1, 52) ==> Created(m).nanos == 0)
    && (Has(w0, w1, 53) ==> Modified(m).nanos == 0)
  }

  /** An attribute GETATTR sends that VERIFY cannot compare, met before any stamp. */
  predicate EarlyUncheckable(w0: u32, w1: u32) {
    exists bit :: 0 <= bit < 52 && Has(w0, w1, bit) && bit !in {1, 3, 4}
  }

  /**
    Handing GETATTR's reply for an unchanged file straight back: for every requested bitmap,
    exactly when VERIFY (NVERIFY) finds the attributes the same, exactly when it finds them
    different, and exactly when it refuses to compare.
  */
  lemma VerifyOfGetattr(o: Object, bitmap: seq<u32>, before: seq<byte>, after: seq<byte>)
    requires FileObject(o)
    ensures var w0, w1 := Actual0(bitmap), Actual1(bitmap);
            var whole := WholeSeconds(o.meta, w0, w1);
            var request := before + Fattr4(o, bitmap) + after;
            var verify := Answer(false, true, request, |before|, Some(o.meta));
            var nverify := Answer(true, true, request, |before|, Some(o.meta));
            if EarlyUncheckable(w0, w1) || (whole && Has(w0, w1, 55)) then verify == nverify == NFS4ERR_ATTRNOTSUPP
            else if whole then verify == NFS4_OK && nverify == NFS4ERR_SAME
            else verify == NFS4ERR_NOT_SAME && nverify == NFS4_OK
  {
    var w0, w1 := Actual0(bitmap), Actual1(bitmap);
    hide Actual0, Actual1, Fattr4, Answer, Stuck, StillSo, Has;
    VerifyDetectsChange(o, o.meta, bitmap, before, after);
    LateAttributes(bitmap);
    UnchangedStuck(o, w0, w1);
    if !EarlyUncheckable(w0, w1) && !Has(w0, w1, 55) { UnchangedSame(o, w0, w1, 64); }
    if !EarlyUncheckable(w0, w1) && Has(w0, w1, 55) && !WholeSeconds(o.meta, w0, w1) { UnchangedSame(o, w0, w1, 54); }
  }

  lemma UnchangedSame(o: Object, w0: u32, w1: u32, bit: nat)
    requires FileObject(o) && 54 <= bit <= 64 && AllCheckable(w0, w1, bit)
    ensures AllStillSo(o, o.meta, w0, w1, bit) <==> WholeSeconds(o.meta, w0, w1)
  {
    hide Has, Value, Observed, Created, Modified;
    forall i: nat | Checkable(i)
      ensures StillSo(o, o.meta, i) <==>
              (i == 52 ==> Created(o.meta).nanos == 0) && (i == 53 ==> Modified(o.meta).nanos == 0)
    {
      SameWhenWhole(o, i);
    }
  }

  lemma UnchangedStuck(o: Object, w0: u32, w1: u32)
    requires FileObject(o) && forall i :: 54 <= i < 64 && Has(w0, w1, i) ==> i == 55
    ensures Stuck(o, o.meta, w0, w1) <==> EarlyUncheckable(w0, w1) || (WholeSeconds(o.meta, w0, w1) && Has(w0, w1, 55))
  {
    hide Has, Value, Observed, Created, Modified;
    if EarlyUncheckable(w0, w1) {
      var bit := FirstUncheckable(w0, w1, 52);
      forall i: nat | i < bit && Has(w0, w1, i) ensures StillSo(o, o.meta, i) { SameWhenWhole(o, i); }
      assert StuckAt(o, o.meta, w0, w1, bit);
    } else {
      CheckableBelow54(w0, w1);
      assert AllCheckable(w0, w1, 55);
      UnchangedSame(o, w0, w1, 55);
      if WholeSeconds(o.meta, w0, w1) && Has(w0, w1, 55) { assert StuckAt(o, o.meta, w0, w1, 55); }
    }
  }

  lemma CheckableBelow54(w0: u32, w1: u32)
    requires !EarlyUncheckable(w0, w1)
    ensures AllCheckable(w0, w1, 54)
  {
    hide Has;
  }

  /** Of the attributes above 53 only 55 is provided. */
  lemma LateAttributes(bitmap: seq<u32>)
    ensures forall i :: 54 <= i < 64 && Has(Actual0(bitmap), Actual1(bitmap), i) ==> i == 55
  {
    hide Has, Actual0, Actual1, Requested;
    forall i | 54 <= i < 64 && Has(Actual0(bitmap), Actual1(bitmap), i) ensures i == 55 {
      ReturnedBitmap(bitmap, i);
    }
  }

  lemma {:induction false} FirstUncheckable(w0: u32, w1: u32, hi: nat) returns (bit: nat)
    requires exists b :: 0 <= b < hi && Has(w0, w1, b) && !Checkable(b)
    ensures bit < hi && Has(w0, w1, bit) && !Checkable(bit) && AllCheckable(w0, w1, bit)
    decreases hi
  {
    hide Has, Checkable;
    if exists b :: 0 <= b < hi - 1 && Has(w0, w1, b) && !Checkable(b) {
      bit := FirstUncheckable(w0, w1, hi - 1);
    } else {
      bit := hi - 1;
    }
  }

  // ----- VERIFY against other metadata -----

  lemma ObservedInjective(m: Option<Meta>, n: Option<Meta>, bit: nat)
    requires Checkable(bit)
    ensures |ObservedBytes(m, bit)| == |ObservedBytes(n, bit)|
    ensures ObservedBytes(m, bit) == ObservedBytes(n, bit) <==> Observed(m, bit) == Observed(n, bit)
  {
    hide Be, FromBe, ChangeOf, Created, Modified;
    EncodingInjective(Observed(m, bit), Observed(n, bit));
  }

  lemma {:induction false} ExpectedInjective(m: Option<Meta>, n: Option<Meta>, w0: u32, w1: u32, bit: nat)
    requires AllCheckable(w0, w1, bit)
    ensures |Expected(m, w0, w1, bit)| == |Expected(n, w0, w1, bit)|
    ensures Expected(m, w0, w1, bit) == Expected(n, w0, w1, bit) <==>
            forall i :: 0 <= i < bit && Has(w0, w1, i) ==> Observed(m, i) == Observed(n, i)
    decreases bit
  {
    hide Has, ObservedBytes, Observed;
    if bit > 0 {
      var k := bit - 1;
      ExpectedInjective(m, n, w0, w1, k);
      var a, b := Expected(m, w0, w1, k), Expected(n, w0, w1, k);
      var same := forall i :: 0 <= i < k && Has(w0, w1, i) ==> Observed(m, i) == Observed(n, i);
      if Has(w0, w1, k) {
        ObservedInjective(m, n, k);
        ConcatInjective(a, b, ObservedBytes(m, k), ObservedBytes(n, k));
        assert (forall i :: 0 <= i < bit && Has(w0, w1, i) ==> Observed(m, i) == Observed(n, i))
               <==> same && Observed(m, k) == Observed(n, k);
      } else {
        assert (forall i :: 0 <= i < bit && Has(w0, w1, i) ==> Observed(m, i) == Observed(n, i)) <==> same;
        assert Expected(m, w0, w1, bit) == a && Expected(n, w0, w1, bit) == b;
      }
    }
  }

  /** For comparable attributes, VERIFY with the values of one state of the file against another
      state answers OK, and NVERIFY answers SAME, exactly when no named attribute changed. */
  lemma VerifyComparesStates(m: Option<Meta>, now: Option<Meta>, w0: u32, w1: u32)
    requires AllCheckable(w0, w1, 64)
    ensures var data := Expected(m, w0, w1, 64);
            var same := forall i :: 0 <= i < 64 && Has(w0, w1, i) ==> Observed(m, i) == Observed(now, i);
            && StatusOf(false, now, w0, w1, data) == (if same then NFS4_OK else NFS4ERR_NOT_SAME)
            && StatusOf(true, now, w0, w1, data) == (if same then NFS4ERR_SAME else NFS4_OK)
  {
    var data := Expected(m, w0, w1, 64);
    hide Has, ObservedBytes, Observed, Checkable;
    ExpectedInjective(m, now, w0, w1, 64);
    assert Expected(now, w0, w1, 64) <= data <==> Expected(now, w0, w1, 64) == data;
    forall b | 0 <= b < 64 ensures !GivesUpAt(now, w0, w1, data, b) {
      if Has(w0, w1, b) { ExpectedGrows(now, w0, w1, b + 1, 64); }
    }
  }

  // ----- VERIFY in terms of what the filesystem reports -----

  /** The comparable values GETATTR sent are still so exactly when the file is still of that kind, was
      modified at the same nanosecond modulo 2^64, has the same length, and was created and last
      modified at those whole seconds and no fraction. */
  lemma StillSoMeans(o: Object, now: Meta)
    requires o.meta.Some?
    ensures var was := o.meta.value;
            && (StillSo(o, Some(now), 1) <==> was.isDir == now.isDir)
            && (StillSo(o, Some(now), 3) <==>
                  (Nanos(OrEpoch(was.modified)) - Nanos(OrEpoch(now.modified))) % 0x1_0000_0000_0000_0000 == 0)
            && (StillSo(o, Some(now), 4) <==> was.len == now.len)
            && (StillSo(o, Some(now), 52) <==>
                  OrEpoch(was.created).secs == OrEpoch(now.created).secs && OrEpoch(now.created).nanos == 0)
            && (StillSo(o, Some(now), 53) <==>
                  OrEpoch(was.modified).secs == OrEpoch(now.modified).secs && OrEpoch(now.modified).nanos == 0)
  {
    hide Bm0Provide, Bm1Provide, FileId, SpaceUsed, Accessed, OrEpoch, ChangeOf;
    StampsOrEpoch(o.meta.value);
    StampsOrEpoch(now);
    var a, b := Nanos(OrEpoch(o.meta.value.modified)), Nanos(OrEpoch(now.modified));
    SameLow64(a, b);
    hide Nanos, Low64, Modified, Created;
  }

  /** And the same for a file whose metadata can no longer be read. */
  lemma StillSoMissing(o: Object)
    requires o.meta.Some?
    ensures var was := o.meta.value;
            && (StillSo(o, None, 1) <==> !was.isDir)
            && (StillSo(o, None, 3) <==> Nanos(OrEpoch(was.modified)) % 0x1_0000_0000_0000_0000 == 0)
            && (StillSo(o, None, 4) <==> was.len == 0)
            && (StillSo(o, None, 52) <==> OrEpoch(was.created).secs == 0)
            && (StillSo(o, None, 53) <==> OrEpoch(was.modified).secs == 0)
  {
    hide Bm0Provide, Bm1Provide, FileId, SpaceUsed, Accessed, OrEpoch, ChangeOf;
    StampsOrEpoch(o.meta.value);
    StampsMissing();
    SameLow64(Nanos(OrEpoch(o.meta.value.modified)), 0);
    SameLow64(0, 0);
    hide Nanos, Low64, Modified, Created;
  }

  lemma StampsMissing()
    ensures Modified(None) == Created(None) == Time(0, 0) && ChangeOf(None) == 0
  {
  }

  lemma StampsOrEpoch(m: Meta)
    ensures Modified(Some(m)) == OrEpoch(m.modified)
    ensures Created(Some(m)) == OrEpoch(m.created)
    ensures ChangeOf(Some(m)) == Low64(Nanos(OrEpoch(m.modified)))
  {
  }

  /** The attribute is in the returned bitmap. */
  predicate Returned(bitmap: seq<u32>, i: nat) { Has(Actual0(bitmap), Actual1(bitmap), i) }

  /** The returned bitmap names nothing but type, change and size. */
  ghost predicate OnlyBasic(bitmap: seq<u32>) {
    forall i: nat :: i < 64 && Returned(bitmap, i) ==> i in {1, 3, 4}
  }

  /** For bitmaps within type, change and size: VERIFY with GETATTR's bytes is OK, and NVERIFY SAME,
      exactly when what was asked for among kind, modification stamp and length is unchanged. */
  lemma VerifyOfBasic(o: Object, now: Meta, bitmap: seq<u32>, before: seq<byte>, after: seq<byte>)
    requires o.meta.Some? && OnlyBasic(bitmap)
    requires Representable(OrEpoch(o.meta.value.modified)) && Representable(OrEpoch(now.modified))
    ensures var was := o.meta.value;
            var same :=
              && (Returned(bitmap, 1) ==> was.isDir == now.isDir)
              && (Returned(bitmap, 3) ==> OrEpoch(was.modified) == OrEpoch(now.modified))
              && (Returned(bitmap, 4) ==> was.len == now.len);
            var request := before + Fattr4(o, bitmap) + after;
            && Answer(false, true, request, |before|, Some(Some(now))) == (if same then 0 else 10027)
            && Answer(true, true, request, |before|, Some(Some(now))) == (if same then 10009 else 0)
  {
    hide Actual0, Actual1, Fattr4, Answer, Has, StillSo, OrEpoch, Nanos, Representable;
    var w0, w1 := Actual0(bitmap), Actual1(bitmap);
    VerifyDetectsChange(o, Some(now), bitmap, before, after);
    StillSoMeans(o, now);
    SameNanos(OrEpoch(o.meta.value.modified), OrEpoch(now.modified));
    forall i: nat | i < 64 && Has(w0, w1, i) ensures i in {1, 3, 4} { assert Returned(bitmap, i); }
    assert AllCheckable(w0, w1, 64);
    assert AllStillSo(o, Some(now), w0, w1, 64) <==>
           forall i :: i in {1, 3, 4} && Has(w0, w1, i) ==> StillSo(o, Some(now), i);
  }

  lemma SameNanos(t: Time, u: Time)
    requires Representable(t) && Representable(u)
    ensures (Nanos(t) - Nanos(u)) % 0x1_0000_0000_0000_0000 == 0 <==> t == u
  {
    NanosOrder(t, u);
    SameLow64(Nanos(t), Nanos(u));
    SameLow64(Nanos(u), Nanos(t));
    hide Nanos, Low64;
  }

  /** The bitmap of {change}. */
  const CHANGE_ONLY: seq<u32> := [8]

  lemma OnlyChange(bit: nat)
    requires bit < 64
    ensures Returned(CHANGE_ONLY, bit) <==> bit == 3
  {
    hide Bit, Pow2, Actual0, Actual1, Requested, Has;
    Eight();
    ShiftedOne(3, bit);
    ReturnedBitmap(CHANGE_ONLY, bit);
    RequestedBits(CHANGE_ONLY, bit);
  }

  lemma Eight()
    ensures Pow2(3) == 8
  {
  }

  /** A file is found changed exactly when its modification stamp is another one, down to the
      nanosecond. */
  lemma VerifyOfChange(o: Object, now: Meta, before: seq<byte>, after: seq<byte>)
    requires o.meta.Some? && o.meta.value.modified.Some? && now.modified.Some?
    requires Representable(o.meta.value.modified.value) && Representable(now.modified.value)
    ensures var request := before + Fattr4(o, CHANGE_ONLY) + after;
            Answer(false, true, request, |before|, Some(Some(now))) ==
            if o.meta.value.modified == now.modified then 0 else 10027
  {
    hide Fattr4, Answer, Returned, Representable;
    forall i: nat | i < 64 ensures Returned(CHANGE_ONLY, i) <==> i == 3 { OnlyChange(i); }
    VerifyOfBasic(o, now, CHANGE_ONLY, before, after);
  }

  // ----- any fattr4 argument -----

  function EncodeWords(words: seq<u32>): (s: seq<byte>)
    ensures |s| == 4 * |words|
  {
    if words == [] then [] else EncodeWords(words[..|words| - 1]) + Be32(words[|words| - 1])
  }

  lemma {:induction false} WordAt(words: seq<u32>, i: nat)
    requires i < |words|
    ensures EncodeWords(words)[4 * i..4 * i + 4] == Be32(words[i])
    decreases |words|
  {
    hide Be;
    var n := |words| - 1;
    if i < n {
      WordAt(words[..n], i);
      assert EncodeWords(words)[4 * i..4 * i + 4] == EncodeWords(words[..n])[4 * i..4 * i + 4];
    }
  }

  lemma ArgsSlices(
      before: seq<byte>, n: seq<byte>, words: seq<byte>, len: seq<byte>,
      data: seq<byte>, pad: seq<byte>, after: seq<byte>)
    requires |n| == |len| == 4
    ensures var r, p, q := before + (n + words + (len + data + pad)) + after, |before|, |before| + 4 + |words|;
            && |r| >= q + 4 + |data|
            && r[p..p + 4] == n && r[q..q + 4] == len && r[q + 4..q + 4 + |data|] == data
            && (forall i, j :: 0 <= i <= j <= |words| ==> r[p + 4 + i..p + 4 + j] == words[i..j])
  {
  }

  /** A bitmap of any length: missing words count as zero, words after the second are skipped. */
  lemma ArgsRead(words: seq<u32>, data: seq<byte>, before: seq<byte>, after: seq<byte>)
    requires |words| < 0x1_0000_0000 && |data| < 0x1_0000_0000
    ensures var args := Be32(|words|) + EncodeWords(words) + Opaque(data);
            ParseArgs(before + args + after, |before|) ==
            Some(Args(if |words| > 0 then words[0] else 0, if |words| > 1 then words[1] else 0, data, |args|))
  {
    hide Be, FromBe, EncodeWords, Zeros;
    ArgsSlices(before, Be32(|words|), EncodeWords(words), Be32(|data|), data, Zeros(Pad4(|data|) - |data|), after);
    var r, p := before + (Be32(|words|) + EncodeWords(words) + Opaque(data)) + after, |before|;
    RoundTrip32(|words|);
    RoundTrip32(|data|);
    if |words| > 0 {
      WordAt(words, 0);
      RoundTrip32(words[0]);
      assert r[p + 4 + 0..p + 4 + 4] == EncodeWords(words)[0..4];
    }
    if |words| > 1 {
      WordAt(words, 1);
      RoundTrip32(words[1]);
      assert r[p + 4 + 4..p + 4 + 8] == EncodeWords(words)[4..8];
    }
  }
}
