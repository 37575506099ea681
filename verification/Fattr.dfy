/**
  File attributes on the wire (`build_fattr4`): a two-word bitmap naming the attributes that
  follow, then their values in ascending bit order inside one opaque.
*/
module Fattr {
  import opened Wire
  import opened PathHash

  const NF4REG: u32 := 1
  const NF4DIR: u32 := 2

  /** A time stamp after the epoch; `nanos` is the sub-second part. */
  datatype Time = Time(secs: u64, nanos: u32)

  /** What the filesystem reports; a stamp is None when it is missing or before the epoch. */
  datatype Meta = Meta(isDir: bool, len: u64, modified: Option<Time>, accessed: Option<Time>, created: Option<Time>)

  /** The arguments of build_fattr4 other than the bitmap. */
  datatype Object = Object(path: seq<byte>, meta: Option<Meta>, defaultType: u32, isRoot: bool)

  /** Attribute values by their XDR shape. */
  datatype AttrVal =
    | Words(w0: u32, w1: u32)
    | Word(n: u32)
    | Long(l: u64)
    | Fsid(major: u64, minor: u64)
    | Text(text: seq<byte>)
    | Device(d1: u32, d2: u32)
    | Stamp(secs: u64, nsecs: u32)

  /** The supported attributes of each bitmap word. */
  const PROVIDED0: seq<nat> := [0, 1, 2, 3, 4, 5, 6, 7, 8, 9, 10, 20]
  const PROVIDED1: seq<nat> := [33 - 32, 35 - 32, 36 - 32, 37 - 32, 41 - 32, 45 - 32, 46 - 32,
                                47 - 32, 52 - 32, 53 - 32, 55 - 32]

  function Bm0Provide(): u32 {
    hide Mask, Pow2;
    MaskFits(PROVIDED0, 32);
    Pow2Of32();
    Mask(PROVIDED0)
  }

  function Bm1Provide(): u32 {
    hide Mask, Pow2;
    MaskFits(PROVIDED1, 32);
    Pow2Of32();
    Mask(PROVIDED1)
  }

  // ----- what each attribute means -----

  function Len(o: Object): u64 { if o.meta.Some? then o.meta.value.len else 0 }

  function IsDir(o: Object): bool { o.meta.Some? && o.meta.value.isDir }

  function TypeOf(o: Object): u32 {
    if o.meta.None? then o.defaultType else if IsDir(o) then NF4DIR else NF4REG
  }

  function Modified(m: Option<Meta>): Time {
    if m.Some? && m.value.modified.Some? then m.value.modified.value else Time(0, 0)
  }

  function Created(m: Option<Meta>): Time {
    if m.Some? && m.value.created.Some? then m.value.created.value else Time(0, 0)
  }

  function Accessed(m: Option<Meta>): Time {
    if m.Some? && m.value.accessed.Some? then m.value.accessed.value else Modified(m)
  }

  /** `as_nanos() as u64` */
  function ChangeOf(m: Option<Meta>): u64 {
    (Modified(m).secs * 1_000_000_000 + Modified(m).nanos) % 0x1_0000_0000_0000_0000
  }

  function FileId(o: Object): u64 {
    if o.isRoot || o.path == [] then 2 else Fnv1a(o.path)
  }

  /** The size rounded up to 512-byte blocks, in wrapping 64-bit arithmetic. */
  function SpaceUsed(len: u64): u64 {
    if len == 0 then 0 else (len + 511) % 0x1_0000_0000_0000_0000 / 512 * 512
  }

  const ROOT_NAME: seq<byte> := [0x72, 0x6f, 0x6f, 0x74]  // "root"

  /** The value of attribute `bit` of `o`. */
  function Value(o: Object, bit: nat): (v: AttrVal)
    ensures v.Text? ==> |v.text| == 4
  {
    match bit
    case 0 => Words(Bm0Provide(), Bm1Provide())
    case 1 => Word(TypeOf(o))
    case 2 => Word(1)
    case 3 => Long(ChangeOf(o.meta))
    case 4 => Long(Len(o))
    case 5 => Word(1)
    case 6 => Word(1)
    case 7 => Word(0)
    case 8 => Fsid(1, 0)
    case 9 => Word(1)
    case 10 => Word(90)
    case 13 => Long(500 * 1024 * 1024 * 1024)
    case 14 => Long(1024 * 1024 * 1024 * 1024)
    case 15 => Long(1024 * 1024 * 1024 * 1024)
    case 20 => Long(FileId(o))
    case 33 => Word(if IsDir(o) then 0x1ED else 0x1A4)  // 0o755, 0o644
    case 35 => Word(1)
    case 36 => Text(ROOT_NAME)
    case 37 => Text(ROOT_NAME)
    case 41 => Device(0, 0)
    case 45 => Long(SpaceUsed(Len(o)))
    case 46 => Long(0)
    case 47 => Stamp(Accessed(o.meta).secs, Accessed(o.meta).nanos)
    case 52 => Stamp(Created(o.meta).secs, 0)
    case 53 => Stamp(Modified(o.meta).secs, 0)
    case 55 => Long(FileId(o))
    case _ => Word(0)
  }

  function SizeOf(v: AttrVal): nat {
    match v
    case Words(_, _) => 12
    case Word(_) => 4
    case Long(_) => 8
    case Fsid(_, _) => 16
    case Text(text) => 4 + Pad4(|text|)
    case Device(_, _) => 8
    case Stamp(_, _) => 12
  }

  function EncodeVal(v: AttrVal): (s: seq<byte>)
    requires v.Text? ==> |v.text| < 0x1_0000_0000
    ensures |s| == SizeOf(v)
  {
    match v
    case Words(w0, w1) => Be32(2) + Be32(w0) + Be32(w1)
    case Word(n) => Be32(n)
    case Long(l) => Be64(l)
    case Fsid(major, minor) => Be64(major) + Be64(minor)
    case Text(text) => Opaque(text)
    case Device(d1, d2) => Be32(d1) + Be32(d2)
    case Stamp(secs, nsecs) => Be64(secs) + Be32(nsecs)
  }

  function AttrBytes(o: Object, bit: nat): (s: seq<byte>)
    ensures |s| % 4 == 0 && 4 <= |s| <= 16
  {
    hide Value, EncodeVal;
    EncodeVal(Value(o, bit))
  }

  /** Bit `bit` of the two-word bitmap. */
  predicate Has(w0: u32, w1: u32, bit: nat) {
    if bit < 32 then Bit(w0, bit) else Bit(w1, bit - 32)
  }

  /** What attribute `bit` contributes to a reply whose bitmap is `w0`, `w1`. */
  function Part(o: Object, w0: u32, w1: u32, bit: nat): (s: seq<byte>)
    ensures |s| % 4 == 0 && |s| <= 16
  {
    if Has(w0, w1, bit) then AttrBytes(o, bit) else []
  }

  /** The values of the attributes lo..hi that the bitmap names, in ascending order. */
  function Values(o: Object, w0: u32, w1: u32, lo: nat, hi: nat): (s: seq<byte>)
    ensures lo <= hi ==> |s| <= 16 * (hi - lo)
  {
    hide Part;
    if hi <= lo then [] else Values(o, w0, w1, lo, hi - 1) + Part(o, w0, w1, hi - 1)
  }

  lemma ValuesBack(o: Object, w0: u32, w1: u32, lo: nat, hi: nat)
    requires lo < hi
    ensures Values(o, w0, w1, lo, hi) == Values(o, w0, w1, lo, hi - 1) + Part(o, w0, w1, hi - 1)
  {
    hide Part;
  }

  lemma ValuesNone(o: Object, w0: u32, w1: u32, lo: nat, hi: nat)
    requires hi <= lo
    ensures Values(o, w0, w1, lo, hi) == []
  {
  }

  /** The values always fill whole XDR units, so the reply needs no padding. */
  lemma {:induction false} ValuesAligned(o: Object, w0: u32, w1: u32, lo: nat, hi: nat)
    ensures |Values(o, w0, w1, lo, hi)| % 4 == 0
    decreases hi
  {
    hide *;
    if hi <= lo {
      ValuesNone(o, w0, w1, lo, hi);
    } else {
      ValuesAligned(o, w0, w1, lo, hi - 1);
      ValuesBack(o, w0, w1, lo, hi);
      SumAligned(|Values(o, w0, w1, lo, hi - 1)|, |Part(o, w0, w1, hi - 1)|);
    }
  }

  lemma {:induction false} ValuesFront(o: Object, w0: u32, w1: u32, lo: nat, hi: nat)
    requires lo < hi
    ensures Values(o, w0, w1, lo, hi) == Part(o, w0, w1, lo) + Values(o, w0, w1, lo + 1, hi)
    decreases hi
  {
    hide Part;
    if hi == lo + 1 {
      assert Values(o, w0, w1, lo, lo) == [] && Values(o, w0, w1, lo + 1, hi) == [];
    } else {
      ValuesFront(o, w0, w1, lo, hi - 1);
    }
  }

  // ----- the builder -----

  /** `w & (1 << k) != 0` */
  predicate Test(w: u32, k: nat)
    ensures Test(w, k) == Bit(w, k)
  {
    MaskTestsBit(w, k);
    BitAnd(w, Pow2(k)) != 0
  }

  function Requested(bitmap: seq<u32>, i: nat): u32 {
    if i < |bitmap| then bitmap[i] else 0
  }

  /** What the server answers about: the attributes both requested and provided. */
  function Actual0(bitmap: seq<u32>): u32 { BitAnd(Requested(bitmap, 0), Bm0Provide()) }
  function Actual1(bitmap: seq<u32>): u32 { BitAnd(Requested(bitmap, 1), Bm1Provide()) }

  predicate Supported(bit: nat) {
    bit <= 10 || bit == 20 || bit == 33 || 35 <= bit <= 37 || bit == 41 || 45 <= bit <= 47
    || bit == 52 || bit == 53 || bit == 55
  }

  lemma ProvidedIsSupported(bit: nat)
    requires bit < 64
    ensures Supported(bit) <==> if bit < 32 then bit in PROVIDED0 else bit - 32 in PROVIDED1
  {
    if bit < 32 && Supported(bit) {
      assert PROVIDED0[if bit == 20 then 11 else bit] == bit;
    }
    if bit >= 32 && Supported(bit) {
      var i := if bit == 33 then 0 else if bit <= 37 then bit - 34 else if bit == 41 then 4
               else if bit <= 47 then bit - 40 else if bit <= 53 then bit - 44 else 10;
      assert PROVIDED1[i] == bit - 32;
    }
  }

  /** The returned bitmap is exactly requested AND supported, over the two words. */
  lemma ReturnedBitmap(bitmap: seq<u32>, bit: nat)
    requires bit < 64
    ensures Has(Actual0(bitmap), Actual1(bitmap), bit) <==>
            Supported(bit) && Has(Requested(bitmap, 0), Requested(bitmap, 1), bit)
  {
    hide Bit, Mask, BitAnd;
    ProvidedIsSupported(bit);
    if bit < 32 {
      MaskHasBits(PROVIDED0, bit);
      BitOfAnd(Requested(bitmap, 0), Bm0Provide(), bit);
    } else {
      MaskHasBits(PROVIDED1, bit - 32);
      BitOfAnd(Requested(bitmap, 1), Bm1Provide(), bit - 32);
    }
  }

  /** The wire form: bitmap length and words, then the values as an opaque. */
  function Fattr4(o: Object, bitmap: seq<u32>): (s: seq<byte>)
    ensures |s| >= 16
  {
    hide Values, Be;
    var w0, w1 := Actual0(bitmap), Actual1(bitmap);
    Be32(2) + Be32(w0) + Be32(w1) + Opaque(Values(o, w0, w1, 0, 64))
  }

  lemma NotProvided(o: Object, bitmap: seq<u32>, bit: nat)
    requires bit < 64 && !Supported(bit)
    ensures Part(o, Actual0(bitmap), Actual1(bitmap), bit) == []
  {
    ReturnedBitmap(bitmap, bit);
    hide Has, Actual0, Actual1, AttrBytes;
  }

  /** Runs of attribute numbers that the server does not provide contribute nothing. */
  lemma {:induction false} Gap(o: Object, bitmap: seq<u32>, lo: nat, hi: nat)
    requires lo <= hi <= 64
    requires forall i :: lo <= i < hi ==> !Supported(i)
    ensures Values(o, Actual0(bitmap), Actual1(bitmap), 0, hi) ==
            Values(o, Actual0(bitmap), Actual1(bitmap), 0, lo)
    decreases hi
  {
    hide Part, Actual0, Actual1, Supported;
    if lo < hi {
      Gap(o, bitmap, lo, hi - 1);
      NotProvided(o, bitmap, hi - 1);
    }
  }

  lemma Next(o: Object, w0: u32, w1: u32, k: nat)
    ensures Values(o, w0, w1, 0, k + 1) ==
            Values(o, w0, w1, 0, k) + (if Has(w0, w1, k) then EncodeVal(Value(o, k)) else [])
  {
  }

  /** Attributes 0 to 2: supported_attrs, type and handle expiry. */
  method AppendBasic(o: Object, ghost bitmap: seq<u32>, w0: u32, ghost w1: u32, vals0: seq<byte>)
    returns (vals: seq<byte>)
    requires w0 == Actual0(bitmap) && w1 == Actual1(bitmap)
    requires vals0 == Values(o, w0, w1, 0, 0)
    ensures vals == Values(o, w0, w1, 0, 3)
  {
    hide Bit, Be, Actual0, Actual1, Mask, BitAnd, Values, Part, Opaque, Fnv1a, Test, Pow2;
    hide Bm0Provide, Bm1Provide, SizeOf, Pow256, Zeros;
    vals := vals0;
    if Test(w0, 0) {  // supported_attrs
      vals := vals + (Be32(2) + Be32(Bm0Provide()) + Be32(Bm1Provide()));
    }
    assert vals == Values(o, w0, w1, 0, 1) by { Next(o, w0, w1, 0); }
    if Test(w0, 1) {  // type
      var ftype := match o.meta case Some(m) => (if m.isDir then NF4DIR else NF4REG) case None => o.defaultType;
      vals := vals + Be32(ftype);
    }
    assert vals == Values(o, w0, w1, 0, 2) by { Next(o, w0, w1, 1); }
    if Test(w0, 2) {  // fh_expire_type: persistent
      vals := vals + Be32(1);
    }
    assert vals == Values(o, w0, w1, 0, 3) by { Next(o, w0, w1, 2); }
  }

  /** Attributes 3 and 4: change and size. */
  method AppendContents(o: Object, ghost bitmap: seq<u32>, w0: u32, ghost w1: u32, vals0: seq<byte>)
    returns (vals: seq<byte>)
    requires w0 == Actual0(bitmap) && w1 == Actual1(bitmap)
    requires vals0 == Values(o, w0, w1, 0, 3)
    ensures vals == Values(o, w0, w1, 0, 5)
  {
    hide Bit, Be, Actual0, Actual1, Mask, BitAnd, Values, Part, Opaque, Fnv1a, Test, Pow2;
    hide Bm0Provide, Bm1Provide, SizeOf, Pow256, Zeros;
    vals := vals0;
    if Test(w0, 3) {  // change
      var mtime := 0;
      if o.meta.Some? && o.meta.value.modified.Some? {
        var t := o.meta.value.modified.value;
        mtime := (t.secs * 1_000_000_000 + t.nanos) % 0x1_0000_0000_0000_0000;
      }
      vals := vals + Be64(mtime);
    }
    assert vals == Values(o, w0, w1, 0, 4) by { Next(o, w0, w1, 3); }
    if Test(w0, 4) {  // size
      var size := match o.meta case Some(m) => m.len case None => 0;
      vals := vals + Be64(size);
    }
    assert vals == Values(o, w0, w1, 0, 5) by { Next(o, w0, w1, 4); }
  }

  /** Attributes 5 to 12: filesystem-wide flags. */
  method AppendFlags(o: Object, ghost bitmap: seq<u32>, w0: u32, ghost w1: u32, vals0: seq<byte>)
    returns (vals: seq<byte>)
    requires w0 == Actual0(bitmap) && w1 == Actual1(bitmap)
    requires vals0 == Values(o, w0, w1, 0, 5)
    ensures vals == Values(o, w0, w1, 0, 13)
  {
    hide Bit, Be, Actual0, Actual1, Mask, BitAnd, Values, Part, Opaque, Fnv1a, Test, Pow2;
    hide Bm0Provide, Bm1Provide, SizeOf, Pow256, Zeros;
    vals := vals0;
    if Test(w0, 5) {  // link_support
      vals := vals + Be32(1);
    }
    assert vals == Values(o, w0, w1, 0, 6) by { Next(o, w0, w1, 5); }
    if Test(w0, 6) {  // symlink_support
      vals := vals + Be32(1);
    }
    assert vals == Values(o, w0, w1, 0, 7) by { Next(o, w0, w1, 6); }
    if Test(w0, 7) {  // named_attr
      vals := vals + Be32(0);
    }
    assert vals == Values(o, w0, w1, 0, 8) by { Next(o, w0, w1, 7); }
    if Test(w0, 8) {  // fsid
      vals := vals + (Be64(1) + Be64(0));
    }
    assert vals == Values(o, w0, w1, 0, 9) by { Next(o, w0, w1, 8); }
    if Test(w0, 9) {  // unique_handles
      vals := vals + Be32(1);
    }
    assert vals == Values(o, w0, w1, 0, 10) by { Next(o, w0, w1, 9); }
    if Test(w0, 10) {  // lease_time
      vals := vals + Be32(90);
    }
    assert vals == Values(o, w0, w1, 0, 11) by { Next(o, w0, w1, 10); }
    assert vals == Values(o, w0, w1, 0, 13) by { Gap(o, bitmap, 11, 13); }
  }

  /** Attributes 13 to 31: the space attributes that are never provided, and fileid. */
  method AppendIdentity(o: Object, ghost bitmap: seq<u32>, w0: u32, ghost w1: u32, vals0: seq<byte>)
    returns (vals: seq<byte>)
    requires w0 == Actual0(bitmap) && w1 == Actual1(bitmap)
    requires vals0 == Values(o, w0, w1, 0, 13)
    ensures vals == Values(o, w0, w1, 0, 32)
  {
    hide Bit, Be, Actual0, Actual1, Mask, BitAnd, Values, Part, Opaque, Fnv1a, Test, Pow2;
    hide Bm0Provide, Bm1Provide, SizeOf, Pow256, Zeros;
    vals := vals0;
    if Test(w0, 13) {  // space_free, never provided
      vals := vals + Be64(500 * 1024 * 1024 * 1024);
    }
    assert vals == Values(o, w0, w1, 0, 14) by { Next(o, w0, w1, 13); }
    if Test(w0, 14) {  // space_total, never provided
      vals := vals + Be64(1024 * 1024 * 1024 * 1024);
    }
    assert vals == Values(o, w0, w1, 0, 15) by { Next(o, w0, w1, 14); }
    if Test(w0, 15) {  // space_avail, never provided
      vals := vals + Be64(1024 * 1024 * 1024 * 1024);
    }
    assert vals == Values(o, w0, w1, 0, 16) by { Next(o, w0, w1, 15); }
    assert vals == Values(o, w0, w1, 0, 20) by { Gap(o, bitmap, 16, 20); }
    if Test(w0, 20) {  // fileid
      var fileid := 2;
      if !o.isRoot && o.path != [] { fileid := GetInode(o.path); }
      vals := vals + Be64(fileid);
    }
    assert vals == Values(o, w0, w1, 0, 21) by { Next(o, w0, w1, 20); }
    assert vals == Values(o, w0, w1, 0, 32) by { Gap(o, bitmap, 21, 32); }
  }

  /** Attributes 32 to 37: mode, links and owners. */
  method AppendOwner(o: Object, ghost bitmap: seq<u32>, ghost w0: u32, w1: u32, vals0: seq<byte>)
    returns (vals: seq<byte>)
    requires w0 == Actual0(bitmap) && w1 == Actual1(bitmap)
    requires vals0 == Values(o, w0, w1, 0, 32)
    ensures vals == Values(o, w0, w1, 0, 38)
  {
    hide Bit, Be, Actual0, Actual1, Mask, BitAnd, Values, Part, Opaque, Fnv1a, Test, Pow2;
    hide Bm0Provide, Bm1Provide, SizeOf, Pow256, Zeros;
    vals := vals0;
    assert vals == Values(o, w0, w1, 0, 33) by { Gap(o, bitmap, 32, 33); }
    if Test(w1, 33 - 32) {  // mode
      var mode := if o.meta.Some? && o.meta.value.isDir then 0x1ED else 0x1A4;
      vals := vals + Be32(mode);
    }
    assert vals == Values(o, w0, w1, 0, 34) by { Next(o, w0, w1, 33); }
    assert vals == Values(o, w0, w1, 0, 35) by { Gap(o, bitmap, 34, 35); }
    if Test(w1, 35 - 32) {  // numlinks
      vals := vals + Be32(1);
    }
    assert vals == Values(o, w0, w1, 0, 36) by { Next(o, w0, w1, 35); }
    if Test(w1, 36 - 32) {  // owner
      vals := vals + Opaque(ROOT_NAME);
    }
    assert vals == Values(o, w0, w1, 0, 37) by { Next(o, w0, w1, 36); }
    if Test(w1, 37 - 32) {  // owner_group
      vals := vals + Opaque(ROOT_NAME);
    }
    assert vals == Values(o, w0, w1, 0, 38) by { Next(o, w0, w1, 37); }
  }

  /** Attributes 38 to 46: device and space. */
  method AppendUsage(o: Object, ghost bitmap: seq<u32>, ghost w0: u32, w1: u32, vals0: seq<byte>)
    returns (vals: seq<byte>)
    requires w0 == Actual0(bitmap) && w1 == Actual1(bitmap)
    requires vals0 == Values(o, w0, w1, 0, 38)
    ensures vals == Values(o, w0, w1, 0, 47)
  {
    hide Bit, Be, Actual0, Actual1, Mask, BitAnd, Values, Part, Opaque, Fnv1a, Test, Pow2;
    hide Bm0Provide, Bm1Provide, SizeOf, Pow256, Zeros;
    vals := vals0;
    assert vals == Values(o, w0, w1, 0, 41) by { Gap(o, bitmap, 38, 41); }
    if Test(w1, 41 - 32) {  // rawdev
      vals := vals + (Be32(0) + Be32(0));
    }
    assert vals == Values(o, w0, w1, 0, 42) by { Next(o, w0, w1, 41); }
    assert vals == Values(o, w0, w1, 0, 45) by { Gap(o, bitmap, 42, 45); }
    if Test(w1, 45 - 32) {  // space_used
      var size := match o.meta case Some(m) => m.len case None => 0;
      var used := if size == 0 then 0 else (size + 511) % 0x1_0000_0000_0000_0000 / 512 * 512;
      vals := vals + Be64(used);
    }
    assert vals == Values(o, w0, w1, 0, 46) by { Next(o, w0, w1, 45); }
    if Test(w1, 46 - 32) {  // space_freed
      vals := vals + Be64(0);
    }
    assert vals == Values(o, w0, w1, 0, 47) by { Next(o, w0, w1, 46); }
  }

  /** Attributes 47 to 53: access, metadata and modification times. */
  method AppendTimes(o: Object, ghost bitmap: seq<u32>, ghost w0: u32, w1: u32, vals0: seq<byte>)
    returns (vals: seq<byte>)
    requires w0 == Actual0(bitmap) && w1 == Actual1(bitmap)
    requires vals0 == Values(o, w0, w1, 0, 47)
    ensures vals == Values(o, w0, w1, 0, 54)
  {
    hide Bit, Be, Actual0, Actual1, Mask, BitAnd, Values, Part, Opaque, Fnv1a, Test, Pow2;
    hide Bm0Provide, Bm1Provide, SizeOf, Pow256, Zeros;
    vals := vals0;
    if Test(w1, 47 - 32) {  // time_access
      var t := match o.meta
        case Some(m) =>
          (if m.accessed.Some? then m.accessed.value
           else if m.modified.Some? then m.modified.value else Time(0, 0))
        case None => Time(0, 0);
      vals := vals + (Be64(t.secs) + Be32(t.nanos));
    }
    assert vals == Values(o, w0, w1, 0, 48) by { Next(o, w0, w1, 47); }
    assert vals == Values(o, w0, w1, 0, 52) by { Gap(o, bitmap, 48, 52); }
    if Test(w1, 52 - 32) {  // time_metadata
      var secs := match o.meta case Some(m) => (if m.created.Some? then m.created.value.secs else 0) case None => 0;
      vals := vals + (Be64(secs) + Be32(0));
    }
    assert vals == Values(o, w0, w1, 0, 53) by { Next(o, w0, w1, 52); }
    if Test(w1, 53 - 32) {  // time_modify
      var secs := match o.meta case Some(m) => (if m.modified.Some? then m.modified.value.secs else 0) case None => 0;
      vals := vals + (Be64(secs) + Be32(0));
    }
    assert vals == Values(o, w0, w1, 0, 54) by { Next(o, w0, w1, 53); }
  }

  /** Attributes 54 to 63: mounted_on_fileid. */
  method AppendMountedOn(o: Object, ghost bitmap: seq<u32>, ghost w0: u32, w1: u32, vals0: seq<byte>)
    returns (vals: seq<byte>)
    requires w0 == Actual0(bitmap) && w1 == Actual1(bitmap)
    requires vals0 == Values(o, w0, w1, 0, 54)
    ensures vals == Values(o, w0, w1, 0, 64)
  {
    hide Bit, Be, Actual0, Actual1, Mask, BitAnd, Values, Part, Opaque, Fnv1a, Test, Pow2;
    hide Bm0Provide, Bm1Provide, SizeOf, Pow256, Zeros;
    vals := vals0;
    assert vals == Values(o, w0, w1, 0, 55) by { Gap(o, bitmap, 54, 55); }
    if Test(w1, 55 - 32) {  // mounted_on_fileid
      var mof := 2;
      if !o.isRoot && o.path != [] { mof := GetInode(o.path); }
      vals := vals + Be64(mof);
    }
    assert vals == Values(o, w0, w1, 0, 56) by { Next(o, w0, w1, 55); }
    assert vals == Values(o, w0, w1, 0, 64) by { Gap(o, bitmap, 56, 64); }
  }

  method BuildFattr4(o: Object, requestedBitmap: seq<u32>) returns (result: seq<byte>)
    ensures result == Fattr4(o, requestedBitmap)
  {
    hide Bit, Be, Mask, BitAnd;
    var bm0 := if |requestedBitmap| > 0 then requestedBitmap[0] else 0;
    var bm1 := if |requestedBitmap| > 1 then requestedBitmap[1] else 0;
    var w0 := BitAnd(bm0, Bm0Provide());
    var w1 := BitAnd(bm1, Bm1Provide());
    var vals: seq<byte> := [];
    vals := AppendBasic(o, requestedBitmap, w0, w1, vals);
    vals := AppendContents(o, requestedBitmap, w0, w1, vals);
    vals := AppendFlags(o, requestedBitmap, w0, w1, vals);
    vals := AppendIdentity(o, requestedBitmap, w0, w1, vals);
    vals := AppendOwner(o, requestedBitmap, w0, w1, vals);
    vals := AppendUsage(o, requestedBitmap, w0, w1, vals);
    vals := AppendTimes(o, requestedBitmap, w0, w1, vals);
    vals := AppendMountedOn(o, requestedBitmap, w0, w1, vals);
    result := Be32(2) + Be32(w0) + Be32(w1);
    result := result + Be32(|vals|) + vals + Zeros(Pad4(|vals|) - |vals|);
  }

  // ----- the values, from what the filesystem reports -----

  /** Nanoseconds since the epoch. */
  function Nanos(t: Time): nat { t.secs * 1_000_000_000 + t.nanos }

  /** A stamp that 64 bits of nanoseconds can hold: before the year 2554. */
  predicate Representable(t: Time) {
    t.nanos < 1_000_000_000 && Nanos(t) < 0x1_0000_0000_0000_0000
  }

  predicate Earlier(t: Time, u: Time) {
    t.secs < u.secs || (t.secs == u.secs && t.nanos < u.nanos)
  }

  lemma NanosOrder(t: Time, u: Time)
    requires t.nanos < 1_000_000_000 && u.nanos < 1_000_000_000
    ensures Nanos(t) == Nanos(u) <==> t == u
    ensures Nanos(t) < Nanos(u) <==> Earlier(t, u)
  {
  }

  lemma ChangeIsNanos(o: Object)
    requires o.meta.Some? && o.meta.value.modified.Some?
    ensures AttrBytes(o, 3) == Be64(Low64(Nanos(o.meta.value.modified.value)))
  {
    hide Be, FileId, SpaceUsed, Accessed, Created, Bm0Provide, Bm1Provide;
    assert Value(o, 3) == Long(ChangeOf(o.meta));
    hide Value;
  }

  /** Truncation to 64 bits. */
  function Low64(n: nat): u64 { n % 0x1_0000_0000_0000_0000 }

  lemma SameLow64(a: nat, b: nat)
    ensures Low64(a) == Low64(b) <==> (a - b) % 0x1_0000_0000_0000_0000 == 0
    ensures a < 0x1_0000_0000_0000_0000 ==> Low64(a) == a
  {
    var q, r := a / 0x1_0000_0000_0000_0000, b / 0x1_0000_0000_0000_0000;
    assert a - b == (q - r) * 0x1_0000_0000_0000_0000 + (Low64(a) - Low64(b));
  }

  /** Attribute 3 tells two states of a file apart exactly when their modification stamps are not a
      multiple of 2^64 nanoseconds apart. */
  lemma ChangeTellsApart(o: Object, p: Object)
    requires o.meta.Some? && o.meta.value.modified.Some? && p.meta.Some? && p.meta.value.modified.Some?
    ensures var t, u := o.meta.value.modified.value, p.meta.value.modified.value;
            AttrBytes(o, 3) == AttrBytes(p, 3) <==> (Nanos(t) - Nanos(u)) % 0x1_0000_0000_0000_0000 == 0
  {
    ChangeIsNanos(o);
    ChangeIsNanos(p);
    var a, b := Nanos(o.meta.value.modified.value), Nanos(p.meta.value.modified.value);
    hide Nanos, AttrBytes, Be, Low64;
    SameLow64(a, b);
    if AttrBytes(o, 3) == AttrBytes(p, 3) { Be64Injective(Low64(a), Low64(b)); }
  }

  /** For stamps that 64 bits can hold, attribute 3 is as good as the stamp: the same for the same
      stamp only, and later for the later one. */
  lemma ChangeIsStamp(o: Object, p: Object)
    requires o.meta.Some? && o.meta.value.modified.Some? && p.meta.Some? && p.meta.value.modified.Some?
    requires Representable(o.meta.value.modified.value) && Representable(p.meta.value.modified.value)
    ensures var t, u := o.meta.value.modified.value, p.meta.value.modified.value;
            && (AttrBytes(o, 3) == AttrBytes(p, 3) <==> t == u)
            && (FromBe(AttrBytes(o, 3)) < FromBe(AttrBytes(p, 3)) <==> Earlier(t, u))
  {
    hide Nanos, AttrBytes, Be, FromBe, Earlier, Low64;
    var t, u := o.meta.value.modified.value, p.meta.value.modified.value;
    ChangeIsNanos(o);
    ChangeIsNanos(p);
    NanosOrder(t, u);
    SameLow64(Nanos(t), Nanos(u));
    SameLow64(Nanos(u), Nanos(t));
    RoundTrip64(Nanos(t));
    RoundTrip64(Nanos(u));
  }

  /** The attributes that are the same for every object: first those that are one word. */
  lemma FixedWords(o: Object)
    ensures AttrBytes(o, 2) == AttrBytes(o, 5) == AttrBytes(o, 6) == AttrBytes(o, 9) == AttrBytes(o, 35) == Be32(1)
    ensures AttrBytes(o, 7) == Be32(0)
    ensures AttrBytes(o, 10) == Be32(90)
  {
    hide Be, Bm0Provide, Bm1Provide, ChangeOf, FileId, Accessed, Modified, Created, SpaceUsed;
  }

  /** fsid, owner and group ("root"), device, and freed space. */
  lemma FixedAttributes(o: Object)
    ensures AttrBytes(o, 8) == Be64(1) + Be64(0)
    ensures AttrBytes(o, 36) == AttrBytes(o, 37) == Be32(4) + [0x72, 0x6f, 0x6f, 0x74]
    ensures AttrBytes(o, 41) == Be32(0) + Be32(0)
    ensures AttrBytes(o, 46) == Be64(0)
  {
    hide Be, Bm0Provide, Bm1Provide, ChangeOf, FileId, Accessed, Modified, Created, SpaceUsed;
  }

  /** A stamp the filesystem does not report counts as the epoch. */
  function OrEpoch(t: Option<Time>): Time { if t.Some? then t.value else Time(0, 0) }

  /** The attributes of an object whose metadata could be read. */
  lemma ReportedAttributes(o: Object)
    requires o.meta.Some?
    ensures var m := o.meta.value;
            var t := if m.accessed.Some? then m.accessed.value else OrEpoch(m.modified);
            && AttrBytes(o, 1) == Be32(if m.isDir then 2 else 1)
            && AttrBytes(o, 4) == Be64(m.len)
            && AttrBytes(o, 33) == Be32(if m.isDir then 7 * 64 + 5 * 8 + 5 else 6 * 64 + 4 * 8 + 4)
            && AttrBytes(o, 47) == Be64(t.secs) + Be32(t.nanos)
            && AttrBytes(o, 52) == Be64(OrEpoch(m.created).secs) + Be32(0)
            && AttrBytes(o, 53) == Be64(OrEpoch(m.modified).secs) + Be32(0)
  {
    hide Be, Bm0Provide, Bm1Provide, ChangeOf, FileId, SpaceUsed;
  }

  /** And of one whose metadata could not. */
  lemma UnreportedAttributes(o: Object)
    requires o.meta.None?
    ensures AttrBytes(o, 1) == Be32(o.defaultType)
    ensures AttrBytes(o, 3) == AttrBytes(o, 4) == AttrBytes(o, 45) == Be64(0)
    ensures AttrBytes(o, 33) == Be32(6 * 64 + 4 * 8 + 4)
    ensures AttrBytes(o, 47) == AttrBytes(o, 52) == AttrBytes(o, 53) == Be64(0) + Be32(0)
  {
    hide Be, Bm0Provide, Bm1Provide, FileId;
  }

  /** Space used: the size rounded up to blocks of 512 bytes. */
  lemma SpaceUsedIsBlocks(o: Object)
    requires o.meta.Some? && o.meta.value.len <= MAX_U64 - 511
    ensures exists blocks: nat ::
              && blocks * 512 <= MAX_U64
              && AttrBytes(o, 45) == Be64(blocks * 512)
              && o.meta.value.len <= blocks * 512 < o.meta.value.len + 512
  {
    hide Be, Bm0Provide, Bm1Provide, ChangeOf, FileId, Accessed, Modified, Created;
    var blocks := (o.meta.value.len + 511) / 512;
    assert AttrBytes(o, 45) == Be64(blocks * 512);
  }

  /** An object and what it is mounted on have one file id: 2 for the pseudo root, and the hash of
      the path for everything else. */
  lemma FileIds(o: Object)
    ensures AttrBytes(o, 20) == AttrBytes(o, 55) == Be64(if o.isRoot || o.path == [] then 2 else Fnv1a(o.path))
  {
    hide Be, Fnv1a, Bm0Provide, Bm1Provide, ChangeOf, Accessed, Modified, Created, SpaceUsed;
  }

  /** Attribute 0 names the attributes that can be returned, and no others. */
  lemma SupportedAttrs(o: Object, bit: nat)
    requires bit < 64
    ensures |AttrBytes(o, 0)| == 12 && AttrBytes(o, 0)[..4] == Be32(2)
    ensures Has(FromWord(AttrBytes(o, 0), 4), FromWord(AttrBytes(o, 0), 8), bit) <==> Supported(bit)
  {
    hide Be, FromBe, Bm0Provide, Bm1Provide, Mask, Bit, ChangeOf, FileId, Accessed, Modified, Created, SpaceUsed;
    var s := AttrBytes(o, 0);
    assert s == Be32(2) + Be32(Bm0Provide()) + Be32(Bm1Provide());
    assert s[..4] == Be32(2) && s[4..8] == Be32(Bm0Provide()) && s[8..12] == Be32(Bm1Provide());
    RoundTrip32(Bm0Provide());
    RoundTrip32(Bm1Provide());
    ProvidedBits(bit);
  }

  function FromWord(s: seq<byte>, p: nat): u32
    requires p + 4 <= |s|
  {
    Read32(s[p..p + 4])
  }

  lemma ProvidedBits(bit: nat)
    requires bit < 64
    ensures Has(Bm0Provide(), Bm1Provide(), bit) <==> Supported(bit)
  {
    hide Bit, Mask;
    ProvidedIsSupported(bit);
    if bit < 32 { MaskHasBits(PROVIDED0, bit); } else { MaskHasBits(PROVIDED1, bit - 32); }
  }

  /** A bitmap shorter than two words asks for nothing in the words it lacks; longer ones are cut. */
  lemma RequestedBits(bitmap: seq<u32>, bit: nat)
    requires bit < 64
    ensures Has(Requested(bitmap, 0), Requested(bitmap, 1), bit) <==>
            bit / 32 < |bitmap| && Bit(bitmap[bit / 32], bit % 32)
  {
    hide Bit;
    ZeroHasNoBits(bit % 32);
  }
}
