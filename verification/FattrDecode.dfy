/**
  A client's view of the attributes: a decoder that walks the bitmap with each attribute's XDR
  type, and the proof that it recovers everything `build_fattr4` sent.
*/
module FattrDecode {
  import opened Wire
  import opened Fattr

  datatype Shape = AsWords | AsWord | AsLong | AsFsid | AsText | AsDevice | AsStamp | Unknown

  /** The XDR type of each attribute in section 5 of RFC 5661, except for attribute 46: the
      server sends a 64-bit `space_freed` there, where the RFC has the boolean `system`.
      `system` selects the RFC's reading. */
  function ShapeOf(bit: nat, system: bool): Shape {
    if bit == 0 then AsWords
    else if bit == 46 then if system then AsWord else AsLong
    else if bit in {1, 2, 5, 6, 7, 9, 10, 33, 35} then AsWord
    else if bit in {3, 4, 20, 45, 55} then AsLong
    else if bit == 8 then AsFsid
    else if bit in {36, 37} then AsText
    else if bit == 41 then AsDevice
    else if bit in {47, 52, 53} then AsStamp
    else Unknown
  }

  /** Decode one value and return what follows it. */
  function DecodeVal(shape: Shape, s: seq<byte>): Option<(AttrVal, seq<byte>)> {
    match shape
    case AsWords =>
      if |s| >= 12 && Read32(s[..4]) == 2 then Some((Words(Read32(s[4..8]), Read32(s[8..12])), s[12..])) else None
    case AsWord => if |s| >= 4 then Some((Word(Read32(s[..4])), s[4..])) else None
    case AsLong => if |s| >= 8 then Some((Long(Read64(s[..8])), s[8..])) else None
    case AsFsid => if |s| >= 16 then Some((Fsid(Read64(s[..8]), Read64(s[8..16])), s[16..])) else None
    case AsText =>
      if |s| < 4 then None
      else
        var n := Read32(s[..4]);
        if |s| >= 4 + Pad4(n) then Some((Text(s[4..4 + n]), s[4 + Pad4(n)..])) else None
    case AsDevice => if |s| >= 8 then Some((Device(Read32(s[..4]), Read32(s[4..8])), s[8..])) else None
    case AsStamp => if |s| >= 12 then Some((Stamp(Read64(s[..8]), Read32(s[8..12])), s[12..])) else None
    case Unknown => None
  }

  /** Walk the bitmap upwards; the values must be used up exactly. */
  function DecodeAttrs(system: bool, w0: u32, w1: u32, s: seq<byte>, bit: nat): Option<map<nat, AttrVal>>
    decreases 64 - bit
  {
    if bit >= 64 then if s == [] then Some(map[]) else None
    else if !Has(w0, w1, bit) then DecodeAttrs(system, w0, w1, s, bit + 1)
    else
      match DecodeVal(ShapeOf(bit, system), s)
      case None => None
      case Some((v, rest)) =>
        match DecodeAttrs(system, w0, w1, rest, bit + 1)
        case None => None
        case Some(m) => Some(m[bit := v])
  }

  datatype Attrs = Attrs(w0: u32, w1: u32, values: map<nat, AttrVal>)

  function ParseFattr4(system: bool, s: seq<byte>): (r: Option<(Attrs, seq<byte>)>)
    ensures r.Some? ==> |r.value.1| < |s|
  {
    if |s| < 16 || Read32(s[..4]) != 2 then None
    else
      var w0, w1, n := Read32(s[4..8]), Read32(s[8..12]), Read32(s[12..16]);
      if |s| < 16 + Pad4(n) then None
      else
        match DecodeAttrs(system, w0, w1, s[16..16 + n], 0)
        case None => None
        case Some(m) => Some((Attrs(w0, w1, m), s[16 + Pad4(n)..]))
  }

  // ----- decoding inverts encoding -----

  function ShapeOfVal(v: AttrVal): Shape {
    match v
    case Words(_, _) => AsWords
    case Word(_) => AsWord
    case Long(_) => AsLong
    case Fsid(_, _) => AsFsid
    case Text(_) => AsText
    case Device(_, _) => AsDevice
    case Stamp(_, _) => AsStamp
  }

  lemma ShapesAgree(o: Object, bit: nat, system: bool)
    requires Supported(bit)
    requires bit == 46 ==> !system
    ensures ShapeOf(bit, system) == ShapeOfVal(Value(o, bit))
  {
  }

  lemma DecodeValInverts(v: AttrVal, rest: seq<byte>)
    requires v.Text? ==> |v.text| < 0x1_0000_0000
    ensures DecodeVal(ShapeOfVal(v), EncodeVal(v) + rest) == Some((v, rest))
  {
    hide Be, FromBe;
    var s := EncodeVal(v) + rest;
    assert s[SizeOf(v)..] == rest;
    match v
    case Words(w0, w1) =>
      assert s[..4] == Be32(2) && s[4..8] == Be32(w0) && s[8..12] == Be32(w1);
      RoundTrip32(2); RoundTrip32(w0); RoundTrip32(w1);
    case Word(n) =>
      assert s[..4] == Be32(n);
      RoundTrip32(n);
    case Long(l) =>
      assert s[..8] == Be64(l);
      RoundTrip64(l);
    case Fsid(major, minor) =>
      assert s[..8] == Be64(major) && s[8..16] == Be64(minor);
      RoundTrip64(major); RoundTrip64(minor);
    case Text(text) =>
      assert s[..4] == Be32(|text|) && s[4..4 + |text|] == text;
      RoundTrip32(|text|);
    case Device(d1, d2) =>
      assert s[..4] == Be32(d1) && s[4..8] == Be32(d2);
      RoundTrip32(d1); RoundTrip32(d2);
    case Stamp(secs, nsecs) =>
      assert s[..8] == Be64(secs) && s[8..12] == Be32(nsecs);
      RoundTrip64(secs); RoundTrip32(nsecs);
  }

  /** The values a reply with this bitmap carries, from attribute `lo` on. */
  function Sent(o: Object, w0: u32, w1: u32, lo: nat): map<nat, AttrVal> {
    map i: nat | lo <= i < 64 && Has(w0, w1, i) :: Value(o, i)
  }

  lemma {:induction false} DecodeAttrsInverts(system: bool, o: Object, w0: u32, w1: u32, bit: nat)
    requires bit <= 64
    requires forall i :: bit <= i < 64 && Has(w0, w1, i) ==> Supported(i)
    requires system ==> bit > 46 || !Has(w0, w1, 46)
    ensures DecodeAttrs(system, w0, w1, Values(o, w0, w1, bit, 64), bit) == Some(Sent(o, w0, w1, bit))
    decreases 64 - bit
  {
    hide Has, Value, EncodeVal, ShapeOf, DecodeVal;
    if bit == 64 {
      assert Sent(o, w0, w1, bit) == map[];
    } else {
      DecodeAttrsInverts(system, o, w0, w1, bit + 1);
      ValuesFront(o, w0, w1, bit, 64);
      if Has(w0, w1, bit) {
        var v := Value(o, bit);
        ShapesAgree(o, bit, system);
        DecodeValInverts(v, Values(o, w0, w1, bit + 1, 64));
        assert Sent(o, w0, w1, bit) == Sent(o, w0, w1, bit + 1)[bit := v];
      } else {
        assert Values(o, w0, w1, bit, 64) == Values(o, w0, w1, bit + 1, 64);
        assert Sent(o, w0, w1, bit) == Sent(o, w0, w1, bit + 1);
      }
    }
  }

  lemma OnlySupported(bitmap: seq<u32>)
    ensures forall i :: 0 <= i < 64 && Has(Actual0(bitmap), Actual1(bitmap), i) ==> Supported(i)
  {
    forall i | 0 <= i < 64 && Has(Actual0(bitmap), Actual1(bitmap), i) ensures Supported(i) {
      ReturnedBitmap(bitmap, i);
    }
  }

  lemma ParseFrame(system: bool, w0: u32, w1: u32, vals: seq<byte>, rest: seq<byte>)
    requires |vals| < 0x1_0000_0000 && |vals| % 4 == 0
    ensures ParseFattr4(system, Be32(2) + Be32(w0) + Be32(w1) + Opaque(vals) + rest) ==
            match DecodeAttrs(system, w0, w1, vals, 0)
            case None => None
            case Some(m) => Some((Attrs(w0, w1, m), rest))
  {
    assert Pad4(|vals|) == |vals|;
    Slices(Be32(2), Be32(w0), Be32(w1), Be32(|vals|), vals, Zeros(0), rest);
    RoundTrip32(2);
    RoundTrip32(w0);
    RoundTrip32(w1);
    RoundTrip32(|vals|);
    hide Be, FromBe, DecodeAttrs;
  }

  lemma Slices(a: seq<byte>, b: seq<byte>, c: seq<byte>, d: seq<byte>, v: seq<byte>, pad: seq<byte>, rest: seq<byte>)
    requires |a| == |b| == |c| == |d| == 4
    ensures var s := a + b + c + (d + v + pad) + rest;
            && s[..4] == a && s[4..8] == b && s[8..12] == c && s[12..16] == d
            && s[16..16 + |v|] == v && s[16 + |v| + |pad|..] == rest
  {
  }

  /** For every requested bitmap and every object, decoding consumes the reply exactly and
      recovers the bitmap and every value. */
  lemma Fattr4RoundTrip(o: Object, bitmap: seq<u32>, rest: seq<byte>)
    ensures var w0, w1 := Actual0(bitmap), Actual1(bitmap);
            ParseFattr4(false, Fattr4(o, bitmap) + rest) == Some((Attrs(w0, w1, Sent(o, w0, w1, 0)), rest))
  {
    OnlySupported(bitmap);
    DecodeAttrsInverts(false, o, Actual0(bitmap), Actual1(bitmap), 0);
    ValuesAligned(o, Actual0(bitmap), Actual1(bitmap), 0, 64);
    ParseFrame(false, Actual0(bitmap), Actual1(bitmap), Values(o, Actual0(bitmap), Actual1(bitmap), 0, 64), rest);
    hide Actual0, Actual1, Values, ParseFattr4, Opaque, Has;
  }

  // ----- attribute 46, read as RFC 5661 defines it -----

  lemma StampOrLong(bit: nat, s: seq<byte>, o: Object)
    requires Supported(bit) && bit > 46
    ensures match DecodeVal(ShapeOf(bit, true), s)
            case None => true
            case Some((v, rest)) => |s| == |AttrBytes(o, bit)| + |rest|
  {
    hide Read32, Read64, Be, ChangeOf, Accessed, Modified, Created, FileId;
    assert bit in {47, 52, 53, 55};
    if bit == 55 {
      assert ShapeOf(bit, true) == AsLong && Value(o, bit).Long?;
    } else {
      assert ShapeOf(bit, true) == AsStamp && Value(o, bit).Stamp?;
    }
  }

  lemma {:induction false} TailLength(o: Object, w0: u32, w1: u32, s: seq<byte>, bit: nat)
    requires 46 < bit <= 64
    requires forall i :: bit <= i < 64 && Has(w0, w1, i) ==> Supported(i)
    requires DecodeAttrs(true, w0, w1, s, bit).Some?
    ensures |s| == |Values(o, w0, w1, bit, 64)|
    decreases 64 - bit
  {
    hide Has, AttrBytes, DecodeVal, ShapeOf, Supported;
    if bit < 64 {
      ValuesFront(o, w0, w1, bit, 64);
      if Has(w0, w1, bit) {
        StampOrLong(bit, s, o);
        var (v, rest) := DecodeVal(ShapeOf(bit, true), s).value;
        TailLength(o, w0, w1, rest, bit + 1);
      } else {
        TailLength(o, w0, w1, s, bit + 1);
      }
    }
  }

  /** Attribute 46 is sent in 8 bytes, and read in 4. */
  lemma EightForFour(o: Object, s: seq<byte>)
    ensures |AttrBytes(o, 46)| == 8
    ensures |s| >= 4 ==> DecodeVal(ShapeOf(46, true), s).Some? && DecodeVal(ShapeOf(46, true), s).value.1 == s[4..]
  {
    hide Be, FromBe, Read32, Read64, ChangeOf, Accessed, Modified, Created, FileId, Bm0Provide, Bm1Provide, DecodeVal;
    assert Value(o, 46) == Long(0);
    assert ShapeOf(46, true) == AsWord;
    if |s| >= 4 { FourForAWord(s); }
  }

  lemma FourForAWord(s: seq<byte>)
    requires |s| >= 4
    ensures DecodeVal(AsWord, s).Some? && DecodeVal(AsWord, s).value.1 == s[4..]
  {
    hide FromBe;
  }

  lemma MisreadAt46(o: Object, w0: u32, w1: u32)
    requires Has(w0, w1, 46)
    requires forall i :: 46 <= i < 64 && Has(w0, w1, i) ==> Supported(i)
    ensures DecodeAttrs(true, w0, w1, Values(o, w0, w1, 46, 64), 46) == None
  {
    hide Has, Values, AttrBytes, DecodeVal, ShapeOf, Supported;
    ValuesFront(o, w0, w1, 46, 64);
    var s := Values(o, w0, w1, 46, 64);
    EightForFour(o, s);
    if DecodeAttrs(true, w0, w1, s[4..], 47).Some? {
      TailLength(o, w0, w1, s[4..], 47);
    }
  }

  lemma {:induction false} MisreadFrom(o: Object, w0: u32, w1: u32, bit: nat)
    requires bit <= 46 && Has(w0, w1, 46)
    requires forall i :: bit <= i < 64 && Has(w0, w1, i) ==> Supported(i)
    ensures DecodeAttrs(true, w0, w1, Values(o, w0, w1, bit, 64), bit) == None
    decreases 46 - bit
  {
    hide Has, Value, EncodeVal, ShapeOf, DecodeVal;
    if bit == 46 {
      MisreadAt46(o, w0, w1);
    } else {
      MisreadFrom(o, w0, w1, bit + 1);
      ValuesFront(o, w0, w1, bit, 64);
      if Has(w0, w1, bit) {
        ShapesAgree(o, bit, true);
        DecodeValInverts(Value(o, bit), Values(o, w0, w1, bit + 1, 64));
      } else {
        assert Values(o, w0, w1, bit, 64) == Values(o, w0, w1, bit + 1, 64);
      }
    }
  }

  lemma Asked46(bitmap: seq<u32>)
    ensures Has(Actual0(bitmap), Actual1(bitmap), 46) <==> Bit(Requested(bitmap, 1), 14)
  {
    hide Actual0, Actual1, Bit, Requested;
    ReturnedBitmap(bitmap, 46);
  }

  /** A client that reads attribute 46 as the boolean of RFC 5661 decodes the reply exactly when
      it did not ask for attribute 46. */
  lemma SystemAttributeBreaksDecoding(o: Object, bitmap: seq<u32>, rest: seq<byte>)
    ensures ParseFattr4(true, Fattr4(o, bitmap) + rest) == ParseFattr4(false, Fattr4(o, bitmap) + rest)
            <==> !Bit(Requested(bitmap, 1), 14)
  {
    hide Actual0, Actual1, Values, ParseFattr4, DecodeAttrs, Opaque, Has, Bit, Be, FromBe;
    var w0, w1 := Actual0(bitmap), Actual1(bitmap);
    Asked46(bitmap);
    Fattr4RoundTrip(o, bitmap, rest);
    OnlySupported(bitmap);
    ValuesAligned(o, w0, w1, 0, 64);
    ParseFrame(true, w0, w1, Values(o, w0, w1, 0, 64), rest);
    if Has(w0, w1, 46) {
      MisreadFrom(o, w0, w1, 0);
    } else {
      DecodeAttrsInverts(true, o, w0, w1, 0);
    }
  }
}
