/** Bytes, machine words and the XDR and bit idioms that every handler shares. */
module Wire {

  type byte = n: int | 0 <= n < 256
  type u32 = n: int | 0 <= n < 0x1_0000_0000
  type u64 = n: int | 0 <= n < 0x1_0000_0000_0000_0000

  const MAX_U64: u64 := 0xFFFF_FFFF_FFFF_FFFF

  datatype Option<+T> = None | Some(value: T)

  // ----- big-endian words (`to_be_bytes` / `from_be_bytes`) -----

  function Pow256(k: nat): (p: nat)
    ensures p >= 1
  {
    if k == 0 then 1 else 256 * Pow256(k - 1)
  }

  /** The low `k` bytes of `n`, most significant first. */
  function Be(n: nat, k: nat): (s: seq<byte>)
    ensures |s| == k
  {
    if k == 0 then [] else Be(n / 256, k - 1) + [n % 256]
  }

  function FromBe(s: seq<byte>): nat {
    if s == [] then 0 else 256 * FromBe(s[..|s| - 1]) + s[|s| - 1]
  }

  function Be32(n: u32): seq<byte> { Be(n, 4) }

  function Be64(n: u64): seq<byte> { Be(n, 8) }

  lemma WordSizes()
    ensures Pow256(4) == 0x1_0000_0000
    ensures Pow256(8) == 0x1_0000_0000_0000_0000
  {
    assert Pow256(2) == 0x1_0000;
    assert Pow256(4) == 256 * (256 * Pow256(2));
    assert Pow256(6) == 256 * (256 * Pow256(4));
    assert Pow256(8) == 256 * (256 * Pow256(6));
  }

  lemma {:induction false} DecodeEncode(n: nat, k: nat)
    requires n < Pow256(k)
    ensures FromBe(Be(n, k)) == n
  {
    if k > 0 {
      DecodeEncode(n / 256, k - 1);
      assert Be(n, k)[..k - 1] == Be(n / 256, k - 1);
    }
  }

  lemma {:induction false} EncodeDecode(s: seq<byte>)
    ensures FromBe(s) < Pow256(|s|)
    ensures Be(FromBe(s), |s|) == s
  {
    if s != [] {
      EncodeDecode(s[..|s| - 1]);
      assert s[..|s| - 1] + [s[|s| - 1]] == s;
    }
  }

  lemma RoundTrip32(n: u32)
    ensures FromBe(Be32(n)) == n
  {
    WordSizes();
    DecodeEncode(n, 4);
  }

  lemma RoundTrip64(n: u64)
    ensures FromBe(Be64(n)) == n
  {
    WordSizes();
    DecodeEncode(n, 8);
  }

  /** Most significant byte first. */
  lemma Be32Bytes(n: u32)
    ensures Be32(n) == [n / 0x100_0000, n / 0x1_0000 % 256, n / 0x100 % 256, n % 256]
  {
    var a := n / 256;
    var b := a / 256;
    assert b / 256 == n / 0x100_0000 && b % 256 == n / 0x1_0000 % 256;
    assert Be(b / 256, 1) == Be(b / 256 / 256, 0) + [b / 256 % 256];
    assert Be(b, 2) == Be(b / 256, 1) + [b % 256];
    assert Be(a, 3) == Be(b, 2) + [a % 256];
  }

  lemma Be64Words(n: u64)
    ensures Be64(n) == Be32(n / 0x1_0000_0000) + Be32(n % 0x1_0000_0000)
  {
    BeSplits(n / 0x1_0000_0000, n % 0x1_0000_0000, 4, 4);
    WordSizes();
  }

  lemma {:induction false} BeSplits(hi: nat, lo: nat, j: nat, k: nat)
    requires lo < Pow256(k)
    ensures Be(hi * Pow256(k) + lo, j + k) == Be(hi, j) + Be(lo, k)
    decreases k
  {
    if k > 0 {
      BeSplits(hi, lo / 256, j, k - 1);
      var p := Pow256(k - 1);
      Regroup(hi, p);
      assert Pow256(k) == 256 * p;
      hide Pow256;
      var x := hi * p;
      var n := 256 * x + lo;
      assert n / 256 == x + lo / 256 && n % 256 == lo % 256;
    }
  }

  lemma Regroup(a: nat, p: nat)
    ensures a * (256 * p) == 256 * (a * p)
  {
  }

  lemma Be64Injective(a: u64, b: u64)
    requires Be64(a) == Be64(b)
    ensures a == b
  {
    RoundTrip64(a);
    RoundTrip64(b);
  }

  function Read32(s: seq<byte>): (n: u32)
    requires |s| == 4
  {
    EncodeDecode(s);
    WordSizes();
    FromBe(s)
  }

  function Read64(s: seq<byte>): (n: u64)
    requires |s| == 8
  {
    EncodeDecode(s);
    WordSizes();
    FromBe(s)
  }

  // ----- bitwise operators on machine words -----

  function Pow2(k: nat): (p: nat)
    ensures p >= 1
  {
    if k == 0 then 1 else 2 * Pow2(k - 1)
  }

  /** Bit `i` of `w`, counting from the least significant. */
  predicate Bit(w: nat, i: nat) {
    if i == 0 then w % 2 == 1 else Bit(w / 2, i - 1)
  }

  /** `a & b` */
  function BitAnd(a: nat, b: nat): (r: nat)
    ensures r <= a
    decreases a
  {
    if a == 0 || b == 0 then 0
    else 2 * BitAnd(a / 2, b / 2) + (if a % 2 == 1 && b % 2 == 1 then 1 else 0)
  }

  /** `a | b` */
  function BitOr(a: nat, b: nat): nat
    decreases a + b
  {
    if a == 0 && b == 0 then 0
    else 2 * BitOr(a / 2, b / 2) + (if a % 2 == 1 || b % 2 == 1 then 1 else 0)
  }

  /** `a ^ b` */
  function BitXor(a: nat, b: nat): nat
    decreases a + b
  {
    if a == 0 && b == 0 then 0
    else 2 * BitXor(a / 2, b / 2) + (if a % 2 != b % 2 then 1 else 0)
  }

  lemma {:induction false} ZeroHasNoBits(i: nat)
    ensures !Bit(0, i)
  {
    if i > 0 { ZeroHasNoBits(i - 1); }
  }

  lemma {:induction false} BitOfAnd(a: nat, b: nat, i: nat)
    ensures Bit(BitAnd(a, b), i) == (Bit(a, i) && Bit(b, i))
    decreases i
  {
    if a == 0 || b == 0 {
      ZeroHasNoBits(i);
    } else if i > 0 {
      BitOfAnd(a / 2, b / 2, i - 1);
      assert BitAnd(a, b) / 2 == BitAnd(a / 2, b / 2);
    }
  }

  lemma {:induction false} BitOfXor(a: nat, b: nat, i: nat)
    ensures Bit(BitXor(a, b), i) <==> (Bit(a, i) <==> !Bit(b, i))
    decreases i
  {
    if a == 0 && b == 0 {
      ZeroHasNoBits(i);
    } else if i > 0 {
      BitOfXor(a / 2, b / 2, i - 1);
      assert BitXor(a, b) / 2 == BitXor(a / 2, b / 2);
    }
  }

  lemma {:induction false} BitIsDigit(w: nat, i: nat)
    ensures Bit(w, i) <==> w / Pow2(i) % 2 == 1
    decreases i
  {
    if i > 0 {
      BitIsDigit(w / 2, i - 1);
      DivTwice(w, Pow2(i - 1));
    }
  }

  lemma DivTwice(w: nat, d: nat)
    requires d > 0
    ensures w / 2 / d == w / (2 * d)
  {
    var q, r := w / 2 / d, w / 2 % d;
    assert w / 2 == q * d + r;
    DivModUnique(w, 2 * d, q, 2 * r + w % 2);
  }

  /** Testing `w & (1 << k)` tests bit `k`. */
  lemma {:induction false} MaskTestsBit(w: nat, k: nat)
    ensures BitAnd(w, Pow2(k)) == if Bit(w, k) then Pow2(k) else 0
    decreases k
  {
    if w == 0 {
      ZeroHasNoBits(k);
    } else if k == 0 {
      assert BitAnd(w, 1) == 2 * BitAnd(w / 2, 0) + (if w % 2 == 1 then 1 else 0);
    } else {
      MaskTestsBit(w / 2, k - 1);
      assert Pow2(k) / 2 == Pow2(k - 1) && Pow2(k) % 2 == 0;
    }
  }

  /** `w & ((1 << k) - 1)` is the remainder by `2^k`. */
  lemma {:induction false} MaskIsModulo(w: nat, k: nat)
    ensures BitAnd(w, Pow2(k) - 1) == w % Pow2(k)
    decreases k
  {
    if k == 0 {
    } else if w == 0 {
    } else {
      MaskIsModulo(w / 2, k - 1);
      var m := Pow2(k) - 1;
      assert m / 2 == Pow2(k - 1) - 1 && m % 2 == 1;
      HalveModulo(w, Pow2(k - 1));
    }
  }

  lemma HalveModulo(w: nat, p: nat)
    requires p >= 1
    ensures w % (2 * p) == 2 * ((w / 2) % p) + w % 2
  {
    var q := (w / 2) / p;
    var r := 2 * ((w / 2) % p) + w % 2;
    assert w == (2 * p) * q + r && 0 <= r < 2 * p by {
      assert w / 2 == p * q + (w / 2) % p;
      assert (2 * p) * q == 2 * (p * q);
    }
    DivModUnique(w, 2 * p, q, r);
  }

  lemma DivModUnique(w: nat, d: nat, q: nat, r: nat)
    requires d >= 1 && r < d && w == d * q + r
    ensures w / d == q && w % d == r
  {
    var q', r' := w / d, w % d;
    assert w == d * q' + r' && 0 <= r' < d;
    if q > q' {
      AtLeastOneMore(d, q, q');
    } else if q < q' {
      AtLeastOneMore(d, q', q);
    }
  }

  lemma AtLeastOneMore(d: nat, q: nat, q': nat)
    requires q > q'
    ensures d * q >= d * q' + d
  {
    var k := q - q' - 1;
    assert d * q == d * q' + d + d * k by {
      assert q == q' + 1 + k;
      assert d * (q' + 1 + k) == d * q' + d * 1 + d * k;
    }
    assert d * k >= 0;
  }

  lemma {:induction false} OrWithDisjointBit(w: nat, k: nat)
    requires w < Pow2(k)
    ensures BitOr(Pow2(k), w) == Pow2(k) + w
    decreases k
  {
    if k == 0 {
      assert w == 0;
      assert BitOr(1, 0) == 2 * BitOr(0, 0) + 1;
    } else {
      assert Pow2(k) / 2 == Pow2(k - 1) && Pow2(k) % 2 == 0;
      OrWithDisjointBit(w / 2, k - 1);
    }
  }

  lemma {:induction false} OrKeepsBits(a: nat, b: nat, i: nat)
    ensures Bit(BitOr(a, b), i) == (Bit(a, i) || Bit(b, i))
    decreases i
  {
    OrParts(a, b);
    if i > 0 { OrKeepsBits(a / 2, b / 2, i - 1); }
    hide BitOr;
  }

  lemma OrParts(a: nat, b: nat)
    ensures BitOr(a, b) / 2 == BitOr(a / 2, b / 2)
    ensures BitOr(a, b) % 2 == if a % 2 == 1 || b % 2 == 1 then 1 else 0
  {
  }

  // ----- masks written as `(1 << a) | (1 << b) | ...` -----

  function Mask(bits: seq<nat>): nat {
    if bits == [] then 0 else BitOr(Pow2(bits[0]), Mask(bits[1..]))
  }

  lemma {:induction false} MaskHasBits(bits: seq<nat>, i: nat)
    ensures Bit(Mask(bits), i) <==> i in bits
  {
    if bits == [] {
      ZeroHasNoBits(i);
    } else {
      OrKeepsBits(Pow2(bits[0]), Mask(bits[1..]), i);
      MaskHasBits(bits[1..], i);
      ShiftedOne(bits[0], i);
    }
  }

  lemma {:induction false} ShiftedOne(k: nat, i: nat)
    ensures Bit(Pow2(k), i) <==> i == k
  {
    if k == 0 {
      if i > 0 { ZeroHasNoBits(i - 1); }
    } else if i > 0 {
      ShiftedOne(k - 1, i - 1);
      assert Pow2(k) / 2 == Pow2(k - 1);
    }
  }

  lemma {:induction false} MaskFits(bits: seq<nat>, width: nat)
    requires forall k :: 0 <= k < |bits| ==> bits[k] < width
    ensures Mask(bits) < Pow2(width)
  {
    if bits != [] {
      MaskFits(bits[1..], width);
      Pow2Grows(bits[0], width);
      OrFits(Pow2(bits[0]), Mask(bits[1..]), width);
    }
  }

  lemma {:induction false} Pow2Grows(a: nat, b: nat)
    requires a < b
    ensures 2 * Pow2(a) <= Pow2(b)
  {
    if a + 1 < b { Pow2Grows(a, b - 1); }
  }

  lemma {:induction false} OrFits(a: nat, b: nat, width: nat)
    requires a < Pow2(width) && b < Pow2(width)
    ensures BitOr(a, b) < Pow2(width)
    decreases width
  {
    if width > 0 && (a > 0 || b > 0) { OrFits(a / 2, b / 2, width - 1); }
  }

  lemma Pow2Of32()
    ensures Pow2(32) == 0x1_0000_0000
  {
    Pow2Of31();
  }

  lemma Pow2Of31()
    ensures Pow2(31) == 0x8000_0000
  {
    assert Pow2(8) == 256;
    assert Pow2(16) == 0x1_0000 by { assert Pow2(12) == 16 * Pow2(8); assert Pow2(16) == 16 * Pow2(12); }
    assert Pow2(24) == 0x100_0000 by { assert Pow2(20) == 16 * Pow2(16); assert Pow2(24) == 16 * Pow2(20); }
    assert Pow2(28) == 16 * Pow2(24);
    assert Pow2(31) == 8 * Pow2(28);
  }

  // ----- XDR opaque<> -----

  /** `(n + 3) & !3`: the length of `n` bytes padded to the XDR unit. */
  function Pad4(n: nat): (p: nat)
    ensures n <= p < n + 4 && p % 4 == 0
  {
    (n + 3) / 4 * 4
  }

  lemma SumAligned(a: nat, b: nat)
    requires a % 4 == 0 && b % 4 == 0
    ensures (a + b) % 4 == 0
  {
  }

  /** Clearing the two low bits, `m - (m & 3)`, is what `m & !3` does to a word. */
  lemma PaddingIdiom(n: nat)
    ensures (n + 3) - BitAnd(n + 3, 3) == Pad4(n)
  {
    assert Pow2(2) == 4;
    MaskIsModulo(n + 3, 2);
  }

  function Zeros(n: nat): (s: seq<byte>)
    ensures |s| == n
  {
    seq(n, _ => 0)
  }

  function Opaque(s: seq<byte>): (r: seq<byte>)
    requires |s| < 0x1_0000_0000
    ensures |r| == 4 + Pad4(|s|)
  {
    Be32(|s|) + s + Zeros(Pad4(|s|) - |s|)
  }
}
