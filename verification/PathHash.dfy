/** The FNV-1a hash that turns a path into an inode number. */
module PathHash {
  import opened Wire

  const FNV_OFFSET_BASIS: u64 := 0xcbf2_9ce4_8422_2325
  const FNV_PRIME: u64 := 0x100_0000_01b3

  /** One round: xor in a byte, then a wrapping multiplication. */
  function Round(hash: u64, b: byte): u64 {
    BitXor(hash, b) * FNV_PRIME % 0x1_0000_0000_0000_0000
  }

  function Fnv1a(path: seq<byte>): u64 {
    if path == [] then FNV_OFFSET_BASIS
    else Round(Fnv1a(path[..|path| - 1]), path[|path| - 1])
  }

  /** `get_inode`; the same loop is repeated in alloc_synthetic_handle, find_path_by_inode and
      build_fattr4. */
  method GetInode(path: seq<byte>) returns (hash: u64)
    ensures hash == Fnv1a(path)
  {
    hash := FNV_OFFSET_BASIS;
    for i := 0 to |path|
      invariant hash == Fnv1a(path[..i])
    {
      assert path[..i + 1][..i] == path[..i];
      hash := BitXor(hash, path[i]) * FNV_PRIME % 0x1_0000_0000_0000_0000;
    }
    assert path[..|path|] == path;
  }

  // ----- the function -----

  /** The empty string and "a", as published with the algorithm. */
  lemma TestVectors()
    ensures Fnv1a([]) == 0xcbf2_9ce4_8422_2325
    ensures Fnv1a([0x61]) == 0xaf63_dc4c_8601_ec8c
  {
    hide BitXor;
    XorOfBasis();
    assert [0x61][..0] == [];
    var x: u64 := 0xcbf2_9ce4_8422_2344;
    assert x * FNV_PRIME % 0x1_0000_0000_0000_0000 == 0xaf63_dc4c_8601_ec8c;
  }

  lemma XorOfBasis()
    ensures BitXor(FNV_OFFSET_BASIS, 0x61) == 0xcbf2_9ce4_8422_2344
  {
    hide BitXor;
    XorHalves(0xcbf2_9ce4_8422_2325, 0x61);
    XorHalves(0x65f9_4e72_4211_1192, 0x30);
    XorHalves(0x32fc_a739_2108_88c9, 0x18);
    XorHalves(0x197e_539c_9084_4464, 0xc);
    XorHalves(0xcbf_29ce_4842_2232, 0x6);
    XorHalves(0x65f_94e7_2421_1119, 0x3);
    XorHalves(0x32f_ca73_9210_888c, 0x1);
    XorZero(0x197_e539_c908_4446);
  }

  lemma XorHalves(a: nat, b: nat)
    ensures BitXor(a, b) == 2 * BitXor(a / 2, b / 2) + (if a % 2 != b % 2 then 1 else 0)
  {
  }

  lemma {:induction false} XorZero(a: nat)
    ensures BitXor(a, 0) == a
  {
    if a > 0 { XorZero(a / 2); }
  }

  /** The inverse of the prime modulo 2^64. */
  const INVERSE: nat := 0xce96_5057_aff6_957b

  lemma TimesPrimeInjective(x: u64, y: u64)
    requires x * FNV_PRIME % 0x1_0000_0000_0000_0000 == y * FNV_PRIME % 0x1_0000_0000_0000_0000
    ensures x == y
  {
    Cancels(x, y, x * FNV_PRIME / 0x1_0000_0000_0000_0000 - y * FNV_PRIME / 0x1_0000_0000_0000_0000);
  }

  lemma Cancels(x: u64, y: u64, q: int)
    requires (x - y) * FNV_PRIME == q * 0x1_0000_0000_0000_0000
    ensures x == y
  {
    assert FNV_PRIME * INVERSE == 0xce_9650_590f * 0x1_0000_0000_0000_0000 + 1;
    var d := x - y;
    assert d * FNV_PRIME * INVERSE == q * 0x1_0000_0000_0000_0000 * INVERSE;
    var e := q * INVERSE - d * 0xce_9650_590f;
    assert d == e * 0x1_0000_0000_0000_0000;
  }

  lemma {:induction false} XorInjective(a: nat, b: nat, c: nat, d: nat)
    requires BitXor(a, b) == BitXor(c, d)
    ensures a == c <==> b == d
    decreases a + b + c + d
  {
    if a + b + c + d > 0 {
      XorHalves(a, b);
      XorHalves(c, d);
      XorInjective(a / 2, b / 2, c / 2, d / 2);
    }
  }

  lemma {:induction false} XorFits(a: nat, b: nat, k: nat)
    requires a < Pow2(k) && b < Pow2(k)
    ensures BitXor(a, b) < Pow2(k)
    decreases k
  {
    if k > 0 {
      XorHalves(a, b);
      XorFits(a / 2, b / 2, k - 1);
    }
  }

  lemma RoundInjective(g: u64, a: byte, h: u64, b: byte)
    requires Round(g, a) == Round(h, b)
    ensures g == h <==> a == b
  {
    hide BitXor;
    XorFits64(g, a);
    XorFits64(h, b);
    TimesPrimeInjective(BitXor(g, a), BitXor(h, b));
    XorInjective(g, a, h, b);
  }

  lemma XorFits64(g: u64, a: byte)
    ensures BitXor(g, a) < 0x1_0000_0000_0000_0000
  {
    Pow2Of64();
    XorFits(g, a, 64);
  }

  lemma Pow2Of64()
    ensures Pow2(64) == 0x1_0000_0000_0000_0000
  {
    assert Pow2(8) == 0x100;
    assert Pow2(16) == 0x1_0000;
    assert Pow2(24) == 0x100_0000;
    assert Pow2(32) == 0x1_0000_0000;
    assert Pow2(40) == 0x100_0000_0000;
    assert Pow2(48) == 0x1_0000_0000_0000;
    assert Pow2(56) == 0x100_0000_0000_0000;
  }

  /** Files of one directory whose names differ in the last byte only have different inodes. */
  lemma SiblingsDiffer(path: seq<byte>, a: byte, b: byte)
    ensures Fnv1a(path + [a]) == Fnv1a(path + [b]) <==> a == b
  {
    assert (path + [a])[..|path|] == path == (path + [b])[..|path|];
    if Fnv1a(path + [a]) == Fnv1a(path + [b]) { RoundInjective(Fnv1a(path), a, Fnv1a(path), b); }
  }

  /** A common end neither makes nor undoes a collision. */
  lemma {:induction false} CommonTail(p: seq<byte>, q: seq<byte>, tail: seq<byte>)
    ensures Fnv1a(p + tail) == Fnv1a(q + tail) <==> Fnv1a(p) == Fnv1a(q)
    decreases |tail|
  {
    if tail == [] {
      assert p + tail == p && q + tail == q;
    } else {
      var n := |tail| - 1;
      CommonTail(p, q, tail[..n]);
      assert (p + tail)[..|p| + n] == p + tail[..n] && (q + tail)[..|q| + n] == q + tail[..n];
      if Fnv1a(p + tail) == Fnv1a(q + tail) {
        RoundInjective(Fnv1a(p + tail[..n]), tail[n], Fnv1a(q + tail[..n]), tail[n]);
      }
    }
  }
}
