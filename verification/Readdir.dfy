/**
  Directory listings (`op_readdir`, `op_readdir_root`): paging by cookie under a byte budget,
  section 18.23 of RFC 5661.
*/
module Readdir {
  import opened Wire
  import opened Fattr

  const COOKIE_BASE: u64 := 3
  const COOKIE_VERIFIER: seq<byte> := [1, 1, 1, 1, 1, 1, 1, 1]

  /** A directory entry and what the filesystem says about it. */
  datatype Entry = Entry(name: seq<byte>, obj: Object)

  /** Entries few and short enough for their wire counters. */
  type Listing = d: seq<Entry> |
      |d| < 0xFFFF_FFFF && (forall i :: 0 <= i < |d| ==> |d[i].name| < 0x1_0000_0000)
    witness []

  // ----- one page -----

  /** The wire form of entry `i`: value_follows, cookie, name and attributes. */
  function EntryBytes(dir: Listing, bitmap: seq<u32>, i: nat): (s: seq<byte>)
    requires i < |dir|
    ensures |s| > 16
  {
    hide Fattr4, Be, Opaque;
    [0, 0, 0, 1] + Be64(COOKIE_BASE + i) + Opaque(dir[i].name) + Fattr4(dir[i].obj, bitmap)
  }

  function EntrySize(dir: Listing, bitmap: seq<u32>, i: nat): (n: nat)
    requires i < |dir|
    ensures n > 16
  {
    |EntryBytes(dir, bitmap, i)|
  }

  /** Where a request with this cookie starts. */
  function StartIndex(cookie: u64): nat {
    if cookie >= COOKIE_BASE then cookie - COOKIE_BASE + 1 else 0
  }

  /** How many entries from `i` on fit when `used` bytes are already taken. */
  function Fitting(dir: Listing, bitmap: seq<u32>, maxcount: u32, i: nat, used: nat): (n: nat)
    ensures i <= |dir| ==> i + n <= |dir|
    ensures i > |dir| ==> n == 0
    decreases |dir| - i
  {
    if i < |dir| && used + EntrySize(dir, bitmap, i) + 8 <= maxcount
    then 1 + Fitting(dir, bitmap, maxcount, i + 1, used + EntrySize(dir, bitmap, i))
    else 0
  }

  function EntriesBytes(dir: Listing, bitmap: seq<u32>, lo: nat, hi: nat): seq<byte>
    requires hi <= |dir|
  {
    if hi <= lo then [] else EntriesBytes(dir, bitmap, lo, hi - 1) + EntryBytes(dir, bitmap, hi - 1)
  }

  function Trailer(eof: bool): (s: seq<byte>)
    ensures |s| == 8
  {
    [0, 0, 0, 0] + Be32(if eof then 1 else 0)
  }

  /** The page a request gets: entries start..start+n, and eof when nothing is left. */
  function Page(dir: Listing, bitmap: seq<u32>, cookie: u64, maxcount: u32): seq<byte> {
    var start := StartIndex(cookie);
    var n := Fitting(dir, bitmap, maxcount, start, 8);
    COOKIE_VERIFIER + (if n == 0 then [] else EntriesBytes(dir, bitmap, start, start + n))
    + Trailer(start + n >= |dir|)
  }

  /** `entries` come in the order of the filesystem. */
  method OpReaddir(entries: Listing, bitmap: seq<u32>, cookie: u64, maxcount: u32) returns (result: seq<byte>)
    ensures result == Page(Sorted(entries), bitmap, cookie, maxcount)
  {
    hide Sorted, Be, Fattr4, Opaque, EntryBytes, EntrySize, EntriesBytes, Fitting;
    result := COOKIE_VERIFIER;
    var dir := Sorted(entries);
    var startIdx := if cookie == 0 then 0 else if cookie >= COOKIE_BASE then (cookie - COOKIE_BASE) + 1 else 0;
    var first := if startIdx < |dir| then startIdx else |dir|;
    var added := 0;
    var i := first;
    assert EntriesBytes(dir, bitmap, first, first) == [] by { EntriesNone(dir, bitmap, first); }
    while i < |dir|
      invariant first <= i <= |dir| && added == i - first
      invariant result == COOKIE_VERIFIER + EntriesBytes(dir, bitmap, first, i)
      invariant first == startIdx ==>
                  Fitting(dir, bitmap, maxcount, startIdx, 8) ==
                  added + Fitting(dir, bitmap, maxcount, i, |result|)
    {
      var name := dir[i].name;
      var padded := Pad4(|name|);
      var fattr := BuildFattr4(dir[i].obj, bitmap);
      var entrySize := 4 + 8 + 4 + padded + |fattr|;
      assert entrySize == EntrySize(dir, bitmap, i) by { EntryLength(dir, bitmap, i); }
      FittingStep(dir, bitmap, maxcount, i, |result|);
      if 8 + (|result| - 8) + entrySize + 4 + 4 > maxcount {
        break;
      }
      EntryAppended(dir, bitmap, i, result);
      result := result + [0, 0, 0, 1];
      result := result + Be64(COOKIE_BASE + startIdx + (i - first));
      result := result + Be32(|name|);
      result := result + name;
      result := result + Zeros(padded - |name|);
      result := result + fattr;
      EntriesStep(dir, bitmap, first, i);
      added := added + 1;
      i := i + 1;
    }
    FittingEnds(dir, bitmap, maxcount, i, |result|);
    result := result + [0, 0, 0, 0];
    var eof := startIdx + added >= |dir|;
    result := result + Be32(if eof then 1 else 0);
  }

  lemma FittingStep(dir: Listing, bitmap: seq<u32>, maxcount: u32, i: nat, used: nat)
    requires i < |dir|
    ensures Fitting(dir, bitmap, maxcount, i, used) ==
            var size := EntrySize(dir, bitmap, i);
            if used + size + 8 <= maxcount then 1 + Fitting(dir, bitmap, maxcount, i + 1, used + size) else 0
  {
    hide EntrySize;
  }

  lemma FittingEnds(dir: Listing, bitmap: seq<u32>, maxcount: u32, i: nat, used: nat)
    ensures i >= |dir| ==> Fitting(dir, bitmap, maxcount, i, used) == 0
  {
    hide EntrySize;
  }

  lemma EntriesNone(dir: Listing, bitmap: seq<u32>, lo: nat)
    requires lo <= |dir|
    ensures EntriesBytes(dir, bitmap, lo, lo) == []
  {
  }

  lemma EntriesStep(dir: Listing, bitmap: seq<u32>, lo: nat, hi: nat)
    requires lo <= hi < |dir|
    ensures EntriesBytes(dir, bitmap, lo, hi + 1) == EntriesBytes(dir, bitmap, lo, hi) + EntryBytes(dir, bitmap, hi)
  {
    hide EntryBytes;
  }

  lemma EntryParts(dir: Listing, bitmap: seq<u32>, i: nat)
    requires i < |dir|
    ensures var name := dir[i].name;
            EntryBytes(dir, bitmap, i) ==
            [0, 0, 0, 1] + Be64(COOKIE_BASE + i) + (Be32(|name|) + name + Zeros(Pad4(|name|) - |name|))
            + Fattr4(dir[i].obj, bitmap)
  {
    hide Be, Fattr4;
  }

  lemma EntryAppended(dir: Listing, bitmap: seq<u32>, i: nat, before: seq<byte>)
    requires i < |dir|
    ensures var name := dir[i].name;
            before + [0, 0, 0, 1] + Be64(COOKIE_BASE + i) + Be32(|name|) + name + Zeros(Pad4(|name|) - |name|)
            + Fattr4(dir[i].obj, bitmap) ==
            before + EntryBytes(dir, bitmap, i)
  {
    hide Be, Fattr4, EntryBytes;
    EntryParts(dir, bitmap, i);
  }

  lemma EntryLength(dir: Listing, bitmap: seq<u32>, i: nat)
    requires i < |dir|
    ensures EntrySize(dir, bitmap, i) == 16 + Pad4(|dir[i].name|) + |Fattr4(dir[i].obj, bitmap)|
  {
    hide Be, Fattr4;
  }

  // ----- the pseudo root -----

  /** The export list from the cookie on, whatever its size, always marked eof. */
  function RootPage(dir: Listing, bitmap: seq<u32>, cookie: u64): seq<byte> {
    COOKIE_VERIFIER
    + (if StartIndex(cookie) < |dir| then EntriesBytes(dir, bitmap, StartIndex(cookie), |dir|) else [])
    + Trailer(true)
  }

  method OpReaddirRoot(dir: Listing, bitmap: seq<u32>, cookie: u64) returns (result: seq<byte>)
    ensures result == RootPage(dir, bitmap, cookie)
  {
    hide Be, Fattr4, Opaque, EntryBytes, EntriesBytes, Zeros;
    result := COOKIE_VERIFIER;
    ghost var start := StartIndex(cookie);
    for i := 0 to |dir|
      invariant result == COOKIE_VERIFIER + (if start < i then EntriesBytes(dir, bitmap, start, i) else [])
    {
      var entryCookie := COOKIE_BASE + i;
      if entryCookie <= cookie {
        continue;
      }
      var name := dir[i].name;
      EntryAppended(dir, bitmap, i, result);
      result := result + [0, 0, 0, 1];
      result := result + Be64(entryCookie);
      result := result + Be32(|name|);
      result := result + name;
      result := result + Zeros(Pad4(|name|) - |name|);
      var fattr := BuildFattr4(dir[i].obj, bitmap);
      result := result + fattr;
      EntriesNone(dir, bitmap, start);
      EntriesStep(dir, bitmap, start, i);
    }
    result := result + [0, 0, 0, 0];
    result := result + Be32(1);
  }

  // ----- the order of a directory -----

  /** Byte-wise lexicographic order of names. */
  predicate Less(a: seq<byte>, b: seq<byte>) {
    b != [] && (a == [] || a[0] < b[0] || (a[0] == b[0] && Less(a[1..], b[1..])))
  }

  /** The names agree up to some byte, where the first one ends or has the smaller byte. */
  ghost predicate Precedes(a: seq<byte>, b: seq<byte>) {
    exists k :: 0 <= k <= |a| && k < |b| && a[..k] == b[..k] && (k == |a| || a[k] < b[k])
  }

  lemma {:induction false} LessIsLexicographic(a: seq<byte>, b: seq<byte>)
    ensures Less(a, b) <==> Precedes(a, b)
  {
    forall k | 0 < k <= |a| && k < |b| && a[..k] == b[..k] ensures a[0] == b[0] {
      assert a[0] == a[..k][0] && b[0] == b[..k][0];
    }
    if a == [] || b == [] || a[0] != b[0] {
      if a == [] && b != [] { assert a[..0] == b[..0]; }
      if a != [] && b != [] && a[0] < b[0] { assert a[..0] == b[..0]; }
    } else {
      var a', b' := a[1..], b[1..];
      LessIsLexicographic(a', b');
      if k :| 0 <= k <= |a'| && k < |b'| && a'[..k] == b'[..k] && (k == |a'| || a'[k] < b'[k]) {
        assert a[..k + 1] == [a[0]] + a'[..k] && b[..k + 1] == [b[0]] + b'[..k];
      }
      if k :| 0 <= k <= |a| && k < |b| && a[..k] == b[..k] && (k == |a| || a[k] < b[k]) {
        assert k > 0;
        assert a'[..k - 1] == a[..k][1..] && b'[..k - 1] == b[..k][1..];
        assert k - 1 == |a'| || a'[k - 1] < b'[k - 1];
      }
    }
  }

  lemma {:induction false} LessIsTotal(a: seq<byte>, b: seq<byte>)
    ensures a == b <==> !Less(a, b) && !Less(b, a)
    ensures !(Less(a, b) && Less(b, a))
  {
    if a != [] && b != [] {
      LessIsTotal(a[1..], b[1..]);
      assert a == [a[0]] + a[1..] && b == [b[0]] + b[1..];
    }
  }

  lemma {:induction false} LessIsTransitive(a: seq<byte>, b: seq<byte>, c: seq<byte>)
    requires Less(a, b) && !Less(c, b)
    ensures Less(a, c)
  {
    if b != [] && c != [] && a != [] && a[0] == b[0] == c[0] { LessIsTransitive(a[1..], b[1..], c[1..]); }
  }

  /** `e` goes behind every entry whose name is not greater. */
  function InsertByName(s: seq<Entry>, e: Entry): (r: seq<Entry>)
    ensures multiset(r) == multiset(s) + multiset{e}
    decreases |s|
  {
    var n := |s| - 1;
    if s == [] || !Less(e.name, s[n].name) then s + [e]
    else
      assert s == s[..n] + [s[n]];
      InsertByName(s[..n], e) + [s[n]]
  }

  /** The stable sort of the entries by name, whatever order the filesystem lists them in. */
  function SortByName(d: seq<Entry>): (r: seq<Entry>)
    ensures multiset(r) == multiset(d)
    decreases |d|
  {
    var n := |d| - 1;
    if d == [] then []
    else
      assert d == d[..n] + [d[n]];
      InsertByName(SortByName(d[..n]), d[n])
  }

  /** A sorted listing is still one. */
  function Sorted(d: Listing): (r: Listing)
    ensures multiset(r) == multiset(d)
  {
    SortIsListing(d);
    SortByName(d)
  }

  lemma SortIsListing(d: Listing)
    ensures |SortByName(d)| == |d|
    ensures forall i :: 0 <= i < |d| ==> |SortByName(d)[i].name| < 0x1_0000_0000
  {
    var r := SortByName(d);
    assert |multiset(r)| == |multiset(d)|;
    forall i | 0 <= i < |r| ensures |r[i].name| < 0x1_0000_0000 {
      assert r[i] in multiset(r);
      assert r[i] in multiset(d);
    }
    hide SortByName;
  }

  ghost predicate Ordered(s: seq<Entry>) {
    forall i, j :: 0 <= i < j < |s| ==> !Less(s[j].name, s[i].name)
  }

  lemma {:induction false} InsertOrders(s: seq<Entry>, e: Entry)
    requires Ordered(s)
    ensures Ordered(InsertByName(s, e))
    decreases |s|
  {
    hide Less;
    var n, r := |s| - 1, InsertByName(s, e);
    if s == [] {
    } else if !Less(e.name, s[n].name) {
      forall i | 0 <= i < |s| ensures !Less(e.name, s[i].name) {
        if Less(e.name, s[i].name) { LessIsTransitive(e.name, s[i].name, s[n].name); }
      }
    } else {
      InsertOrders(s[..n], e);
      var front := InsertByName(s[..n], e);
      forall i | 0 <= i < |front| ensures !Less(s[n].name, front[i].name) {
        assert front[i] in multiset(front);
        if front[i] == e {
          LessIsTotal(e.name, s[n].name);
        } else {
          assert front[i] in multiset(s[..n]);
        }
      }
    }
  }

  lemma {:induction false} SortOrders(d: seq<Entry>)
    ensures Ordered(SortByName(d))
    decreases |d|
  {
    if d != [] {
      SortOrders(d[..|d| - 1]);
      InsertOrders(SortByName(d[..|d| - 1]), d[|d| - 1]);
    }
  }

  /** The entries of one name, in order. */
  function Named(s: seq<Entry>, x: seq<byte>): seq<Entry> {
    if s == [] then []
    else Named(s[..|s| - 1], x) + (if s[|s| - 1].name == x then [s[|s| - 1]] else [])
  }

  lemma NamedAppend(s: seq<Entry>, e: Entry, x: seq<byte>)
    ensures Named(s + [e], x) == Named(s, x) + if e.name == x then [e] else []
  {
    assert (s + [e])[..|s|] == s;
  }

  lemma {:induction false} InsertIsStable(s: seq<Entry>, e: Entry, x: seq<byte>)
    ensures Named(InsertByName(s, e), x) == Named(s, x) + if e.name == x then [e] else []
    decreases |s|
  {
    hide Less, Named;
    var n := |s| - 1;
    if s == [] || !Less(e.name, s[n].name) {
      NamedAppend(s, e, x);
    } else {
      InsertIsStable(s[..n], e, x);
      assert s == s[..n] + [s[n]];
      NamedAppend(s[..n], s[n], x);
      NamedAppend(InsertByName(s[..n], e), s[n], x);
      LessIsTotal(e.name, s[n].name);
      assert !(e.name == x && s[n].name == x);
    }
  }

  lemma {:induction false} SortIsStable(d: seq<Entry>, x: seq<byte>)
    ensures Named(SortByName(d), x) == Named(d, x)
    decreases |d|
  {
    if d != [] {
      SortIsStable(d[..|d| - 1], x);
      InsertIsStable(SortByName(d[..|d| - 1]), d[|d| - 1], x);
    }
  }

  lemma {:induction false} NamedMember(s: seq<Entry>, x: seq<byte>)
    ensures Named(s, x) != [] <==> exists k :: 0 <= k < |s| && s[k].name == x
    decreases |s|
  {
    if s != [] {
      NamedMember(s[..|s| - 1], x);
      if k :| 0 <= k < |s| - 1 && s[k].name == x { assert s[..|s| - 1][k].name == x; }
    }
  }

  lemma EmptyTogether(s: seq<Entry>, t: seq<Entry>)
    requires forall x :: Named(s, x) == Named(t, x)
    ensures s == [] <==> t == []
  {
    if s != [] { NamedMember(s, s[0].name); }
    if t != [] { NamedMember(t, t[0].name); }
  }

  lemma {:induction false} OrderedUnique(s: seq<Entry>, t: seq<Entry>)
    requires Ordered(s) && Ordered(t) && forall x :: Named(s, x) == Named(t, x)
    ensures s == t
    decreases |s|
  {
    hide Less;
    if s == [] || t == [] {
      EmptyTogether(s, t);
    } else {
      var a, b := s[|s| - 1], t[|t| - 1];
      var s', t' := s[..|s| - 1], t[..|t| - 1];
      NamedMember(s, a.name);
      NamedMember(t, a.name);
      NamedMember(s, b.name);
      NamedMember(t, b.name);
      var i :| 0 <= i < |s| && s[i].name == b.name;
      var j :| 0 <= j < |t| && t[j].name == a.name;
      LessIsTotal(a.name, b.name);
      assert Named(s, a.name)[|Named(s, a.name)| - 1] == a && Named(t, a.name)[|Named(t, a.name)| - 1] == b;
      forall x ensures Named(s', x) == Named(t', x) {
        assert Named(s, x) == Named(t, x);
        var last := if a.name == x then [a] else [];
        assert (Named(s', x) + last)[..|Named(s', x)|] == Named(s', x);
        assert (Named(t', x) + last)[..|Named(t', x)|] == Named(t', x);
      }
      OrderedUnique(s', t');
      assert s == s' + [a] && t == t' + [b];
    }
  }

  /** Entries that share a name come in the same order. */
  ghost predicate SameNamed(d: seq<Entry>, e: seq<Entry>) {
    forall x :: Named(d, x) == Named(e, x)
  }

  lemma SortKeepsNamed(d: seq<Entry>)
    ensures SameNamed(SortByName(d), d)
  {
    forall x ensures Named(SortByName(d), x) == Named(d, x) { SortIsStable(d, x); }
  }

  lemma SameNamedFlips(a: seq<Entry>, b: seq<Entry>)
    requires SameNamed(a, b)
    ensures SameNamed(b, a)
  {
    hide Named;
  }

  lemma SameNamedJoins(a: seq<Entry>, b: seq<Entry>, c: seq<Entry>)
    requires SameNamed(a, b) && SameNamed(b, c)
    ensures SameNamed(a, c)
  {
    hide Named;
    forall x ensures Named(a, x) == Named(c, x) {
      assert Named(a, x) == Named(b, x);
      assert Named(b, x) == Named(c, x);
    }
  }

  /** Two enumerations of a directory give the same listing, so that a cookie means the same entry,
      exactly when the entries that share a name come in the same order. */
  lemma SameListing(d: seq<Entry>, e: seq<Entry>)
    ensures SortByName(d) == SortByName(e) <==> SameNamed(d, e)
  {
    var s, t := SortByName(d), SortByName(e);
    SortKeepsNamed(d);
    SortKeepsNamed(e);
    SortOrders(d);
    SortOrders(e);
    if SameNamed(d, e) {
      SameNamedJoins(s, d, e);
      SameNamedFlips(t, e);
      SameNamedJoins(s, e, t);
      OrderedUnique(s, t);
    }
    hide SortByName, SameNamed, Ordered;
    if s == t {
      SameNamedFlips(s, d);
      SameNamedJoins(d, s, e);
    }
  }

  /** Different entries have different names. */
  ghost predicate DistinctNames(d: seq<Entry>) {
    forall i, j :: 0 <= i < j < |d| ==> d[i].name != d[j].name
  }

  lemma {:induction false} NamedIsSingle(d: seq<Entry>, k: nat)
    requires DistinctNames(d) && k < |d|
    ensures Named(d, d[k].name) == [d[k]]
    decreases |d|
  {
    var n := |d| - 1;
    if k < n {
      NamedIsSingle(d[..n], k);
    } else {
      NamedMember(d[..n], d[n].name);
    }
  }

  lemma SameNames(d: seq<Entry>, e: seq<Entry>, x: seq<byte>)
    requires multiset(d) == multiset(e)
    ensures (exists k :: 0 <= k < |d| && d[k].name == x) ==> exists l :: 0 <= l < |e| && e[l].name == x
  {
    if k :| 0 <= k < |d| && d[k].name == x {
      assert d[k] in multiset(d);
      assert d[k] in multiset(e);
    }
  }

  /** So with distinct names the order of enumeration does not matter. */
  lemma DistinctNamesSameListing(d: seq<Entry>, e: seq<Entry>)
    requires DistinctNames(d) && DistinctNames(e) && multiset(d) == multiset(e)
    ensures SortByName(d) == SortByName(e)
  {
    forall x ensures Named(d, x) == Named(e, x) {
      NamedMember(d, x);
      NamedMember(e, x);
      SameNames(d, e, x);
      SameNames(e, d, x);
      if k :| 0 <= k < |d| && d[k].name == x {
        assert d[k] in multiset(d);
        assert d[k] in multiset(e);
        var l :| 0 <= l < |e| && e[l] == d[k];
        NamedIsSingle(d, k);
        NamedIsSingle(e, l);
      }
    }
    assert SameNamed(d, e);
    hide Named, SortByName, DistinctNames, SameNamed;
    SameListing(d, e);
  }
}
