/**
  A whole READDIR conversation: a client that decodes each page and asks again with the last
  cookie it was given.
*/
module ReaddirConversation {
  import opened Wire
  import opened Fattr
  import opened FattrDecode
  import opened Readdir

  datatype Item = Item(cookie: u64, name: seq<byte>, attrs: Attrs)

  datatype PageView = PageView(items: seq<Item>, eof: bool)

  // ----- decoding a page -----

  function ParseItems(s: seq<byte>): Option<PageView>
    decreases |s|
  {
    if |s| < 8 then None
    else if s[..4] == [0, 0, 0, 0] then
      if |s| == 8 then Some(PageView([], Read32(s[4..8]) != 0)) else None
    else if s[..4] != [0, 0, 0, 1] || |s| < 16 then None
    else
      var n := Read32(s[12..16]);
      if |s| < 16 + Pad4(n) then None
      else
        match ParseFattr4(false, s[16 + Pad4(n)..])
        case None => None
        case Some((attrs, rest)) =>
          match ParseItems(rest)
          case None => None
          case Some(v) => Some(PageView([Item(Read64(s[4..12]), s[16..16 + n], attrs)] + v.items, v.eof))
  }

  function ParsePage(s: seq<byte>): Option<PageView> {
    if |s| < 8 then None else ParseItems(s[8..])
  }

  /** Entry `i` as a client should see it. */
  function ItemOf(dir: Listing, bitmap: seq<u32>, i: nat): Item
    requires i < |dir|
  {
    var w0, w1 := Actual0(bitmap), Actual1(bitmap);
    Item(COOKIE_BASE + i, dir[i].name, Attrs(w0, w1, Sent(dir[i].obj, w0, w1, 0)))
  }

  function Items(dir: Listing, bitmap: seq<u32>, lo: nat, hi: nat): (s: seq<Item>)
    requires hi <= |dir|
    ensures lo <= hi ==> |s| == hi - lo
  {
    if hi <= lo then [] else Items(dir, bitmap, lo, hi - 1) + [ItemOf(dir, bitmap, hi - 1)]
  }

  lemma {:induction false} ItemsJoin(dir: Listing, bitmap: seq<u32>, lo: nat, mid: nat, hi: nat)
    requires lo <= mid <= hi <= |dir|
    ensures Items(dir, bitmap, lo, hi) == Items(dir, bitmap, lo, mid) + Items(dir, bitmap, mid, hi)
    decreases hi
  {
    hide ItemOf;
    if mid < hi { ItemsJoin(dir, bitmap, lo, mid, hi - 1); }
  }

  lemma {:induction false} EntriesFront(dir: Listing, bitmap: seq<u32>, lo: nat, hi: nat)
    requires lo < hi <= |dir|
    ensures EntriesBytes(dir, bitmap, lo, hi) == EntryBytes(dir, bitmap, lo) + EntriesBytes(dir, bitmap, lo + 1, hi)
    decreases hi
  {
    hide EntryBytes, EntriesBytes;
    EntriesStep(dir, bitmap, lo, hi - 1);
    if lo + 1 == hi {
      EntriesNone(dir, bitmap, lo);
      EntriesNone(dir, bitmap, lo + 1);
    } else {
      EntriesFront(dir, bitmap, lo, hi - 1);
      EntriesStep(dir, bitmap, lo + 1, hi - 1);
    }
  }

  lemma EntrySlices(
      cookie: seq<byte>, len: seq<byte>, name: seq<byte>, pad: seq<byte>, attrs: seq<byte>, rest: seq<byte>)
    requires |cookie| == 8 && |len| == 4
    ensures var s := [0, 0, 0, 1] + cookie + (len + name + pad) + attrs + rest;
            && s[..4] == [0, 0, 0, 1] && s[4..12] == cookie && s[12..16] == len
            && s[16..16 + |name|] == name && s[16 + |name| + |pad|..] == attrs + rest
  {
  }

  lemma ParseStep(cookie: u64, name: seq<byte>, fattr: seq<byte>, attrs: Attrs, rest: seq<byte>)
    requires |name| < 0x1_0000_0000
    requires ParseFattr4(false, fattr + rest) == Some((attrs, rest))
    ensures ParseItems([0, 0, 0, 1] + Be64(cookie) + Opaque(name) + fattr + rest) ==
            match ParseItems(rest)
            case None => None
            case Some(v) => Some(PageView([Item(cookie, name, attrs)] + v.items, v.eof))
  {
    hide Be, FromBe, ParseFattr4;
    EntrySlices(Be64(cookie), Be32(|name|), name, Zeros(Pad4(|name|) - |name|), fattr, rest);
    RoundTrip64(cookie);
    RoundTrip32(|name|);
  }

  lemma ParseEntry(dir: Listing, bitmap: seq<u32>, i: nat, rest: seq<byte>)
    requires i < |dir|
    ensures ParseItems(EntryBytes(dir, bitmap, i) + rest) ==
            match ParseItems(rest)
            case None => None
            case Some(v) => Some(PageView([ItemOf(dir, bitmap, i)] + v.items, v.eof))
  {
    hide Be, Fattr4, ParseFattr4, ParseItems, Sent, Opaque, Actual0, Actual1;
    Fattr4RoundTrip(dir[i].obj, bitmap, rest);
    ParseStep(COOKIE_BASE + i, dir[i].name, Fattr4(dir[i].obj, bitmap), ItemOf(dir, bitmap, i).attrs, rest);
  }

  lemma {:induction false} ParseEntries(dir: Listing, bitmap: seq<u32>, lo: nat, hi: nat, eof: bool)
    requires lo <= hi <= |dir|
    ensures ParseItems(EntriesBytes(dir, bitmap, lo, hi) + Trailer(eof)) ==
            Some(PageView(Items(dir, bitmap, lo, hi), eof))
    decreases hi - lo
  {
    hide ParseItems, EntryBytes, ItemOf, Trailer, EntriesBytes, Items;
    if lo == hi {
      EntriesNone(dir, bitmap, lo);
      NoItems(dir, bitmap, lo);
      assert [] + Trailer(eof) == Trailer(eof);
      ParseTrailer(eof);
    } else {
      EntriesFront(dir, bitmap, lo, hi);
      ParseEntries(dir, bitmap, lo + 1, hi, eof);
      var rest := EntriesBytes(dir, bitmap, lo + 1, hi) + Trailer(eof);
      assert EntriesBytes(dir, bitmap, lo, hi) + Trailer(eof) == EntryBytes(dir, bitmap, lo) + rest;
      ParseEntry(dir, bitmap, lo, rest);
      ItemsJoin(dir, bitmap, lo, lo + 1, hi);
      OneItem(dir, bitmap, lo);
    }
  }

  lemma OneItem(dir: Listing, bitmap: seq<u32>, i: nat)
    requires i < |dir|
    ensures Items(dir, bitmap, i, i + 1) == [ItemOf(dir, bitmap, i)]
  {
    hide ItemOf;
    NoItems(dir, bitmap, i);
  }

  lemma ParseTrailer(eof: bool)
    ensures ParseItems(Trailer(eof)) == Some(PageView([], eof))
  {
    var n := if eof then 1 else 0;
    RoundTrip32(n);
    hide Be, FromBe;
    assert Trailer(eof)[..4] == [0, 0, 0, 0] && Trailer(eof)[4..8] == Be32(n);
  }

  /** What the page for a cookie says once decoded. */
  function View(dir: Listing, bitmap: seq<u32>, cookie: u64, maxcount: u32): PageView {
    var start := StartIndex(cookie);
    var n := Fitting(dir, bitmap, maxcount, start, 8);
    PageView(if n == 0 then [] else Items(dir, bitmap, start, start + n), start + n >= |dir|)
  }

  /** Every page decodes to the entries after its cookie that fit, in order, with the cookies
      that continue from them. */
  lemma PageDecodes(dir: Listing, bitmap: seq<u32>, cookie: u64, maxcount: u32)
    ensures ParsePage(Page(dir, bitmap, cookie, maxcount)) == Some(View(dir, bitmap, cookie, maxcount))
  {
    hide Fitting, ParseItems, EntriesBytes, Trailer, Items;
    var start := StartIndex(cookie);
    var n := Fitting(dir, bitmap, maxcount, start, 8);
    var eof := start + n >= |dir|;
    if n == 0 {
      assert Page(dir, bitmap, cookie, maxcount)[8..] == Trailer(eof);
      ParseTrailer(eof);
    } else {
      assert Page(dir, bitmap, cookie, maxcount)[8..] == EntriesBytes(dir, bitmap, start, start + n) + Trailer(eof);
      ParseEntries(dir, bitmap, start, start + n, eof);
    }
  }

  lemma {:induction false} ItemAt(dir: Listing, bitmap: seq<u32>, lo: nat, hi: nat, i: nat)
    requires lo + i < hi <= |dir|
    ensures Items(dir, bitmap, lo, hi)[i] == ItemOf(dir, bitmap, lo + i)
    decreases hi
  {
    hide ItemOf;
    if lo + i < hi - 1 { ItemAt(dir, bitmap, lo, hi - 1, i); }
  }

  /** What a client reads: after the verifier, consecutive entries from the first one, for the cookies
      0, 1 and 2, or from the one behind the cookie; each with its own cookie, counted from 3, its name
      and its attributes; and eof if and only if they reach the end. */
  lemma PageSays(dir: Listing, bitmap: seq<u32>, cookie: u64, maxcount: u32)
    ensures var page := Page(dir, bitmap, cookie, maxcount);
            var start := if cookie <= 2 then 0 else cookie - 2;
            && |page| >= 8 && page[..8] == [1, 1, 1, 1, 1, 1, 1, 1]
            && ParsePage(page).Some?
            && var v := ParsePage(page).value;
               && (v.eof <==> start + |v.items| >= |dir|)
               && forall i :: 0 <= i < |v.items| ==>
                    && start + i < |dir|
                    && v.items[i].cookie == 3 + start + i
                    && v.items[i].name == dir[start + i].name
                    && ParseFattr4(false, Fattr4(dir[start + i].obj, bitmap)) == Some((v.items[i].attrs, []))
  {
    PageDecodes(dir, bitmap, cookie, maxcount);
    hide ParsePage, Fitting, Items, Fattr4, ParseFattr4, EntriesBytes, Trailer, Sent, Actual0, Actual1;
    var start := StartIndex(cookie);
    var v := View(dir, bitmap, cookie, maxcount);
    forall i | 0 <= i < |v.items|
      ensures start + i < |dir| && v.items[i] == ItemOf(dir, bitmap, start + i)
      ensures ParseFattr4(false, Fattr4(dir[start + i].obj, bitmap)) == Some((v.items[i].attrs, []))
    {
      ItemAt(dir, bitmap, start, start + |v.items|, i);
      Fattr4RoundTrip(dir[start + i].obj, bitmap, []);
      assert Fattr4(dir[start + i].obj, bitmap) + [] == Fattr4(dir[start + i].obj, bitmap);
    }
  }

  // ----- the byte budget -----

  lemma {:induction false} WithinBudget(dir: Listing, bitmap: seq<u32>, maxcount: u32, i: nat, used: nat)
    requires i <= |dir|
    ensures var n := Fitting(dir, bitmap, maxcount, i, used);
            var size := |EntriesBytes(dir, bitmap, i, i + n)|;
            && (n > 0 ==> used + size + 8 <= maxcount)
            && (i + n < |dir| ==> used + size + EntrySize(dir, bitmap, i + n) + 8 > maxcount)
    decreases |dir| - i
  {
    hide EntryBytes;
    var n := Fitting(dir, bitmap, maxcount, i, used);
    if n == 0 {
      EntriesNone(dir, bitmap, i);
    } else {
      WithinBudget(dir, bitmap, maxcount, i + 1, used + EntrySize(dir, bitmap, i));
      EntriesFront(dir, bitmap, i, i + n);
    }
  }

  /** A page respects maxcount exactly when maxcount has room for an empty page; it is otherwise
      an empty page of 16 bytes, and a page that is not the last one has no room for the next
      entry. */
  lemma PageSize(dir: Listing, bitmap: seq<u32>, cookie: u64, maxcount: u32)
    ensures |Page(dir, bitmap, cookie, maxcount)| <= maxcount <==> maxcount >= 16
    ensures maxcount < 16 ==> |Page(dir, bitmap, cookie, maxcount)| == 16
    ensures var v := View(dir, bitmap, cookie, maxcount);
            !v.eof ==>
              |Page(dir, bitmap, cookie, maxcount)| + EntrySize(dir, bitmap, StartIndex(cookie) + |v.items|) > maxcount
  {
    hide Fitting, EntriesBytes, EntrySize, Items;
    var start := StartIndex(cookie);
    if start <= |dir| {
      WithinBudget(dir, bitmap, maxcount, start, 8);
      EntriesNone(dir, bitmap, start);
    }
  }

  // ----- the conversation -----

  datatype Client = Client(cookie: u64, got: seq<Item>, done: bool)

  function Ask(dir: Listing, bitmap: seq<u32>, maxcount: u32, c: Client): Client {
    if c.done then c
    else
      match ParsePage(Page(dir, bitmap, c.cookie, maxcount))
      case None => c
      case Some(v) =>
        Client(if v.items == [] then c.cookie else v.items[|v.items| - 1].cookie, c.got + v.items, v.eof)
  }

  function After(dir: Listing, bitmap: seq<u32>, maxcount: u32, n: nat): Client {
    if n == 0 then Client(0, [], false) else Ask(dir, bitmap, maxcount, After(dir, bitmap, maxcount, n - 1))
  }

  /** The client that has been given the first `m` entries. */
  predicate At(dir: Listing, bitmap: seq<u32>, c: Client, m: nat) {
    && m <= |dir|
    && c.got == Items(dir, bitmap, 0, m)
    && c.cookie == (if m == 0 then 0 else COOKIE_BASE + m - 1)
    && (c.done ==> m == |dir|)
  }

  predicate Fits(dir: Listing, bitmap: seq<u32>, maxcount: u32, i: nat)
    requires i < |dir|
  {
    EntrySize(dir, bitmap, i) + 16 <= maxcount
  }

  ghost predicate AllFit(dir: Listing, bitmap: seq<u32>, maxcount: u32) {
    forall i :: 0 <= i < |dir| ==> Fits(dir, bitmap, maxcount, i)
  }

  lemma AskAdvances(dir: Listing, bitmap: seq<u32>, maxcount: u32, c: Client, m: nat)
    requires At(dir, bitmap, c, m) && !c.done
    ensures var n := Fitting(dir, bitmap, maxcount, m, 8);
            var c' := Ask(dir, bitmap, maxcount, c);
            At(dir, bitmap, c', m + n) && (c'.done <==> m + n == |dir|)
  {
    hide Fitting, ParsePage, Page, Items, ItemOf;
    var n := Fitting(dir, bitmap, maxcount, m, 8);
    PageDecodes(dir, bitmap, c.cookie, maxcount);
    ItemsJoin(dir, bitmap, 0, m, m + n);
    if n > 0 { LastItem(dir, bitmap, m, m + n); } else { NoItems(dir, bitmap, m); }
  }

  lemma LastItem(dir: Listing, bitmap: seq<u32>, lo: nat, hi: nat)
    requires lo < hi <= |dir|
    ensures Items(dir, bitmap, lo, hi)[hi - lo - 1].cookie == COOKIE_BASE + hi - 1
  {
  }

  lemma NoItems(dir: Listing, bitmap: seq<u32>, lo: nat)
    requires lo <= |dir|
    ensures Items(dir, bitmap, lo, lo) == []
  {
  }

  /** Without gaps or repeats: at every point of every conversation the client holds exactly the
      first entries of the directory, and once told eof it holds all of them. */
  lemma {:induction false} NoGapNoRepeat(dir: Listing, bitmap: seq<u32>, maxcount: u32, n: nat)
    returns (m: nat)
    ensures At(dir, bitmap, After(dir, bitmap, maxcount, n), m)
    ensures AllFit(dir, bitmap, maxcount) && n > 0 ==>
              m >= n || (m == |dir| && After(dir, bitmap, maxcount, n).done)
    ensures n > 0 ==> (After(dir, bitmap, maxcount, n).done <==> m == |dir|)
    ensures forall k :: 0 <= k < |dir| && !Fits(dir, bitmap, maxcount, k) ==>
              m <= k && !After(dir, bitmap, maxcount, n).done
    decreases n
  {
    hide Ask, Items, EntrySize;
    if n == 0 {
      m := 0;
      NoItems(dir, bitmap, 0);
    } else {
      var before := NoGapNoRepeat(dir, bitmap, maxcount, n - 1);
      var c := After(dir, bitmap, maxcount, n - 1);
      if c.done {
        m := before;
        AskDone(dir, bitmap, maxcount, c);
      } else {
        m := before + Fitting(dir, bitmap, maxcount, before, 8);
        AskAdvances(dir, bitmap, maxcount, c, before);
        if before < |dir| { FittingEntry(dir, bitmap, maxcount, before); }
        forall k | before <= k < |dir| && !Fits(dir, bitmap, maxcount, k) ensures m <= k {
          OversizedStops(dir, bitmap, maxcount, before, 8, k);
        }
      }
    }
  }

  lemma FittingEntry(dir: Listing, bitmap: seq<u32>, maxcount: u32, i: nat)
    requires i < |dir|
    ensures Fits(dir, bitmap, maxcount, i) ==> Fitting(dir, bitmap, maxcount, i, 8) > 0
  {
    hide EntrySize;
  }

  lemma AskDone(dir: Listing, bitmap: seq<u32>, maxcount: u32, c: Client)
    requires c.done
    ensures Ask(dir, bitmap, maxcount, c) == c
  {
  }

  lemma {:induction false} OversizedStops(dir: Listing, bitmap: seq<u32>, maxcount: u32, i: nat, used: nat, k: nat)
    requires i <= k < |dir| && used >= 8 && !Fits(dir, bitmap, maxcount, k)
    ensures i + Fitting(dir, bitmap, maxcount, i, used) <= k
    decreases k - i
  {
    hide EntrySize;
    if i < k { OversizedStops(dir, bitmap, maxcount, i + 1, used + EntrySize(dir, bitmap, i), k); }
  }

  /** A conversation ends exactly when every single entry fits a page of its own; it then takes
      at most one request per entry, and delivers exactly the directory. */
  lemma ConversationEnds(dir: Listing, bitmap: seq<u32>, maxcount: u32)
    ensures (exists n :: After(dir, bitmap, maxcount, n).done) <==> AllFit(dir, bitmap, maxcount)
    ensures AllFit(dir, bitmap, maxcount) ==>
              var c := After(dir, bitmap, maxcount, if |dir| == 0 then 1 else |dir|);
              c.done && c.got == Items(dir, bitmap, 0, |dir|)
  {
    hide After, Fits, Items;
    if AllFit(dir, bitmap, maxcount) {
      var m := NoGapNoRepeat(dir, bitmap, maxcount, if |dir| == 0 then 1 else |dir|);
    } else {
      forall n ensures !After(dir, bitmap, maxcount, n).done {
        var m := NoGapNoRepeat(dir, bitmap, maxcount, n);
      }
    }
  }

  /** Entry `k` is the first that has no room even alone. */
  ghost predicate FirstMisfit(dir: Listing, bitmap: seq<u32>, maxcount: u32, k: nat)
    requires k < |dir|
  {
    !Fits(dir, bitmap, maxcount, k) && forall i :: 0 <= i < k ==> Fits(dir, bitmap, maxcount, i)
  }

  lemma {:induction false} ApproachesMisfit(dir: Listing, bitmap: seq<u32>, maxcount: u32, k: nat, n: nat)
    returns (m: nat)
    requires k < |dir| && FirstMisfit(dir, bitmap, maxcount, k)
    ensures At(dir, bitmap, After(dir, bitmap, maxcount, n), m) && !After(dir, bitmap, maxcount, n).done
    ensures m <= k && (m >= n || m == k)
    decreases n
  {
    hide Ask, Items, EntrySize, Fits;
    if n == 0 {
      m := 0;
      NoItems(dir, bitmap, 0);
    } else {
      var before := ApproachesMisfit(dir, bitmap, maxcount, k, n - 1);
      m := before + Fitting(dir, bitmap, maxcount, before, 8);
      AskAdvances(dir, bitmap, maxcount, After(dir, bitmap, maxcount, n - 1), before);
      FittingEntry(dir, bitmap, maxcount, before);
      OversizedStops(dir, bitmap, maxcount, before, 8, k);
    }
  }

  /** Otherwise the client gets to the first entry that does not fit, in at most one request per
      entry before it, and from there on every page is empty and without eof, for ever. */
  lemma EmptyPagesForever(dir: Listing, bitmap: seq<u32>, maxcount: u32, k: nat, n: nat)
    requires k < |dir| && n >= k
    ensures var c := After(dir, bitmap, maxcount, n);
            FirstMisfit(dir, bitmap, maxcount, k) ==>
            && At(dir, bitmap, c, k) && !c.done
            && ParsePage(Page(dir, bitmap, c.cookie, maxcount)) == Some(PageView([], false))
  {
    hide After, EntrySize, ParsePage, Page, Items, Fits;
    if FirstMisfit(dir, bitmap, maxcount, k) {
      var m := ApproachesMisfit(dir, bitmap, maxcount, k, n);
      OversizedStops(dir, bitmap, maxcount, k, 8, k);
      PageDecodes(dir, bitmap, After(dir, bitmap, maxcount, n).cookie, maxcount);
    }
  }

  // ----- the pseudo root -----

  /** The room a page has: an empty one is sent whatever maxcount is. */
  function Room(maxcount: u32): u32 { if maxcount < 16 then 16 else maxcount }

  /** Listing the root is one page of READDIR without a budget: the two agree exactly when the
      whole remainder has room. */
  lemma RootIsUnboundedPage(dir: Listing, bitmap: seq<u32>, cookie: u64, maxcount: u32)
    ensures RootPage(dir, bitmap, cookie) == Page(dir, bitmap, cookie, maxcount) <==>
            |RootPage(dir, bitmap, cookie)| <= Room(maxcount)
  {
    hide Fitting, EntriesBytes, EntrySize, Trailer, Page, RootPage;
    var start := StartIndex(cookie);
    var n := Fitting(dir, bitmap, maxcount, start, 8);
    PageSize(dir, bitmap, cookie, maxcount);
    if start + n < |dir| {
      RootOverflows(dir, bitmap, cookie, maxcount);
    } else {
      RootWhole(dir, bitmap, cookie, maxcount);
    }
  }

  lemma RootWhole(dir: Listing, bitmap: seq<u32>, cookie: u64, maxcount: u32)
    requires StartIndex(cookie) + Fitting(dir, bitmap, maxcount, StartIndex(cookie), 8) >= |dir|
    ensures RootPage(dir, bitmap, cookie) == Page(dir, bitmap, cookie, maxcount)
  {
    hide EntriesBytes, EntrySize, Trailer, Fitting;
  }

  lemma RootOverflows(dir: Listing, bitmap: seq<u32>, cookie: u64, maxcount: u32)
    requires StartIndex(cookie) + Fitting(dir, bitmap, maxcount, StartIndex(cookie), 8) < |dir|
    ensures |RootPage(dir, bitmap, cookie)| > Room(maxcount)
  {
    hide Fitting, EntriesBytes, EntrySize, Trailer;
    var start := StartIndex(cookie);
    var n := Fitting(dir, bitmap, maxcount, start, 8);
    WithinBudget(dir, bitmap, maxcount, start, 8);
    EntriesSize(dir, bitmap, start, start + n, |dir|);
  }

  lemma {:induction false} EntriesSize(dir: Listing, bitmap: seq<u32>, lo: nat, mid: nat, hi: nat)
    requires lo <= mid < hi <= |dir|
    ensures |EntriesBytes(dir, bitmap, lo, hi)| >= |EntriesBytes(dir, bitmap, lo, mid)| + EntrySize(dir, bitmap, mid)
    decreases hi
  {
    hide EntryBytes;
    if mid + 1 < hi { EntriesSize(dir, bitmap, lo, mid, hi - 1); }
  }

  /** From any cookie the root's page decodes to every later export, and says eof. */
  lemma RootPageDecodes(dir: Listing, bitmap: seq<u32>, cookie: u64)
    ensures var start := StartIndex(cookie);
            ParsePage(RootPage(dir, bitmap, cookie)) ==
            Some(PageView(if start < |dir| then Items(dir, bitmap, start, |dir|) else [], true))
  {
    hide ParseItems, EntriesBytes, Trailer, Items;
    var start := StartIndex(cookie);
    if start < |dir| {
      assert RootPage(dir, bitmap, cookie)[8..] == EntriesBytes(dir, bitmap, start, |dir|) + Trailer(true);
      ParseEntries(dir, bitmap, start, |dir|, true);
    } else {
      assert RootPage(dir, bitmap, cookie)[8..] == Trailer(true);
      ParseTrailer(true);
    }
  }
}
