/** The per-address connection rate limiter (`ConnRateLimiter`): fixed windows that open with a
    check and last `window` ticks. */
module RateLimit {
  import opened Wire

  type Ip = nat

  /** Checks counted in the current window, when it opened, and whether a rejection was reported. */
  datatype Entry = Entry(count: nat, start: nat, warned: bool)

  datatype Config = Config(window: nat, maxPerIp: nat)

  datatype Decision = Decision(allowed: bool, firstReject: bool)

  function CheckEntry(cfg: Config, known: Option<Entry>, now: nat): (Entry, Decision) {
    var e := if known.Some? then known.value else Entry(0, now, false);
    if now > e.start + cfg.window then (Entry(1, now, false), Decision(true, false))
    else if e.count + 1 <= cfg.maxPerIp then (e.(count := e.count + 1), Decision(true, false))
    else (Entry(e.count + 1, e.start, true), Decision(false, !e.warned))
  }

  predicate Kept(cfg: Config, e: Entry, now: nat) {
    now <= e.start + cfg.window || e.count > 0
  }

  function Retain(cfg: Config, m: map<Ip, Entry>, now: nat): map<Ip, Entry> {
    map ip | ip in m && Kept(cfg, m[ip], now) :: m[ip]
  }

  function Lookup(m: map<Ip, Entry>, ip: Ip): Option<Entry> {
    if ip in m then Some(m[ip]) else None
  }

  class ConnRateLimiter {
    var perIp: map<Ip, Entry>
    const cfg: Config

    constructor (maxPerIp: nat, window: nat)
      ensures perIp == map[] && cfg == Config(window, maxPerIp)
    {
      perIp := map[];
      cfg := Config(window, maxPerIp);
    }

    method Check(ip: Ip, now: nat) returns (allowed: bool, firstReject: bool)
      modifies this`perIp
      ensures var (e, d) := CheckEntry(cfg, Lookup(old(perIp), ip), now);
              perIp == old(perIp)[ip := e] && d == Decision(allowed, firstReject)
    {
      if ip !in perIp {
        perIp := perIp[ip := Entry(0, now, false)];
      }
      var entry := perIp[ip];
      if now > entry.start + cfg.window {
        perIp := perIp[ip := Entry(1, now, false)];
        return true, false;
      }
      entry := entry.(count := entry.count + 1);
      if entry.count <= cfg.maxPerIp {
        allowed, firstReject := true, false;
      } else {
        allowed, firstReject := false, !entry.warned;
        entry := entry.(warned := true);
      }
      perIp := perIp[ip := entry];
    }

    method Cleanup(now: nat)
      modifies this`perIp
      ensures perIp == Retain(cfg, old(perIp), now)
    {
      var todo := perIp.Keys;
      while todo != {}
        invariant todo <= old(perIp).Keys
        invariant perIp.Keys == todo + Retain(cfg, old(perIp), now).Keys
        invariant forall ip :: ip in perIp ==> ip in old(perIp) && perIp[ip] == old(perIp)[ip]
        decreases todo
      {
        var ip :| ip in todo;
        todo := todo - {ip};
        var e := perIp[ip];
        if !(now <= e.start + cfg.window || e.count > 0) {
          perIp := perIp - {ip};
        }
      }
    }
  }

  // ----- runs -----

  datatype Event = Check(now: nat, ip: Ip) | Cleanup(now: nat)

  function StateAfter(cfg: Config, events: seq<Event>): map<Ip, Entry> {
    if events == [] then map[]
    else
      var m := StateAfter(cfg, events[..|events| - 1]);
      match events[|events| - 1]
      case Check(now, ip) => m[ip := CheckEntry(cfg, Lookup(m, ip), now).0]
      case Cleanup(now) => Retain(cfg, m, now)
  }

  /** What the check at position `i` decides. */
  function DecisionAt(cfg: Config, events: seq<Event>, i: nat): Decision
    requires i < |events| && events[i].Check?
  {
    CheckEntry(cfg, Lookup(StateAfter(cfg, events[..i]), events[i].ip), events[i].now).1
  }

  ghost predicate Monotone(events: seq<Event>) {
    forall i, j :: 0 <= i < j < |events| ==> events[i].now <= events[j].now
  }

  lemma {:induction false} CountsPositive(cfg: Config, events: seq<Event>)
    ensures forall ip :: ip in StateAfter(cfg, events) ==> StateAfter(cfg, events)[ip].count >= 1
  {
    if events != [] { CountsPositive(cfg, events[..|events| - 1]); }
  }

  /** Every entry in the table has counted a check, so cleaning up never removes one. */
  lemma CleanupRemovesNothing(cfg: Config, events: seq<Event>, now: nat)
    ensures Retain(cfg, StateAfter(cfg, events), now) == StateAfter(cfg, events)
  {
    CountsPositive(cfg, events);
  }

  // ----- one address at a time -----

  /** The times at which this address was checked. */
  function Own(events: seq<Event>, ip: Ip): seq<nat> {
    if events == [] then []
    else
      var e := events[|events| - 1];
      Own(events[..|events| - 1], ip) + (if e.Check? && e.ip == ip then [e.now] else [])
  }

  function OwnState(cfg: Config, times: seq<nat>): Option<Entry> {
    if times == [] then None
    else Some(CheckEntry(cfg, OwnState(cfg, times[..|times| - 1]), times[|times| - 1]).0)
  }

  /** An address's entry, and so every decision about it, depends on its own checks alone: other
      addresses and cleaning up, wherever they come, make no difference. */
  lemma {:induction false} Independence(cfg: Config, events: seq<Event>, ip: Ip)
    ensures Lookup(StateAfter(cfg, events), ip) == OwnState(cfg, Own(events, ip))
  {
    if events != [] {
      var n := |events| - 1;
      Independence(cfg, events[..n], ip);
      match events[n]
      case Check(now, other) =>
        if other == ip {
          assert Own(events, ip)[..|Own(events, ip)| - 1] == Own(events[..n], ip);
        } else {
          assert Own(events, ip) == Own(events[..n], ip);
        }
      case Cleanup(now) =>
        CleanupRemovesNothing(cfg, events[..n], now);
        assert Own(events, ip) == Own(events[..n], ip);
    }
  }

  lemma SameChecksSameDecision(cfg: Config, a: seq<Event>, i: nat, b: seq<Event>, j: nat)
    requires i < |a| && j < |b| && a[i].Check? && a[i] == b[j]
    requires Own(a[..i], a[i].ip) == Own(b[..j], a[i].ip)
    ensures DecisionAt(cfg, a, i) == DecisionAt(cfg, b, j)
  {
    Independence(cfg, a[..i], a[i].ip);
    Independence(cfg, b[..j], a[i].ip);
  }

  // ----- the sliding window -----

  /** Admissions of one address at times lo..hi. */
  function Admissions(cfg: Config, events: seq<Event>, ip: Ip, lo: nat, hi: nat): nat {
    if events == [] then 0
    else
      var n := |events| - 1;
      var e := events[n];
      Admissions(cfg, events[..n], ip, lo, hi) +
      if e.Check? && e.ip == ip && lo <= e.now <= hi && DecisionAt(cfg, events, n).allowed then 1 else 0
  }

  /** What can be admitted in an interval no longer than the window. */
  function Bound(cfg: Config): nat {
    if cfg.maxPerIp == 0 then 1 else 2 * cfg.maxPerIp - 1
  }

  function Min(a: nat, b: nat): nat { if a < b then a else b }

  function Pred(n: nat): nat { if n == 0 then 0 else n - 1 }

  /** By where the current window opened: before the interval, it may have admitted all but its
      first check there; inside it, the window before it adds the same; after it, nothing more. */
  ghost predicate Tally(cfg: Config, known: Option<Entry>, admitted: nat, last: nat, lo: nat, hi: nat) {
    && (known.None? ==> admitted == 0)
    && (last < lo ==> admitted == 0)
    && (known.Some? ==>
          var e := known.value;
          && e.count >= 1 && e.start <= last
          && (e.start < lo ==> admitted <= Pred(Min(e.count, cfg.maxPerIp)))
          && (lo <= e.start ==> admitted <= Bound(cfg))
          && (lo <= e.start <= hi ==>
                admitted <= Pred(cfg.maxPerIp) + (if cfg.maxPerIp == 0 then 1 else Min(e.count, cfg.maxPerIp))))
  }

  lemma {:induction false} TallyHolds(cfg: Config, events: seq<Event>, ip: Ip, lo: nat, hi: nat)
    requires Monotone(events) && hi <= lo + cfg.window
    ensures var last := if events == [] then 0 else events[|events| - 1].now;
            events == [] ||
            Tally(cfg, Lookup(StateAfter(cfg, events), ip), Admissions(cfg, events, ip, lo, hi), last, lo, hi)
    ensures events == [] ==> Admissions(cfg, events, ip, lo, hi) == 0
  {
    if events != [] {
      var n := |events| - 1;
      TallyHolds(cfg, events[..n], ip, lo, hi);
      CountsPositive(cfg, events[..n]);
      if events[n].Cleanup? { CleanupRemovesNothing(cfg, events[..n], events[n].now); }
      assert n > 0 ==> events[n - 1].now <= events[n].now;
    }
  }

  /** No interval as long as the window holds more than 2 * max - 1 admissions of one address
      (or more than one, if max is 0). */
  lemma SlidingWindow(cfg: Config, events: seq<Event>, ip: Ip, lo: nat, hi: nat)
    requires Monotone(events) && hi <= lo + cfg.window
    ensures Admissions(cfg, events, ip, lo, hi) <= Bound(cfg)
  {
    TallyHolds(cfg, events, ip, lo, hi);
  }

  function Burst(t: nat, ip: Ip, k: nat): seq<Event> {
    if k == 0 then [] else Burst(t, ip, k - 1) + [Check(t, ip)]
  }

  /** Checks within the window are admitted until the count is used up. */
  lemma {:induction false} BurstAdmitted(cfg: Config, events: seq<Event>, t: nat, ip: Ip, k: nat, lo: nat, hi: nat)
    requires ip in StateAfter(cfg, events)
    requires var e := StateAfter(cfg, events)[ip]; t <= e.start + cfg.window && e.count + k <= cfg.maxPerIp
    requires lo <= t <= hi
    ensures var after := events + Burst(t, ip, k);
            var e := StateAfter(cfg, events)[ip];
            && ip in StateAfter(cfg, after) && StateAfter(cfg, after)[ip] == e.(count := e.count + k)
            && Admissions(cfg, after, ip, lo, hi) == Admissions(cfg, events, ip, lo, hi) + k
  {
    hide StateAfter, Admissions;
    if k == 0 {
      assert events + Burst(t, ip, k) == events;
    } else {
      BurstAdmitted(cfg, events, t, ip, k - 1, lo, hi);
      CheckStep(cfg, events + Burst(t, ip, k - 1), t, ip, lo, hi);
      assert events + Burst(t, ip, k) == events + Burst(t, ip, k - 1) + [Check(t, ip)];
    }
  }

  lemma CheckStep(cfg: Config, events: seq<Event>, t: nat, ip: Ip, lo: nat, hi: nat)
    ensures var after := events + [Check(t, ip)];
            var (e, d) := CheckEntry(cfg, Lookup(StateAfter(cfg, events), ip), t);
            && StateAfter(cfg, after) == StateAfter(cfg, events)[ip := e]
            && Admissions(cfg, after, ip, lo, hi) ==
               Admissions(cfg, events, ip, lo, hi) + if lo <= t <= hi && d.allowed then 1 else 0
  {
    var after := events + [Check(t, ip)];
    assert after[..|events|] == events;
  }

  function FirstWindow(w: nat, m: nat, ip: Ip): seq<Event>
    requires m >= 1
  {
    [] + [Check(0, ip)] + Burst(w, ip, m - 1)
  }

  lemma FirstWindowFills(cfg: Config, ip: Ip)
    requires cfg.maxPerIp >= 1 && cfg.window >= 1
    ensures var b := FirstWindow(cfg.window, cfg.maxPerIp, ip);
            && Lookup(StateAfter(cfg, b), ip) == Some(Entry(cfg.maxPerIp, 0, false))
            && Admissions(cfg, b, ip, 1, 1 + cfg.window) == cfg.maxPerIp - 1
  {
    var w, m := cfg.window, cfg.maxPerIp;
    CheckStep(cfg, [], 0, ip, 1, 1 + w);
    assert StateAfter(cfg, []) == map[] && Admissions(cfg, [], ip, 1, 1 + w) == 0;
    hide StateAfter, Admissions, Burst;
    BurstAdmitted(cfg, [] + [Check(0, ip)], w, ip, m - 1, 1, 1 + w);
  }

  /** The bound is reached: one check opens a window, the rest of its allowance comes at its very
      end, and a whole allowance follows one tick later. */
  lemma SlidingWindowTight(cfg: Config, ip: Ip) returns (events: seq<Event>)
    requires cfg.maxPerIp >= 1 && cfg.window >= 1
    ensures Monotone(events)
    ensures Admissions(cfg, events, ip, 1, 1 + cfg.window) == Bound(cfg)
  {
    hide StateAfter, Admissions, Burst, Monotone;
    var w, m := cfg.window, cfg.maxPerIp;
    var b := FirstWindow(w, m, ip);
    FirstWindowFills(cfg, ip);
    var c := b + [Check(w + 1, ip)];
    CheckStep(cfg, b, w + 1, ip, 1, 1 + w);
    events := c + Burst(w + 1, ip, m - 1);
    BurstAdmitted(cfg, c, w + 1, ip, m - 1, 1, 1 + w);
    TightTimes(w, ip, m - 1);
  }

  lemma TightTimes(w: nat, ip: Ip, k: nat)
    ensures Monotone([] + [Check(0, ip)] + Burst(w, ip, k) + [Check(w + 1, ip)] + Burst(w + 1, ip, k))
  {
    hide Burst;
    BurstTimes(w, ip, k);
    BurstTimes(w + 1, ip, k);
    var events := [] + [Check(0, ip)] + Burst(w, ip, k) + [Check(w + 1, ip)] + Burst(w + 1, ip, k);
    assert forall i :: 0 <= i < |events| ==> events[i].now == if i == 0 then 0 else if i <= k then w else w + 1;
  }

  lemma {:induction false} BurstTimes(t: nat, ip: Ip, k: nat)
    ensures |Burst(t, ip, k)| == k && forall i :: 0 <= i < k ==> Burst(t, ip, k)[i] == Check(t, ip)
  {
    if k > 0 { BurstTimes(t, ip, k - 1); }
  }

  /** When the window of the check at position `i` opened. */
  function WindowOf(cfg: Config, events: seq<Event>, i: nat): nat
    requires i < |events| && events[i].Check?
  {
    CheckEntry(cfg, Lookup(StateAfter(cfg, events[..i]), events[i].ip), events[i].now).0.start
  }

  lemma {:induction false} WarnedUntilNextWindow(cfg: Config, events: seq<Event>, i: nat, k: nat)
    requires i < k <= |events| && events[i].Check? && DecisionAt(cfg, events, i).firstReject
    ensures var e := Lookup(StateAfter(cfg, events[..k]), events[i].ip);
            var began := WindowOf(cfg, events, i);
            e.Some? && ((e.value.start == began && e.value.warned) || e.value.start > began + cfg.window)
    decreases k
  {
    assert events[..k][..k - 1] == events[..k - 1];
    if k > i + 1 {
      WarnedUntilNextWindow(cfg, events, i, k - 1);
      if events[k - 1].Cleanup? { CleanupRemovesNothing(cfg, events[..k - 1], events[k - 1].now); }
    }
  }

  /** The first rejection is reported once per window: a second report for the address comes from
      a window that opened more than `window` later. */
  lemma FirstRejectOncePerWindow(cfg: Config, events: seq<Event>, i: nat, j: nat)
    requires i < j < |events| && events[i].Check? && events[j].Check? && events[i].ip == events[j].ip
    requires DecisionAt(cfg, events, i).firstReject && DecisionAt(cfg, events, j).firstReject
    ensures WindowOf(cfg, events, j) > WindowOf(cfg, events, i) + cfg.window
  {
    WarnedUntilNextWindow(cfg, events, i, j);
  }

  // ----- exactly which checks are admitted -----

  /** The check that opened the window of check `i`: the first check opens one, and so does every
      check more than `window` after the one that opened the window before. */
  function Opening(window: nat, times: seq<nat>, i: nat): (w: nat)
    requires i < |times|
    ensures w <= i
  {
    if i == 0 then 0
    else
      var w := Opening(window, times, i - 1);
      if times[i] > times[w] + window then i else w
  }

  /** It opens a window, and not as the very first check; or fewer than the maximum have come in its
      window before it. */
  predicate Admitted(cfg: Config, times: seq<nat>, i: nat)
    requires i < |times|
  {
    var w := Opening(cfg.window, times, i);
    (w == i && i > 0) || i - w < cfg.maxPerIp
  }

  /** All checks of the window before check `i` were admitted. */
  ghost predicate NoneRefused(cfg: Config, times: seq<nat>, i: nat)
    requires i < |times|
  {
    forall j :: Opening(cfg.window, times, i) <= j < i ==> Admitted(cfg, times, j)
  }

  lemma {:induction false} OpeningInWindow(window: nat, times: seq<nat>, i: nat, j: nat)
    requires j <= i < |times| && Opening(window, times, i) <= j
    ensures Opening(window, times, j) == Opening(window, times, i)
    decreases i
  {
    if j < i { OpeningInWindow(window, times, i - 1, j); }
  }

  /** The last window counts its checks, refused ones too, and knows whether one was refused. */
  lemma {:induction false} StateIsWindow(cfg: Config, times: seq<nat>, i: nat)
    requires i < |times|
    ensures var w := Opening(cfg.window, times, i);
            OwnState(cfg, times[..i + 1]) ==
            Some(Entry(i - w + 1, times[w], !(NoneRefused(cfg, times, i) && Admitted(cfg, times, i))))
  {
    hide NoneRefused;
    assert times[..i + 1][..i] == times[..i];
    if i == 0 {
      FirstUnrefused(cfg, times);
      assert OwnState(cfg, times[..0]) == None;
    } else {
      StateIsWindow(cfg, times, i - 1);
      NoneRefusedNext(cfg, times, i);
    }
  }

  lemma FirstUnrefused(cfg: Config, times: seq<nat>)
    requires times != []
    ensures NoneRefused(cfg, times, 0)
  {
  }

  lemma NoneRefusedNext(cfg: Config, times: seq<nat>, i: nat)
    requires 0 < i < |times|
    ensures Opening(cfg.window, times, i) == i ==> NoneRefused(cfg, times, i)
    ensures Opening(cfg.window, times, i) != i ==>
              (NoneRefused(cfg, times, i) <==> NoneRefused(cfg, times, i - 1) && Admitted(cfg, times, i - 1))
  {
  }

  /** In every run, whatever other addresses and cleanups do: a check is admitted exactly as its
      address's own times say, and a refusal is reported exactly when it is the first in its window. */
  lemma DecisionExact(cfg: Config, events: seq<Event>, i: nat)
    requires i < |events| && events[i].Check?
    ensures var times := Own(events[..i], events[i].ip) + [events[i].now];
            var n := |times| - 1;
            var d := DecisionAt(cfg, events, i);
            && (d.allowed <==> Admitted(cfg, times, n))
            && (d.firstReject <==> !Admitted(cfg, times, n) && NoneRefused(cfg, times, n))
  {
    var before, now := Own(events[..i], events[i].ip), events[i].now;
    var times, n := before + [now], |before|;
    Independence(cfg, events[..i], events[i].ip);
    if n > 0 {
      StateIsWindow(cfg, times, n - 1);
      assert times[..n - 1 + 1] == before;
      NoneRefusedNext(cfg, times, n);
      hide NoneRefused, OwnState;
    }
  }

  /** An address that stays away for longer than the window is admitted again, however often it was
      refused before. */
  lemma IdleIsAdmitted(cfg: Config, events: seq<Event>, i: nat)
    requires Monotone(events) && i < |events| && events[i].Check?
    requires var own := Own(events[..i], events[i].ip); own != [] && events[i].now > own[|own| - 1] + cfg.window
    ensures DecisionAt(cfg, events, i).allowed
  {
    var before := Own(events[..i], events[i].ip);
    var times, n := before + [events[i].now], |before|;
    DecisionExact(cfg, events, i);
    OwnMonotone(events[..i], events[i].ip);
    var w := Opening(cfg.window, times, n - 1);
    assert times[w] <= times[n - 1];
  }

  lemma {:induction false} OwnMonotone(events: seq<Event>, ip: Ip)
    requires Monotone(events)
    ensures forall i, j :: 0 <= i <= j < |Own(events, ip)| ==> Own(events, ip)[i] <= Own(events, ip)[j]
    ensures events != [] ==> forall i :: 0 <= i < |Own(events, ip)| ==> Own(events, ip)[i] <= events[|events| - 1].now
  {
    if events != [] {
      var n := |events| - 1;
      OwnMonotone(events[..n], ip);
      if n > 0 { assert events[..n][n - 1].now <= events[n].now; }
    }
  }
}
