/** The hourly caps over whole runs. A run is the history since the current
    gnome-shell plus the clients that are plugged and still wait for their
    connector to light up. */
module PlugCaps {
  import opened PlugHistory

  const MAX_CLIENTS: nat := 8

  /** Any cap + 1 consecutive times span at least an hour. */
  ghost predicate Spaced(ts: seq<int>, cap: nat) {
    forall i, j | 0 <= i && j == i + cap && j < |ts| :: ts[j] >= ts[i] + WINDOW
  }

  /** How many of the times lie in the half-open hour (s, s + 1 h]. */
  function HourCount(ts: seq<int>, s: int): nat {
    if ts == [] then 0
    else HourCount(ts[..|ts| - 1], s) + if s < ts[|ts| - 1] <= s + WINDOW then 1 else 0
  }

  lemma {:induction false} HourCountTail(ts: seq<int>, s: int, m: nat)
    requires m <= |ts| && forall i | 0 <= i < m :: ts[i] <= s
    ensures HourCount(ts, s) <= |ts| - m
    decreases |ts|
  {
    if ts != [] {
      HourCountTail(ts[..|ts| - 1], s, if m == |ts| then m - 1 else m);
    }
  }

  /** No half-open hour of the run holds more than cap of the times. */
  lemma {:induction false} AnyHour(ts: seq<int>, s: int, cap: nat)
    requires SortedTimes(ts) && Spaced(ts, cap)
    ensures HourCount(ts, s) <= cap
  {
    if ts != [] {
      var n := |ts| - 1;
      if s < ts[n] <= s + WINDOW {
        HourCountTail(ts, s, if n >= cap then n - cap + 1 else 0) by {
          if n >= cap {
            assert ts[n] >= ts[n - cap] + WINDOW;
          }
        }
      } else {
        AnyHour(ts[..n], s, cap);
      }
    }
  }

  lemma SpacedTwice(ts: seq<int>, cap: nat, j: nat)
    requires Spaced(ts, cap)
    ensures |ts| - j > 2 * cap ==> ts[j + 2 * cap] >= ts[j] + 2 * WINDOW
  {
    if |ts| - j > 2 * cap {
      assert ts[j + cap] >= ts[j] + WINDOW && ts[j + cap + cap] >= ts[j + cap] + WINDOW;
    }
  }

  /** At most two caps' worth of events are not older than an hour. */
  lemma WindowCount(ev: seq<Event>, k: Kind, cap: nat, now: int)
    requires Sorted(ev) && NoLater(ev, now) && cap > 0 && Spaced(Times(ev, k), cap)
    ensures |Recent(ev, k, now - WINDOW)| <= 2 * cap
  {
    hide Times, Recent;
    var j := RecentIsSuffix(ev, k, now - WINDOW);
    TimesSorted(ev, k, now);
    SpacedTwice(Times(ev, k), cap, j);
  }

  // ------------------------------------------------------ the run invariant

  /** Failures that could still come from the clients already waiting are
      accounted for: the oldest ones they would push out are an hour old. */
  ghost predicate Reserved(fails: seq<int>, waiting: nat, max: nat, now: int) {
    forall i | 0 <= i < |fails| && i + FAILS_PER_HOUR - 1 + max < |fails| + waiting :: fails[i] + WINDOW <= now
  }

  /** In every final stretch of the history, lit connectors and failures come
      from plugs of that stretch or from the at most `max` clients that were
      already waiting. */
  ghost predicate Balanced(ev: seq<Event>, waiting: nat, max: nat) {
    forall i | 0 <= i <= |ev| :: BalancedFrom(ev, waiting, max, i)
  }

  ghost predicate BalancedFrom(ev: seq<Event>, waiting: nat, max: nat, i: nat)
    requires i <= |ev|
  {
    |Times(ev[i..], Lit)| + |Times(ev[i..], Fail)| + waiting <= |Times(ev[i..], Plug)| + max
  }

  ghost predicate Healthy(full: seq<Event>, waiting: nat, max: nat, now: int) {
    && 0 < max <= MAX_CLIENTS && waiting <= max && now >= 0
    && Sorted(full) && NoLater(full, now)
    && Spaced(Times(full, Plug), PLUGS_PER_HOUR)
    && Spaced(Times(full, Fail), FAILS_PER_HOUR - 1 + max)
    && Reserved(Times(full, Fail), waiting, max, now)
    && Balanced(full, waiting, max)
  }

  lemma BalancedSnoc(ev: seq<Event>, waiting: nat, max: nat, e: Event, waiting': nat)
    requires Balanced(ev, waiting, max) && waiting' <= max
    requires e.kind == Plug ==> waiting' <= waiting + 1
    requires e.kind != Plug ==> waiting' + 1 <= waiting
    ensures Balanced(ev + [e], waiting', max)
  {
    hide Times;
    forall i | 0 <= i <= |ev + [e]|
      ensures BalancedFrom(ev + [e], waiting', max, i)
    {
      if i <= |ev| {
        assert (ev + [e])[i..] == ev[i..] + [e];
        assert BalancedFrom(ev, waiting, max, i);
        TimesSnoc(ev[i..], e, Plug);
        TimesSnoc(ev[i..], e, Lit);
        TimesSnoc(ev[i..], e, Fail);
      } else {
        assert (ev + [e])[i..] == [];
        NoTimes(Plug, 0);
        NoTimes(Lit, 0);
        NoTimes(Fail, 0);
      }
    }
  }

  lemma StartsHealthy(waiting: nat, max: nat, now: int)
    requires 0 < max <= MAX_CLIENTS && waiting <= max && now >= 0
    ensures Healthy([], waiting, max, now)
  {
    assert Times([], Plug) == [] && Times([], Fail) == [] && Times([], Lit) == [];
    assert BalancedFrom([], waiting, max, 0);
  }

  lemma TimePasses(full: seq<Event>, waiting: nat, max: nat, now: int, later: int)
    requires Healthy(full, waiting, max, now) && now <= later
    ensures Healthy(full, waiting, max, later)
  {
    hide Times, Balanced;
  }

  /** A plug through an open gate. */
  lemma PlugKeeps(full: seq<Event>, waiting: nat, max: nat, now: int, at: int)
    requires Healthy(full, waiting, max, now) && waiting < max && now <= at
    requires Reopen(full) <= now
    ensures Healthy(full + [Event(at, Plug)], waiting + 1, max, at)
  {
    hide Times, RunFails, BackoffUntil, Balanced;
    var e := Event(at, Plug);
    TimesSnoc(full, e, Plug);
    TimesSnoc(full, e, Fail);
    BalancedSnoc(full, waiting, max, e, waiting + 1);
    TimesSorted(full, Fail, now);
    assert Times(full, Fail) + [] == Times(full, Fail);
  }

  /** A waiting client's mode timeout. */
  lemma FailKeeps(full: seq<Event>, waiting: nat, max: nat, now: int, at: int)
    requires Healthy(full, waiting, max, now) && waiting > 0 && now <= at
    ensures Healthy(full + [Event(at, Fail)], waiting - 1, max, at)
  {
    hide Times, Balanced;
    var e := Event(at, Fail);
    TimesSnoc(full, e, Plug);
    TimesSnoc(full, e, Fail);
    BalancedSnoc(full, waiting, max, e, waiting - 1);
    assert Times(full, Plug) + [] == Times(full, Plug);
  }

  /** A waiting client's connector lights up. */
  lemma LitKeeps(full: seq<Event>, waiting: nat, max: nat, now: int, at: int)
    requires Healthy(full, waiting, max, now) && waiting > 0 && now <= at
    ensures Healthy(full + [Event(at, Lit)], waiting - 1, max, at)
  {
    hide Times, Balanced;
    var e := Event(at, Lit);
    TimesSnoc(full, e, Plug);
    TimesSnoc(full, e, Fail);
    BalancedSnoc(full, waiting, max, e, waiting - 1);
    assert Times(full, Plug) + [] == Times(full, Plug) && Times(full, Fail) + [] == Times(full, Fail);
  }

  /** A waiting client leaves. */
  lemma LeaveKeeps(full: seq<Event>, waiting: nat, max: nat, now: int)
    requires Healthy(full, waiting, max, now) && waiting > 0
    ensures Healthy(full, waiting - 1, max, now)
  {
    hide Times;
    var left := waiting - 1;
    forall i | 0 <= i <= |full|
      ensures BalancedFrom(full, left, max, i)
    {
      assert BalancedFrom(full, waiting, max, i);
    }
  }

  // ------------------------------------------------------- consequences

  lemma {:induction false} AllRecent(ev: seq<Event>, k: Kind, lo: int)
    requires forall i | 0 <= i < |ev| :: ev[i].t >= lo
    ensures Recent(ev, k, lo) == Times(ev, k)
  {
    if ev != [] {
      AllRecent(ev[..|ev| - 1], k, lo);
    }
  }

  /** The window never holds more events than pruning may keep. */
  lemma WindowIsSmall(full: seq<Event>, waiting: nat, max: nat, now: int)
    requires Healthy(full, waiting, max, now)
    ensures InWindow(full, now - WINDOW) <= EVENTS_MAX - SATURATED
  {
    hide Times, Recent;
    var lo := now - WINDOW;
    WindowCount(full, Plug, PLUGS_PER_HOUR, now);
    var i := 0;
    while i < |full| && full[i].t < lo
      invariant 0 <= i <= |full| && forall j | 0 <= j < i :: full[j].t < lo
    {
      i := i + 1;
    }
    assert BalancedFrom(full, waiting, max, i);
    forall k: Kind
      ensures Recent(full, k, lo) == Times(full[i..], k)
    {
      RecentOfTail(full, i, k, lo);
      AllRecent(full[i..], k, lo);
    }
  }

  /** Within one gnome-shell lifetime, no half-open hour holds more than 60
      plugs, nor more than 15 mode timeouts beyond the clients that may wait
      at the same time: 16 with one client, 23 with eight. */
  lemma CapsHold(full: seq<Event>, waiting: nat, max: nat, now: int, s: int)
    requires Healthy(full, waiting, max, now)
    ensures HourCount(Times(full, Plug), s) <= PLUGS_PER_HOUR
    ensures HourCount(Times(full, Fail), s) <= FAILS_PER_HOUR - 1 + max
  {
    hide Times;
    TimesSorted(full, Plug, now);
    TimesSorted(full, Fail, now);
    AnyHour(Times(full, Plug), s, PLUGS_PER_HOUR);
    AnyHour(Times(full, Fail), s, FAILS_PER_HOUR - 1 + max);
  }
}
