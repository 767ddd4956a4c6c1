/** What the plug history means: when the gate reopens, which events its rules
    still look at, and which invariants of the history bound it. Times are
    microseconds of the monotonic clock. */
module PlugHistory {
  import opened Common

  const SEC: int := 1_000_000
  const WINDOW: int := 3600 * SEC
  const BUDGET: nat := 8
  const BACKOFF_MIN: int := 60
  const BACKOFF_MAX: int := 1800
  const FAILS_PER_HOUR: nat := 16
  const PLUGS_PER_HOUR: nat := 60
  const EVENTS_MAX: nat := 1024
  const SATURATED: nat := 14         // failures after which the backoff no longer grows

  datatype Kind = Plug | Lit | Fail
  datatype Event = Event(t: int, kind: Kind)

  function Pow2(n: nat): (p: nat)
    ensures p > 0
  {
    if n == 0 then 1 else 2 * Pow2(n - 1)
  }

  ghost predicate Sorted(ev: seq<Event>) {
    forall i, j | 0 <= i < j < |ev| :: ev[i].t <= ev[j].t
  }

  ghost predicate NoLater(ev: seq<Event>, now: int) {
    forall i | 0 <= i < |ev| :: ev[i].t <= now
  }

  ghost predicate SortedTimes(ts: seq<int>) {
    forall i, j | 0 <= i < j < |ts| :: ts[i] <= ts[j]
  }

  /** The times of the events of one kind, oldest first. */
  function Times(ev: seq<Event>, k: Kind): seq<int> {
    if ev == [] then []
    else
      var e := ev[|ev| - 1];
      Times(ev[..|ev| - 1], k) + if e.kind == k then [e.t] else []
  }

  /** ... of those not older than lo. */
  function Recent(ev: seq<Event>, k: Kind, lo: int): seq<int> {
    if ev == [] then []
    else
      var e := ev[|ev| - 1];
      Recent(ev[..|ev| - 1], k, lo) + if e.kind == k && e.t >= lo then [e.t] else []
  }

  /** The failures since the last connector that lit up. */
  function RunFails(ev: seq<Event>): seq<int> {
    if ev == [] then []
    else
      var e := ev[|ev| - 1];
      match e.kind
      case Lit => []
      case Fail => RunFails(ev[..|ev| - 1]) + [e.t]
      case Plug => RunFails(ev[..|ev| - 1])
  }

  /** How long one waits after the last of `run` failures. */
  function Delay(run: nat): int
    requires run > BUDGET
  {
    Min(BACKOFF_MIN * Pow2(Min(run - BUDGET - 1, 16)), BACKOFF_MAX) * SEC
  }

  /** When each rule lets go, independently of the present; 0 = it does not
      hold. A cap lets go when its cap-th newest event leaves the window. */
  function BackoffUntil(fails: seq<int>): int {
    if |fails| > BUDGET then fails[|fails| - 1] + Delay(|fails|) else 0
  }

  function CapUntil(ts: seq<int>, cap: nat): int
    requires cap > 0
  {
    if |ts| >= cap then ts[|ts| - cap] + WINDOW else 0
  }

  /** The moment a history without further events reopens the gate. */
  function Reopen(ev: seq<Event>): int {
    Max(BackoffUntil(RunFails(ev)),
        Max(CapUntil(Times(ev, Fail), FAILS_PER_HOUR), CapUntil(Times(ev, Plug), PLUGS_PER_HOUR)))
  }

  // ------------------------------------------------- basic facts

  lemma TimesSnoc(ev: seq<Event>, e: Event, k: Kind)
    ensures Times(ev + [e], k) == Times(ev, k) + if e.kind == k then [e.t] else []
  {
    assert (ev + [e])[..|ev|] == ev;
  }

  lemma RecentSnoc(ev: seq<Event>, e: Event, k: Kind, lo: int)
    ensures Recent(ev + [e], k, lo) == Recent(ev, k, lo) + if e.kind == k && e.t >= lo then [e.t] else []
  {
    assert (ev + [e])[..|ev|] == ev;
  }

  lemma RecentStart(ev: seq<Event>, k: Kind, lo: int)
    ensures Recent(ev[..0], k, lo) == []
  {}

  lemma RecentStep(ev: seq<Event>, i: nat, k: Kind, lo: int)
    requires i < |ev|
    ensures Recent(ev[..i + 1], k, lo) == Recent(ev[..i], k, lo) + (if ev[i].kind == k && ev[i].t >= lo then [ev[i].t] else [])
    ensures Recent(ev[..i + 1], k, lo) <= Recent(ev, k, lo)
  {
    hide Recent;
    assert ev[..i + 1] == ev[..i] + [ev[i]];
    RecentSnoc(ev[..i], ev[i], k, lo);
    RecentPrefix(ev, i + 1, k, lo);
  }

  lemma NoTimes(k: Kind, lo: int)
    ensures Times([], k) == [] && Recent([], k, lo) == []
  {}

  lemma RunFailsNil()
    ensures RunFails([]) == []
  {}

  lemma RunFailsSnoc(ev: seq<Event>, e: Event)
    ensures RunFails(ev + [e]) == match e.kind case Lit => [] case Fail => RunFails(ev) + [e.t] case Plug => RunFails(ev)
  {
    assert (ev + [e])[..|ev|] == ev;
  }

  lemma {:induction false} TimesSorted(ev: seq<Event>, k: Kind, now: int)
    requires Sorted(ev) && NoLater(ev, now)
    ensures SortedTimes(Times(ev, k)) && forall i | 0 <= i < |Times(ev, k)| :: Times(ev, k)[i] <= now
  {
    if ev != [] {
      TimesSorted(ev[..|ev| - 1], k, ev[|ev| - 1].t);
    }
  }

  lemma {:induction false} RecentPrefix(ev: seq<Event>, i: nat, k: Kind, lo: int)
    requires i <= |ev|
    ensures Recent(ev[..i], k, lo) <= Recent(ev, k, lo)
    decreases |ev|
  {
    if i < |ev| {
      var n := |ev| - 1;
      assert ev[..n][..i] == ev[..i];
      RecentPrefix(ev[..n], i, k, lo);
    } else {
      assert ev[..i] == ev;
    }
  }

  /** In a sorted history the recent times are the newest times. */
  lemma {:induction false} RecentIsSuffix(ev: seq<Event>, k: Kind, lo: int) returns (j: nat)
    requires Sorted(ev)
    ensures j <= |Times(ev, k)| && Recent(ev, k, lo) == Times(ev, k)[j..]
    ensures forall i | 0 <= i < j :: Times(ev, k)[i] < lo
    ensures forall i | j <= i < |Times(ev, k)| :: Times(ev, k)[i] >= lo
  {
    hide Times, Recent;
    j := 0;
    if ev == [] {
      NoTimes(k, lo);
    } else {
      var n := |ev| - 1;
      assert ev == ev[..n] + [ev[n]];
      j := RecentIsSuffix(ev[..n], k, lo);
      j := SuffixStep(ev[..n], ev[n], k, lo, j);
    }
  }

  lemma SuffixStep(ev: seq<Event>, e: Event, k: Kind, lo: int, j: nat) returns (j': nat)
    requires Sorted(ev) && NoLater(ev, e.t)
    requires j <= |Times(ev, k)| && Recent(ev, k, lo) == Times(ev, k)[j..]
    requires forall i | 0 <= i < j :: Times(ev, k)[i] < lo
    requires forall i | j <= i < |Times(ev, k)| :: Times(ev, k)[i] >= lo
    ensures j' <= |Times(ev + [e], k)| && Recent(ev + [e], k, lo) == Times(ev + [e], k)[j'..]
    ensures forall i | 0 <= i < j' :: Times(ev + [e], k)[i] < lo
    ensures forall i | j' <= i < |Times(ev + [e], k)| :: Times(ev + [e], k)[i] >= lo
  {
    hide Times, Recent;
    var next := if j < |Times(ev, k)| then Times(ev, k)[j] else e.t;
    TimesSnoc(ev, e, k);
    RecentSnoc(ev, e, k, lo);
    TimesSorted(ev, k, e.t);
    assert next <= e.t;
    j' := j;
    if e.kind == k && e.t < lo {
      j' := j + 1;
    }
  }

  /** Narrowing the window later on sees the same events. */
  lemma {:induction false} RecentNarrows(a: seq<Event>, b: seq<Event>, k: Kind, lo: int, lo': int)
    requires Recent(a, k, lo) == Recent(b, k, lo) && lo <= lo'
    ensures Recent(a, k, lo') == Recent(b, k, lo')
  {
    RecentFilters(a, k, lo, lo');
    RecentFilters(b, k, lo, lo');
  }

  function NotBefore(ts: seq<int>, lo: int): seq<int> {
    if ts == [] then []
    else NotBefore(ts[..|ts| - 1], lo) + if ts[|ts| - 1] >= lo then [ts[|ts| - 1]] else []
  }

  lemma {:induction false} RecentFilters(ev: seq<Event>, k: Kind, lo: int, lo': int)
    requires lo <= lo'
    ensures Recent(ev, k, lo') == NotBefore(Recent(ev, k, lo), lo')
  {
    if ev != [] {
      var n := |ev| - 1;
      RecentFilters(ev[..n], k, lo, lo');
      var r := Recent(ev[..n], k, lo);
      if ev[n].kind == k && ev[n].t >= lo {
        assert (r + [ev[n].t])[..|r|] == r;
      } else {
        assert r + [] == r;
      }
    }
  }

  /** A cap that still holds depends on the window only. */
  lemma CapFromWindow(ev: seq<Event>, k: Kind, cap: nat, now: int)
    requires Sorted(ev) && cap > 0 && now >= 0
    ensures var u, w := CapUntil(Times(ev, k), cap), CapUntil(Recent(ev, k, now - WINDOW), cap);
            (u > now <==> w > now) && (u > now ==> u == w)
  {
    var j := RecentIsSuffix(ev, k, now - WINDOW);
    var ts, r := Times(ev, k), Recent(ev, k, now - WINDOW);
    if |r| >= cap {
      assert r[|r| - cap] == ts[|ts| - cap];
    } else if |ts| >= cap {
      assert ts[|ts| - cap] < now - WINDOW;
    }
  }

  lemma {:induction false} Pow2AtLeast(n: nat)
    requires n >= 5
    ensures Pow2(n) >= 32
  {
    if n > 5 {
      Pow2AtLeast(n - 1);
    } else {
      assert Pow2(2) == 4 && Pow2(3) == 8 && Pow2(4) == 16;
    }
  }

  lemma BackoffSaturates(run: nat)
    requires run >= SATURATED
    ensures Delay(run) == BACKOFF_MAX * SEC
  {
    Pow2AtLeast(Min(run - BUDGET - 1, 16));
  }

  // -------------------------------------------- a list that stands for a history

  ghost predicate IsTail(a: seq<int>, b: seq<int>) {
    |a| <= |b| && a == b[|b| - |a|..]
  }

  ghost predicate SameWindow(a: seq<Event>, b: seq<Event>, lo: int) {
    forall k: Kind :: Recent(a, k, lo) == Recent(b, k, lo)
  }

  /** `list` answers every question of the gate like `full` from time `now`
      on: the same events in the window, and the same current failures up to
      old ones that no longer lengthen the backoff. */
  ghost predicate StandsFor(list: seq<Event>, full: seq<Event>, now: int) {
    && Sorted(list) && NoLater(list, now)
    && SameWindow(list, full, now - WINDOW)
    && IsTail(RunFails(list), RunFails(full))
    && (RunFails(list) == RunFails(full) || |RunFails(list)| >= SATURATED)
  }

  lemma TailSnoc(a: seq<int>, b: seq<int>, x: int)
    requires IsTail(a, b)
    ensures IsTail(a + [x], b + [x])
    ensures a != b ==> |a| < |b|
  {}

  lemma TailNil()
    ensures IsTail([], [])
  {}

  lemma TailEmpty(b: seq<int>)
    ensures IsTail([], b)
  {}

  lemma TailTrans(a: seq<int>, b: seq<int>, c: seq<int>)
    requires IsTail(a, b) && IsTail(b, c)
    ensures IsTail(a, c)
  {}

  lemma StandsForSnoc(list: seq<Event>, full: seq<Event>, e: Event)
    requires StandsFor(list, full, e.t)
    ensures StandsFor(list + [e], full + [e], e.t)
  {
    hide Recent, RunFails, IsTail;
    TailSnoc(RunFails(list), RunFails(full), e.t);
    RunFailsSnoc(list, e);
    RunFailsSnoc(full, e);
    assert IsTail([], []) by { TailNil(); }
    var lo := e.t - WINDOW;
    forall k: Kind
      ensures Recent(list + [e], k, lo) == Recent(full + [e], k, lo)
    {
      RecentSnoc(list, e, k, lo);
      RecentSnoc(full, e, k, lo);
    }
  }

  lemma StandsForNothing(now: int)
    ensures StandsFor([], [], now)
  {
    TailNil();
    RunFailsNil();
  }

  lemma StandsForLater(list: seq<Event>, full: seq<Event>, now: int, later: int)
    requires StandsFor(list, full, now) && now <= later
    ensures StandsFor(list, full, later)
  {
    var lo := later - WINDOW;
    forall k: Kind
      ensures Recent(list, k, lo) == Recent(full, k, lo)
    {
      RecentNarrows(list, full, k, now - WINDOW, lo);
    }
  }

  /** The gate computed from such a list is the gate of the whole history. */
  lemma SameReasons(list: seq<Event>, full: seq<Event>, now: int)
    requires StandsFor(list, full, now) && Sorted(full) && now >= 0
    ensures BackoffUntil(RunFails(list)) == BackoffUntil(RunFails(full))
    ensures |RunFails(list)| > BUDGET <==> |RunFails(full)| > BUDGET
    ensures forall k: Kind, cap: nat | cap > 0 ::
              var w, u := CapUntil(Recent(list, k, now - WINDOW), cap), CapUntil(Times(full, k), cap);
              (w > now <==> u > now) && (u > now ==> w == u)
  {
    if RunFails(list) != RunFails(full) {
      BackoffSaturates(|RunFails(list)|);
      BackoffSaturates(|RunFails(full)|);
    }
    forall k: Kind, cap: nat | cap > 0
      ensures var w, u := CapUntil(Recent(list, k, now - WINDOW), cap), CapUntil(Times(full, k), cap);
              (w > now <==> u > now) && (u > now ==> w == u)
    {
      CapFromWindow(full, k, cap, now);
    }
  }

  // ------------------------------------------------------------- pruning

  /** What pruning keeps of the first i events. */
  function Kept(ev: seq<Event>, i: nat, lastLit: int, lo: int): seq<Event>
    requires i <= |ev|
  {
    if i == 0 then []
    else
      Kept(ev, i - 1, lastLit, lo) +
      if ev[i - 1].t >= lo || (ev[i - 1].kind == Fail && i - 1 > lastLit) then [ev[i - 1]] else []
  }

  ghost predicate IsLastLit(ev: seq<Event>, p: int) {
    && -1 <= p < |ev| && (p >= 0 ==> ev[p].kind == Lit)
    && forall i | p < i < |ev| :: ev[i].kind != Lit
  }

  lemma {:induction false} KeptRecent(ev: seq<Event>, i: nat, p: int, lo: int, k: Kind)
    requires i <= |ev|
    ensures Recent(Kept(ev, i, p, lo), k, lo) == Recent(ev[..i], k, lo)
  {
    if i > 0 {
      KeptRecent(ev, i - 1, p, lo, k);
      assert ev[..i] == ev[..i - 1] + [ev[i - 1]];
      RecentSnoc(ev[..i - 1], ev[i - 1], k, lo);
      RecentSnoc(Kept(ev, i - 1, p, lo), ev[i - 1], k, lo);
      assert Kept(ev, i - 1, p, lo) + [] == Kept(ev, i - 1, p, lo);
      assert Recent(ev[..i - 1], k, lo) + [] == Recent(ev[..i - 1], k, lo);
    }
  }

  lemma {:induction false} KeptShape(ev: seq<Event>, i: nat, p: int, lo: int)
    requires Sorted(ev) && IsLastLit(ev, p) && i <= |ev|
    ensures var kept := Kept(ev, i, p, lo);
      && Sorted(kept) && |kept| <= i
      && (forall j | 0 <= j < |kept| :: exists s | 0 <= s < i :: kept[j] == ev[s])
      && OldAreRun(kept, lo)
      && (i <= p ==> forall j | 0 <= j < |kept| :: kept[j].t >= lo)
  {
    if i > 0 {
      KeptShape(ev, i - 1, p, lo);
      var kept := Kept(ev, i - 1, p, lo);
      assert kept + [] == kept;
      if ev[i - 1].kind == Lit && ev[i - 1].t >= lo {
        assert i - 1 <= p;
      }
    }
  }

  /** Whatever is older than the window is a failure of the current run. */
  ghost predicate OldAreRun(ev: seq<Event>, lo: int) {
    forall i, j | 0 <= i <= j < |ev| && ev[i].t < lo :: ev[i].kind == Fail && ev[j].kind != Lit
  }

  lemma KeptSnoc(ev: seq<Event>, i: nat, p: int, lo: int)
    requires i < |ev|
    ensures Kept(ev, i + 1, p, lo) ==
            if ev[i].t >= lo || (ev[i].kind == Fail && i > p) then Kept(ev, i, p, lo) + [ev[i]] else Kept(ev, i, p, lo)
  {
    assert Kept(ev, i, p, lo) + [] == Kept(ev, i, p, lo);
  }

  lemma KeptBefore(ev: seq<Event>, p: nat, lo: int)
    requires Sorted(ev) && IsLastLit(ev, p)
    ensures Kept(ev, p, p, lo) != [] ==> lo <= Kept(ev, p, p, lo)[0].t <= ev[p].t
  {
    KeptShape(ev, p, p, lo);
    var kept := Kept(ev, p, p, lo);
    if kept != [] {
      var s :| 0 <= s < p && kept[0] == ev[s];
      assert ev[s].t <= ev[p].t;
    }
  }

  /** Nothing before a lit connector survives once that one is too old. */
  lemma KeptNothing(ev: seq<Event>, p: nat, lo: int)
    requires Sorted(ev) && IsLastLit(ev, p) && ev[p].t < lo
    ensures Kept(ev, p, p, lo) == []
  {
    KeptBefore(ev, p, lo);
  }

  /** Pruning forgets no failure of the current run. */
  lemma {:induction false} KeptRunFails(ev: seq<Event>, i: nat, p: int, lo: int)
    requires Sorted(ev) && IsLastLit(ev, p) && p < i <= |ev|
    ensures RunFails(Kept(ev, i, p, lo)) == RunFails(ev[..i])
    decreases i
  {
    hide RunFails, Kept;
    if i == 0 {
      KeptZero(ev, p, lo);
      assert ev[..0] == [];
    } else {
      KeptSnoc(ev, i - 1, p, lo);
      assert ev[..i] == ev[..i - 1] + [ev[i - 1]];
      RunFailsSnoc(ev[..i - 1], ev[i - 1]);
      RunFailsSnoc(Kept(ev, i - 1, p, lo), ev[i - 1]);
      if i - 1 > p {
        KeptRunFails(ev, i - 1, p, lo);
      } else if ev[p].t < lo {
        KeptNothing(ev, p, lo);
        RunFailsNil();
      }
    }
  }

  lemma KeptZero(ev: seq<Event>, p: int, lo: int)
    ensures Kept(ev, 0, p, lo) == []
  {}

  /** The list pruned at `now`. */
  function Pruned(ev: seq<Event>, p: int, now: int): seq<Event>
  {
    Truncated(Kept(ev, |ev|, p, now - WINDOW))
  }

  function Truncated(ev: seq<Event>): seq<Event> {
    if |ev| > EVENTS_MAX then ev[|ev| - EVENTS_MAX..] else ev
  }

  /** How many events of any kind are not older than lo. */
  function InWindow(ev: seq<Event>, lo: int): nat {
    |Recent(ev, Plug, lo)| + |Recent(ev, Lit, lo)| + |Recent(ev, Fail, lo)|
  }

  lemma {:induction false} RunFailsOfTail(ev: seq<Event>, j: nat)
    requires j <= |ev|
    ensures IsTail(RunFails(ev[j..]), RunFails(ev))
    decreases |ev|
  {
    hide RunFails, IsTail;
    if j < |ev| {
      var n := |ev| - 1;
      assert ev == ev[..n] + [ev[n]];
      assert ev[j..] == ev[..n][j..] + [ev[n]];
      RunFailsSnoc(ev[..n][j..], ev[n]);
      RunFailsSnoc(ev[..n], ev[n]);
      RunFailsOfTail(ev[..n], j);
      TailSnoc(RunFails(ev[..n][j..]), RunFails(ev[..n]), ev[n].t);
      TailNil();
    } else {
      assert ev[j..] == [];
      TailEmpty(RunFails(ev));
      RunFailsNil();
    }
  }

  lemma {:induction false} RecentNone(ev: seq<Event>, k: Kind, lo: int)
    requires forall i | 0 <= i < |ev| :: ev[i].t < lo
    ensures Recent(ev, k, lo) == []
  {
    if ev != [] {
      RecentNone(ev[..|ev| - 1], k, lo);
    }
  }

  lemma {:induction false} RecentOfTail(ev: seq<Event>, j: nat, k: Kind, lo: int)
    requires j <= |ev| && forall i | 0 <= i < j :: ev[i].t < lo
    ensures Recent(ev[j..], k, lo) == Recent(ev, k, lo)
    decreases |ev|
  {
    hide Recent;
    if j == |ev| {
      RecentNone(ev, k, lo);
      RecentNone(ev[j..], k, lo);
    } else {
      var n := |ev| - 1;
      assert ev == ev[..n] + [ev[n]];
      assert ev[j..] == ev[..n][j..] + [ev[n]];
      RecentSnoc(ev[..n][j..], ev[n], k, lo);
      RecentSnoc(ev[..n], ev[n], k, lo);
      RecentOfTail(ev[..n], j, k, lo);
    }
  }

  /** Sorted: with at most m events in the window, all but the newest m are
      older than it. */
  lemma {:induction false} WindowIsNewest(ev: seq<Event>, lo: int, i: nat)
    requires Sorted(ev) && i < |ev| && ev[i].t >= lo
    ensures InWindow(ev, lo) >= |ev| - i
    decreases |ev|
  {
    var n := |ev| - 1;
    assert ev[n].t >= lo;
    if i < n {
      WindowIsNewest(ev[..n], lo, i);
    }
  }

  /** A list that begins with m old failures of the run has them all in it. */
  lemma {:induction false} RunAtLeast(ev: seq<Event>, m: nat)
    requires m <= |ev| && (forall i | 0 <= i < m :: ev[i].kind == Fail) && forall i | 0 <= i < |ev| :: ev[i].kind != Lit
    ensures |RunFails(ev)| >= m
    decreases |ev|
  {
    if ev != [] {
      RunAtLeast(ev[..|ev| - 1], if m == |ev| then m - 1 else m);
    }
  }

  /** Truncation is harmless while the window holds few enough events: only
      old failures of the run can go, and enough of them remain. */
  lemma TruncationHarmless(ev: seq<Event>, lo: int)
    requires Sorted(ev) && OldAreRun(ev, lo) && InWindow(ev, lo) <= EVENTS_MAX - SATURATED
    ensures SameWindow(Truncated(ev), ev, lo)
    ensures IsTail(RunFails(Truncated(ev)), RunFails(ev))
    ensures Truncated(ev) == ev || |RunFails(Truncated(ev))| >= SATURATED
  {
    hide Recent, RunFails, InWindow;
    if |ev| > EVENTS_MAX {
      var j := |ev| - EVENTS_MAX;
      forall i | 0 <= i < j + SATURATED
        ensures ev[i].t < lo
      {
        if ev[i].t >= lo { WindowIsNewest(ev, lo, i); }
      }
      RunFailsOfTail(ev, j);
      forall k: Kind
        ensures Recent(ev[j..], k, lo) == Recent(ev, k, lo)
      {
        RecentOfTail(ev, j, k, lo);
      }
      assert ev[j].t < lo;
      assert forall i | 0 <= i < |ev| - j :: ev[j..][i] == ev[j + i];
      RunAtLeast(ev[j..], SATURATED);
    }
  }

  lemma KeptNoLater(list: seq<Event>, full: seq<Event>, p: int, now: int)
    requires StandsFor(list, full, now) && IsLastLit(list, p)
    ensures Sorted(Pruned(list, p, now)) && NoLater(Pruned(list, p, now), now)
  {
    hide Recent, RunFails, Kept, IsTail;
    KeptShape(list, |list|, p, now - WINDOW);
  }

  /** Pruning keeps a list that stands for the history. */
  lemma PrunedStandsFor(list: seq<Event>, full: seq<Event>, p: int, now: int)
    requires StandsFor(list, full, now) && IsLastLit(list, p)
    requires InWindow(full, now - WINDOW) <= EVENTS_MAX - SATURATED
    ensures StandsFor(Pruned(list, p, now), full, now)
    ensures |Pruned(list, p, now)| <= EVENTS_MAX
  {
    hide Recent, RunFails, Kept, IsTail;
    var lo := now - WINDOW;
    var kept := Kept(list, |list|, p, lo);
    KeptShape(list, |list|, p, lo);
    KeptRunFails(list, |list|, p, lo);
    assert list[..|list|] == list;
    forall k: Kind
      ensures Recent(kept, k, lo) == Recent(full, k, lo)
    {
      KeptRecent(list, |list|, p, lo, k);
    }
    assert InWindow(kept, lo) == InWindow(full, lo);
    TruncationHarmless(kept, lo);
    TailTrans(RunFails(Truncated(kept)), RunFails(kept), RunFails(full));
    KeptNoLater(list, full, p, now);
  }
}
