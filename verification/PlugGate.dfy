/** The plug gate of the EVDI source: an event list pruned and truncated in
    place, and the verdict computed from it. */
module PlugGate {
  import opened Common
  import opened PlugHistory
  import opened PlugCaps

  datatype Reason = Open | Backoff | FailCap | PlugCap

  datatype Verdict = Verdict(reason: Reason, until: int, failRun: nat)

  /** The three rules in the order the gate tries them: a later rule only
      takes over when it holds longer. */
  function Combine(backoff: int, fails: int, plugs: int, now: int): (Reason, int) {
    var g := if backoff > now then (Backoff, backoff) else (Open, 0);
    var g' := if fails > now && fails > g.1 then (FailCap, fails) else g;
    if plugs > now && plugs > g'.1 then (PlugCap, plugs) else g'
  }

  lemma CombineMeaning(backoff: int, fails: int, plugs: int, now: int)
    requires now >= 0
    ensures var (r, until) := Combine(backoff, fails, plugs, now);
            var last := Max(backoff, Max(fails, plugs));
            && (r == Open <==> last <= now) && (r != Open ==> until == last)
            && (r == Backoff ==> until == backoff) && (r == FailCap ==> until == fails) && (r == PlugCap ==> until == plugs)
  {}

  /** When the rule itself lets a plug through again. */
  ghost function Lifted(r: Reason, full: seq<Event>): int {
    match r
    case Open => 0
    case Backoff => BackoffUntil(RunFails(full))
    case FailCap => CapUntil(Times(full, Fail), FAILS_PER_HOUR)
    case PlugCap => CapUntil(Times(full, Plug), PLUGS_PER_HOUR)
  }

  /** The verdict of the whole history. */
  ghost function VerdictOf(full: seq<Event>, now: int): (Reason, int) {
    Combine(BackoffUntil(RunFails(full)), CapUntil(Times(full, Fail), FAILS_PER_HOUR),
            CapUntil(Times(full, Plug), PLUGS_PER_HOUR), now)
  }

  /** A list that stands for the history gives the verdict of the history. */
  lemma SameVerdict(list: seq<Event>, full: seq<Event>, now: int)
    requires StandsFor(list, full, now) && Sorted(full) && now >= 0
    ensures var lo := now - WINDOW;
            Combine(BackoffUntil(RunFails(list)), CapUntil(Recent(list, Fail, lo), FAILS_PER_HOUR),
                    CapUntil(Recent(list, Plug, lo), PLUGS_PER_HOUR), now) == VerdictOf(full, now)
    ensures var (r, until) := VerdictOf(full, now);
            (r == Open <==> Reopen(full) <= now) && (r != Open ==> until == Reopen(full) == Lifted(r, full))
    ensures |RunFails(list)| > BUDGET <==> |RunFails(full)| > BUDGET
    ensures |RunFails(list)| == |RunFails(full)| || SATURATED <= |RunFails(list)| < |RunFails(full)|
  {
    hide Times, Recent, CapUntil, BackoffUntil, RunFails;
    SameReasons(list, full, now);
    CombineMeaning(BackoffUntil(RunFails(full)), CapUntil(Times(full, Fail), FAILS_PER_HOUR),
                   CapUntil(Times(full, Plug), PLUGS_PER_HOUR), now);
  }

  /** What the mode timer grants a plugged client. */
  const MODE_WAIT: int := 10 * SEC

  function Without(ts: seq<int>, k: nat): (rest: seq<int>)
    requires k < |ts|
    ensures |rest| == |ts| - 1
  {
    ts[..k] + ts[k + 1..]
  }

  class Server {
    const maxWaiting: nat            // clients that may wait at the same time
    var events: seq<Event>
    var shell: int                   // gnome-shell the history refers to

    ghost var full: seq<Event>       // everything recorded since that shell
    ghost var plugged: seq<int>      // plug times of the clients without a lit connector
    ghost var now: int               // time of the last operation

    ghost predicate Valid()
      reads this
    {
      StandsFor(events, full, now) && Healthy(full, |plugged|, maxWaiting, now)
    }

    constructor (max: nat, shell: int)
      requires 0 < max <= MAX_CLIENTS
      ensures Valid() && maxWaiting == max && this.shell == shell && full == [] && plugged == [] && now == 0
    {
      maxWaiting, events, this.shell := max, [], shell;
      full, plugged, now := [], [], 0;
      new;
      StartsHealthy(0, max, 0);
      StandsForNothing(0);
    }

    // ---------------------------------------------------------- pruning

    method LastLit() returns (p: int)
      ensures IsLastLit(events, p)
    {
      p := -1;
      for i := 0 to |events|
        invariant -1 <= p < i && (p >= 0 ==> events[p].kind == Lit)
        invariant forall j | p < j < i :: events[j].kind != Lit
      {
        if events[i].kind == Lit {
          p := i;
        }
      }
    }

    /** Compacts the list in place, then drops the oldest beyond 1024. */
    method Compact(p: int, t: int)
      modifies this`events
      ensures events == Pruned(old(events), p, t)
    {
      var keep := 0;
      ghost var ev := events;
      for i := 0 to |events|
        invariant |events| == |ev| && 0 <= keep <= i
        invariant events[..keep] == Kept(ev, i, p, t - WINDOW)
        invariant forall j | i <= j < |ev| :: events[j] == ev[j]
      {
        var e := events[i];
        if e.t >= t - WINDOW || (e.kind == Fail && i > p) {
          events := events[keep := e];
          keep := keep + 1;
          assert events[..keep] == events[..keep - 1] + [e];
        }
        KeptSnoc(ev, i, p, t - WINDOW);
      }
      events := events[..keep];
      if |events| > EVENTS_MAX {
        events := events[|events| - EVENTS_MAX..];
      }
    }

    /** Drops what no rule looks at any more; another gnome-shell clears all. */
    method Prune(t: int, pid: int)
      requires Valid() && now <= t
      modifies this`events, this`shell, this`full, this`now
      ensures Valid() && now == t && shell == pid && |events| <= EVENTS_MAX
      ensures full == if pid == old(shell) then old(full) else []
    {
      hide Healthy, Pruned, IsTail, RunFails, Recent;
      now := t;
      if pid != shell {
        events, shell, full := [], pid, [];
        StartsHealthyAgain(old(full), old(now));
        StandsForNothing(t);
        return;
      }
      TimePasses(full, |plugged|, maxWaiting, old(now), t);
      StandsForLater(events, full, old(now), t);
      WindowIsSmall(full, |plugged|, maxWaiting, t);
      var p := LastLit();
      Compact(p, t);
      PrunedStandsFor(old(events), full, p, t);
    }

    lemma StartsHealthyAgain(before: seq<Event>, at: int)
      requires Healthy(before, |plugged|, maxWaiting, at) && at <= now
      ensures Healthy([], |plugged|, maxWaiting, now)
    {
      StartsHealthy(|plugged|, maxWaiting, now);
    }

    /** Prunes, then appends: the history grows by the event. */
    method Record(k: Kind, t: int, pid: int)
      requires Valid() && now <= t
      modifies this`events, this`shell, this`full, this`now
      ensures StandsFor(events, full, now) && now == t && shell == pid && |events| <= EVENTS_MAX + 1
      ensures full == (if pid == old(shell) then old(full) else []) + [Event(t, k)]
    {
      hide Healthy, StandsFor;
      Prune(t, pid);
      StandsForSnoc(events, full, Event(t, k));
      events := events + [Event(t, k)];
      full := full + [Event(t, k)];
    }

    // ------------------------------------------------------------ verdict

    /** When the count of k inside the window drops below cap again (0 = it
        already is): the cap-th newest event has to age out. */
    method WindowFreeAt(k: Kind, t: int, cap: nat) returns (at: int)
      requires cap > 0
      ensures at == CapUntil(Recent(events, k, t - WINDOW), cap)
    {
      hide Recent;
      var lo := t - WINDOW;
      ghost var all := Recent(events, k, lo);
      var n := CountRecent(k, lo);
      if n < cap { return 0; }
      var seen := 0;
      RecentStart(events, k, lo);
      assert events[..|events|] == events;
      for i := 0 to |events|
        invariant seen == |Recent(events[..i], k, lo)| <= n - cap
      {
        RecentStep(events, i, k, lo);
        if events[i].kind == k && events[i].t >= lo {
          seen := seen + 1;
          if seen == n - cap + 1 {
            assert all[seen - 1] == events[i].t;
            return events[i].t + WINDOW;
          }
        }
      }
      assert false;
    }

    method CountRecent(k: Kind, lo: int) returns (n: nat)
      ensures n == |Recent(events, k, lo)|
    {
      hide Recent;
      n := 0;
      RecentStart(events, k, lo);
      for i := 0 to |events|
        invariant n == |Recent(events[..i], k, lo)|
      {
        RecentStep(events, i, k, lo);
        if events[i].kind == k && events[i].t >= lo {
          n := n + 1;
        }
      }
      assert events[..|events|] == events;
    }

    /** What the history says at time t. The list has been pruned and cut, yet
        the answer is the one of the whole history: closed exactly until its
        reopening moment, for the rule that holds longest. */
    method Gate(t: int, pid: int) returns (g: Verdict)
      requires Valid() && now <= t
      modifies this`events, this`shell, this`full, this`now
      ensures Valid() && now == t && shell == pid
      ensures full == if pid == old(shell) then old(full) else []
      ensures g.reason == Open <==> Reopen(full) <= t
      ensures g.reason != Open ==> g.until == Reopen(full) == Lifted(g.reason, full)
      ensures g.reason == VerdictOf(full, t).0
      ensures g.failRun > BUDGET <==> |RunFails(full)| > BUDGET
      ensures g.failRun == |RunFails(full)| || SATURATED <= g.failRun < |RunFails(full)|
    {
      hide Times, Recent, CapUntil, Delay, StandsFor, Healthy, VerdictOf, Combine, Reopen, RunFails, Lifted;
      Prune(t, pid);
      var run, lastFail := CountRun();
      var backoff := 0;
      if run > BUDGET {
        backoff := lastFail + Delay(run);
      }
      var f := WindowFreeAt(Fail, t, FAILS_PER_HOUR);
      var p := WindowFreeAt(Plug, t, PLUGS_PER_HOUR);
      var (reason, until) := Combine(backoff, f, p, t);
      g := Verdict(reason, until, run);
      HealthySorted();
      SameVerdict(events, full, t);
    }

    lemma HealthySorted()
      requires Valid()
      ensures Sorted(full) && now >= 0
    {
      hide StandsFor, Times, Balanced;
    }

    /** One scan: the failures since the last lit connector, and the last
        failure of all. */
    method CountRun() returns (run: nat, lastFail: int)
      ensures run == |RunFails(events)|
      ensures run > 0 ==> lastFail == RunFails(events)[run - 1]
    {
      run, lastFail := 0, 0;
      for i := 0 to |events|
        invariant run == |RunFails(events[..i])|
        invariant run > 0 ==> lastFail == RunFails(events[..i])[run - 1]
      {
        assert events[..i + 1] == events[..i] + [events[i]];
        RunFailsSnoc(events[..i], events[i]);
        match events[i].kind
        case Lit => run := 0;
        case Fail =>
          run := run + 1;
          lastFail := events[i].t;
        case Plug =>
      }
      assert events[..|events|] == events;
    }

    // ------------------------------------------------------------ clients

    /** A new client: the gate, then (some time later) the hotplug. */
    method Acquire(t: int, pid: int, later: int, pid': int) returns (ok: bool)
      requires Valid() && now <= t <= later && |plugged| < maxWaiting
      modifies this
      ensures Valid()
      ensures ok <==> Reopen(if pid == old(shell) then old(full) else []) <= t
      ensures !ok ==> now == t && shell == pid && plugged == old(plugged) && full == if pid == old(shell) then old(full) else []
      ensures ok ==> now == later && shell == pid' && plugged == old(plugged) + [later]
      ensures ok ==> full == (if pid == old(shell) && pid' == pid then old(full) else []) + [Event(later, Plug)]
    {
      hide StandsFor, Healthy, Reopen, VerdictOf, RunFails;
      var g := Gate(t, pid);
      ok := g.reason == Open;
      if !ok { return; }
      ghost var before := full;
      PlugKeeps(full, |plugged|, maxWaiting, now, later);
      HealthyParts();
      StartsHealthy(|plugged|, maxWaiting, t);
      NothingReopens();
      PlugKeeps([], |plugged|, maxWaiting, now, later);
      Record(Plug, later, pid');
      plugged := plugged + [later];
    }

    /** The connector of a waiting client lit up. */
    method ConnectorLit(ghost k: nat, t: int, pid: int)
      requires Valid() && now <= t && k < |plugged|
      modifies this
      ensures Valid() && now == t && shell == pid && plugged == Without(old(plugged), k)
      ensures full == (if pid == old(shell) then old(full) else []) + [Event(t, Lit)]
    {
      hide StandsFor, Healthy;
      LitKeeps(full, |plugged|, maxWaiting, now, t);
      StartsHealthy(|plugged|, maxWaiting, t) by { HealthyParts(); }
      LitKeeps([], |plugged|, maxWaiting, t, t);
      Record(Lit, t, pid);
      plugged := Without(plugged, k);
    }

    /** A waiting client's 10 s are over. */
    method ModeTimeout(ghost k: nat, t: int, pid: int)
      requires Valid() && now <= t && k < |plugged| && t >= plugged[k] + MODE_WAIT
      modifies this
      ensures Valid() && now == t && shell == pid && plugged == Without(old(plugged), k)
      ensures full == (if pid == old(shell) then old(full) else []) + [Event(t, Fail)]
    {
      hide StandsFor, Healthy;
      FailKeeps(full, |plugged|, maxWaiting, now, t);
      StartsHealthy(|plugged|, maxWaiting, t) by { HealthyParts(); }
      FailKeeps([], |plugged|, maxWaiting, t, t);
      Record(Fail, t, pid);
      plugged := Without(plugged, k);
    }

    /** A waiting client disconnects; nothing is recorded. */
    method ClientGone(ghost k: nat)
      requires Valid() && k < |plugged|
      modifies this`plugged
      ensures Valid() && plugged == Without(old(plugged), k)
    {
      hide StandsFor, Healthy;
      LeaveKeeps(full, |plugged|, maxWaiting, now);
      plugged := Without(plugged, k);
    }

    lemma HealthyParts()
      requires Valid()
      ensures 0 < maxWaiting <= MAX_CLIENTS && |plugged| <= maxWaiting && now >= 0
    {
      hide StandsFor, Times, Balanced;
    }

    /** Over every run: the hourly caps of the current gnome-shell lifetime. */
    lemma HourlyCaps(s: int)
      requires Valid()
      ensures HourCount(Times(full, Plug), s) <= PLUGS_PER_HOUR
      ensures HourCount(Times(full, Fail), s) <= FAILS_PER_HOUR - 1 + maxWaiting
    {
      hide StandsFor, Times, Healthy;
      CapsHold(full, |plugged|, maxWaiting, now, s);
    }
  }

  lemma NothingReopens()
    ensures Reopen([]) == 0
  {
    assert Times([], Fail) == [] && Times([], Plug) == [] && RunFails([]) == [];
  }

  /** Exact reopening: without further events the gate stays closed for the
      whole time before its reopening moment and is open from then on. */
  lemma OpensExactly(full: seq<Event>, now: int, t: int)
    requires now >= 0 && now <= t
    ensures VerdictOf(full, t).0 == Open <==> Reopen(full) <= t
    ensures t < Reopen(full) ==> VerdictOf(full, t).1 == Reopen(full)
  {
    hide Times, CapUntil, BackoffUntil, RunFails;
    CombineMeaning(BackoffUntil(RunFails(full)), CapUntil(Times(full, Fail), FAILS_PER_HOUR),
                   CapUntil(Times(full, Plug), PLUGS_PER_HOUR), t);
  }

  /** Past the budget an open gate means that the backoff ran out: 60 s after
      the ninth failure of the run, doubling up to half an hour. */
  lemma BackoffRespected(full: seq<Event>, now: int)
    requires Reopen(full) <= now && |RunFails(full)| > BUDGET
    ensures var run := |RunFails(full)|;
      && now >= RunFails(full)[run - 1] + Delay(run)
      && (run <= 13 ==> Delay(run) == 60 * Pow2(run - 9) * SEC)
      && (run >= 14 ==> Delay(run) == 1800 * SEC)
  {
    hide Times, CapUntil, RunFails;
    var run := |RunFails(full)|;
    if run >= 14 {
      BackoffSaturates(run);
    } else {
      PowersUpTo4();
      assert run - 9 in {0, 1, 2, 3, 4};
    }
  }

  lemma PowersUpTo4()
    ensures Pow2(0) == 1 && Pow2(1) == 2 && Pow2(2) == 4 && Pow2(3) == 8 && Pow2(4) == 16
  {
    assert Pow2(2) == 2 * Pow2(1);
    assert Pow2(3) == 2 * Pow2(2);
  }

  // ------------------------------------------------ the bound is attained

  /** So many plugs, so many failures, all within the first hour, and so many
      of the failures since the last lit connector. */
  ghost predicate Tally(ev: seq<Event>, plugs: nat, fails: nat, run: nat) {
    && |Times(ev, Plug)| == plugs && |Times(ev, Fail)| == fails && |RunFails(ev)| == run
    && HourCount(Times(ev, Fail), 0) == fails
  }

  lemma OnePlug(ev: seq<Event>, plugs: nat, fails: nat, run: nat, t: int)
    requires Tally(ev, plugs, fails, run)
    ensures Tally(ev + [Event(t, Plug)], plugs + 1, fails, run)
  {
    hide Times, RunFails;
    TimesSnoc(ev, Event(t, Plug), Plug);
    TimesSnoc(ev, Event(t, Plug), Fail);
    RunFailsSnoc(ev, Event(t, Plug));
    assert Times(ev, Fail) + [] == Times(ev, Fail);
  }

  lemma OneFail(ev: seq<Event>, plugs: nat, fails: nat, run: nat, t: int)
    requires Tally(ev, plugs, fails, run) && 0 < t <= WINDOW
    ensures Tally(ev + [Event(t, Fail)], plugs, fails + 1, run + 1)
  {
    hide Times, RunFails;
    TimesSnoc(ev, Event(t, Fail), Plug);
    TimesSnoc(ev, Event(t, Fail), Fail);
    RunFailsSnoc(ev, Event(t, Fail));
    assert Times(ev, Plug) + [] == Times(ev, Plug);
    assert (Times(ev, Fail) + [t])[..fails] == Times(ev, Fail);
  }

  lemma OneLit(ev: seq<Event>, plugs: nat, fails: nat, run: nat, t: int)
    requires Tally(ev, plugs, fails, run)
    ensures Tally(ev + [Event(t, Lit)], plugs, fails, 0)
  {
    hide Times, RunFails;
    TimesSnoc(ev, Event(t, Lit), Plug);
    TimesSnoc(ev, Event(t, Lit), Fail);
    RunFailsSnoc(ev, Event(t, Lit));
    assert Times(ev, Plug) + [] == Times(ev, Plug);
    assert Times(ev, Fail) + [] == Times(ev, Fail);
  }

  lemma StillOpen(ev: seq<Event>, plugs: nat, fails: nat, run: nat)
    requires Tally(ev, plugs, fails, run) && plugs < PLUGS_PER_HOUR && fails < FAILS_PER_HOUR && run <= BUDGET
    ensures Reopen(ev) == 0
  {
    hide Times, RunFails;
  }

  lemma NothingSoFar()
    ensures Tally([], 0, 0, 0)
  {}

  /** n clients one after the other, from time t on, each of them timing out
      10 s after its plug. */
  method Failures(s: Server, n: nat, t: int, ghost plugs: nat, ghost fails: nat, ghost run: nat)
    requires s.Valid() && s.shell == 1 && s.plugged == [] && s.now <= t && Tally(s.full, plugs, fails, run)
    requires plugs + n <= PLUGS_PER_HOUR && fails + n <= FAILS_PER_HOUR && run + n <= BUDGET
    requires 0 <= t && t + n * MODE_WAIT <= WINDOW
    modifies s
    ensures s.Valid() && s.shell == 1 && s.plugged == [] && s.now <= t + n * MODE_WAIT
    ensures Tally(s.full, plugs + n, fails + n, run + n)
  {
    hide Times, RunFails, Reopen, HourCount, Tally, StandsFor, Healthy;
    for i := 0 to n
      invariant s.Valid() && s.shell == 1 && s.plugged == [] && s.now <= t + i * MODE_WAIT
      invariant Tally(s.full, plugs + i, fails + i, run + i)
    {
      var at := t + i * MODE_WAIT;
      StillOpen(s.full, plugs + i, fails + i, run + i);
      OnePlug(s.full, plugs + i, fails + i, run + i, at);
      s.HealthyParts();
      var ok := s.Acquire(at, 1, at, 1);
      OneFail(s.full, plugs + i + 1, fails + i, run + i, at + MODE_WAIT);
      s.ModeTimeout(0, at + MODE_WAIT, 1);
    }
  }

  /** The bound on mode timeouts is attained for every number of clients that
      may wait at once, so the announced 16 an hour hold for one client only:
      eight clients time out, one lights up, seven more time out; then m are
      plugged together and all of them time out, 160 s after the start. */
  method TimeoutsAttained(m: nat) returns (s: Server)
    requires 1 <= m <= MAX_CLIENTS
    ensures s.Valid() && s.maxWaiting == m && s.now <= 160 * SEC
    ensures HourCount(Times(s.full, Fail), 0) == FAILS_PER_HOUR - 1 + m
  {
    hide Times, RunFails, Reopen, HourCount, Tally, StandsFor, Healthy;
    s := new Server(m, 1);
    NothingSoFar();
    Failures(s, 8, 0, 0, 0, 0);
    var t := 80 * SEC;
    StillOpen(s.full, 8, 8, 8);
    OnePlug(s.full, 8, 8, 8, t);
    var ok := s.Acquire(t, 1, t, 1);
    OneLit(s.full, 9, 8, 8, t);
    s.ConnectorLit(0, t, 1);
    Failures(s, 7, t, 9, 8, 0);
    t := 150 * SEC;
    for i := 0 to m
      invariant s.Valid() && s.maxWaiting == m && s.shell == 1 && s.now <= t
      invariant |s.plugged| == i && forall k | 0 <= k < i :: s.plugged[k] == t
      invariant Tally(s.full, 16 + i, 15, 7)
    {
      StillOpen(s.full, 16 + i, 15, 7);
      OnePlug(s.full, 16 + i, 15, 7, t);
      ok := s.Acquire(t, 1, t, 1);
    }
    for i := 0 to m
      invariant s.Valid() && s.maxWaiting == m && s.shell == 1 && s.now <= t + MODE_WAIT
      invariant |s.plugged| == m - i && forall k | 0 <= k < m - i :: s.plugged[k] == t
      invariant Tally(s.full, 16 + m, 15 + i, 7 + i)
    {
      OneFail(s.full, 16 + m, 15 + i, 7 + i, t + MODE_WAIT);
      s.ModeTimeout(0, t + MODE_WAIT, 1);
    }
    TallyFails(s.full, 16 + m, 15 + m, 7 + m);
  }

  lemma TallyFails(ev: seq<Event>, plugs: nat, fails: nat, run: nat)
    requires Tally(ev, plugs, fails, run)
    ensures HourCount(Times(ev, Fail), 0) == fails
  {}
}
