/** The pressure controller of one client: when to leave the RAW path for
    H.264, when to come back, and how fast the encoder may run. Times are
    microseconds of a monotonic clock, measured rates are reals. */
module Control {
  import opened Common
  import opened TxState

  const SEC: int := 1_000_000
  const DELAY_HI: real := 150000.0
  const DELAY_AIMD_LO: real := 50000.0
  const DELAY_LO: real := 30000.0
  const FPS_MIN: real := 15.0
  const DAMAGE_GAP: int := 100_000
  const DAMAGE_CONT: int := 1_000_000
  const ENTER_CONFIRM: int := 500_000
  const RAW_GRACE: int := 2_000_000
  const EXIT_CALM: int := 10_000_000
  const EXIT_HEADROOM: real := 0.5
  const CAP_WINDOW: int := 1_000_000
  const PING_IDLE: int := 2_000_000
  const PONG_DEAD: int := 6_000_000
  const PINGS_MAX: nat := 4
  const KBPS_MIN: int := 1500
  const KBPS_MAX: int := 40000
  const KBPS_START: int := 8000
  const AIMD_UP: int := 500
  const BACKOFF_MAX: nat := 6

  /** No two entries into H.264 are closer than this. */
  const ENTRY_GAP: int := EXIT_CALM + RAW_GRACE + ENTER_CONFIRM

  datatype Phase = Steady | Suspect | Active | Cooldown

  /** What an evaluation decides about; everything else is a measurement. */
  datatype Stand = Stand(phase: Phase, since: int, calm: int, exitAt: int, backoff: nat, mode: Mode, encOpen: bool, failed: bool) {
    /** A change of phase restarts its clock. */
    function To(p: Phase, t: int): Stand { this.(phase := p, since := t, calm := 0) }
  }

  /** The traffic meters: averages, and the bytes of the open window. */
  datatype Meters = Meters(rawRate: real, capacity: real, lz4Ratio: real, winStart: int, winBytes: nat, rawBytes: nat)

  function PerSecond(bytes: nat, span: int): real
    requires span > 0
  {
    bytes as real * 1_000_000.0 / span as real
  }

  /** The meters after an event at time t. A window lasts a second at least;
      the link's capacity is what gets through under pressure, and neither it
      nor the LZ4 ratio is learnt in H.264. */
  function Metered(m: Meters, t: int, mode: Mode, pressure: bool): Meters {
    if m.winStart == 0 then m.(winStart := t)
    else if t - m.winStart < CAP_WINDOW then m
    else
      var wire, raw := PerSecond(m.winBytes, t - m.winStart), PerSecond(m.rawBytes, t - m.winStart);
      RateOk(m.winBytes, t - m.winStart);
      Meters(Ewma(m.rawRate, raw, 0.3),
             if mode == Raw && m.winBytes > 0 && pressure then Ewma(m.capacity, wire, 0.3) else m.capacity,
             if mode == Raw && m.winBytes > 0 then Ewma(m.lz4Ratio, raw / wire, 0.2) else m.lz4Ratio,
             t, 0, 0)
  }

  function Ewma(cur: real, x: real, a: real): real {
    if cur == 0.0 then x else cur + a * (x - cur)
  }

  /** A moving average stays between what it averages; a is one of the
      weights in use. */
  lemma EwmaBetween(cur: real, x: real, a: real)
    requires a in {0.1, 0.2, 0.3} && 0.0 <= cur && 0.0 <= x
    ensures 0.0 <= Ewma(cur, x, a)
    ensures Ewma(cur, x, a) <= if cur < x then x else cur
  {
    if a == 0.1 {
      assert a * (x - cur) == 0.1 * (x - cur);
    } else if a == 0.2 {
      assert a * (x - cur) == 0.2 * (x - cur);
    } else {
      assert a * (x - cur) == 0.3 * (x - cur);
    }
  }

  /** The average after the values xs, each of weight 0.3. */
  function Averaged(cur: real, xs: seq<real>): real {
    if xs == [] then cur else Ewma(Averaged(cur, xs[..|xs| - 1]), xs[|xs| - 1], 0.3)
  }

  /** What is left of x after n of them: 0.7 to the power of n. */
  function Left(n: nat, x: real): real { if n == 0 then x else 0.7 * Left(n - 1, x) }

  /** One value more, with p and q for what is left of the past. */
  lemma FollowsOne(avg: real, x: real, lo: real, hi: real, p: real, q: real)
    requires 0.0 <= avg && 0.0 <= q && 0.0 <= lo <= x <= hi && lo - p <= avg <= hi + q && p <= lo
    ensures var avg' := Ewma(avg, x, 0.3); 0.0 <= avg' && lo - 0.7 * p <= avg' <= hi + 0.7 * q
  {}

  /** The average follows what is measured: from whatever it was it comes as
      near to values that stay above lo, or below hi, as the past fades. */
  lemma {:induction false} AverageFollows(cur: real, xs: seq<real>, lo: real, hi: real)
    requires 0.0 <= cur && 0.0 <= lo <= hi && forall i | 0 <= i < |xs| :: lo <= xs[i] <= hi
    ensures 0.0 <= Averaged(cur, xs)
    ensures lo - Left(|xs|, lo) <= Averaged(cur, xs) <= hi + Left(|xs|, cur)
  {
    hide Ewma;
    LeftBounds(|xs|, lo);
    LeftBounds(|xs|, cur);
    if xs != [] {
      var n := |xs| - 1;
      AverageFollows(cur, xs[..n], lo, hi);
      LeftBounds(n, lo);
      LeftBounds(n, cur);
      FollowsOne(Averaged(cur, xs[..n]), xs[n], lo, hi, Left(n, lo), Left(n, cur));
    }
  }

  lemma {:induction false} LeftBounds(n: nat, x: real)
    requires 0.0 <= x
    ensures 0.0 <= Left(n, x) <= x
  {
    if n > 0 {
      LeftBounds(n - 1, x);
    }
  }

  /** Four echoes later than 200 ms are enough for pressure, whatever the
      average was. */
  lemma FourLateEchoes(cur: real, xs: seq<real>, hi: real)
    requires 0.0 <= cur && 200_000.0 <= hi && |xs| == 4 && forall i | 0 <= i < 4 :: 200_000.0 <= xs[i] <= hi
    ensures Averaged(cur, xs) > DELAY_HI
  {
    hide Averaged;
    AverageFollows(cur, xs, 200_000.0, hi);
    assert Left(4, 200_000.0) == 0.7 * Left(3, 200_000.0) && Left(2, 200_000.0) == 0.7 * Left(1, 200_000.0);
  }

  function Shift3(n: nat): nat { if n == 0 then 3 else 2 * Shift3(n - 1) }

  /** A probe of RAW against the odds waits half a minute, twice as long after
      each failed one, and 32 minutes at most. */
  lemma ProbeWaits(n: nat)
    requires n <= BACKOFF_MAX
    ensures 30 * SEC <= Shift3(n) * EXIT_CALM <= 32 * 60 * SEC
    ensures n < BACKOFF_MAX ==> Shift3(n + 1) * EXIT_CALM == 2 * Shift3(n) * EXIT_CALM
    ensures n == BACKOFF_MAX ==> Shift3(n) * EXIT_CALM == 32 * 60 * SEC
  {
    ShiftSix();
  }

  lemma ShiftSix()
    ensures Shift3(0) == 3 && Shift3(1) == 6 && Shift3(2) == 12 && Shift3(3) == 24
    ensures Shift3(4) == 48 && Shift3(5) == 96 && Shift3(6) == 192
  {
    assert Shift3(3) == 2 * Shift3(2);
    assert Shift3(5) == 2 * Shift3(4);
  }

  /** Coming back soon after an exit means that probing RAW failed: the next
      probe waits twice as long. */
  function Backoff(exitAt: int, cur: nat, t: int): (n: nat)
    ensures n <= BACKOFF_MAX
    ensures exitAt != 0 && t - exitAt < 8 * SEC && cur < BACKOFF_MAX ==> n == cur + 1
    ensures exitAt == 0 || t - exitAt >= 8 * SEC ==> n == 0
  {
    if exitAt != 0 && t - exitAt < 8 * SEC then
      if cur + 1 < BACKOFF_MAX then cur + 1 else BACKOFF_MAX
    else 0
  }

  class Controller {
    const negotiated: bool             // both ends can do H.264, echoes come back, not disabled
    const force: bool
    var phase: Phase
    var since: int                     // when the phase was entered
    var calm: int                      // start of the calm streak, 0 when none
    var exitAt: int                    // last return to RAW, 0 when none
    var backoff: nat
    var delay: real
    var grabFps: real
    var lastGrab: int
    var damageCont: int
    var lastDeliver: int
    var rawRate: real
    var lz4Ratio: real
    var capacity: real
    var winStart: int
    var winBytes: nat
    var rawBytes: nat
    var pings: nat
    var lastPing: int
    var lastPong: int
    var mode: Mode                     // of the transmit engine
    var encOpen: bool
    var failed: bool                   // H.264 is over for this client
    var kbps: int
    var lastEnc: int
    ghost var now: int                 // time of the last event
    ghost var entries: seq<int>        // times of the switches to H.264

    predicate Allowed()
      reads this`failed
    {
      negotiated && !failed
    }

    /** The engine and the controller agree on what is going on. */
    ghost predicate Agree()
      reads this`phase, this`mode, this`encOpen, this`failed
    {
      && (mode == H264 ==> negotiated && encOpen && !failed)
      && (phase in {Steady, Suspect} ==> mode == Raw)
      && (phase in {Active, Cooldown} && mode == Raw ==> failed)
    }

    /** Where the clock of the current phase stands, seen from the last entry. */
    ghost predicate Timed()
      reads this`phase, this`since, this`calm, this`now, this`entries
    {
      && 0 < since <= now
      && (entries != [] ==> var e := entries[|entries| - 1];
           && e <= now
           && (phase == Active ==> e <= since)
           && (phase == Cooldown ==> e <= calm && 0 < calm <= now)
           && (phase == Steady ==> e + EXIT_CALM <= since)
           && (phase == Suspect ==> e + EXIT_CALM + RAW_GRACE <= since))
      && (phase in {Active, Cooldown} ==> entries != [])
      && (force && entries != [] ==> phase == Active)
    }

    ghost predicate SpacedOut()
      reads this`entries
    {
      forall i, j | 0 <= i && j == i + 1 && j < |entries| :: entries[j] > entries[i] + ENTRY_GAP
    }

    ghost predicate Measured()
      reads this`delay, this`rawRate, this`capacity, this`grabFps, this`kbps, this`backoff, this`pings
    {
      && 0.0 <= delay <= 60_000_000.0 && 0.0 <= rawRate && 0.0 <= capacity && 0.0 <= grabFps
      && KBPS_MIN <= kbps <= KBPS_MAX && backoff <= BACKOFF_MAX && pings <= PINGS_MAX
    }

    ghost predicate Valid()
      reads this
    {
      Agree() && Timed() && SpacedOut() && Measured()
    }

    constructor (negotiated: bool, force: bool, t: int)
      requires t > 0
      ensures Valid() && now == t && entries == [] && phase == Steady && mode == Raw
      ensures this.negotiated == negotiated && this.force == force
    {
      this.negotiated, this.force := negotiated, force;
      phase, since, calm, exitAt, backoff := Steady, t, 0, 0, 0;
      delay, grabFps, rawRate, lz4Ratio, capacity := 0.0, 0.0, 0.0, 0.0, 0.0;
      lastGrab, damageCont, lastDeliver := 0, 0, 0;
      winStart, winBytes, rawBytes := 0, 0, 0;
      pings, lastPing, lastPong := 0, 0, t;
      mode, encOpen, failed, kbps, lastEnc := Raw, false, false, KBPS_START, 0;
      now, entries := t, [];
    }

    method SetPhase(p: Phase, t: int)
      modifies this`phase, this`since, this`calm
      ensures phase == p
      ensures since == if old(phase) == p then old(since) else t
      ensures calm == if old(phase) == p then old(calm) else 0
    {
      if phase == p { return; }
      phase, since, calm := p, t, 0;
    }

    /** Entries are only added, and none once H.264 has failed. */
    twostate predicate Onwards()
      reads this`entries, this`failed
    {
      old(entries) <= entries && (old(failed) ==> failed && entries == old(entries))
    }

    /** What an event may do to the engine: nothing, the switch to H.264, a
        failed open of the encoder, or the switch back. */
    twostate predicate Moves(opens: bool)
      reads this`mode, this`encOpen, this`failed
    {
      || (mode == old(mode) && encOpen == old(encOpen) && failed == old(failed))
      || (old(mode) == Raw && mode == H264 && (old(encOpen) || opens) && encOpen && failed == old(failed) && negotiated)
      || (old(mode) == Raw && mode == Raw && !old(encOpen) && !opens && !encOpen && failed && negotiated)
      || (old(mode) == H264 && mode == Raw && encOpen == old(encOpen) && failed == old(failed))
    }

    // --------------------------------------------------------- predicates

    predicate Continuous(t: int)
      reads this`lastGrab
    {
      lastGrab != 0 && t - lastGrab < DAMAGE_GAP
    }

    function RawPredicted(): real
      reads this`lz4Ratio, this`rawRate
    {
      rawRate / if lz4Ratio > 1.0 then lz4Ratio else 1.0
    }

    /** Echoes queue up, or steady damage gets through too slowly. */
    predicate Pressure(t: int)
      reads this`delay, this`grabFps, this`lastGrab, this`damageCont
    {
      delay > DELAY_HI ||
      (grabFps > 0.1 && grabFps < FPS_MIN && Continuous(t) && t - damageCont > DAMAGE_CONT)
    }

    /** RAW would not fit: on average, or one frame would take too long. */
    predicate WontFit()
      reads this`lz4Ratio, this`rawRate, this`capacity, this`grabFps
    {
      capacity > 0.0 &&
      (var pred := RawPredicted();
       || pred > EXIT_HEADROOM * capacity
       || (grabFps > 0.1 && pred / grabFps / capacity * 1_000_000.0 > EXIT_HEADROOM * DELAY_HI))
    }

    /** The same without divisions: the damage, LZ4-compressed as it has been,
        would take more than half of the link, or a single frame would keep
        it busy for more than half the pressure threshold. */
    lemma WontFitMeaning()
      ensures var pred := RawPredicted();
        && (rawRate == pred * (if lz4Ratio > 1.0 then lz4Ratio else 1.0))
        && (WontFit() <==>
             && capacity > 0.0
             && (pred * 2.0 > capacity || (grabFps > 0.1 && pred * 1_000_000.0 > 75_000.0 * (grabFps * capacity))))
    {
      if capacity > 0.0 && grabFps > 0.1 {
        var pred := RawPredicted();
        var share := pred / grabFps / capacity;
        Undivide(pred, grabFps, capacity);
        TimesPositive(share * 1_000_000.0, 75_000.0, grabFps * capacity);
      }
    }

    /** The probe of RAW is due at time t. */
    predicate ProbeDue(t: int)
      reads this`delay, this`calm, this`backoff, this`lz4Ratio, this`rawRate, this`capacity, this`grabFps, this`lastGrab
    {
      && delay <= DELAY_LO && t - calm >= EXIT_CALM
      && (WontFit() ==> t - calm >= Shift3(backoff) * EXIT_CALM && !Continuous(t))
    }

    /** H.264 is confirmed at time t. */
    predicate EntryDue(t: int)
      reads this`phase, this`since, this`failed, this`delay, this`grabFps, this`lastGrab, this`damageCont
    {
      && phase == Suspect && Allowed() && (Pressure(t) || force)
      && (t - since > ENTER_CONFIRM || force)
    }

    /** A fresh RAW period: our own snapshot is still on the wire. */
    predicate InGrace(t: int)
      reads this`phase, this`since
    {
      phase == Steady && t - since < RAW_GRACE
    }

    // ---------------------------------------------------------- evaluation

    ghost function Stands(): Stand
      reads this`phase, this`since, this`calm, this`exitAt, this`backoff, this`mode, this`encOpen, this`failed
    {
      Stand(phase, since, calm, exitAt, backoff, mode, encOpen, failed)
    }

    /** RAW looks bad at time t, or H.264 is forced on a client that can. */
    ghost predicate Pushed(s: Stand, t: int)
      reads this`delay, this`grabFps, this`lastGrab, this`damageCont
    {
      Pressure(t) || (force && negotiated && !s.failed)
    }

    /** What an evaluation at time t makes of s, by the current measurements.
        `opens` answers the encoder open. */
    ghost function Judged(s: Stand, t: int, opens: bool): Stand
      reads this`delay, this`grabFps, this`lastGrab, this`damageCont, this`lz4Ratio, this`rawRate, this`capacity
    {
      match s.phase
      case Steady => if t - s.since >= RAW_GRACE && Pushed(s, t) then s.To(Suspect, t) else s
      case Suspect =>
        if !Pushed(s, t) then s.To(Steady, t)
        else if t - s.since <= ENTER_CONFIRM && !force then s
        else if !negotiated || s.failed then if t - s.since > 30 * SEC then s.To(Steady, t) else s
        else if s.encOpen || opens then
          s.To(Active, t).(mode := H264, encOpen := true, backoff := Backoff(s.exitAt, s.backoff, t))
        else s.To(Steady, t).(failed := true)
      case Active => if !force && delay < DELAY_LO then s.To(Cooldown, t).(calm := t) else s
      case Cooldown =>
        if delay > DELAY_HI then s.To(Active, t)
        else if delay <= DELAY_LO && t - s.calm >= EXIT_CALM && !StaysCoded(s, t) then s.To(Steady, t).(mode := Raw, exitAt := t)
        else s
    }

    /** RAW would not fit, and it is too early to try, or damage keeps coming. */
    ghost predicate StaysCoded(s: Stand, t: int)
      reads this`grabFps, this`lastGrab, this`lz4Ratio, this`rawRate, this`capacity
    {
      WontFit() && (t - s.calm < Shift3(s.backoff) * EXIT_CALM || Continuous(t))
    }

    /** Steady damage that gets through at less than 15 frames a second is
        pressure; with quick echoes and frames in time there is none. */
    lemma JudgedByFrames(s: Stand, t: int, opens: bool)
      requires !force
      ensures 0.1 < grabFps < 15.0 && lastGrab != 0 && t - lastGrab < 100_000 && t - damageCont > 1_000_000 ==>
                && (s.phase == Steady && t - s.since >= 2_000_000 ==> Judged(s, t, opens).phase == Suspect)
                && (s.phase == Suspect && t - s.since > 500_000 && negotiated && !s.failed && opens ==> Judged(s, t, opens).mode == H264)
      ensures delay <= 150_000.0 && (grabFps >= 15.0 || t - damageCont <= 1_000_000) && s.phase in {Steady, Suspect} ==>
                Judged(s, t, opens).phase == Steady
    {}

    /** One evaluation took place at time t, by the measurements as they are. */
    twostate predicate Judges(t: int, opens: bool)
      reads this
    {
      && Stands() == Judged(old(Stands()), t, opens)
      && entries == if old(mode) == Raw && mode == H264 then old(entries) + [t] else old(entries)
    }

    /** None took place: the encoder failed, and H.264 is over. */
    twostate predicate Broke()
      reads this
    {
      Stands() == old(Stands()).(mode := Raw, failed := true) && entries == old(entries)
    }

    /** None took place. */
    twostate predicate Unjudged()
      reads this
    {
      Stands() == old(Stands()) && entries == old(entries)
    }

    /** Opens the encoder if need be; a failure ends H.264 for good. */
    method OpenEncoder(opens: bool) returns (ok: bool)
      requires KBPS_MIN <= kbps <= KBPS_MAX && !failed
      modifies this`encOpen, this`failed, this`kbps
      ensures ok == (old(encOpen) || opens) && encOpen == ok && failed == !ok
      ensures KBPS_MIN <= kbps <= KBPS_MAX
    {
      ok := true;
      if encOpen { return; }
      ok := opens;
      if ok {
        kbps := KBPS_START;
      }
      encOpen, failed := ok, !ok;
    }

    /** The switch to H.264; `opens` answers the encoder open. */
    method Enter(t: int, opens: bool)
      requires Valid() && t == now && EntryDue(t)
      modifies this`phase, this`since, this`calm, this`backoff, this`mode, this`encOpen, this`failed, this`kbps, this`entries
      ensures Valid()
      ensures var ok := old(encOpen) || opens;
        && phase == (if ok then Active else Steady) && mode == (if ok then H264 else Raw) && failed == !ok && encOpen == ok
        && entries == (if ok then old(entries) + [t] else old(entries))
        && since == t && backoff == (if ok then Backoff(exitAt, old(backoff), t) else old(backoff)) && calm == 0
    {
      var ok := OpenEncoder(opens);
      if !ok {
        SetPhase(Steady, t);
        return;
      }
      mode := H264;
      entries := entries + [t];
      backoff := Backoff(exitAt, backoff, t);
      SetPhase(Active, t);
    }

    /** Between the two phases of the RAW path. */
    method Turn(p: Phase, t: int)
      requires Valid() && t == now && phase in {Steady, Suspect} && p in {Steady, Suspect} && p != phase
      requires p == Suspect ==> t - since >= RAW_GRACE
      modifies this`phase, this`since, this`calm
      ensures Valid() && Stands() == old(Stands()).To(p, t)
    {
      hide SpacedOut, Measured;
      SetPhase(p, t);
    }

    lemma RawPath()
      requires Valid() && phase in {Steady, Suspect}
      ensures mode == Raw
    {
      hide Timed, SpacedOut, Measured;
    }

    method EvaluateRaw(t: int, opens: bool)
      requires Valid() && t == now && phase in {Steady, Suspect}
      modifies this`phase, this`since, this`calm, this`backoff, this`mode, this`encOpen, this`failed, this`kbps, this`entries
      ensures Valid()
      ensures entries == if old(EntryDue(t)) && (old(encOpen) || opens) then old(entries) + [t] else old(entries)
      ensures mode == if old(EntryDue(t)) && (old(encOpen) || opens) then H264 else Raw
      ensures old(failed) ==> failed
      ensures Moves(opens)
      ensures old(phase) == Steady ==>
        phase == if t - old(since) >= RAW_GRACE && (old(Pressure(t)) || (force && old(Allowed()))) then Suspect else Steady
      ensures old(phase) == Suspect && !old(EntryDue(t)) ==>
        phase == if !(old(Pressure(t)) || (force && old(Allowed()))) || (!old(Allowed()) && t - old(since) > 30 * SEC) then Steady else Suspect
      ensures old(phase) == Suspect && old(EntryDue(t)) ==> phase == if old(encOpen) || opens then Active else Steady
      ensures since == if phase == old(phase) then old(since) else t
      ensures Judges(t, opens)
    {
      hide Agree, Timed, SpacedOut, Measured;
      RawPath();
      var pressure := Pressure(t) || (force && Allowed());
      if phase == Steady {
        if t - since < RAW_GRACE { return; }
        if pressure {
          Turn(Suspect, t);
        }
      } else if !pressure {
        Turn(Steady, t);
      } else if t - since > ENTER_CONFIRM || force {
        if !Allowed() {
          if t - since > 30 * SEC {
            Turn(Steady, t);
          }
          return;
        }
        Enter(t, opens);
      }
    }

    /** Echoes are quick again: a calm streak begins. */
    method CalmDown(t: int)
      requires Valid() && t == now && phase == Active && !force
      modifies this`phase, this`since, this`calm
      ensures Valid() && Stands() == old(Stands()).To(Cooldown, t).(calm := t)
    {
      hide SpacedOut, Measured;
      SetPhase(Cooldown, t);
      calm := t;
    }

    /** Real pressure ends it. */
    method Relapse(t: int)
      requires Valid() && t == now && phase == Cooldown
      modifies this`phase, this`since, this`calm
      ensures Valid() && Stands() == old(Stands()).To(Active, t)
    {
      hide SpacedOut, Measured;
      SetPhase(Active, t);
    }

    /** Back to RAW. */
    method Exit(t: int)
      requires Valid() && t == now && phase == Cooldown && t - calm >= EXIT_CALM
      modifies this`phase, this`since, this`calm, this`exitAt, this`mode
      ensures Valid() && Stands() == old(Stands()).To(Steady, t).(mode := Raw, exitAt := t)
    {
      hide SpacedOut, Measured;
      mode := Raw;
      SetPhase(Steady, t);
      exitAt := t;
    }

    lemma CodedPath()
      requires Valid() && phase in {Active, Cooldown}
      ensures mode == Raw ==> failed
    {
      hide Timed, SpacedOut, Measured;
    }

    method EvaluateH264(t: int)
      requires Valid() && t == now && phase in {Active, Cooldown}
      modifies this`phase, this`since, this`calm, this`exitAt, this`mode
      ensures Valid() && (mode == old(mode) || (old(mode) == H264 && mode == Raw))
      ensures var leaves := old(phase) == Cooldown && old(delay) <= DELAY_HI && old(ProbeDue(t));
        && (leaves ==> mode == Raw && phase == Steady && exitAt == t)
        && (!leaves ==> mode == old(mode) && exitAt == old(exitAt))
        && (!leaves ==> phase == if old(phase) == Active then (if !force && delay < DELAY_LO then Cooldown else Active)
                                 else if delay > DELAY_HI then Active else Cooldown)
        && (old(phase) == Active && phase == Cooldown ==> calm == t)
        && (old(phase) == Cooldown && phase == Cooldown ==> calm == old(calm))
      ensures Judges(t, true)
    {
      hide Agree, Timed, SpacedOut, Measured;
      CodedPath();
      if phase == Active {
        if force { return; }
        if delay < DELAY_LO {
          CalmDown(t);
        }
        return;
      }
      if delay > DELAY_HI {
        Relapse(t);
        return;
      }
      if delay > DELAY_LO { return; }
      if t - calm < EXIT_CALM { return; }
      if WontFit() && (t - calm < Shift3(backoff) * EXIT_CALM || Continuous(t)) { return; }
      Exit(t);
    }

    /** One evaluation, whatever the phase. */
    method Evaluate(t: int, opens: bool)
      requires Valid() && t == now
      modifies this`phase, this`since, this`calm, this`backoff, this`mode, this`encOpen, this`failed, this`kbps, this`entries,
               this`exitAt
      ensures Valid() && Onwards() && Moves(opens) && Judges(t, opens)
    {
      hide Agree, Timed, SpacedOut, Measured;
      if phase == Steady || phase == Suspect {
        EvaluateRaw(t, opens);
      } else {
        EvaluateH264(t);
      }
    }

    /** Time passes. */
    method Clock(t: int)
      requires Valid() && now <= t
      modifies this`now
      ensures Valid() && now == t
    {
      now := t;
    }

    // -------------------------------------------------------------- events

    /** One bitrate step for each echo. */
    method Aimd(t: int)
      requires Valid() && t == now
      modifies this`kbps
      ensures Valid()
      ensures mode != H264 ==> kbps == old(kbps)
      ensures mode == H264 && delay > DELAY_HI ==> kbps <= old(kbps) && (old(kbps) > KBPS_MIN ==> kbps < old(kbps))
      ensures mode == H264 && delay <= DELAY_HI ==> old(kbps) <= kbps <= old(kbps) + AIMD_UP
      ensures mode == H264 && delay > DELAY_HI ==> kbps == Max(KBPS_MIN, old(kbps) * 7 / 10)
      ensures mode == H264 && delay < DELAY_AIMD_LO && t - lastEnc < SEC / 2 ==> kbps == Min(KBPS_MAX, old(kbps) + AIMD_UP)
      ensures delay <= DELAY_HI && !(delay < DELAY_AIMD_LO && t - lastEnc < SEC / 2) ==> kbps == old(kbps)
    {
      hide Agree, Timed, SpacedOut;
      if mode != H264 { return; }
      var k := kbps;
      if delay > DELAY_HI {
        k := (k as real * 0.7).Floor;
      } else if delay < DELAY_AIMD_LO && t - lastEnc < SEC / 2 {
        k := k + AIMD_UP;
      } else {
        return;
      }
      kbps := Clamp(k, KBPS_MIN, KBPS_MAX);
    }

    /** An echo came back. During the grace period it only proves the peer
        alive. */
    method OnPong(t: int, echo: int, opens: bool)
      requires Valid() && now <= t
      modifies this
      ensures Valid() && now == t && Onwards() && Moves(opens)
      ensures 0 <= t - echo <= 60 * SEC ==>
        && lastPong == t && pings == (if old(pings) > 0 then old(pings) - 1 else 0)
        && delay == if old(phase) == Steady && t - old(since) < RAW_GRACE then old(delay) else Ewma(old(delay), (t - echo) as real, 0.3)
      ensures !(0 <= t - echo <= 60 * SEC) ==> delay == old(delay) && pings == old(pings) && lastPong == old(lastPong) && Unjudged()
      ensures 0 <= t - echo <= 60 * SEC ==> Judges(t, opens)
    {
      hide Agree, Timed, SpacedOut, Measured, Judged, Metered, Ewma, Pressure;
      Clock(t);
      var d := (t - echo) as real;
      if d < 0.0 || d > 60.0 * 1_000_000.0 { return; }
      PeerAlive(t);
      if InGrace(t) {
        Evaluate(t, opens);
        return;
      }
      Average(d, 0.3);
      Aimd(t);
      Evaluate(t, opens);
    }

    method PeerAlive(t: int)
      requires Valid() && t == now
      modifies this`lastPong, this`pings
      ensures Valid() && lastPong == t && pings == if old(pings) > 0 then old(pings) - 1 else 0
    {
      hide Agree, Timed, SpacedOut;
      lastPong := t;
      if pings > 0 {
        pings := pings - 1;
      }
    }

    /** The delay average takes d in, with weight a. */
    method Average(d: real, a: real)
      requires Valid() && 0.0 <= d <= 60_000_000.0 && a in {0.1, 0.3}
      modifies this`delay
      ensures Valid() && delay == Ewma(old(delay), d, a)
    {
      hide Agree, Timed, SpacedOut, Ewma;
      EwmaBetween(delay, d, a);
      delay := Ewma(delay, d, a);
    }

    ghost function Traffic(): Meters
      reads this`rawRate, this`capacity, this`lz4Ratio, this`winStart, this`winBytes, this`rawBytes
    {
      Meters(rawRate, capacity, lz4Ratio, winStart, winBytes, rawBytes)
    }

    /** Closes the sampling window when it is due. */
    method Windows(t: int)
      requires Valid() && t == now
      modifies this`rawRate, this`capacity, this`lz4Ratio, this`winStart, this`winBytes, this`rawBytes
      ensures Valid()
      ensures Traffic() == Metered(old(Traffic()), t, mode, Pressure(t))
    {
      hide Agree, Timed, SpacedOut, Ewma, PerSecond, Pressure;
      if winStart == 0 {
        winStart := t;
        return;
      }
      var win := t - winStart;
      if win < CAP_WINDOW { return; }
      var wire, raw := PerSecond(winBytes, win), PerSecond(rawBytes, win);
      RateOk(winBytes, win);
      RateOk(rawBytes, win);
      EwmaBetween(rawRate, raw, 0.3);
      EwmaBetween(capacity, wire, 0.3);
      rawRate := Ewma(rawRate, raw, 0.3);
      if mode == Raw && wire > 0.0 && Pressure(t) {
        capacity := Ewma(capacity, wire, 0.3);
      }
      if mode == Raw && winBytes > 0 {
        lz4Ratio := Ewma(lz4Ratio, raw / wire, 0.2);
      }
      winStart, winBytes, rawBytes := t, 0, 0;
    }

    method NoteDamage(t: int, bytes: nat)
      requires Valid() && t == now
      modifies this`lastGrab, this`damageCont, this`rawBytes
      ensures Valid() && lastGrab == t && rawBytes == old(rawBytes) + bytes
      ensures damageCont == if old(lastGrab) == 0 || t - old(lastGrab) >= DAMAGE_GAP then t else old(damageCont)
    {
      hide Agree, Timed, SpacedOut, Measured;
      if lastGrab == 0 || t - lastGrab >= DAMAGE_GAP {
        damageCont := t;
      }
      lastGrab := t;
      rawBytes := rawBytes + bytes;
    }

    method OnDamage(t: int, bytes: nat, opens: bool)
      requires Valid() && now <= t
      modifies this
      ensures Valid() && now == t && Onwards() && Moves(opens)
      ensures lastGrab == t
      ensures damageCont == if old(lastGrab) == 0 || t - old(lastGrab) >= DAMAGE_GAP then t else old(damageCont)
      ensures delay == old(delay) && Judges(t, opens)
      ensures Traffic() == Metered(old(Traffic().(rawBytes := rawBytes + bytes)), t, old(mode), Pressure(t))
    {
      hide Agree, Timed, SpacedOut, Measured, Judged, Metered, Ewma, Pressure, Traffic;
      MeterDamage(t, bytes);
      Evaluate(t, opens);
    }

    method MeterDamage(t: int, bytes: nat)
      requires Valid() && now <= t
      modifies this`now, this`lastGrab, this`damageCont,
               this`rawRate, this`capacity, this`lz4Ratio, this`winStart, this`winBytes, this`rawBytes
      ensures Valid() && now == t && lastGrab == t
      ensures damageCont == if old(lastGrab) == 0 || t - old(lastGrab) >= DAMAGE_GAP then t else old(damageCont)
      ensures Traffic() == Metered(old(Traffic().(rawBytes := rawBytes + bytes)), t, mode, Pressure(t))
    {
      hide Agree, Timed, SpacedOut, Measured, Metered, Ewma, Pressure;
      Clock(t);
      NoteDamage(t, bytes);
      Windows(t);
    }

    /** An encode went through. */
    method Encoded(t: int)
      requires Valid() && now <= t
      modifies this`now, this`lastEnc
      ensures Valid() && now == t && lastEnc == t && Unjudged()
    {
      hide Agree, Timed, SpacedOut, Measured, Judged, Metered, Ewma, Pressure;
      Clock(t);
      lastEnc := t;
    }

    /** Whether the encoder should skip this frame: the decoder is behind and
        had one less than a fifteenth of a second ago. */
    predicate SkipEncode(t: int)
      reads this`delay, this`lastEnc
    {
      delay > DELAY_HI && t - lastEnc < (1_000_000.0 / FPS_MIN).Floor
    }

    method NoteDelivery(t: int, bytes: nat)
      requires Valid() && t == now
      modifies this`lastDeliver, this`grabFps, this`winBytes
      ensures Valid() && lastDeliver == t && winBytes == old(winBytes) + bytes
      ensures grabFps == if old(lastDeliver) != 0 && t > old(lastDeliver)
                         then Ewma(old(grabFps), 1_000_000.0 / (t - old(lastDeliver)) as real, 0.2) else old(grabFps)
    {
      hide Agree, Timed, SpacedOut, Ewma;
      if lastDeliver != 0 && t > lastDeliver {
        var fps := 1_000_000.0 / (t - lastDeliver) as real;
        EwmaBetween(grabFps, fps, 0.2);
        grabFps := Ewma(grabFps, fps, 0.2);
      }
      lastDeliver := t;
      winBytes := winBytes + bytes;
    }

    method OnDeliver(t: int, bytes: nat, opens: bool)
      requires Valid() && now <= t
      modifies this
      ensures Valid() && now == t && Onwards() && Moves(opens)
      ensures lastDeliver == t && lastEnc == old(lastEnc)
      ensures grabFps == if old(lastDeliver) != 0 && t > old(lastDeliver)
                         then Ewma(old(grabFps), 1_000_000.0 / (t - old(lastDeliver)) as real, 0.2) else old(grabFps)
      ensures delay == old(delay) && Judges(t, opens)
      ensures Traffic() == Metered(old(Traffic().(winBytes := winBytes + bytes)), t, old(mode), Pressure(t))
    {
      hide Agree, Timed, SpacedOut, Measured, Judged, Metered, Ewma, Pressure, Traffic;
      MeterDelivery(t, bytes);
      Evaluate(t, opens);
    }

    method MeterDelivery(t: int, bytes: nat)
      requires Valid() && now <= t
      modifies this`now, this`lastDeliver, this`grabFps,
               this`rawRate, this`capacity, this`lz4Ratio, this`winStart, this`winBytes, this`rawBytes
      ensures Valid() && now == t && lastDeliver == t
      ensures grabFps == if old(lastDeliver) != 0 && t > old(lastDeliver)
                         then Ewma(old(grabFps), 1_000_000.0 / (t - old(lastDeliver)) as real, 0.2) else old(grabFps)
      ensures Traffic() == Metered(old(Traffic().(winBytes := winBytes + bytes)), t, mode, Pressure(t))
    {
      hide Agree, Timed, SpacedOut, Measured, Metered, Ewma, Pressure;
      Clock(t);
      NoteDelivery(t, bytes);
      Windows(t);
    }

    /** The ping timer. `quiet` says that nothing went out since the last ping,
        which then decays to a heartbeat. */
    method Tick(t: int, quiet: bool, opens: bool) returns (drop: bool)
      requires Valid() && now <= t
      modifies this
      ensures Valid() && now == t && Onwards() && Moves(opens)
      ensures drop == (old(pings) > 0 && t - old(lastPong) > PONG_DEAD)
      ensures !drop ==> pings == if old(pings) < PINGS_MAX && (quiet ==> t - old(lastPing) >= PING_IDLE) then old(pings) + 1 else old(pings)
      ensures drop ==> pings == old(pings)
      ensures drop || !quiet ==> Unjudged() && delay == old(delay) && rawRate == old(rawRate)
      ensures !drop && quiet ==>
                Judges(t, opens) && delay == Ewma(old(delay), 0.0, 0.1) && rawRate == Ewma(old(rawRate), 0.0, 0.1)
    {
      hide Agree, Timed, SpacedOut, Measured, Judged, Metered, Ewma, Pressure;
      Clock(t);
      drop := pings > 0 && t - lastPong > PONG_DEAD;
      if drop { return; }
      if quiet {
        Average(0.0, 0.1);
        ForgetRate();
        Evaluate(t, opens);
        if t - lastPing < PING_IDLE { return; }
      }
      if pings >= PINGS_MAX { return; }
      CountPing(t);
    }

    method ForgetRate()
      requires Valid()
      modifies this`rawRate
      ensures Valid() && rawRate == Ewma(old(rawRate), 0.0, 0.1)
    {
      hide Agree, Timed, SpacedOut, Ewma;
      EwmaBetween(rawRate, 0.0, 0.1);
      rawRate := Ewma(rawRate, 0.0, 0.1);
    }

    method CountPing(t: int)
      requires Valid() && t == now && pings < PINGS_MAX
      modifies this`pings, this`lastPing
      ensures Valid() && pings == old(pings) + 1 && lastPing == t
    {
      hide Agree, Timed, SpacedOut;
      pings := pings + 1;
      lastPing := t;
    }

    /** The encoder reported an error: the engine is back in RAW, for good. */
    method EncoderError(t: int)
      requires Valid() && now <= t && mode == H264
      modifies this`mode, this`failed, this`now
      ensures Valid() && now == t && mode == Raw && failed && Broke()
    {
      now := t;
      mode, failed := Raw, true;
    }

    // ------------------------------------------------------------- results

    /** In a span of time there are at most one entry and one more for each
        12.5 seconds of it. */
    lemma EntriesBounded(i: nat, j: nat)
      requires Valid() && i <= j < |entries|
      ensures entries[j] - entries[i] >= (j - i) * ENTRY_GAP
      ensures j > i ==> entries[j] - entries[i] > (j - i) * ENTRY_GAP
      decreases j - i
    {
      if i < j {
        EntriesBounded(i, j - 1);
        assert entries[j] > entries[j - 1] + ENTRY_GAP;
      }
    }
  }

  lemma Undivide(x: real, f: real, c: real)
    requires f > 0.0 && c > 0.0
    ensures x / f / c * (f * c) == x
  {
    assert x / f / c * c == x / f;
  }

  lemma TimesPositive(a: real, b: real, m: real)
    requires m > 0.0
    ensures a > b <==> a * m > b * m
  {}

  lemma RateOk(bytes: nat, win: int)
    requires win > 0
    ensures 0.0 <= PerSecond(bytes, win) && (bytes > 0 <==> 0.0 < PerSecond(bytes, win))
    ensures PerSecond(bytes, win) * win as real == bytes as real * 1_000_000.0
  {}
}
