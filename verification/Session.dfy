/** One client with feedback: the pressure controller drives the transmit
    engine, and hears from it. */
module Session {
  import opened Pixels
  import opened Wire
  import opened Geometry
  import opened Stream
  import opened TxState
  import opened Xmit
  import opened Control

  datatype Step =
    | Report(t: int, rects: seq<Rect>, bytes: nat, opens: bool)
    | Writable(t: int, env: Env, bytes: nat, opens: bool)
    | Pong(t: int, echo: int, opens: bool)
    | Tick(t: int, quiet: bool, opens: bool, ping: Message)
    | Frame(t: int, px: (nat, nat) -> Pixel)
    | Retry(t: int)
    | Teardown(t: int)
  {
    ghost predicate Ok(cfg: Config) {
      (Writable? ==> env.(ctl := Stay).Ok(cfg)) && (Tick? ==> IsControl(ping))
    }

    /** A ping came back, and its time makes sense. */
    predicate Echo() { Pong? && 0 <= t - echo <= 60 * SEC }

    /** Echoes take longer than the pressure threshold, an encoder is there
        and works, and no idle tick lets the delay average decay. */
    predicate Pressing() {
      match this
      case Report(_, _, _, opens) => opens
      case Writable(_, env, _, opens) => opens && !env.enc.EncodeError?
      case Pong(t, echo, opens) => opens && (Echo() ==> (t - echo) as real > DELAY_HI)
      case Tick(_, quiet, _, _) => !quiet
      case _ => true
    }

    /** Echoes are quick. */
    predicate Quick() { Echo() ==> (t - echo) as real < DELAY_LO }
  }

  /** Pacing does not make a pass of the outside world impossible. */
  lemma PacedOk(env: Env, skip: bool, cfg: Config)
    requires env.(ctl := Stay).Ok(cfg)
    ensures env.(ctl := Stay, skip := skip).Ok(cfg)
  {}

  /** The pacing interval of the encoder. */
  lemma Fifteenth()
    ensures (1_000_000.0 / FPS_MIN).Floor == 66_666
  {}

  class Connection {
    const ctl: Controller
    const tx: Client

    /** What the controller believes about the engine is so. */
    ghost predicate Believes()
      reads ctl`mode, ctl`encOpen, ctl`failed, tx`mode, tx`encOpen, tx`h264Failed
    {
      ctl.mode == tx.mode && ctl.encOpen == tx.encOpen && ctl.failed == tx.h264Failed && (ctl.negotiated ==> tx.cfg.h264)
    }

    ghost predicate Valid()
      reads ctl, tx, tx.grabbuf, tx.shadowbuf
    {
      ctl.Valid() && tx.Valid() && Believes()
    }

    /** Entries into H.264 are only added, and none once it has failed. */
    twostate predicate Onwards()
      reads ctl`entries, ctl`failed
    {
      old(ctl.entries) <= ctl.entries && (old(ctl.failed) ==> ctl.failed && ctl.entries == old(ctl.entries))
    }

    constructor (ctl: Controller, tx: Client)
      requires ctl.Valid() && tx.Valid() && ctl.mode == tx.mode && ctl.encOpen == tx.encOpen && ctl.failed == tx.h264Failed
      requires ctl.negotiated ==> tx.cfg.h264
      ensures Valid() && this.ctl == ctl && this.tx == tx
    {
      hide Controller.Valid, Client.Valid;
      this.ctl, this.tx := ctl, tx;
    }

    /** The engine makes the move that the controller decided on. */
    method Follow(mode0: Mode, failed0: bool, opens: bool)
      requires ctl.Valid() && tx.Valid() && (ctl.negotiated ==> tx.cfg.h264)
      requires tx.mode == mode0 && tx.h264Failed == failed0
      requires Leads(mode0, tx.encOpen, failed0, opens)
      modifies tx
      ensures Valid()
      ensures tx.alive == old(tx.alive) && tx.unreported == old(tx.unreported) && (old(tx.armed) ==> tx.armed)
      ensures tx.Stuck() ==> old(tx.Stuck())
      ensures tx.outq == old(tx.outq) + Farewell(mode0)
    {
      hide Controller.Valid, Client.Valid;
      if ctl.mode != mode0 {
        tx.Decide(Switch(ctl.mode, opens));
      } else if ctl.failed && !failed0 {
        tx.Decide(Switch(H264, false));
      }
    }

    /** What leaving H.264 queues. */
    ghost function Farewell(mode0: Mode): seq<Message>
      reads tx`mode, tx`alive
    {
      if mode0 == H264 && tx.mode == Raw && tx.alive then [EOS] else []
    }

    /** The controller's view after an event, from the engine's state. */
    ghost predicate Leads(mode0: Mode, open0: bool, failed0: bool, opens: bool)
      reads ctl`mode, ctl`encOpen, ctl`failed
    {
      || (ctl.mode == mode0 && ctl.encOpen == open0 && ctl.failed == failed0)
      || (mode0 == Raw && ctl.mode == H264 && (open0 || opens) && ctl.encOpen && ctl.failed == failed0 && ctl.negotiated)
      || (mode0 == Raw && ctl.mode == Raw && !open0 && !opens && !ctl.encOpen && ctl.failed && ctl.negotiated)
      || (mode0 == H264 && ctl.mode == Raw && ctl.encOpen == open0 && ctl.failed == failed0)
    }

    /** A damage report: what differs waits, then the controller is told. */
    method OnReport(t: int, rects: seq<Rect>, bytes: nat, opens: bool) returns (told: bool)
      requires Valid() && ctl.now <= t
      modifies ctl, tx
      ensures Valid() && ctl.now <= t && Onwards()
      ensures tx.Stuck() ==> old(tx.Stuck())
      ensures tx.unreported == old(tx.unreported) - Areas(rects, |rects|)
      ensures told ==> ctl.now == t && ctl.lastGrab == t && ctl.Judges(t, opens)
      ensures (!told ==> ctl.Unjudged()) && ctl.delay == old(ctl.delay)
      ensures !told ==> ctl.now == old(ctl.now) && ctl.phase == old(ctl.phase) && tx.dirty == old(tx.dirty) && tx.dirtyAll == old(tx.dirtyAll)
    {
      hide Controller.Valid, Client.Valid, Areas;
      told := tx.Collect(rects);
      if !told { return; }
      ctl.OnDamage(t, bytes, opens);
      Follow(tx.mode, tx.h264Failed, opens);
      tx.Kick();
    }

    /** A dispatch of the write watch. The controller paces the encodes, and is
        told of every delivery and of an encoder error. */
    method OnWritable(t: int, env: Env, bytes: nat, opens: bool) returns (o: Outcome)
      requires Valid() && ctl.now <= t && env.Ok(tx.cfg) && env.ctl.Stay? && env.skip == ctl.SkipEncode(t) && tx.armed
      modifies ctl, tx, tx.shadowbuf
      ensures Valid() && ctl.now <= t && Onwards()
      ensures tx.Stuck() ==> o == EncoderFailed
      ensures (o == Started ==> ctl.lastDeliver == t) && (o == EncoderFailed ==> ctl.failed)
      ensures old(tx.mode == H264 && (tx.dirtyAll || tx.dirty != [])) && o in {Started, Idle} ==>
                ctl.lastEnc == t && (ctl.delay > DELAY_HI ==> t - old(ctl.lastEnc) >= 66_666)
      ensures ctl.lastEnc in {t, old(ctl.lastEnc)}
      ensures o == Started ==> ctl.Judges(t, opens)
      ensures o == EncoderFailed ==> ctl.Broke() && env.enc.EncodeError?
      ensures o !in {Started, EncoderFailed} ==> ctl.Unjudged()
      ensures ctl.delay == old(ctl.delay)
    {
      hide Controller.Valid, Client.Valid, Env.Ok, Client.After, Client.Before;
      Fifteenth();
      var coding := Coding();
      o := Dispatch(env);
      Hear(t, coding, bytes, opens, o);
    }

    /** A frame waits for the encoder. */
    predicate Coding()
      reads tx`mode, tx`dirtyAll, tx`dirty
    {
      tx.mode == H264 && (tx.dirtyAll || tx.dirty != [])
    }

    method Dispatch(env: Env) returns (o: Outcome)
      requires Valid() && env.Ok(tx.cfg) && env.ctl.Stay? && tx.armed
      modifies tx, tx.shadowbuf
      ensures tx.Valid() && (if o == EncoderFailed then FailedUnheard() else Believes())
      ensures tx.Stuck() ==> o == EncoderFailed
      ensures o == Started ==> tx.armed
      ensures o == EncoderFailed ==> env.enc.EncodeError?
      ensures old(Coding()) && env.skip ==> o in {Lost, Blocked, Paced}
    {
      hide Controller.Valid, Client.Valid, Env.Ok, Client.After;
      ghost var before := tx.Before(env);
      var calls;
      o, calls := tx.OnOutReady(env);
      if o != Lost && o != Blocked {
        tx.MovesAfter(before, env, o);
      }
    }

    /** The encoder failed and the controller does not know yet. */
    ghost predicate FailedUnheard()
      reads ctl`mode, ctl`encOpen, tx`mode, tx`encOpen, tx`h264Failed
    {
      ctl.mode == H264 && tx.mode == Raw && tx.h264Failed && ctl.encOpen == tx.encOpen && (ctl.negotiated ==> tx.cfg.h264)
    }

    method Hear(t: int, coding: bool, bytes: nat, opens: bool, o: Outcome)
      requires ctl.Valid() && tx.Valid() && ctl.now <= t
      requires if o == EncoderFailed then FailedUnheard() else Believes()
      requires o == Started ==> tx.armed
      modifies ctl, tx
      ensures Valid() && ctl.now <= t && Onwards()
      ensures tx.Stuck() ==> old(tx.Stuck())
      ensures (o == Started ==> ctl.lastDeliver == t) && (o == EncoderFailed ==> ctl.failed)
      ensures ctl.lastEnc == if coding && o in {Started, Idle} then t else old(ctl.lastEnc)
      ensures o == Started ==> ctl.Judges(t, opens)
      ensures o == EncoderFailed ==> ctl.Broke()
      ensures o !in {Started, EncoderFailed} ==> ctl.Unjudged()
      ensures ctl.delay == old(ctl.delay)
    {
      hide Controller.Valid, Client.Valid;
      if o == EncoderFailed {
        ctl.EncoderError(t);
        return;
      }
      if coding && (o == Started || o == Idle) {
        ctl.Encoded(t);
      }
      if o == Started {
        ctl.OnDeliver(t, bytes, opens);
        Follow(tx.mode, tx.h264Failed, opens);
      }
    }

    method OnPong(t: int, echo: int, opens: bool)
      requires Valid() && ctl.now <= t
      modifies ctl, tx
      ensures Valid() && ctl.now == t && Onwards()
      ensures tx.Stuck() ==> old(tx.Stuck())
      ensures if 0 <= t - echo <= 60 * SEC then ctl.Judges(t, opens) else ctl.Unjudged()
      ensures ctl.delay == if 0 <= t - echo <= 60 * SEC && !old(ctl.InGrace(t))
                           then Ewma(old(ctl.delay), (t - echo) as real, 0.3) else old(ctl.delay)
    {
      hide Controller.Valid, Client.Valid, Ewma;
      ctl.OnPong(t, echo, opens);
      Follow(tx.mode, tx.h264Failed, opens);
    }

    /** The ping timer: a silent peer is given up, others get a ping. */
    method OnTick(t: int, quiet: bool, opens: bool, ping: Message)
      requires Valid() && ctl.now <= t && IsControl(ping)
      modifies ctl, tx
      ensures Valid() && ctl.now <= t && Onwards()
      ensures tx.Stuck() ==> old(tx.Stuck())
      ensures tx.alive == (old(tx.alive) && !(old(ctl.pings) > 0 && t - old(ctl.lastPong) > PONG_DEAD))
      ensures tx.alive ==> tx.outq == old(tx.outq) + Farewell(old(tx.mode)) + if ctl.pings > old(ctl.pings) then [ping] else []
      ensures tx.alive ==> (ctl.pings > old(ctl.pings) <==>
                old(ctl.pings) < PINGS_MAX && (quiet ==> t - old(ctl.lastPing) >= PING_IDLE))
      ensures if tx.alive && quiet then ctl.Judges(t, opens) && ctl.delay == Ewma(old(ctl.delay), 0.0, 0.1)
              else ctl.Unjudged() && ctl.delay == old(ctl.delay)
    {
      hide Controller.Valid, Client.Valid, IsControl, Ewma;
      if !tx.alive { return; }
      var before := ctl.pings;
      var drop := ctl.Tick(t, quiet, opens);
      if drop {
        tx.ScheduleTeardown();
        return;
      }
      Follow(tx.mode, tx.h264Failed, opens);
      if ctl.pings > before {
        tx.Control(ping);
      }
    }

    /** The source writes a new frame. */
    method OnFrame(px: (nat, nat) -> Pixel)
      requires Valid()
      modifies tx, tx.grabbuf
      ensures Valid() && (tx.Stuck() ==> old(tx.Stuck()))
    {
      hide Controller.Valid, Client.Valid;
      tx.NewFrame(px);
    }

    method OnTeardown()
      requires Valid()
      modifies tx
      ensures Valid() && !tx.Stuck()
    {
      hide Controller.Valid, Client.Valid;
      tx.ScheduleTeardown();
    }

    method OnRetry()
      requires Valid()
      modifies tx
      ensures Valid() && (tx.Stuck() ==> old(tx.Stuck()))
    {
      hide Controller.Valid, Client.Valid;
      if tx.retry {
        tx.RetryTimer();
      }
    }

    /** The engine's mode is the one the controller wants, unless H.264 is over
        for this client; H.264 runs only negotiated, open and not failed. */
    lemma Agreement()
      requires Valid()
      ensures tx.mode == H264 ==> ctl.negotiated && tx.encOpen && !tx.h264Failed
      ensures ctl.phase in {Steady, Suspect} ==> tx.mode == Raw
      ensures ctl.phase in {Active, Cooldown} ==> tx.mode == H264 || tx.h264Failed
      ensures ctl.mode == tx.mode && ctl.failed == tx.h264Failed
    {
      hide Client.Valid;
    }

    /** Over any run of a connection: engine and controller stay in agreement,
        entries into H.264 keep their distance, and there is none after a
        failure. */
    method Run(steps: seq<Step>)
      requires Valid()
      requires forall i | 0 <= i < |steps| :: steps[i].Ok(tx.cfg) && ctl.now <= steps[i].t
      requires forall i, j | 0 <= i <= j < |steps| :: steps[i].t <= steps[j].t
      modifies ctl, tx, tx.grabbuf, tx.shadowbuf
      ensures Valid() && Onwards()
    {
      hide Controller.Valid, Client.Valid, Env.Ok, IsControl, Believes;
      for i := 0 to |steps|
        invariant Valid() && Onwards()
        invariant i < |steps| ==> ctl.now <= steps[i].t
      {
        Take(steps[i]);
      }
    }

    /** What a step means to the controller. */
    twostate predicate Took(e: Step)
      reads ctl
    {
      match e
      case Report(t, _, _, opens) => (ctl.Judges(t, opens) || ctl.Unjudged()) && ctl.delay == old(ctl.delay)
      case Writable(t, env, _, opens) =>
        (ctl.Judges(t, opens) || ctl.Unjudged() || (ctl.Broke() && env.enc.EncodeError?)) && ctl.delay == old(ctl.delay)
      case Pong(t, echo, opens) =>
        && (if e.Echo() then ctl.Judges(t, opens) else ctl.Unjudged())
        && ctl.delay == if e.Echo() && !old(ctl.InGrace(t)) then Ewma(old(ctl.delay), (t - echo) as real, 0.3) else old(ctl.delay)
      case Tick(t, quiet, opens, _) =>
        || (ctl.Unjudged() && ctl.delay == old(ctl.delay))
        || (quiet && ctl.Judges(t, opens) && ctl.delay == Ewma(old(ctl.delay), 0.0, 0.1))
      case _ => ctl.Unjudged() && ctl.delay == old(ctl.delay)
    }

    // ------------------------------------------- what a run comes down to

    /** Steps that can be taken one after the other. */
    ghost predicate Runs(steps: seq<Step>)
      reads ctl`now
    {
      && (forall i | 0 <= i < |steps| :: steps[i].Ok(tx.cfg) && ctl.now <= steps[i].t)
      && (forall i, j | 0 <= i <= j < |steps| :: steps[i].t <= steps[j].t)
    }

    /** Under pressure the client has left RAW for good a while after the echo
        at time `first`, which came when the grace period was over. */
    ghost predicate Pressed(first: int, past: bool)
      reads ctl
    {
      && !ctl.failed && ctl.delay > DELAY_HI && ctl.negotiated
      && (ctl.phase == Steady ==> !past && first - ctl.since >= RAW_GRACE)
      && (ctl.phase == Suspect ==> ctl.since <= first)
    }

    method Take(e: Step)
      requires Valid() && e.Ok(tx.cfg) && ctl.now <= e.t
      modifies ctl, tx, tx.grabbuf, tx.shadowbuf
      ensures Valid() && Onwards() && ctl.now <= e.t && Took(e)
    {
      hide Controller.Valid, Client.Valid, Env.Ok, IsControl, Believes, Ewma;
      match e
      case Report(t, rects, bytes, opens) => var told := OnReport(t, rects, bytes, opens);
      case Writable(t, env, bytes, opens) =>
        if tx.armed {
          PacedOk(env, ctl.SkipEncode(t), tx.cfg);
          var o := OnWritable(t, env.(ctl := Stay, skip := ctl.SkipEncode(t)), bytes, opens);
        }
      case Pong(t, echo, opens) => OnPong(t, echo, opens);
      case Tick(t, quiet, opens, ping) => OnTick(t, quiet, opens, ping);
      case Frame(t, px) => OnFrame(px);
      case Retry(t) => OnRetry();
      case Teardown(t) => OnTeardown();
    }

    method TakePressed(e: Step, ghost first: int, ghost past: bool)
      requires Valid() && e.Ok(tx.cfg) && ctl.now <= e.t && e.Pressing() && Pressed(first, past) && (!past ==> e.t <= first)
      modifies ctl, tx, tx.grabbuf, tx.shadowbuf
      ensures Valid() && Onwards() && ctl.now <= e.t && Pressed(first, past || (e.Echo() && e.t == first))
      ensures old(ctl.phase) == Active ==> ctl.phase == Active
      ensures past && e.Echo() && e.t - first > ENTER_CONFIRM ==> ctl.phase == Active
    {
      hide Client.Valid, Env.Ok, IsControl, Believes;
      Take(e);
    }

    /** Pressure leads to H.264: with late echoes all along and a working
        encoder, one echo when the grace period is over and one more than half
        a second after it, and the client is sent H.264 from then on. */
    method RunPressed(steps: seq<Step>, i: nat, j: nat)
      requires Valid() && Runs(steps) && forall e <- steps :: e.Pressing()
      requires ctl.negotiated && !ctl.failed && ctl.delay > DELAY_HI
      requires i < j < |steps| && steps[i].Echo() && steps[j].Echo() && steps[j].t - steps[i].t > ENTER_CONFIRM
      requires ctl.phase == Steady ==> steps[i].t - ctl.since >= RAW_GRACE
      modifies ctl, tx, tx.grabbuf, tx.shadowbuf
      ensures Valid() && Onwards() && ctl.phase == Active && tx.mode == H264
    {
      hide Controller.Valid, Client.Valid, Env.Ok, IsControl, Believes, Step.Pressing;
      var k := 0;
      PressedAtFirst(steps[i].t);
      while k < |steps|
        invariant 0 <= k <= |steps| && Valid() && Onwards() && (k < |steps| ==> ctl.now <= steps[k].t)
        invariant Pressed(steps[i].t, k > i)
        invariant k > j ==> ctl.phase == Active
      {
        TakePressed(steps[k], steps[i].t, k > i);
        k := k + 1;
      }
      Agreement();
    }

    lemma PressedAtFirst(first: int)
      requires Valid() && ctl.negotiated && !ctl.failed && ctl.delay > DELAY_HI && ctl.now <= first
      requires ctl.phase == Steady ==> first - ctl.since >= RAW_GRACE
      ensures Pressed(first, false)
    {
      hide Client.Valid, Believes;
    }


    /** Since the echo at time `first` the client is in a calm streak, unless
        it left H.264. `known` is how often it had entered before. */
    ghost predicate Calm(first: int, past: bool, known: nat)
      reads ctl
    {
      && !ctl.force && ctl.delay < DELAY_LO && known <= |ctl.entries|
      && (ctl.mode == H264 && |ctl.entries| == known && past ==> ctl.phase == Cooldown && ctl.calm <= first)
    }

    method TakeCalm(e: Step, ghost first: int, ghost past: bool, ghost known: nat)
      requires Valid() && e.Ok(tx.cfg) && ctl.now <= e.t && e.Quick() && Calm(first, past, known) && (!past ==> e.t <= first)
      modifies ctl, tx, tx.grabbuf, tx.shadowbuf
      ensures Valid() && Onwards() && ctl.now <= e.t && Calm(first, past || (e.Echo() && e.t == first), known)
      ensures past && e.Echo() && e.t - first >= EXIT_CALM && ctl.mode == H264 && |ctl.entries| == known ==>
                ctl.StaysCoded(ctl.Stands(), e.t)
    {
      hide Client.Valid, Env.Ok, IsControl, Believes, Controller.SpacedOut;
      Take(e);
    }

    /** Calm leads back to RAW: with quick echoes all along, one echo and one
        ten seconds later, the client is back in RAW then, unless it entered
        H.264 afresh in between, or RAW would not fit and it is too early to
        try all the same. */
    method RunCalm(steps: seq<Step>, i: nat)
      requires Valid() && Runs(steps) && forall e <- steps :: e.Quick()
      requires !ctl.force && ctl.delay < DELAY_LO
      requires i < |steps| - 1 && steps[i].Echo() && steps[|steps| - 1].Echo()
      requires steps[|steps| - 1].t - steps[i].t >= EXIT_CALM
      modifies ctl, tx, tx.grabbuf, tx.shadowbuf
      ensures Valid() && Onwards()
      ensures |ctl.entries| == |old(ctl.entries)| && !ctl.StaysCoded(ctl.Stands(), steps[|steps| - 1].t) ==> tx.mode == Raw
    {
      hide Controller.Valid, Client.Valid, Env.Ok, IsControl, Believes, Step.Quick, Controller.StaysCoded;
      var k := 0;
      while k < |steps|
        invariant 0 <= k <= |steps| && Valid() && Onwards() && (k < |steps| ==> ctl.now <= steps[k].t)
        invariant Calm(steps[i].t, k > i, |old(ctl.entries)|)
        invariant k == |steps| && ctl.mode == H264 && |ctl.entries| == |old(ctl.entries)| ==>
                    ctl.StaysCoded(ctl.Stands(), steps[k - 1].t)
      {
        TakeCalm(steps[k], steps[i].t, k > i, |old(ctl.entries)|);
        k := k + 1;
      }
      Agreement();
    }
  }
}
