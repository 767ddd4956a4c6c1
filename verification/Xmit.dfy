/** The per-client transmit engine. Frames are never queued: damage
    accumulates, and the next message is built from the freshest pixels when
    the socket drains. Sockets, encoder and controller answers are parameters,
    so every contract holds for every schedule of partial sends, failures and
    mode switches. */
module Xmit {
  import opened Common
  import opened Wire
  import opened Pixels
  import opened Geometry
  import opened Stream
  import opened Framing
  import opened TxState

  /** What the pressure controller does when it is told of a damage or a
      delivery. `opens` is the answer of the encoder open, if one is tried. */
  datatype Decision = Stay | Switch(mode: Mode, opens: bool)

  datatype Encoded = EncodeError | EncodeEmpty | AccessUnit(bytes: seq<byte>, keyframe: bool)

  /** One pass of the outside world: hang-up, socket answers by call number
      and length (-1 is an error, 0 is "would block"), pacing, encoder and
      controller. */
  datatype Env = Env(hup: bool, sock: (nat, nat) -> int, skip: bool, enc: Encoded, ctl: Decision) {
    ghost predicate Ok(cfg: Config) {
      && (forall k, n :: -1 <= sock(k, n) <= n)
      && (enc.AccessUnit? ==> 0 < |enc.bytes| <= AU_CAP)
      && (ctl.Switch? && ctl.mode == H264 ==> cfg.h264)
    }
    /** The socket takes everything, nothing fails, the controller stays. */
    ghost predicate Smooth() {
      && !hup && ctl.Stay? && forall k, n :: sock(k, n) == n
    }
    /** The same with a socket that takes at least one byte each time. */
    ghost predicate Willing() {
      && !hup && ctl.Stay? && forall k, n :: n > 0 ==> sock(k, n) > 0
    }
  }

  /** What can happen to a connection. */
  datatype Event =
    | Frame(px: (nat, nat) -> Pixel)
    | Report(rects: seq<Rect>, ctl: Decision)
    | RepaintAll
    | Queue(msg: Message)
    | SetTo(to: Mode, opens: bool)
    | Timer
    | Writable(env: Env)
    | Teardown                       // scheduled by the watchdog, the parser or the source
  {
    ghost predicate Ok(cfg: Config) {
      && (Report? && ctl.Switch? && ctl.mode == H264 ==> cfg.h264)
      && (Queue? ==> IsControl(msg))
      && (SetTo? && to == H264 ==> cfg.h264)
      && (Writable? ==> env.Ok(cfg))
    }
  }

  datatype Outcome = Lost | Blocked | Started | Idle | Paced | EncoderFailed

  /** One call of the socket: the bytes offered and its answer. */
  datatype Call = Call(offered: seq<byte>, answer: int) {
    function Taken(): seq<byte> {
      if 0 <= answer <= |offered| then offered[..answer] else []
    }
    predicate Whole() { answer == |offered| }
    predicate Short() { 0 <= answer < |offered| }
  }

  /** The bytes that the calls got rid of. */
  function Accepted(calls: seq<Call>): seq<byte> {
    if calls == [] then [] else Accepted(calls[..|calls| - 1]) + calls[|calls| - 1].Taken()
  }

  /** The calls of a pass: none of them is empty, env answers them in this
      order, and only the last one can fail or find the socket full. */
  ghost predicate Answered(env: Env, calls: seq<Call>) {
    && (forall k: nat | k < |calls| :: calls[k].offered != [] && calls[k].answer == env.sock(k, |calls[k].offered|))
    && (forall k: nat | k < |calls| - 1 :: calls[k].answer > 0)
  }

  /** How a flush ends: the peer is lost when a call fails, the flush is
      blocked when the last call was short, and else it goes on. */
  function FlushEnd(calls: seq<Call>): (o: Outcome)
    ensures o in {Idle, Blocked, Lost}
  {
    if calls == [] || calls[|calls| - 1].Whole() then Idle
    else if calls[|calls| - 1].Short() then Blocked
    else Lost
  }

  /** The calls of a pass so far, with the bytes accepted before it and now. */
  ghost predicate Ran(env: Env, calls: seq<Call>, was: seq<byte>, now: seq<byte>) {
    Answered(env, calls) && now == was + Accepted(calls)
  }

  lemma RanGrows(env: Env, calls: seq<Call>, was: seq<byte>, now: seq<byte>)
    requires Ran(env, calls, was, now)
    ensures was <= now
  {
    hide Answered, Accepted;
  }

  predicate GoesOn(calls: seq<Call>) { calls != [] ==> calls[|calls| - 1].answer > 0 }

  lemma CallMade(env: Env, calls: seq<Call>, c: Call, was: seq<byte>, now: seq<byte>)
    requires Ran(env, calls, was, now) && GoesOn(calls)
    requires c.offered != [] && c.answer == env.sock(|calls|, |c.offered|)
    ensures Ran(env, calls + [c], was, now + c.Taken())
    ensures FlushEnd(calls + [c]) == if c.Whole() then Idle else if c.Short() then Blocked else Lost
    ensures GoesOn(calls + [c]) <==> c.answer > 0
  {
    hide Call.Taken;
    AcceptedSnoc(calls, c);
    ConcatAssoc(was, Accepted(calls), c.Taken());
    AnsweredSnoc(env, calls, c);
  }

  lemma AcceptedSnoc(calls: seq<Call>, c: Call)
    ensures Accepted(calls + [c]) == Accepted(calls) + c.Taken()
  {
    assert (calls + [c])[..|calls|] == calls;
  }

  lemma AnsweredSnoc(env: Env, calls: seq<Call>, c: Call)
    requires Answered(env, calls) && GoesOn(calls)
    requires c.offered != [] && c.answer == env.sock(|calls|, |c.offered|)
    ensures Answered(env, calls + [c])
  {}

  lemma NoCalls(env: Env)
    ensures forall was :: Ran(env, [], was, was)
    ensures FlushEnd([]) == Idle && GoesOn([])
  {}

  /** What a pass starts from, as far as its build is concerned. */
  datatype Pre = Pre(mode: Mode, all: bool, dirty: seq<Rect>, forceIdr: bool, encOpen: bool, failed: bool,
                     swallowed: bool, order: seq<Message>, loosely: bool, inside: bool, faults: (bool, bool))
  {
    predicate Waiting() { all || dirty != [] }
  }

  class Client {
    const cfg: Config
    const dither: bool
    const grabbuf: array2<Pixel>     // [y, x]: the current full frame
    const shadowbuf: array2<Pixel>   // [y, x]: what the client last got
    var dirty: seq<Rect>             // at most 16
    var dirtyAll: bool
    var alive: bool                  // connected, no teardown scheduled
    var mode: Mode
    var encOpen: bool
    var h264Failed: bool
    var forceIdr: bool
    var outq: seq<Message>
    var outqOff: nat
    var outActive: bool
    var outSeg0: seq<byte>
    var outSeg1: seq<byte>
    var outOff: nat
    var armed: bool                  // write watch
    var retry: bool                  // encode-pacing timer
    var sent: seq<byte>              // the socket: every byte it accepted

    ghost var order: seq<Message>
    ghost var unreported: iset<(int, int)>
    ghost var swallowed: bool
    ghost var cut: bool

    ghost function View(): Tx
      reads this`alive, this`mode, this`encOpen, this`h264Failed, this`forceIdr, this`dirtyAll, this`dirty, this`order,
            this`unreported, this`swallowed, this`cut
    {
      Tx(cfg, dither, alive, mode, encOpen, h264Failed, forceIdr, dirtyAll, dirty, order, unreported, swallowed, cut)
    }

    /** What is left to send of the frame in flight. */
    function FrameRest(): seq<byte>
      reads this`outActive, this`outSeg0, this`outSeg1, this`outOff
    {
      if outActive && outOff <= |outSeg0| + |outSeg1| then (outSeg0 + outSeg1)[outOff..] else []
    }

    /** Accepted bytes, the rest of the frame in flight and the rest of the
        control queue are exactly the submitted messages. */
    ghost predicate Wired()
      reads this`outActive, this`outSeg0, this`outSeg1, this`outOff, this`outq, this`outqOff, this`order, this`sent
    {
      && Framed(order, sent, FrameRest(), outq, outqOff)
      && (outActive ==> outOff <= |outSeg0| + |outSeg1| && outqOff == 0)
      && (outqOff > 0 ==> outq != [] && outqOff < |Encode(outq[0])|)
    }

    /** The invariant. The write watch may outlive `alive`: a teardown that
        others schedule leaves it armed. */
    ghost predicate Valid()
      reads this`alive, this`mode, this`encOpen, this`h264Failed, this`forceIdr, this`dirtyAll, this`dirty, this`order,
            this`unreported, this`swallowed, this`cut,
            this`outActive, this`outSeg0, this`outSeg1, this`outOff, this`outq, this`outqOff, this`sent,
            grabbuf, shadowbuf
    {
      Content(View(), grabbuf, shadowbuf) && Wired()
    }

    ghost predicate Work()
      reads this`outActive, this`outq, this`dirty, this`dirtyAll
    {
      outActive || outq != [] || dirty != [] || dirtyAll
    }

    /** Work pends on a live connection and nothing will wake it up. */
    ghost predicate Stuck()
      reads this
    {
      alive && Work() && !armed && !retry
    }

    /** The ways in which the submitted messages break the episode grammar: an
        episode opened loosely, a rect astray in an episode. */
    ghost function Faults(): (bool, bool)
      reads this`order
    {
      (Loose(cfg, order), Stray(cfg, order))
    }

    /** The next pass would open an episode with an ordinary access unit. */
    ghost predicate OpensLoosely(env: Env)
      reads this`mode, this`dirty, this`dirtyAll, this`forceIdr, this`order
    {
      && mode == H264 && (dirtyAll || dirty != []) && !env.skip && env.enc.AccessUnit?
      && !forceIdr && !env.enc.keyframe && PhaseOf(cfg, order) != Open
    }

    /** The next pass would send a rect inside an open episode. */
    ghost predicate PaintsInside()
      reads this`mode, this`dirty, this`dirtyAll, this`order
    {
      mode == Raw && (dirtyAll || dirty != []) && PhaseOf(cfg, order) == Open
    }

    // ----------------------------------------------------- construction

    /** A fresh streaming connection. `trusted` says that the first frame is
        known to be black (the KVM source); otherwise every pixel waits for
        its first damage report (the EVDI source). */
    constructor (cfg: Config, dither: bool, frame: array2<Pixel>, trusted: bool)
      requires cfg.Valid() && Framebuffer(cfg, frame)
      requires trusted ==> forall x, y | 0 <= x < cfg.width && 0 <= y < cfg.height :: frame[y, x] == 0
      ensures Valid() && fresh(shadowbuf)
      ensures this.cfg == cfg && this.dither == dither && grabbuf == frame
      ensures alive && mode == Raw && order == [] && sent == [] && !Work() && !armed && !retry
      ensures !encOpen && !h264Failed && !swallowed && !cut
      ensures unreported == if trusted then iset{} else iset p: (int, int) | View().InFrame(p.0, p.1)
    {
      hide Content;
      this.cfg, this.dither, grabbuf := cfg, dither, frame;
      shadowbuf := new Pixel[cfg.height, cfg.width]((i, j) => 0);
      dirty, dirtyAll := [], false;
      alive, mode, encOpen, h264Failed, forceIdr := true, Raw, false, false, false;
      outq, outqOff := [], 0;
      outActive, outSeg0, outSeg1, outOff := false, [], [], 0;
      armed, retry := false, false;
      order, sent := [], [];
      unreported := iset{};
      swallowed, cut := false, false;
      new;
      unreported := if trusted then iset{} else iset p: (int, int) | View().InFrame(p.0, p.1);
      InitiallyOk(View(), grabbuf, shadowbuf);
    }

    // ------------------------------------------------------ kick, control

    /** Whether the write watch is armed after a kick. */
    predicate Kicked()
      reads this`armed, this`alive, this`outActive, this`outq, this`dirty, this`dirtyAll
    {
      armed || (alive && (outActive || outq != [] || dirty != [] || dirtyAll))
    }

    method Enqueue(m: Message)
      requires Wired()
      modifies this`outq, this`order
      ensures Wired() && outq == old(outq) + [m] && order == old(order) + [m]
    {
      hide Framed, Encode;
      QueueMessage(order, sent, FrameRest(), outq, outqOff, m);
      outq := outq + [m];
      order := order + [m];
    }

    method Submit(m: Message)
      requires Wired()
      modifies this`outq, this`order, this`armed
      ensures Wired() && armed == (old(armed) || alive)
      ensures outq == (if alive then old(outq) + [m] else old(outq))
      ensures order == (if alive then old(order) + [m] else old(order))
    {
      hide Wired;
      if !alive { return; }
      Enqueue(m);
      armed := Kicked();
    }

    /** A control message (PING, BLANK, UNBLANK), queued behind everything
        already submitted. */
    method Control(m: Message)
      requires Valid() && IsControl(m)
      modifies this`outq, this`order, this`armed
      ensures Valid() && armed == (old(armed) || alive)
      ensures outq == (if alive then old(outq) + [m] else old(outq))
      ensures order == (if alive then old(order) + [m] else old(order))
    {
      hide Wired, Content, IsControl;
      if alive {
        ControlKeeps(View(), m, grabbuf, shadowbuf);
      }
      Submit(m);
    }

    // ------------------------------------------------------ mode switch

    /** The encoder is open: the episode starts with an IDR, and whatever
        waited becomes one full frame. */
    method EnterH264()
      requires Content(View(), grabbuf, shadowbuf) && mode == Raw && cfg.h264
      modifies this`mode, this`encOpen, this`forceIdr, this`dirty, this`dirtyAll
      ensures Content(View(), grabbuf, shadowbuf)
      ensures View() == Switched(old(View()), H264, true)
    {
      hide Content, Switched;
      SwitchKeeps(View(), H264, true, grabbuf, shadowbuf);
      SwitchedOn(View());
      encOpen, forceIdr, mode := true, true, H264;
      dirtyAll := dirtyAll || dirty != [];
      dirty := [];
    }

    method LeaveH264()
      requires Valid() && mode == H264
      modifies this`mode, this`dirty, this`dirtyAll, this`outq, this`order, this`armed, this`cut
      ensures Valid()
      ensures View() == Switched(old(View()), Raw, true)
      ensures outq == if alive then old(outq) + [EOS] else old(outq)
      ensures armed == (old(armed) || alive)
    {
      hide Content, Wired, Switched;
      SwitchKeeps(View(), Raw, true, grabbuf, shadowbuf);
      BackToRaw();
    }

    method BackToRaw()
      requires Wired() && mode == H264
      modifies this`mode, this`dirty, this`dirtyAll, this`outq, this`order, this`armed, this`cut
      ensures Wired() && View() == Switched(old(View()), Raw, true)
      ensures outq == if alive then old(outq) + [EOS] else old(outq)
      ensures armed == (old(armed) || alive)
    {
      hide Wired, Switched;
      SwitchedOff(View());
      ghost var broken := cut || (!alive && View().Phase() == Open);
      mode := Raw;
      Submit(EOS);
      MarkSnapshot(broken);
    }

    /** The next frame is the full stream. */
    method MarkSnapshot(ghost broken: bool)
      modifies this`dirty, this`dirtyAll, this`armed, this`cut
      ensures View() == old(View()).(all := true, dirty := [], cut := broken) && armed == (old(armed) || alive)
    {
      cut := broken;
      dirty, dirtyAll := [], true;
      armed := Kicked();
    }

    /** RAW to H.264 forces an IDR; H.264 to RAW queues the end of episode and
        makes the next frame a full snapshot. */
    method SetMode(m: Mode, opens: bool)
      requires Valid() && (m == H264 ==> cfg.h264)
      modifies this`mode, this`encOpen, this`h264Failed, this`forceIdr, this`dirty, this`dirtyAll,
               this`outq, this`order, this`armed, this`cut
      ensures Valid()
      ensures View() == Switched(old(View()), m, opens)
      ensures old(mode) == H264 && m == Raw ==>
        && dirtyAll && (alive ==> PhaseOf(cfg, order) == Ended)
        && (!alive && old(PhaseOf(cfg, order)) == Open ==> cut)
      ensures old(mode) == Raw && mode == H264 ==> forceIdr && order == old(order)
      ensures outq == if old(mode) == H264 && m == Raw && alive then old(outq) + [EOS] else old(outq)
      ensures armed == (old(armed) || (old(mode) == H264 && m == Raw && alive))
    {
      hide Wired, Content, Switched, PhaseOf, Tx.Waits;
      SwitchedSame(View(), m, opens);
      if mode == m { return; }
      SwitchMeaning(View(), m, opens);
      if m == Raw {
        LeaveH264();
      } else if encOpen || opens {
        EnterH264();
      } else {
        SwitchKeeps(View(), H264, false, grabbuf, shadowbuf);
        SwitchedNot(View(), opens);
        MarkFailed();
      }
    }

    /** The controller reacts to a damage or a delivery. */
    method Decide(d: Decision)
      requires Valid() && (d.Switch? && d.mode == H264 ==> cfg.h264)
      modifies this`mode, this`encOpen, this`h264Failed, this`forceIdr, this`dirty, this`dirtyAll,
               this`outq, this`order, this`armed, this`cut
      ensures Valid()
      ensures View() == if d.Stay? then old(View()) else Switched(old(View()), d.mode, d.opens)
      ensures order == old(order) || order == old(order) + [EOS]
      ensures outq == if d.Switch? && old(mode) == H264 && d.mode == Raw && alive then old(outq) + [EOS] else old(outq)
      ensures armed ==> old(armed) || alive
      ensures old(armed) ==> armed
      ensures d.Stay? ==> armed == old(armed) && outq == old(outq) && mode == old(mode) && order == old(order)
      ensures d.Stay? ==> dirty == old(dirty) && dirtyAll == old(dirtyAll)
      ensures alive && Work() && !armed ==> old(Work())
    {
      hide Content, Wired;
      if d.Switch? {
        SetMode(d.mode, d.opens);
      }
    }

    // ----------------------------------------------------------- damage

    predicate RowSame(y: int, x1: int, x2: int)
      requires Framebuffer(cfg, grabbuf) && Framebuffer(cfg, shadowbuf)
      requires 0 <= y < cfg.height && 0 <= x1 <= x2 <= cfg.width
      reads grabbuf, shadowbuf
    {
      forall x | x1 <= x < x2 :: grabbuf[y, x] == shadowbuf[y, x]
    }

    /** Shrinks r to the rows that really differ from the shadow. */
    method Trim(r: Rect) returns (t: Rect, differs: bool)
      requires Framebuffer(cfg, grabbuf) && Framebuffer(cfg, shadowbuf) && r.Inside(cfg.width, cfg.height)
      ensures differs ==> t.Inside(cfg.width, cfg.height)
      ensures forall x, y | r.Has(x, y) && !(differs && t.Has(x, y)) :: grabbuf[y, x] == shadowbuf[y, x]
      ensures differs ==> t.x1 == r.x1 && t.x2 == r.x2 && r.y1 <= t.y1 && t.y2 <= r.y2
      ensures differs ==> !RowSame(t.y1, t.x1, t.x2) && !RowSame(t.y2 - 1, t.x1, t.x2)
    {
      t := r;
      while t.y1 < t.y2 && RowSame(t.y1, t.x1, t.x2)
        invariant r.y1 <= t.y1 <= t.y2 && t == r.(y1 := t.y1)
        invariant forall x, y | r.Has(x, y) && y < t.y1 :: grabbuf[y, x] == shadowbuf[y, x]
        decreases t.y2 - t.y1
      {
        t := t.(y1 := t.y1 + 1);
      }
      while t.y2 > t.y1 && RowSame(t.y2 - 1, t.x1, t.x2)
        invariant r.y1 <= t.y1 <= t.y2 <= r.y2 && t == r.(y1 := t.y1, y2 := t.y2)
        invariant forall x, y | r.Has(x, y) && (y < t.y1 || t.y2 <= y) :: grabbuf[y, x] == shadowbuf[y, x]
        invariant t.y1 < t.y2 ==> !RowSame(t.y1, t.x1, t.x2)
        decreases t.y2 - t.y1
      {
        t := t.(y2 := t.y2 - 1);
      }
      differs := t.y2 > t.y1;
    }

    function Clamped(r: Rect): Rect {
      Rect(Clamp(r.x1, 0, cfg.width), Clamp(r.y1, 0, cfg.height), Clamp(r.x2, 0, cfg.width), Clamp(r.y2, 0, cfg.height))
    }

    /** Makes the differing part d of a reported rect wait. */
    method Accumulate(r: Rect) returns (d: Rect, kept: bool)
      requires Framebuffer(cfg, grabbuf) && Framebuffer(cfg, shadowbuf) && DirtyOk(View())
      modifies this`dirty, this`dirtyAll
      ensures DirtyOk(View())
      ensures (old(dirtyAll) ==> dirtyAll) && Swallows(dirty, old(dirty))
      ensures kept ==> (dirtyAll || Swallows(dirty, [d])) && Work()
      ensures !kept ==> dirty == old(dirty) && dirtyAll == old(dirtyAll)
      ensures kept <==> exists x, y | View().InFrame(x, y) && r.Has(x, y) :: grabbuf[y, x] != shadowbuf[y, x]
      ensures kept && mode == H264 ==> dirtyAll && dirty == old(dirty)
      ensures kept && mode == Raw ==> dirtyAll == old(dirtyAll) && (dirtyAll ==> dirty == old(dirty))
      ensures kept && mode == Raw && !dirtyAll && (forall i | 0 <= i < |old(dirty)| :: !Touch(old(dirty)[i], d)) && |old(dirty)| < DIRTY_MAX ==>
                dirty == old(dirty) + [d]
      ensures forall x, y | View().InFrame(x, y) && r.Has(x, y) && grabbuf[y, x] != shadowbuf[y, x] :: kept && d.Has(x, y)
      ensures kept ==> Contains(r, d) && d.Inside(cfg.width, cfg.height) && d == Clamped(r).(y1 := d.y1, y2 := d.y2)
      ensures kept ==> !RowSame(d.y1, d.x1, d.x2) && !RowSame(d.y2 - 1, d.x1, d.x2)
    {
      SwallowsPointwise(dirty, dirty);
      var c := Clamped(r);
      d, kept := c, false;
      if c.x2 <= c.x1 || c.y2 <= c.y1 { return; }
      d, kept := Trim(c);
      if !kept { return; }
      if mode == H264 {
        dirtyAll := true;
      } else {
        if dirtyAll { return; }
        dirty := AddRect(dirty, d, DIRTY_MAX, cfg.width, cfg.height);
      }
    }

    /** One reported rect. */
    method DamageRect(r: Rect) returns (kept: bool, ghost d: Rect)
      requires Valid()
      modifies this`dirty, this`dirtyAll, this`unreported
      ensures Valid()
      ensures unreported == old(unreported) - Area(r)
      ensures forall x, y | old(View()).Waits(x, y) :: View().Waits(x, y)
      ensures !kept ==> dirty == old(dirty) && dirtyAll == old(dirtyAll)
      ensures kept ==> Work()
      ensures mode == Raw ==> dirtyAll == old(dirtyAll)
      ensures kept ==> Contains(r, d)
      ensures kept && Clear(old(dirty), d) ==> dirty == old(dirty) + [d]
    {
      hide Content, Wired, DamageKept, Mirrors, Episodes, AllAccepted, Config.Valid, Tx.Waits, Swallows, Clear;
      ContentShape(View(), grabbuf, shadowbuf);
      d, kept := Account(r);
      DamageKeeps(old(View()), View(), r, d, grabbuf, shadowbuf);
    }

    /** In RAW mode d will wait on its own next to the rects ds. */
    ghost predicate Clear(ds: seq<Rect>, d: Rect)
      reads this`mode, this`dirtyAll
    {
      mode == Raw && !dirtyAll && |ds| < DIRTY_MAX && forall k | 0 <= k < |ds| :: !Touch(ds[k], d)
    }

    /** The rect is accounted for: what differs waits, nothing is unreported. */
    method Account(r: Rect) returns (d: Rect, kept: bool)
      requires Framebuffer(cfg, grabbuf) && Framebuffer(cfg, shadowbuf) && DirtyOk(View())
      modifies this`dirty, this`dirtyAll, this`unreported
      ensures DirtyOk(View()) && unreported == old(unreported) - Area(r)
      ensures View() == old(View()).(all := dirtyAll, dirty := dirty, unreported := unreported)
      ensures (old(dirtyAll) ==> dirtyAll) && (dirtyAll || Swallows(dirty, old(dirty)))
      ensures !kept ==> dirty == old(dirty) && dirtyAll == old(dirtyAll)
      ensures kept ==> Work()
      ensures mode == Raw ==> dirtyAll == old(dirtyAll)
      ensures forall x, y | View().InFrame(x, y) && r.Has(x, y) && grabbuf[y, x] != shadowbuf[y, x] ::
                d.Has(x, y) && (dirtyAll || Swallows(dirty, [d]))
      ensures kept ==> Contains(r, d)
      ensures kept && Clear(old(dirty), d) ==> dirty == old(dirty) + [d]
    {
      hide Swallows, Area, Contains, Touch;
      d, kept := Accumulate(r);
      unreported := unreported - Area(r);
    }

    /** The rects rs from number i on find room and touch nothing that waits. */
    ghost predicate Roomy(rs: seq<Rect>, i: nat)
      requires i <= |rs|
      reads this`mode, this`dirty, this`dirtyAll
    {
      mode == Raw && !dirtyAll && |dirty| + (|rs| - i) <= DIRTY_MAX && Apart(dirty, rs, i)
    }

    /** All the rects of one report. */
    method Collect(rects: seq<Rect>) returns (any: bool)
      requires Valid()
      modifies this`dirty, this`dirtyAll, this`unreported
      ensures Valid()
      ensures unreported == old(unreported) - Areas(rects, |rects|)
      ensures any ==> Work()
      ensures !any ==> dirty == old(dirty) && dirtyAll == old(dirtyAll)
      ensures old(Roomy(rects, 0)) ==> !dirtyAll && GrowsIn(old(dirty), dirty, Areas(rects, |rects|))
    {
      hide Valid, Tx.Waits, Area, Apart, GrowsIn;
      any := false;
      var i := 0;
      ghost var roomy := Roomy(rects, 0);
      GrowsNot(dirty, Areas(rects, 0));
      while i < |rects|
        invariant 0 <= i <= |rects| && Valid()
        invariant unreported == old(unreported) - Areas(rects, i)
        invariant any ==> Work()
        invariant !any ==> dirty == old(dirty) && dirtyAll == old(dirtyAll)
        invariant roomy ==> Roomy(rects, i) && GrowsIn(old(dirty), dirty, Areas(rects, i))
      {
        any := CollectOne(rects, i, any, roomy, old(dirty));
        i := i + 1;
        assert old(unreported) - Areas(rects, i) == old(unreported) - Areas(rects, i - 1) - Area(rects[i - 1]);
      }
    }

    /** Number i of them. */
    method CollectOne(rects: seq<Rect>, i: nat, sofar: bool, ghost roomy: bool, ghost first: seq<Rect>) returns (any: bool)
      requires Valid() && i < |rects| && (sofar ==> Work())
      requires roomy ==> Roomy(rects, i) && GrowsIn(first, dirty, Areas(rects, i))
      modifies this`dirty, this`dirtyAll, this`unreported
      ensures Valid() && unreported == old(unreported) - Area(rects[i])
      ensures any ==> Work()
      ensures !any ==> !sofar && dirty == old(dirty) && dirtyAll == old(dirtyAll)
      ensures roomy ==> Roomy(rects, i + 1) && GrowsIn(first, dirty, Areas(rects, i + 1))
    {
      hide Valid, Tx.Waits, Area, Areas, GrowsIn, Apart, Contains, Touch;
      var kept, d := DamageRect(rects[i]);
      any := sofar || kept;
      if roomy {
        if !kept {
          d := rects[i];
        }
        ApartNext(old(dirty), rects, i, d);
        GrowsNext(first, old(dirty), rects, i, d);
      }
    }

    /** Damage reported by the source: clamped, trimmed, accumulated, armed.
        Pixels inside the reported rects are accounted for afterwards, and
        where the rects keep apart nothing else is made to wait. */
    method Damage(rects: seq<Rect>, ctl: Decision)
      requires Valid() && (ctl.Switch? && ctl.mode == H264 ==> cfg.h264)
      modifies this`dirty, this`dirtyAll, this`unreported, this`mode, this`encOpen, this`h264Failed, this`forceIdr,
               this`outq, this`order, this`armed, this`cut
      ensures Valid()
      ensures unreported == old(unreported) - Areas(rects, |rects|)
      ensures Stuck() ==> old(Stuck())
      ensures ctl.Stay? ==> mode == old(mode) && order == old(order) && outq == old(outq)
      ensures ctl.Stay? && old(Roomy(rects, 0)) ==> !dirtyAll && GrowsIn(old(dirty), dirty, Areas(rects, |rects|))
      ensures old(armed) ==> armed
      ensures (armed ==> old(armed) || alive) && (order == old(order) || order == old(order) + [EOS])
    {
      hide Valid, View, Switched, Areas, Area, Roomy, GrowsIn;
      var any := Collect(rects);
      if !any { return; }
      Decide(ctl);
      armed := Kicked();
    }

    /** The source wrote new pixels into grabbuf. */
    twostate lemma Changed()
      requires old(Valid()) && unchanged(shadowbuf)
      requires View() == old(View()).(unreported := unreported) && old(unreported) <= unreported
      requires old(Wired()) ==> Wired()
      requires armed == old(armed)
      requires forall x, y | 0 <= x < cfg.width && 0 <= y < cfg.height && grabbuf[y, x] != old(grabbuf[y, x]) :: (x, y) in unreported
      ensures Valid()
    {
      hide Wired, Content;
      ChangeKeeps(ChangeStep(old(View()), View(), grabbuf, shadowbuf));
    }

    /** A source writes a new frame; what it changes is unreported for now. */
    method NewFrame(px: (nat, nat) -> Pixel)
      requires Valid()
      modifies grabbuf, this`unreported
      ensures Valid() && Framebuffer(cfg, grabbuf) && old(unreported) <= unreported
      ensures forall x, y | View().InFrame(x, y) :: grabbuf[y, x] == px(y, x)
      ensures forall x, y | View().InFrame(x, y) && (x, y) in unreported && (x, y) !in old(unreported) ::
                grabbuf[y, x] != old(grabbuf[y, x])
    {
      hide Content, Wired, Difference;
      ContentShape(View(), grabbuf, shadowbuf);
      ghost var diff := Difference(px);
      Overwrite(px);
      unreported := unreported + diff;
      Changed();
    }

    ghost function Difference(px: (nat, nat) -> Pixel): (diff: iset<(int, int)>)
      requires Framebuffer(cfg, grabbuf)
      reads grabbuf
      ensures forall x, y | 0 <= x < cfg.width && 0 <= y < cfg.height :: (x, y) in diff <==> grabbuf[y, x] != px(y, x)
    {
      iset p: (int, int) | 0 <= p.0 < cfg.width && 0 <= p.1 < cfg.height && grabbuf[p.1, p.0] != px(p.1, p.0)
    }

    method Overwrite(px: (nat, nat) -> Pixel)
      modifies grabbuf
      ensures forall y, x | 0 <= y < grabbuf.Length0 && 0 <= x < grabbuf.Length1 :: grabbuf[y, x] == px(y, x)
    {
      forall y, x | 0 <= y < grabbuf.Length0 && 0 <= x < grabbuf.Length1 {
        grabbuf[y, x] := px(y, x);
      }
    }

    /** The KVM source refilled the whole frame and asks for all of it. */
    method Repaint()
      requires Valid()
      modifies this`dirtyAll, this`unreported, this`armed
      ensures Valid() && unreported == iset{} && dirtyAll && armed == (old(armed) || alive)
    {
      hide Content, Wired;
      RepaintKeeps(View(), grabbuf, shadowbuf);
      dirtyAll := true;
      unreported := iset{};
      armed := Kicked();
    }

    // ------------------------------------------------------ frame builds

    /** One row of the current frame in the client's pixel format. */
    method ConvertRow(x0: nat, y: nat, w: nat) returns (row: seq<nat>)
      requires cfg.Valid() && Framebuffer(cfg, grabbuf) && x0 + w <= cfg.width && y < cfg.height
      ensures |row| == w && RowFits(row, cfg.fmt.Bytes())
      ensures forall j | 0 <= j < w :: row[j] == View().WireAt(grabbuf[y, x0 + j], x0 + j, y)
    {
      hide WirePixel, Pow256, Config.Valid;
      row := [];
      var j := 0;
      while j < w
        invariant 0 <= j <= w && |row| == j && RowFits(row, cfg.fmt.Bytes())
        invariant forall k | 0 <= k < j :: row[k] == View().WireAt(grabbuf[y, x0 + k], x0 + k, y)
      {
        WirePixelFits(cfg.fmt, dither, grabbuf[y, x0 + j], x0 + j, y);
        row := row + [WirePixel(cfg.fmt, dither, grabbuf[y, x0 + j], x0 + j, y)];
        j := j + 1;
      }
    }

    /** The message for r, from the current frame. */
    method Convert(r: Rect) returns (m: Message)
      requires cfg.Valid() && Framebuffer(cfg, grabbuf) && r.Inside(cfg.width, cfg.height)
      ensures Carries(cfg, dither, m, r, grabbuf) && Smallest(cfg, m) && m.IsRect()
      ensures m.FullStream(cfg.width, cfg.height) <==> r == Rect(0, 0, cfg.width, cfg.height)
    {
      hide WirePixel, Pow256, Config.Valid, EncodeImage, RectMessage, RowFits, Accepts, RectPixel, Smallest;
      var img: Image := [];
      var i := 0;
      var w, h := Width(r), Height(r);
      while i < h
        invariant 0 <= i <= h && |img| == i
        invariant forall k | 0 <= k < i :: |img[k]| == w && RowFits(img[k], cfg.fmt.Bytes())
        invariant forall k, j | 0 <= k < i && 0 <= j < w :: img[k][j] == View().WireAt(grabbuf[r.y1 + k, r.x1 + j], r.x1 + j, r.y1 + k)
      {
        var row := ConvertRow(r.x1, r.y1 + i, w);
        img := img + [row];
        i := i + 1;
      }
      RectMessageOk(cfg, r, img);
      m := RectMessage(cfg, r, EncodeImage(img, cfg.fmt.Bytes()));
    }

    /** The rect just went out (or into the encoder): remember what the
        client now shows. */
    method ShadowUpdate(r: Rect)
      requires Framebuffer(cfg, grabbuf) && Framebuffer(cfg, shadowbuf) && grabbuf != shadowbuf
      requires r.Inside(cfg.width, cfg.height)
      modifies shadowbuf
      ensures forall x, y | 0 <= x < cfg.width && 0 <= y < cfg.height ::
                shadowbuf[y, x] == if r.Has(x, y) then grabbuf[y, x] else old(shadowbuf[y, x])
    {
      var y := r.y1;
      while y < r.y2
        invariant r.y1 <= y <= r.y2
        invariant forall i, x | 0 <= x < cfg.width && 0 <= i < cfg.height ::
                    shadowbuf[i, x] == if r.Has(x, i) && i < y then grabbuf[i, x] else old(shadowbuf[i, x])
      {
        forall x | r.x1 <= x < r.x2 {
          shadowbuf[y, x] := grabbuf[y, x];
        }
        y := y + 1;
      }
    }

    method FrameStart(m: Message, seg0: seq<byte>, seg1: seq<byte>)
      requires Wired() && !outActive && outq == [] && outqOff == 0
      requires seg0 + seg1 == Encode(m)
      modifies this`outSeg0, this`outSeg1, this`outOff, this`outActive, this`order
      ensures Wired() && outActive && order == old(order) + [m]
    {
      hide Framed, Encode;
      StartFrame(order, sent, m);
      outSeg0, outSeg1 := seg0, seg1;
      outOff := 0;
      outActive := true;
      order := order + [m];
      assert (seg0 + seg1)[0..] == Encode(m);
    }

    ghost predicate Ready()
      reads this
    {
      !outActive && outq == [] && outqOff == 0
    }

    /** One RAW or LZ4 rect. t is the state before r left the dirty list. */
    method BuildRawRect(r: Rect, ghost t: Tx) returns (m: Message)
      requires Content(t, grabbuf, shadowbuf) && Wired() && Ready() && mode == Raw
      requires Takes(t, View(), r) && r.Inside(cfg.width, cfg.height)
      modifies shadowbuf, this`outSeg0, this`outSeg1, this`outOff, this`outActive, this`order
      ensures Content(View(), grabbuf, shadowbuf) && Wired() && outActive
      ensures Carries(cfg, dither, m, r, grabbuf) && Pictures(cfg, dither, m, r, grabbuf)
      ensures Smallest(cfg, m) && m.IsRect() && order == old(order) + [m]
    {
      hide Content, Smallest, Carries, Pictures, Wired, DirtyOk, Tx.Waits, Encode, AllAccepted, Takes, Config.Valid;
      TakesParts(t, View(), r);
      ContentParts(t, grabbuf, shadowbuf);
      m := Convert(r);
      ghost var u := View().(order := t.order + [m]);
      ghost var s := RectStep(t, u, r, m, grabbuf, shadowbuf);
      TakesSends(t, View(), r, m);
      SendShadow(r, s);
      FrameStart(m, Encode(m), []);
      CarriesPictures(cfg, dither, m, r, grabbuf);
    }

    /** The shadow takes the pixels that are about to go out. */
    method SendShadow(r: Rect, ghost s: RectStep)
      requires s.r == r && s.grab == grabbuf && s.shadow == shadowbuf && s.t.cfg == cfg && s.r.Inside(cfg.width, cfg.height)
      requires Content(s.t, grabbuf, shadowbuf) && s.t.mode == Raw && Framebuffer(cfg, grabbuf)
      requires Carries(cfg, s.t.dither, s.m, s.r, grabbuf) && Sends(s.t, s.u, s.r, s.m)
      modifies shadowbuf
      ensures Content(s.u, grabbuf, shadowbuf)
    {
      hide Content, Carries, DirtyOk, Tx.Waits, Mirrors, DamageKept, Episodes, AllAccepted, Sends, PhaseOf;
      ContentParts(s.t, grabbuf, shadowbuf);
      CarriesParts(cfg, s.t.dither, s.m, s.r, grabbuf);
      ShadowUpdate(r);
      RectEpisodes(s.t, s.u, s.r, s.m);
      if s.t.Phase() != Open {
        RectMirrors(s);
      }
      RectDamage(s);
      RectKeeps(s.t, s.u, s.r, s.m, grabbuf, shadowbuf);
    }

    /** The encoder takes the whole current frame. t is the state before the
        damage was cleared. */
    method TakeFrame(ghost t: Tx)
      requires Content(t, grabbuf, shadowbuf) && t.mode == H264
      requires View() == t.(all := false, dirty := [])
      modifies shadowbuf
      ensures Content(View(), grabbuf, shadowbuf) && Content(View().(failed := true), grabbuf, shadowbuf)
    {
      hide Content, Episodes, AllAccepted, Mirrors, DamageKept;
      ContentParts(t, grabbuf, shadowbuf);
      ghost var full := Rect(0, 0, cfg.width, cfg.height);
      ShadowUpdate(Rect(0, 0, cfg.width, cfg.height));
      assert forall x, y | t.InFrame(x, y) :: full.Has(x, y);
      EncodedKeeps(t, View(), grabbuf, shadowbuf);
      EncodedKeeps(t, View().(failed := true), grabbuf, shadowbuf);
    }

    /** The encoder reports an error: H.264 is over for good. */
    method EncodeFailed()
      requires Content(View().(failed := true), grabbuf, shadowbuf) && Wired() && mode == H264
      modifies this`forceIdr, this`swallowed, this`h264Failed, this`mode, this`dirty, this`dirtyAll, this`outq, this`order,
               this`armed, this`cut
      ensures Valid() && armed == (old(armed) || alive) && swallowed == old(swallowed)
      ensures mode == Raw && h264Failed && dirtyAll && outActive == old(outActive)
      ensures order == (if alive then old(order) + [EOS] else old(order))
      ensures outq == if alive then old(outq) + [EOS] else old(outq)
    {
      hide Content, Wired;
      MarkFailed();
      LeaveH264();
      SpendIdr();
    }

    method MarkFailed()
      modifies this`h264Failed
      ensures h264Failed && View() == old(View()).(failed := true)
    {
      h264Failed := true;
    }

    /** Nothing came out of the encode: a forced IDR is spent all the same. */
    method SpendIdr()
      requires Valid()
      modifies this`forceIdr, this`swallowed
      ensures Valid() && !forceIdr
      ensures swallowed == (old(swallowed) || (mode == H264 && old(forceIdr)))
    {
      hide Content, Wired;
      ForgetIdr(View(), grabbuf, shadowbuf);
      swallowed := swallowed || (mode == H264 && forceIdr);
      forceIdr := false;
    }

    method StartAccessUnit(bytes: seq<byte>, keyframe: bool)
      requires Valid() && Ready() && mode == H264 && 0 < |bytes| <= AU_CAP
      modifies this`forceIdr, this`outSeg0, this`outSeg1, this`outOff, this`outActive, this`order
      ensures Valid() && outActive
      ensures order == old(order) + [AccessUnitMessage(cfg, old(forceIdr) || keyframe, bytes)]
    {
      hide Content, Wired, EncodeHeader, Encode, AccessUnitMessage, Accepts;
      ContentShape(View(), grabbuf, shadowbuf);
      var m := AccessUnitMessage(cfg, forceIdr || keyframe, bytes);
      AccessUnitOk(cfg, forceIdr || keyframe, bytes);
      AccessUnitKeeps(View(), forceIdr || keyframe, m, grabbuf, shadowbuf);
      SendUnit(m, bytes);
    }

    method SendUnit(m: Message, bytes: seq<byte>)
      requires Wired() && Ready() && Encode(m) == EncodeHeader(m.hdr) + bytes
      modifies this`forceIdr, this`outSeg0, this`outSeg1, this`outOff, this`outActive, this`order
      ensures Wired() && outActive
      ensures View() == old(View()).(forceIdr := false, order := old(order) + [m])
    {
      hide Wired, EncodeHeader, Encode;
      forceIdr := false;
      FrameStart(m, EncodeHeader(m.hdr), bytes);
    }

    /** One full-frame access unit, or what the encoder does instead. */
    method BuildH264(enc: Encoded, ghost t: Tx)
      requires enc.AccessUnit? ==> 0 < |enc.bytes| <= AU_CAP
      requires Content(t, grabbuf, shadowbuf) && Wired() && Ready() && mode == H264 && armed
      requires View() == t.(all := false, dirty := [])
      modifies shadowbuf, this`outSeg0, this`outSeg1, this`outOff, this`outActive, this`order, this`cut,
               this`forceIdr, this`swallowed, this`h264Failed, this`mode, this`dirty, this`dirtyAll, this`outq, this`armed
      ensures Valid() && armed && outActive == enc.AccessUnit?
      ensures enc.AccessUnit? ==> order == old(order) + [AccessUnitMessage(cfg, old(forceIdr) || enc.keyframe, enc.bytes)]
      ensures enc.EncodeEmpty? ==> order == old(order) && !Work() && !forceIdr
      ensures swallowed == (old(swallowed) || (enc.EncodeEmpty? && old(forceIdr)))
      ensures enc.EncodeError? ==> mode == Raw && h264Failed && dirtyAll &&
                                   outq == (if alive then [EOS] else []) && order == old(order) + outq
      ensures !enc.EncodeError? ==> mode == H264 && outq == [] && h264Failed == old(h264Failed) && !dirtyAll && dirty == []
    {
      hide Content, Wired, AccessUnitMessage;
      TakeFrame(t);
      match enc
      case EncodeError => EncodeFailed();
      case EncodeEmpty => SpendIdr();
      case AccessUnit(bytes, keyframe) => StartAccessUnit(bytes, keyframe);
    }

    /** The rect is on its way: the last submitted message carries it. */
    ghost predicate OnItsWay(r: Rect, before: seq<Message>)
      reads this`order, grabbuf
    {
      && |order| == |before| + 1 && before <= order && cfg.Valid() && Framebuffer(cfg, grabbuf)
      && Carries(cfg, dither, order[|before|], r, grabbuf) && Pictures(cfg, dither, order[|before|], r, grabbuf)
      && Smallest(cfg, order[|before|]) && order[|before|].IsRect()
    }

    method BuildFull()
      requires Valid() && Ready() && mode == Raw && dirtyAll
      modifies shadowbuf, this`outSeg0, this`outSeg1, this`outOff, this`outActive, this`order, this`dirty, this`dirtyAll
      ensures Valid() && outActive && !dirtyAll && dirty == []
      ensures OnItsWay(Rect(0, 0, cfg.width, cfg.height), old(order))
    {
      hide Content, Wired, Takes, Carries, Pictures, Smallest;
      ghost var t := View();
      ContentShape(t, grabbuf, shadowbuf);
      TakesFull(t, grabbuf, shadowbuf);
      ClearDamage();
      var m := BuildRawRect(Rect(0, 0, cfg.width, cfg.height), t);
    }

    method BuildFirst()
      requires Valid() && Ready() && mode == Raw && !dirtyAll && dirty != []
      modifies shadowbuf, this`outSeg0, this`outSeg1, this`outOff, this`outActive, this`order, this`dirty
      ensures Valid() && outActive && dirty == old(dirty)[1..] && OnItsWay(old(dirty)[0], old(order))
    {
      hide Content, Wired, Takes, Carries, Pictures, Smallest;
      ghost var t := View();
      ContentShape(t, grabbuf, shadowbuf);
      TakesFirst(t, grabbuf, shadowbuf);
      var r := TakeFirst();
      var m := BuildRawRect(r, t);
    }

    method TakeFirst() returns (r: Rect)
      requires dirty != []
      modifies this`dirty
      ensures r == old(dirty)[0] && dirty == old(dirty)[1..] && View() == old(View()).(dirty := dirty)
    {
      r := dirty[0];
      dirty := dirty[1..];
    }

    /** The next RAW rect: the full frame, or the first dirty rect. */
    method BuildNextRaw() returns (o: Outcome)
      requires Valid() && Ready() && mode == Raw
      modifies shadowbuf, this`outSeg0, this`outSeg1, this`outOff, this`outActive, this`order, this`dirty, this`dirtyAll
      ensures Valid() && outActive == (o == Started)
      ensures o == if old(dirtyAll) || old(dirty) != [] then Started else Idle
      ensures !dirtyAll && dirty == (if old(dirtyAll) || old(dirty) == [] then [] else old(dirty)[1..])
      ensures o == Idle ==> order == old(order)
      ensures o == Started ==>
                OnItsWay(if old(dirtyAll) then Rect(0, 0, cfg.width, cfg.height) else old(dirty)[0], old(order))
    {
      hide Valid, OnItsWay;
      if dirtyAll {
        BuildFull();
        o := Started;
      } else if dirty != [] {
        BuildFirst();
        o := Started;
      } else {
        o := Idle;
      }
    }

    /** The next access unit, unless the decoder is behind. */
    method BuildNextH264(env: Env) returns (o: Outcome)
      requires env.Ok(cfg) && Valid() && Ready() && mode == H264 && armed
      modifies shadowbuf, this`outSeg0, this`outSeg1, this`outOff, this`outActive, this`order, this`retry, this`cut,
               this`forceIdr, this`swallowed, this`h264Failed, this`mode, this`dirty, this`dirtyAll, this`outq, this`armed
      ensures Valid() && armed && outActive == (o == Started)
      ensures o in {Started, Idle, Paced, EncoderFailed}
      ensures o == Idle ==> !Work()
      ensures retry == (old(retry) || o == Paced)
      ensures o == EncoderFailed ==> outq == (if alive then [EOS] else []) && dirtyAll && mode == Raw && h264Failed
      ensures o == EncoderFailed <==> (old(dirtyAll) || old(dirty) != []) && !env.skip && env.enc.EncodeError?
      ensures o == Started ==> !env.skip && env.enc.AccessUnit? &&
                               order == old(order) + [AccessUnitMessage(cfg, old(forceIdr) || env.enc.keyframe, env.enc.bytes)]
      ensures o in {Idle, Paced} ==> mode == H264 && order == old(order)
      ensures o == Paced <==> (old(dirtyAll) || old(dirty) != []) && env.skip
      ensures o == Paced ==> dirtyAll == old(dirtyAll) && dirty == old(dirty) && forceIdr == old(forceIdr)
      ensures o == Started ==> !dirtyAll && dirty == []
      ensures o == EncoderFailed ==> order == old(order) + outq
      ensures o == Started ==> mode == H264 && (old(dirtyAll) || old(dirty) != [])
      ensures o != EncoderFailed ==> mode == H264 && h264Failed == old(h264Failed)
      ensures swallowed && !old(swallowed) ==> env.enc.EncodeEmpty? && old(forceIdr)
      ensures (old(dirtyAll) || old(dirty) != []) && !env.skip && env.enc.EncodeEmpty? ==> !forceIdr
      ensures (old(dirtyAll) || old(dirty) != []) && !env.skip && env.enc.AccessUnit? ==> o == Started
    {
      hide Content, Wired, AccessUnitMessage;
      if !dirtyAll && dirty == [] { return Idle; }
      if env.skip {
        retry := true;
        return Paced;
      }
      EncodeFrame(env.enc);
      o := if env.enc.EncodeError? then EncoderFailed else if env.enc.EncodeEmpty? then Idle else Started;
    }

    /** The current frame goes through the encoder, with all that waits. */
    method EncodeFrame(enc: Encoded)
      requires enc.AccessUnit? ==> 0 < |enc.bytes| <= AU_CAP
      requires Valid() && Ready() && mode == H264 && armed
      modifies shadowbuf, this`outSeg0, this`outSeg1, this`outOff, this`outActive, this`order, this`cut,
               this`forceIdr, this`swallowed, this`h264Failed, this`mode, this`dirty, this`dirtyAll, this`outq, this`armed
      ensures Valid() && armed && outActive == enc.AccessUnit?
      ensures enc.AccessUnit? ==> order == old(order) + [AccessUnitMessage(cfg, old(forceIdr) || enc.keyframe, enc.bytes)]
      ensures enc.EncodeEmpty? ==> order == old(order) && !Work() && !forceIdr
      ensures swallowed == (old(swallowed) || (enc.EncodeEmpty? && old(forceIdr)))
      ensures enc.EncodeError? ==> mode == Raw && h264Failed && dirtyAll &&
                                   outq == (if alive then [EOS] else []) && order == old(order) + outq
      ensures !enc.EncodeError? ==> mode == H264 && outq == [] && h264Failed == old(h264Failed) && !dirtyAll && dirty == []
    {
      hide Content, Wired, AccessUnitMessage;
      ghost var t := View();
      ClearDamage();
      BuildH264(enc, t);
    }

    method ClearDamage()
      modifies this`dirty, this`dirtyAll
      ensures View() == old(View()).(all := false, dirty := [])
    {
      dirtyAll, dirty := false, [];
    }

    ghost function Before(env: Env): Pre
      reads this`mode, this`dirtyAll, this`dirty, this`forceIdr, this`encOpen, this`h264Failed, this`swallowed, this`order
    {
      Pre(mode, dirtyAll, dirty, forceIdr, encOpen, h264Failed, swallowed, order, OpensLoosely(env), PaintsInside(), Faults())
    }

    /** What a pass that came as far as the build leaves, in the outcome o. The
        grammar breaks exactly as announced before the pass. */
    ghost predicate After(p: Pre, env: Env, o: Outcome)
      reads this`mode, this`dirtyAll, this`dirty, this`forceIdr, this`encOpen, this`h264Failed, this`swallowed, this`order,
            this`outq, this`outActive, this`alive, grabbuf
    {
      && (o == Paced <==> p.mode == H264 && p.Waiting() && env.skip)
      && (o == Paced ==> mode == H264 && order == p.order && dirtyAll == p.all && dirty == p.dirty && forceIdr == p.forceIdr)
      && (o == EncoderFailed <==> p.mode == H264 && p.Waiting() && !env.skip && env.enc.EncodeError?)
      && (o == EncoderFailed ==> outq == (if alive then [EOS] else []) && dirtyAll && mode == Raw && h264Failed)
      && Faults() == (p.faults.0 || p.loosely, p.faults.1 || p.inside)
      && (swallowed && !p.swallowed ==> env.enc.EncodeEmpty? && p.forceIdr)
      && (env.ctl.Stay? ==> Delivers(p, env, o))
    }

    /** The same in more detail, when the controller stays out of it: the
        full frame or the first of the waiting rects is on its way and the
        others wait on, or the access unit is. */
    ghost predicate Delivers(p: Pre, env: Env, o: Outcome)
      reads this`mode, this`dirtyAll, this`dirty, this`forceIdr, this`encOpen, this`h264Failed, this`order,
            this`outq, this`outActive, grabbuf
    {
      && encOpen == p.encOpen && (o != EncoderFailed ==> mode == p.mode && h264Failed == p.failed)
      && (p.mode == Raw ==>
            && outq == [] && !dirtyAll && outActive == (o == Started)
            && o == (if p.Waiting() then Started else Idle)
            && dirty == (if p.all || p.dirty == [] then [] else p.dirty[1..])
            && (if p.Waiting() then OnItsWay(if p.all then Rect(0, 0, cfg.width, cfg.height) else p.dirty[0], p.order)
                else order == p.order))
      && (p.mode == H264 && p.Waiting() && !env.skip && env.enc.EncodeEmpty? ==> o == Idle && order == p.order && !forceIdr)
      && (p.mode == H264 && p.Waiting() && !env.skip && env.enc.AccessUnit? ==>
            o == Started && !dirtyAll && dirty == [] && order == p.order + [AccessUnitMessage(cfg, p.forceIdr || env.enc.keyframe, env.enc.bytes)])
    }

    lemma MovesAfter(p: Pre, env: Env, o: Outcome)
      requires After(p, env, o) && env.ctl.Stay?
      ensures encOpen == p.encOpen && (o != EncoderFailed ==> mode == p.mode && h264Failed == p.failed)
      ensures o == EncoderFailed ==> p.mode == H264 && mode == Raw && h264Failed && env.enc.EncodeError?
      ensures o == Paced <==> p.mode == H264 && p.Waiting() && env.skip
    {
      hide Faults;
    }

    /** Builds the next frame message, if one is due. */
    method BuildMessage(env: Env) returns (o: Outcome)
      requires env.Ok(cfg) && Valid() && Ready() && armed
      modifies shadowbuf, this`outSeg0, this`outSeg1, this`outOff, this`outActive, this`order, this`retry, this`cut,
               this`forceIdr, this`swallowed, this`h264Failed, this`mode, this`dirty, this`dirtyAll, this`outq, this`armed
      ensures Valid() && armed && outActive == (o == Started)
      ensures o in {Started, Idle, Paced, EncoderFailed}
      ensures (o == Idle ==> !Work()) && (o == EncoderFailed ==> Work())
      ensures retry == (old(retry) || o == Paced)
      ensures After(old(Before(env)), env.(ctl := Stay), o)
    {
      hide Valid, AccessUnitMessage, Carries, Pictures, Smallest, Loose, Stray, PhaseOf;
      ghost var before := order;
      if mode == H264 {
        o := BuildNextH264(env);
        if env.enc.AccessUnit? {
          UnitFaults(cfg, before, old(forceIdr) || env.enc.keyframe, env.enc.bytes);
        }
        EosFaults(cfg, before);
        assert before + [] == before;
      } else {
        o := BuildNextRaw();
        if o == Started {
          assert order == before + [order[|before|]];
          RectFaults(cfg, before, order[|before|]);
        }
      }
    }

    /** Builds the next frame message, if one is due, and lets the controller
        react to the delivery. */
    method BuildNext(env: Env) returns (o: Outcome)
      requires env.Ok(cfg) && Valid() && Ready() && armed
      modifies shadowbuf, this`outSeg0, this`outSeg1, this`outOff, this`outActive, this`order, this`retry, this`encOpen, this`cut,
               this`forceIdr, this`swallowed, this`h264Failed, this`mode, this`dirty, this`dirtyAll, this`outq, this`armed
      ensures Valid() && armed && outActive == (o == Started)
      ensures o in {Started, Idle, Paced, EncoderFailed}
      ensures (o == Idle ==> !Work()) && (o == EncoderFailed ==> Work())
      ensures retry == (old(retry) || o == Paced)
      ensures After(old(Before(env)), env, o)
    {
      hide Valid, AccessUnitMessage, Loose, Stray, PhaseOf, OpensLoosely, PaintsInside;
      o := BuildMessage(env);
      if o == Started {
        EosFaults(cfg, order);
        Decide(env.ctl);
      }
    }

    // -------------------------------------------------------- the drain

    /** A send failed or the peer hung up: teardown is scheduled. */
    method Fail()
      requires Valid()
      modifies this`alive, this`armed
      ensures Valid() && !alive && !armed
    {
      hide Content, Wired;
      LostKeeps(View(), grabbuf, shadowbuf);
      armed := false;
      alive := false;
    }

    /** n bytes of the current segment were accepted. */
    method Advance(n: nat)
      requires Wired() && outActive && outOff <= |outSeg0| + |outSeg1|
      requires var (seg, at) := Segment(outSeg0, outSeg1, outOff); n <= |seg| - at
      modifies this`outOff, this`sent
      ensures Wired() && outOff == old(outOff) + n
      ensures var (seg, at) := old(Segment(outSeg0, outSeg1, outOff)); sent == old(sent) + seg[at..at + n]
    {
      hide Framed;
      var (seg, at) := Segment(outSeg0, outSeg1, outOff);
      SendSegment(order, sent, outSeg0, outSeg1, outOff, outq, outqOff, n);
      sent := sent + seg[at..at + n];
      outOff := outOff + n;
    }

    method FrameSent()
      requires Wired() && outActive && outOff == |outSeg0| + |outSeg1|
      modifies this`outActive, this`outOff
      ensures Wired() && !outActive
    {
      hide Framed;
      assert FrameRest() == [];
      outActive := false;
      outOff := 0;
    }

    lemma FrameBounds()
      requires Wired() && outActive
      ensures outOff <= |outSeg0| + |outSeg1| && outqOff == 0
    {
      hide Framed;
    }

    /** Pushes the rest of the frame in flight. */
    method FinishFrame(env: Env) returns (calls: seq<Call>, o: Outcome)
      requires env.Ok(cfg) && Valid() && armed
      modifies this`outOff, this`outActive, this`sent, this`alive, this`armed
      ensures Valid() && o == FlushEnd(calls) && (o == Idle ==> GoesOn(calls))
      ensures Ran(env, calls, old(sent), sent)
      ensures o == Lost ==> !alive && !armed
      ensures o != Lost ==> alive == old(alive) && armed
      ensures outActive == (old(outActive) && o != Idle)
      ensures o == Blocked ==> outActive && calls[|calls| - 1].answer == 0
      ensures env.Smooth() || env.Willing() ==> o == Idle
    {
      hide Content, Wired, Env.Ok, Ran, FlushEnd, GoesOn;
      calls, o := [], Idle;
      NoCalls(env);
      if !outActive { return; }
      FrameBounds();
      var total := |outSeg0| + |outSeg1|;
      while outOff < total
        invariant outActive && outOff <= total && Valid() && alive == old(alive) && armed
        invariant Ran(env, calls, old(sent), sent) && GoesOn(calls)
        invariant outOff == total ==> FlushEnd(calls) == Idle
        invariant total == |outSeg0| + |outSeg1| && o == Idle
        decreases total - outOff
      {
        calls, o := PushFrame(env, calls, old(sent));
        if o != Idle { return; }
      }
      FrameSent();
    }

    /** One call for the segment in turn. Idle says that it took something. */
    method PushFrame(env: Env, before: seq<Call>, ghost was: seq<byte>) returns (calls: seq<Call>, o: Outcome)
      requires env.Ok(cfg) && Valid() && armed && outActive && outOff < |outSeg0| + |outSeg1|
      requires Ran(env, before, was, sent) && GoesOn(before)
      modifies this`outOff, this`sent, this`alive, this`armed
      ensures Valid() && Ran(env, calls, was, sent) && o in {Lost, Blocked, Idle} && calls != []
      ensures o == Idle <==> GoesOn(calls)
      ensures o != Idle ==> o == FlushEnd(calls)
      ensures o == Blocked ==> calls[|calls| - 1].answer == 0
      ensures o == Idle && outOff == |outSeg0| + |outSeg1| ==> FlushEnd(calls) == Idle
      ensures o == Lost ==> !alive && !armed
      ensures o != Lost ==> alive == old(alive) && armed
      ensures old(outOff) <= outOff <= |outSeg0| + |outSeg1| && (o == Idle ==> old(outOff) < outOff)
      ensures env.Smooth() || env.Willing() ==> o == Idle
    {
      hide Content, Wired, Segment, Ran, FlushEnd, GoesOn;
      var (seg, at) := Segment(outSeg0, outSeg1, outOff);
      var c := Call(seg[at..], env.sock(|before|, |seg| - at));
      CallMade(env, before, c, was, sent);
      calls := before + [c];
      if c.answer < 0 {
        assert sent + c.Taken() == sent;
        Fail();
        return calls, Lost;
      }
      assert seg[at..at + c.answer] == c.Taken();
      SegmentFits(outSeg0, outSeg1, outOff);
      Advance(c.answer);
      o := if c.answer == 0 then Blocked else Idle;
    }

    /** n bytes of the oldest control message p were accepted. */
    method Sent(p: seq<byte>, n: nat) returns (whole: bool)
      requires Wired() && !outActive && outq != [] && p == Encode(outq[0]) && outqOff + n <= |p|
      modifies this`outq, this`outqOff, this`sent
      ensures Wired() && sent == old(sent) + p[old(outqOff)..old(outqOff) + n] && whole == (old(outqOff) + n == |p|)
      ensures outq == if whole then old(outq)[1..] else old(outq)
      ensures whole ==> outqOff == 0
    {
      hide Framed, Encode;
      SendQueued(order, sent, outq, outqOff, n);
      sent := sent + p[outqOff..outqOff + n];
      outqOff := outqOff + n;
      whole := outqOff == |p|;
      if whole {
        PopQueued(order, sent, outq);
        outq := outq[1..];
        outqOff := 0;
      }
    }

    lemma QueueBounds()
      requires Wired()
      ensures if outq == [] then outqOff == 0 else outqOff < |Encode(outq[0])|
    {
      hide Framed, Encode;
    }

    /** Sends the queued control messages, oldest first. `before` are the calls
        that this pass made already. */
    method DrainQueue(env: Env, before: seq<Call>, ghost was: seq<byte>) returns (calls: seq<Call>, o: Outcome)
      requires env.Ok(cfg) && Valid() && armed && !outActive
      requires Ran(env, before, was, sent) && FlushEnd(before) == Idle && GoesOn(before)
      modifies this`outq, this`outqOff, this`sent, this`alive, this`armed
      ensures Valid() && o == FlushEnd(calls)
      ensures Ran(env, calls, was, sent)
      ensures o == Lost ==> !alive && !armed
      ensures o != Lost ==> alive == old(alive) && armed
      ensures o == Idle ==> outq == [] && outqOff == 0
      ensures o == Blocked ==> outq != []
      ensures env.Smooth() ==> o == Idle
      ensures env.Willing() ==> o != Lost && (o == Blocked ==> |sent| > |old(sent)|)
    {
      hide Content, Wired, Env.Ok, Encode, Ran, FlushEnd, GoesOn;
      calls, o := before, Idle;
      while outq != []
        invariant Valid() && alive == old(alive) && armed && !outActive && |old(sent)| <= |sent|
        invariant Ran(env, calls, was, sent) && FlushEnd(calls) == Idle && GoesOn(calls) && o == Idle
        decreases |outq|
      {
        calls, o := PushQueued(env, calls, was);
        if o != Idle { return; }
      }
      QueueBounds();
    }

    /** One call for the oldest queued message. Idle says that it took it all. */
    method PushQueued(env: Env, before: seq<Call>, ghost was: seq<byte>) returns (calls: seq<Call>, o: Outcome)
      requires env.Ok(cfg) && Valid() && armed && !outActive && outq != []
      requires Ran(env, before, was, sent) && GoesOn(before)
      modifies this`outq, this`outqOff, this`sent, this`alive, this`armed
      ensures Valid() && Ran(env, calls, was, sent) && o == FlushEnd(calls) && (o == Idle ==> GoesOn(calls))
      ensures o == Lost ==> !alive && !armed
      ensures o != Lost ==> alive == old(alive) && armed
      ensures outq == if o == Idle then old(outq)[1..] else old(outq)
      ensures |old(sent)| <= |sent|
      ensures env.Smooth() ==> o == Idle
      ensures env.Willing() ==> o != Lost && (o == Blocked ==> |sent| > |old(sent)|)
    {
      hide Content, Wired, Encode, Ran, FlushEnd, GoesOn;
      QueueBounds();
      var p := Encode(outq[0]);
      var c := Call(p[outqOff..], env.sock(|before|, |p| - outqOff));
      CallMade(env, before, c, was, sent);
      calls := before + [c];
      if c.answer < 0 {
        assert sent + c.Taken() == sent;
        Fail();
        return calls, Lost;
      }
      assert p[outqOff..outqOff + c.answer] == c.Taken();
      var whole := Sent(p, c.answer);
      o := if whole then Idle else Blocked;
    }

    /** What is already submitted comes first: the frame in flight, then the
        control messages. */
    method Flush(env: Env) returns (calls: seq<Call>, o: Outcome)
      requires env.Ok(cfg) && Valid() && armed
      modifies this`outOff, this`outActive, this`outq, this`outqOff, this`sent, this`alive, this`armed
      ensures Valid() && o == FlushEnd(calls)
      ensures Ran(env, calls, old(sent), sent)
      ensures o == Lost ==> !alive && !armed
      ensures o != Lost ==> alive == old(alive) && armed
      ensures o == Idle ==> Ready()
      ensures o == Blocked ==> outActive || outq != []
      ensures env.Smooth() ==> o == Idle
      ensures env.Willing() ==> o != Lost && (o == Blocked ==> |sent| > |old(sent)|)
    {
      hide Valid, Env.Ok, Env.Smooth, Env.Willing, Ran, FlushEnd, GoesOn;
      calls, o := FinishFrame(env);
      RanGrows(env, calls, old(sent), sent);
      if o == Idle {
        calls, o := DrainQueue(env, calls, old(sent));
      }
    }

    /** One dispatch of the write watch. Returns what ended the pass, and the
        socket calls it made: `sent` grows by exactly what they took. */
    method OnOutReady(env: Env) returns (o: Outcome, calls: seq<Call>)
      requires env.Ok(cfg) && Valid() && armed
      modifies this, shadowbuf
      ensures Valid()
      ensures Ran(env, calls, old(sent), sent)
      ensures o == Lost <==> env.hup || FlushEnd(calls) == Lost
      ensures o == Blocked <==> FlushEnd(calls) == Blocked
      ensures env.hup ==> calls == []
      ensures alive == (old(alive) && o != Lost) && (o == Lost ==> !armed)
      ensures o in {Blocked, Started} ==> armed
      ensures o in {Idle, Paced, EncoderFailed} ==> !armed
      ensures Stuck() <==> alive && o == EncoderFailed && !old(retry)
      ensures retry == (old(retry) || o == Paced)
      ensures o !in {Lost, Blocked} ==> After(old(Before(env)), env, o)
      ensures o in {Lost, Blocked} ==>
        && order == old(order) && swallowed == old(swallowed) && encOpen == old(encOpen)
        && mode == old(mode) && h264Failed == old(h264Failed) && forceIdr == old(forceIdr)
        && dirtyAll == old(dirtyAll) && dirty == old(dirty)
      ensures unreported == old(unreported)
      ensures env.Smooth() ==> o !in {Lost, Blocked}
      ensures env.Willing() ==> o != Lost && (o == Blocked ==> |sent| > |old(sent)|)
    {
      hide Valid, Env.Ok, Before, After, Ran, FlushEnd;
      if env.hup {
        Fail();
        NoCalls(env);
        return Lost, [];
      }
      calls, o := Flush(env);
      if o != Idle { return; }
      o := BuildNext(env);
      if o != Started {
        armed := false;
      }
    }

    /** Somebody else schedules the teardown: the ping watchdog, the upstream
        parser, the source. The write watch stays as it is. */
    method ScheduleTeardown()
      requires Valid()
      modifies this`alive
      ensures Valid() && !alive
    {
      hide Content, Wired;
      LostKeeps(View(), grabbuf, shadowbuf);
      alive := false;
    }

    method RetryTimer()
      requires Valid() && retry
      modifies this`retry, this`armed
      ensures Valid() && !retry && !Stuck()
      ensures (old(armed) ==> armed) && (armed ==> old(armed) || alive)
    {
      hide Content, Wired;
      retry := false;
      armed := Kicked();
    }

    // -------------------------------------------------------- main results

    /** Whatever the schedule, the bytes on the wire are a prefix of complete
        messages in submission order; the receive loop takes exactly the
        complete ones, and is never more than one message behind. */
    lemma WireIsSubmissionOrder()
      requires Valid()
      ensures var t := Take(cfg, sent);
        && !t.dropped && t.msgs <= order && sent == EncodeAll(t.msgs) + t.rest
        && (|t.msgs| < |order| ==> |t.rest| < |Encode(order[|t.msgs|])|)
        && (!outActive && outq == [] ==> t.msgs == order && t.rest == [])
    {
      hide Framed, EncodeAll, Encode, Take, DamageKept, Mirrors, Episodes;
      WireIsPrefix(order, sent, FrameRest(), outq, outqOff);
      TakePrefix(cfg, order, sent);
      if !outActive && outq == [] {
        TakeAll(cfg, order);
      }
    }

    lemma SentPrefixTaken(s: seq<byte>)
      requires Valid() && s <= sent
      ensures !Take(cfg, s).dropped && Take(cfg, s).msgs <= order
    {
      hide Framed, EncodeAll, Encode, Take, DamageKept, Mirrors, Episodes;
      WireIsPrefix(order, sent, FrameRest(), outq, outqOff);
      TakePrefix(cfg, order, s);
    }

    /** In RAW mode a pixel that is neither waiting nor unreported shows the
        local frame once the submitted messages are delivered. */
    lemma PixelFollows(x: int, y: int)
      requires Valid() && mode == Raw && !cut
      requires View().InFrame(x, y) && !View().Waits(x, y) && (x, y) !in unreported
      ensures Framebuffer(cfg, grabbuf)
      ensures Shown(cfg, order, x, y) == Some(WirePixel(cfg.fmt, dither, grabbuf[y, x], x, y))
      ensures Presents(cfg, dither, order, x, y, grabbuf[y, x])
    {
      hide Shown, WirePixel, Looks, Presents, Tx.Waits, AllAccepted, Wired, PhaseOf, Loose, Stray, Partial;
      ShownPresents(cfg, dither, order, x, y, grabbuf[y, x]);
    }

    /** Convergence: with nothing left to do in RAW mode, what the receiver
        shows is the local frame, pixel for pixel, whatever happened before. */
    lemma Converged()
      requires Valid() && mode == Raw && !cut && !Work()
      ensures Framebuffer(cfg, grabbuf)
      ensures Take(cfg, sent) == Taken(order, [], false)
      ensures forall x, y | View().InFrame(x, y) && (x, y) !in unreported ::
                && Shown(cfg, Take(cfg, sent).msgs, x, y) == Some(WirePixel(cfg.fmt, dither, grabbuf[y, x], x, y))
                && Presents(cfg, dither, Take(cfg, sent).msgs, x, y, grabbuf[y, x])
    {
      hide Shown, WirePixel, Presents, Take, Episodes, AllAccepted, Wired, DamageKept, Mirrors;
      WireIsSubmissionOrder();
      forall x, y | View().InFrame(x, y) && (x, y) !in unreported
        ensures Shown(cfg, order, x, y) == Some(WirePixel(cfg.fmt, dither, grabbuf[y, x], x, y))
        ensures Presents(cfg, dither, order, x, y, grabbuf[y, x])
      {
        assert !View().Waits(x, y);
        PixelFollows(x, y);
      }
    }

    /** The episode grammar, exactly: it holds until a pass opens an episode
        with an ordinary access unit, which takes an encoder that swallowed a
        forced IDR, or sends a rect inside an open episode, which takes
        H.264 being left after the teardown was scheduled. */
    lemma GrammarHolds()
      requires Valid()
      ensures Grammar(cfg, order) <==> Faults() == (false, false)
      ensures (Faults().0 ==> swallowed) && (Faults().1 ==> cut) && (cut ==> !alive)
      ensures !swallowed && !cut ==> Grammar(cfg, order)
      ensures mode == Raw ==> (PhaseOf(cfg, order) == Open <==> cut)
      ensures forall env :: OpensLoosely(env) ==> swallowed
    {
      hide DamageKept, Mirrors, AllAccepted, Wired, PhaseOf, Grammar, Config.Valid, Loose, Stray, Partial;
      GrammarFaults(cfg, order);
    }

    /** With a socket that takes at least one byte each time, however little,
        and no further event the engine comes to rest after finitely many
        passes, and the remote picture is the local one. */
    method DrainAll(envs: nat -> Env)
      requires forall i: nat :: envs(i).Ok(cfg) && envs(i).Willing()
      requires Valid() && alive && mode == Raw
      modifies this, shadowbuf
      ensures Valid() && alive && mode == Raw && !Work() && unreported == old(unreported) && old(sent) <= sent
      ensures Framebuffer(cfg, grabbuf) && forall x, y | View().InFrame(x, y) && (x, y) !in unreported ::
                && Shown(cfg, Take(cfg, sent).msgs, x, y) == Some(WirePixel(cfg.fmt, dither, grabbuf[y, x], x, y))
                && Presents(cfg, dither, Take(cfg, sent).msgs, x, y, grabbuf[y, x])
    {
      hide Content, Wired, Shown, Presents, Take, WirePixel, Env.Ok, Env.Willing, Env.Smooth, Faults, OpensLoosely, PaintsInside, EncodeAll;
      Kick();
      var k: nat := 0;
      while armed
        invariant Valid() && alive && mode == Raw && unreported == old(unreported) && old(sent) <= sent
        invariant !armed ==> !Work()
        decreases armed, if dirtyAll then 1 else 0, |dirty|, |EncodeAll(order)| - |sent|
      {
        SentBounded();
        WillingStays(envs(k));
        var o, calls := OnOutReady(envs(k));
        SentBounded();
        k := k + 1;
      }
      NotCut();
      Converged();
    }

    method Kick()
      requires Valid()
      modifies this`armed
      ensures Valid() && armed == old(Kicked())
    {
      hide Content, Wired;
      armed := Kicked();
    }

    lemma NotCut()
      requires Valid() && alive
      ensures !cut
    {
      hide DamageKept, Mirrors, AllAccepted, Wired, PhaseOf, Config.Valid, Loose, Stray, Partial;
    }

    lemma SentBounded()
      requires Valid()
      ensures |sent| <= |EncodeAll(order)|
    {
      hide Framed, EncodeAll, Encode, DamageKept, Mirrors, Episodes, AllAccepted;
      WireIsPrefix(order, sent, FrameRest(), outq, outqOff);
    }

    /** Any run: frames, damage, control messages, mode switches, timers,
        drain passes and a scheduled teardown in any order. The invariant
        survives, work is only ever left without a wake-up by a pass in which
        the encoder failed, an episode only ever opens loosely after an empty
        answer, and a rect only ever strays into one after a teardown was
        scheduled. */
    method Run(events: seq<Event>)
      requires Valid() && !Stuck()
      requires forall e <- events :: e.Ok(cfg)
      modifies this, grabbuf, shadowbuf
      ensures Valid()
      ensures Stuck() ==> exists e <- events :: e.Writable? && e.env.enc.EncodeError?
      ensures swallowed && !old(swallowed) ==> exists e <- events :: e.Writable? && e.env.enc.EncodeEmpty?
      ensures old(alive) && Faults().1 && !old(Faults()).1 ==> exists e <- events :: e.Teardown?
    {
      hide Content, Wired, Event.Ok, Faults;
      ghost var failed, torn := false, false;
      for i := 0 to |events|
        invariant Valid()
        invariant failed ==> exists e <- events :: e.Writable? && e.env.enc.EncodeError?
        invariant Stuck() ==> failed
        invariant swallowed && !old(swallowed) ==> exists e <- events :: e.Writable? && e.env.enc.EncodeEmpty?
        invariant torn ==> exists e <- events :: e.Teardown?
        invariant old(alive) && !torn ==> (armed ==> alive) && (Faults().1 ==> old(Faults()).1)
      {
        var f := Step(events[i]);
        failed := failed || f;
        torn := torn || events[i].Teardown?;
      }
    }

    method Step(e: Event) returns (ghost failed: bool)
      requires Valid() && e.Ok(cfg)
      modifies this, grabbuf, shadowbuf
      ensures Valid()
      ensures failed ==> e.Writable? && e.env.enc.EncodeError?
      ensures Stuck() ==> old(Stuck()) || failed
      ensures swallowed && !old(swallowed) ==> e.Writable? && e.env.enc.EncodeEmpty?
      ensures armed && !alive ==> old(armed && !alive) || e.Teardown?
      ensures Faults().1 && !old(Faults()).1 ==> old(armed && !alive)
    {
      hide Content, Wired, IsControl, PhaseOf, Loose, Stray, Roomy, GrowsIn, Areas, Env.Ok, Switched;
      failed := false;
      EosFaults(cfg, order);
      match e
      case Frame(px) => NewFrame(px);
      case Report(rects, ctl) => Damage(rects, ctl);
      case RepaintAll => Repaint();
      case Queue(m) =>
        ControlFaults(cfg, order, m);
        Control(m);
      case SetTo(m, opens) => StepSet(m, opens);
      case Timer =>
        if retry {
          RetryTimer();
        }
      case Writable(env) => failed := StepWritable(env);
      case Teardown => ScheduleTeardown();
    }

    method StepSet(m: Mode, opens: bool)
      requires Valid() && (m == H264 ==> cfg.h264)
      modifies this`mode, this`encOpen, this`h264Failed, this`forceIdr, this`dirty, this`dirtyAll,
               this`outq, this`order, this`armed, this`cut
      ensures Valid()
      ensures Stuck() ==> old(Stuck())
      ensures armed && !alive ==> old(armed && !alive)
      ensures Faults().1 ==> old(Faults()).1
    {
      hide Content, Wired, PhaseOf, Loose, Stray;
      EosFaults(cfg, order);
      SetMode(m, opens);
    }

    method StepWritable(env: Env) returns (ghost failed: bool)
      requires Valid() && env.Ok(cfg)
      modifies this, shadowbuf
      ensures Valid()
      ensures failed ==> env.enc.EncodeError?
      ensures Stuck() ==> old(Stuck()) || failed
      ensures swallowed && !old(swallowed) ==> env.enc.EncodeEmpty?
      ensures armed && !alive ==> old(armed && !alive)
      ensures Faults().1 && !old(Faults()).1 ==> old(armed && !alive)
    {
      hide Content, Wired, PhaseOf, Loose, Stray, Delivers, Ran, FlushEnd, Env.Ok;
      failed := false;
      if armed {
        GrammarHolds();
        var o, calls := OnOutReady(env);
        failed := o == EncoderFailed;
      }
    }
  }

  lemma WillingStays(env: Env)
    requires env.Willing()
    ensures env.ctl.Stay?
  {}

  /** Work is really left behind when the encoder fails: the end of episode is
      queued and the snapshot marked while the write watch is being removed. */
  method EncoderErrorSticks(cfg: Config, frame: array2<Pixel>) returns (c: Client)
    requires cfg.Valid() && cfg.h264 && Framebuffer(cfg, frame)
    ensures c.Valid() && c.Stuck() && c.outq == [EOS] && c.dirtyAll
  {
    hide Content, Client.Wired, Client.OnItsWay, Loose, Stray, PhaseOf, Accepted, Answered, FlushEnd;
    c := new Client(cfg, false, frame, false);
    c.SetMode(H264, true);
    c.Repaint();
    var env := Env(false, (k, n) => n, false, EncodeError, Stay);
    var o, calls := c.OnOutReady(env);
  }

  /** A connection whose forced IDR was swallowed, and that has to send the
      frame again. */
  method SwallowIdr(cfg: Config, frame: array2<Pixel>) returns (c: Client)
    requires cfg.Valid() && cfg.h264 && Framebuffer(cfg, frame)
    ensures fresh(c) && fresh(c.shadowbuf) && c.cfg == cfg && c.grabbuf == frame
    ensures c.Valid() && c.armed && c.mode == H264 && c.dirtyAll && !c.forceIdr && c.order == []
  {
    hide Content, Client.Wired, Client.OnItsWay, PhaseOf, Loose, Stray;
    c := new Client(cfg, false, frame, false);
    c.SetMode(H264, true);
    c.Repaint();
    var o, calls := c.OnOutReady(Env(false, (k, n) => n, false, EncodeEmpty, Stay));
    c.Repaint();
  }

  /** An encoder that answers a forced IDR with nothing breaks the grammar:
      the flag is spent, and the episode opens with an ordinary access unit. */
  method SwallowedIdrBreaksGrammar(cfg: Config, frame: array2<Pixel>) returns (c: Client)
    requires cfg.Valid() && cfg.h264 && Framebuffer(cfg, frame)
    ensures c.Valid() && Loose(cfg, c.order) && !Grammar(cfg, c.order)
  {
    hide Content, Client.Wired, Client.OnItsWay, Loose, Stray, Grammar;
    c := SwallowIdr(cfg, frame);
    var o, calls := c.OnOutReady(Env(false, (k, n) => n, false, AccessUnit([0], false), Stay));
    c.GrammarHolds();
  }

  /** A connection whose first access unit, an IDR, was just submitted. */
  method OpenEpisode(cfg: Config, frame: array2<Pixel>, env: Env) returns (c: Client)
    requires cfg.Valid() && cfg.h264 && Framebuffer(cfg, frame)
    requires env == Env(false, (k, n) => n, false, AccessUnit([0], true), Stay)
    ensures fresh(c) && fresh(c.shadowbuf) && c.cfg == cfg && c.grabbuf == frame
    ensures c.Valid() && c.alive && c.armed && c.mode == H264 && PhaseOf(cfg, c.order) == Open
  {
    hide Content, Client.Wired, Client.OnItsWay, PhaseOf, Loose, Stray;
    c := new Client(cfg, false, frame, false);
    c.SetMode(H264, true);
    c.Repaint();
    var o, calls := c.OnOutReady(env);
    PhaseSnoc(cfg, [], AccessUnitMessage(cfg, true, [0]));
    assert [] + [AccessUnitMessage(cfg, true, [0])] == c.order;
  }

  /** H.264 left after a teardown was scheduled breaks the grammar: the end of
      episode is dropped, but the access unit in flight is finished and the
      snapshot goes out behind it. */
  method TeardownBreaksGrammar(cfg: Config, frame: array2<Pixel>) returns (c: Client)
    requires cfg.Valid() && cfg.h264 && Framebuffer(cfg, frame)
    ensures c.Valid() && Stray(cfg, c.order) && !Grammar(cfg, c.order)
  {
    hide Content, Client.Wired, Client.OnItsWay, PhaseOf, Loose, Stray, Grammar;
    var smooth := Env(false, (k, n) => n, false, AccessUnit([0], true), Stay);
    c := OpenEpisode(cfg, frame, smooth);
    c.ScheduleTeardown();
    c.SetMode(Raw, true);
    var o, calls := c.OnOutReady(smooth);
    c.GrammarHolds();
  }
}
