/** The board client's decoder buffers: the receive thread drains decoded
    frames into a one-frame mailbox, a second thread blits them. One step of
    either thread between two lock operations is one action; any interleaving
    is a sequence of actions. */
module Blit {
  import opened Common

  /** A decoded frame: its capture buffer and its rank in decode order. */
  datatype Frame = Frame(buf: nat, n: nat)

  /** What lands in the framebuffer: pixels of a decoded frame, or of a RAW
      rect, with the number of frames dequeued so far. */
  datatype Write = Decoded(n: nat) | RawRect(after: nat)

  /** How far the blit thread is with the frame it took. */
  datatype Stage = Fetched | Painting | Released

  datatype Pc =
    | Loop                                            // between two messages
    | Draining(eos: bool, have: Option<Frame>)        // dequeue loop
    | Emitting(eos: bool, frame: Frame)               // handing a frame over
    | EosDrain                                        // waiting for the LAST buffer
    | Syncing(close: bool)                            // waiting for the blit thread
    | Leaving                                         // error or stop: towards teardown
    | Closed

  datatype State = State(
    nbufs: nat,
    driver: set<nat>,                 // queued in the decoder
    lost: set<nat>,                   // refused by the driver, or given up with the connection
    undelivered: nat,                 // frames the decoder still owes
    pc: Pc,
    episode: bool,                    // an access unit since the last EOS
    sawLast: bool,
    thread: Option<bool>,             // the blit thread: not tried, up or not
    box: Option<Frame>,
    busy: Option<Frame>,
    stage: Stage,
    decoded: nat,                     // frames dequeued so far
    fb: seq<Write>,
    stop: bool)
  {
    function Have(): Option<Frame> {
      if pc.Draining? then pc.have else if pc.Emitting? then Some(pc.frame) else None
    }
    predicate Asynchronous() { thread == Some(true) }
    predicate Still() { box.None? && busy.None? }
  }

  function Below(n: nat): (all: set<nat>)
    ensures forall b: nat :: b in all <==> b < n
  {
    if n == 0 then {} else Below(n - 1) + {n - 1}
  }

  function Start(nbufs: nat): State {
    State(nbufs, Below(nbufs), {}, 0, Loop, false, false, None, None, None, Fetched, 0, [], false)
  }

  /** The receive loop. */
  datatype Receive =
    | Feed(frames: nat)                               // an access unit that makes so many frames
    | Pump
    | Paint                                           // rows of a RAW rect
    | Eos
    | EosPump
    | EosDone(ok: bool)
    | EosTimeout
    | Synced
    | Hangup

  /** The dequeue loop and the handing over of its frame. */
  datatype Drain =
    | Dequeue(buf: nat, empty: bool, last: bool, ok: bool)
    | NoMore(pipe: bool)
    | BadIndex(ok: bool)
    | Emit(starts: bool, ok: bool)

  /** The blit thread. */
  datatype Blitter = Take | Rows | Release(ok: bool) | Done

  datatype Act = Main(r: Receive) | Decoder(d: Drain) | Thread(b: Blitter) | Stop {
    /** No ioctl fails and the driver names its own buffers. */
    predicate Fine() {
      match this
      case Main(r) => !r.EosTimeout? && (r.EosDone? ==> r.ok)
      case Decoder(d) => !d.BadIndex? && (d.Dequeue? || d.Emit? ==> d.ok)
      case Thread(b) => b.Release? ==> b.ok
      case Stop => true
    }
  }

  /** A buffer goes back to the driver, or the driver refuses it. */
  function Requeue(s: State, buf: nat, ok: bool): State {
    if ok then s.(driver := s.driver + {buf}) else s.(lost := s.lost + {buf})
  }

  function AfterDrain(eos: bool): Pc { if eos then EosDrain else Loop }

  // ------------------------------------------------------- receive thread

  predicate MayReceive(s: State, a: Receive) {
    match a
    case Paint => s.pc == Loop && !s.episode
    case EosPump => s.pc == EosDrain && !s.sawLast
    case EosDone(_) => s.pc == EosDrain && s.sawLast
    case EosTimeout => s.pc == EosDrain && !s.sawLast
    case Synced => s.pc.Syncing? && (!s.Asynchronous() || s.stop || s.Still())
    case Hangup => s.pc == Loop || s.pc == Leaving
    case _ => s.pc == Loop
  }

  function Received(s: State, a: Receive): State {
    match a
    case Feed(frames) => s.(undelivered := s.undelivered + frames, episode := true)
    case Pump => s.(pc := Draining(false, None))
    case Paint => s.(fb := s.fb + [RawRect(s.decoded)])
    case Eos => s.(pc := EosDrain, sawLast := false)
    case EosPump => s.(pc := Draining(true, None))
    case EosDone(ok) => s.(pc := if ok then Syncing(false) else Leaving)
    case EosTimeout => s.(pc := Leaving)
    case Synced =>
      if s.pc == Syncing(true) then s.(pc := Closed)
      else if s.stop then s.(pc := Leaving)
      else s.(pc := Loop, episode := false)
    case Hangup => s.(pc := Syncing(true))
  }

  /** The decoder keeps its promises: an empty buffer or a frame it owes, the
      LAST flag or EPIPE only when nothing is owed any more. */
  predicate MayDrain(s: State, a: Drain) {
    match a
    case Dequeue(buf, empty, last, _) =>
      && s.pc.Draining? && buf in s.driver && (empty || s.undelivered > 0)
      && (last ==> s.pc.eos && s.undelivered == if empty then 0 else 1)
    case NoMore(pipe) => s.pc.Draining? && (pipe ==> s.undelivered == 0)
    case BadIndex(_) => s.pc.Draining?
    case Emit(_, _) => s.pc.Emitting?
  }

  /** The dequeue loop gives up; a frame it still had is given up too. */
  function Abandon(s: State): State
    requires s.pc.Draining?
  {
    s.(lost := s.lost + if s.pc.have.Some? then {s.pc.have.value.buf} else {}, pc := Leaving)
  }

  /** A frame is dequeued: the one the loop had goes back unshown. */
  function GotFrame(s: State, buf: nat, ok: bool): State
    requires s.pc.Draining? && s.undelivered > 0
  {
    var f := Frame(buf, s.decoded);
    var t := s.(driver := s.driver - {buf}, undelivered := s.undelivered - 1, decoded := s.decoded + 1);
    if s.pc.have.None? then t.(pc := Draining(s.pc.eos, Some(f)))
    else if ok then Requeue(t, s.pc.have.value.buf, true).(pc := Draining(s.pc.eos, Some(f)))
    else t.(lost := t.lost + {s.pc.have.value.buf, buf}, pc := Leaving)
  }

  function GotEmpty(s: State, buf: nat, ok: bool): State
    requires s.pc.Draining?
  {
    if ok then s else Abandon(s.(driver := s.driver - {buf}, lost := s.lost + {buf}))
  }

  /** Without a blit thread the frame is painted at once. */
  function PaintedInline(s: State, f: Frame, eos: bool, ok: bool): State {
    Requeue(s, f.buf, ok).(fb := s.fb + [Decoded(f.n)], pc := if ok then AfterDrain(eos) else Leaving)
  }

  /** The frame replaces the one in the mailbox, which goes back unshown. */
  function Mailed(s: State, f: Frame, eos: bool, ok: bool): State {
    (if s.box.Some? then Requeue(s, s.box.value.buf, ok) else s).(box := Some(f), pc := AfterDrain(eos))
  }

  function Emitted(s: State, starts: bool, ok: bool): State
    requires s.pc.Emitting?
  {
    var t := if s.thread.None? then s.(thread := Some(starts)) else s;
    if t.Asynchronous() then Mailed(t, s.pc.frame, s.pc.eos, ok) else PaintedInline(t, s.pc.frame, s.pc.eos, ok)
  }

  function Drained(s: State, a: Drain): State
    requires MayDrain(s, a)
  {
    match a
    case Dequeue(buf, empty, last, ok) =>
      (if empty then GotEmpty(s, buf, ok) else GotFrame(s, buf, ok)).(sawLast := s.sawLast || last)
    case NoMore(pipe) =>
      s.(sawLast := s.sawLast || pipe, pc := if s.pc.have.Some? then Emitting(s.pc.eos, s.pc.have.value) else AfterDrain(s.pc.eos))
    case BadIndex(ok) =>
      if s.pc.have.Some? then Requeue(s, s.pc.have.value.buf, ok).(pc := Leaving) else s.(pc := Leaving)
    case Emit(starts, ok) => Emitted(s, starts, ok)
  }

  // ---------------------------------------------------------- blit thread

  predicate MayBlit(s: State, a: Blitter) {
    match a
    case Take => s.Asynchronous() && s.box.Some? && s.busy.None? && !s.stop
    case Rows => s.busy.Some? && s.stage != Released
    case Release(_) => s.busy.Some? && s.stage == Painting
    case Done => s.busy.Some? && s.stage == Released
  }

  function Blitted(s: State, a: Blitter): State
    requires MayBlit(s, a)
  {
    match a
    case Take => s.(busy := s.box, box := None, stage := Fetched)
    case Rows => s.(fb := s.fb + [Decoded(s.busy.value.n)], stage := Painting)
    case Release(ok) => Requeue(s, s.busy.value.buf, ok).(stage := Released)
    case Done => s.(busy := None)
  }

  predicate Enabled(s: State, a: Act) {
    match a
    case Main(r) => MayReceive(s, r)
    case Decoder(d) => MayDrain(s, d)
    case Thread(b) => MayBlit(s, b)
    case Stop => true
  }

  /** One action; one that cannot happen changes nothing. */
  function Next(s: State, a: Act): State {
    if !Enabled(s, a) then s else
    match a
    case Main(r) => Received(s, r)
    case Decoder(d) => Drained(s, d)
    case Thread(b) => Blitted(s, b)
    case Stop => s.(stop := true)
  }

  function Run(s: State, acts: seq<Act>): State {
    if acts == [] then s else Next(Run(s, acts[..|acts| - 1]), acts[|acts| - 1])
  }

  // ------------------------------------------------------- conservation

  predicate Is(f: Option<Frame>, b: nat) { f.Some? && f.value.buf == b }

  /** In how many places buffer b is: driver, receive thread, mailbox, blit in
      progress, lost. */
  function Places(s: State, b: nat): nat {
    One(b in s.driver) + One(Is(s.Have(), b)) + One(Is(s.box, b))
    + One(Is(s.busy, b) && s.stage != Released) + One(b in s.lost)
  }

  ghost predicate Conserved(s: State) {
    forall b: nat :: Places(s, b) == One(b < s.nbufs)
  }

  lemma ReceiveConserves(s: State, a: Receive, b: nat)
    requires MayReceive(s, a)
    ensures Places(Received(s, a), b) == Places(s, b) && Received(s, a).nbufs == s.nbufs
  {}

  lemma EmptyConserves(s: State, buf: nat, ok: bool, b: nat)
    requires s.pc.Draining? && buf in s.driver && Places(s, b) <= 1
    ensures Places(GotEmpty(s, buf, ok), b) == Places(s, b) && GotEmpty(s, buf, ok).nbufs == s.nbufs
  {}

  lemma FrameConserves(s: State, buf: nat, ok: bool, b: nat)
    requires s.pc.Draining? && buf in s.driver && s.undelivered > 0 && Places(s, b) <= 1
    ensures Places(GotFrame(s, buf, ok), b) == Places(s, b) && GotFrame(s, buf, ok).nbufs == s.nbufs
  {}

  lemma LastElsewhere(s: State, last: bool, b: nat)
    ensures Places(s.(sawLast := last), b) == Places(s, b)
  {}

  lemma PaintConserves(s: State, ok: bool, b: nat)
    requires s.pc.Emitting? && Places(s, b) <= 1
    ensures Places(PaintedInline(s, s.pc.frame, s.pc.eos, ok), b) == Places(s, b)
  {}

  lemma MailConserves(s: State, ok: bool, b: nat)
    requires s.pc.Emitting? && Places(s, b) <= 1
    ensures Places(Mailed(s, s.pc.frame, s.pc.eos, ok), b) == Places(s, b)
  {}

  lemma EmitConserves(s: State, starts: bool, ok: bool, b: nat)
    requires s.pc.Emitting? && Places(s, b) <= 1
    ensures Places(Emitted(s, starts, ok), b) == Places(s, b) && Emitted(s, starts, ok).nbufs == s.nbufs
  {
    hide Places, Requeue;
    var t := if s.thread.None? then s.(thread := Some(starts)) else s;
    assert Places(t, b) == Places(s, b) by { ThreadElsewhere(s, starts, b); }
    PaintConserves(t, ok, b);
    MailConserves(t, ok, b);
    RequeueBuffers(t, t.pc.frame.buf, ok);
    if t.box.Some? {
      RequeueBuffers(t, t.box.value.buf, ok);
    }
  }

  lemma ThreadElsewhere(s: State, starts: bool, b: nat)
    ensures Places(s.(thread := Some(starts)), b) == Places(s, b)
  {}

  lemma RequeueBuffers(s: State, buf: nat, ok: bool)
    ensures Requeue(s, buf, ok).nbufs == s.nbufs
  {}

  lemma LeaveConserves(s: State, a: Drain, b: nat)
    requires MayDrain(s, a) && (a.NoMore? || a.BadIndex?) && Places(s, b) <= 1
    ensures Places(Drained(s, a), b) == Places(s, b) && Drained(s, a).nbufs == s.nbufs
  {
    hide GotEmpty, GotFrame, Emitted;
  }

  lemma DrainConserves(s: State, a: Drain, b: nat)
    requires MayDrain(s, a) && Places(s, b) <= 1
    ensures Places(Drained(s, a), b) == Places(s, b) && Drained(s, a).nbufs == s.nbufs
  {
    hide GotEmpty, GotFrame, Emitted, Places;
    match a
    case Dequeue(buf, empty, last, ok) =>
      LastElsewhere(if empty then GotEmpty(s, buf, ok) else GotFrame(s, buf, ok), s.sawLast || last, b);
      if empty {
        EmptyConserves(s, buf, ok, b);
      } else {
        FrameConserves(s, buf, ok, b);
      }
    case Emit(starts, ok) => EmitConserves(s, starts, ok, b);
    case _ => LeaveConserves(s, a, b);
  }

  lemma BlitConserves(s: State, a: Blitter, b: nat)
    requires MayBlit(s, a) && Places(s, b) <= 1
    ensures Places(Blitted(s, a), b) == Places(s, b) && Blitted(s, a).nbufs == s.nbufs
  {}

  /** No action moves a buffer to two places or to none. */
  lemma NextPlaces(s: State, a: Act, b: nat)
    requires Places(s, b) <= 1
    ensures Places(Next(s, a), b) == Places(s, b) && Next(s, a).nbufs == s.nbufs
  {
    hide Received, Drained, Blitted, MayReceive, MayDrain, MayBlit, Places;
    if Enabled(s, a) {
      match a
      case Main(r) => ReceiveConserves(s, r, b);
      case Decoder(d) => DrainConserves(s, d, b);
      case Thread(x) => BlitConserves(s, x, b);
      case Stop => StopConserves(s, b);
    }
  }

  lemma NextConserves(s: State, a: Act)
    requires Conserved(s)
    ensures Conserved(Next(s, a)) && Next(s, a).nbufs == s.nbufs
  {
    hide Next, Places;
    assert Places(s, 0) == One(0 < s.nbufs);
    NextPlaces(s, a, 0);
    forall b: nat
      ensures Places(Next(s, a), b) == One(b < s.nbufs)
    {
      assert Places(s, b) == One(b < s.nbufs);
      NextPlaces(s, a, b);
    }
  }

  lemma StopConserves(s: State, b: nat)
    ensures Places(s.(stop := true), b) == Places(s, b)
  {}
}
