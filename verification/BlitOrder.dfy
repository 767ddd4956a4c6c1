/** In which order decoded frames and RAW rects land in the framebuffer, over
    every interleaving of the receive thread and the blit thread. */
module BlitOrder {
  import opened Common
  import opened Blit

  // ----------------------------------------------------- what has landed

  /** Decoded frames land in decode order. */
  ghost predicate InOrder(fb: seq<Write>) {
    forall i, j | 0 <= i < j < |fb| && fb[i].Decoded? && fb[j].Decoded? :: fb[i].n <= fb[j].n
  }

  /** No decoded frame lands over a RAW rect that was painted after it was
      dequeued. */
  ghost predicate Clean(fb: seq<Write>) {
    forall i, j | 0 <= i < j < |fb| && fb[i].RawRect? && fb[j].Decoded? :: fb[i].after <= fb[j].n
  }

  ghost predicate DecodedBelow(fb: seq<Write>, k: int) {
    forall i | 0 <= i < |fb| && fb[i].Decoded? :: fb[i].n < k
  }

  ghost predicate RawUpTo(fb: seq<Write>, k: int) {
    forall i | 0 <= i < |fb| && fb[i].RawRect? :: fb[i].after <= k
  }

  /** The last decoded frame that landed, -1 when none did. */
  function Last(fb: seq<Write>): int {
    if fb == [] then -1
    else if fb[|fb| - 1].Decoded? then fb[|fb| - 1].n
    else Last(fb[..|fb| - 1])
  }

  // ------------------------------------------------------ the invariants

  /** The rank from which on frames are still ahead of holder number i (0 the
      blit thread, 1 the mailbox, 2 the receive thread): its frame, or the
      next holder's. */
  function AtHave(s: State): int { if s.Have().Some? then s.Have().value.n else s.decoded }
  function AtBox(s: State): int { if s.box.Some? then s.box.value.n else AtHave(s) }
  function AtBusy(s: State): int { if s.busy.Some? then s.busy.value.n else AtBox(s) }

  /** Landed, being blitted, in the mailbox, just dequeued, still to come:
      in this order. */
  ghost predicate Queued(s: State) {
    && InOrder(s.fb)
    && DecodedBelow(s.fb, if s.busy.Some? && s.stage != Fetched then s.busy.value.n + 1 else AtBusy(s))
    && (s.busy.Some? ==> AtBusy(s) < AtBox(s))
    && (s.box.Some? ==> AtBox(s) < AtHave(s))
    && AtHave(s) <= s.decoded
    && (s.Have().Some? ==> AtHave(s) < s.decoded)
    && (!s.Asynchronous() ==> s.Still())
  }

  /** The newest dequeued frame is on its way or has landed. */
  ghost predicate Newest(s: State) {
    if s.pc in {Leaving, Syncing(true), Closed} then true
    else if s.Have().Some? then AtHave(s) == s.decoded - 1
    else if s.box.Some? then AtBox(s) == s.decoded - 1
    else if s.busy.Some? then AtBusy(s) == s.decoded - 1 && (s.stage != Fetched ==> Last(s.fb) == s.decoded - 1)
    else Last(s.fb) == s.decoded - 1
  }

  /** The EOS of the current episode has been drained. */
  predicate PastLast(s: State) {
    || s.pc == Syncing(false)
    || (s.sawLast && (s.pc == EosDrain || ((s.pc.Draining? || s.pc.Emitting?) && s.pc.eos)))
  }

  /** Outside an episode nothing decoded is left anywhere. */
  ghost predicate Quiet(s: State) {
    && Clean(s.fb) && RawUpTo(s.fb, AtBusy(s))
    && (!s.episode ==> s.undelivered == 0 && s.Still() && s.Have().None?)
    && (PastLast(s) ==> s.undelivered == 0)
    && (s.pc == Closed && !s.stop ==> s.Still())
  }

  // ------------------------------------------------------- one more write

  lemma Landed(fb: seq<Write>, n: nat)
    requires InOrder(fb) && DecodedBelow(fb, n + 1)
    ensures InOrder(fb + [Decoded(n)]) && DecodedBelow(fb + [Decoded(n)], n + 1) && Last(fb + [Decoded(n)]) == n
    ensures Clean(fb) && RawUpTo(fb, n) ==> Clean(fb + [Decoded(n)])
    ensures forall k | RawUpTo(fb, k) :: RawUpTo(fb + [Decoded(n)], k)
  {}

  lemma PaintedRaw(fb: seq<Write>, after: nat)
    requires InOrder(fb)
    ensures InOrder(fb + [RawRect(after)]) && Last(fb + [RawRect(after)]) == Last(fb)
    ensures forall k | DecodedBelow(fb, k) :: DecodedBelow(fb + [RawRect(after)], k)
    ensures Clean(fb) ==> Clean(fb + [RawRect(after)])
    ensures RawUpTo(fb, after) ==> RawUpTo(fb + [RawRect(after)], after)
  {
    assert (fb + [RawRect(after)])[..|fb|] == fb;
  }

  lemma Wider(fb: seq<Write>)
    ensures forall k, k' | DecodedBelow(fb, k) && k <= k' :: DecodedBelow(fb, k')
    ensures forall k, k' | RawUpTo(fb, k) && k <= k' :: RawUpTo(fb, k')
  {}

  // -------------------------------------------------------- preservation

  ghost predicate Good(s: State) {
    Queued(s) && Newest(s) && Quiet(s)
  }

  lemma ReceiveGood(s: State, a: Receive)
    requires Good(s) && MayReceive(s, a)
    ensures Good(Received(s, a))
  {
    hide InOrder, Clean, DecodedBelow, RawUpTo, Last;
    if a.Paint? {
      PaintedRaw(s.fb, s.decoded);
    }
  }

  lemma RowsGood(s: State)
    requires Good(s) && MayBlit(s, Rows)
    ensures Good(Blitted(s, Rows))
  {
    hide InOrder, Clean, DecodedBelow, RawUpTo, Last;
    Wider(s.fb);
    Landed(s.fb, s.busy.value.n);
  }

  lemma TakeGood(s: State)
    requires Good(s) && MayBlit(s, Take)
    ensures Good(Blitted(s, Take))
  {
    hide InOrder, Clean, DecodedBelow, RawUpTo, Last;
    Wider(s.fb);
  }

  lemma ReleaseGood(s: State, ok: bool)
    requires Good(s) && MayBlit(s, Release(ok))
    ensures Good(Blitted(s, Release(ok)))
  {
    hide InOrder, Clean, DecodedBelow, RawUpTo, Last;
  }

  lemma DoneGood(s: State)
    requires Good(s) && MayBlit(s, Done)
    ensures Good(Blitted(s, Done))
  {
    hide InOrder, Clean, DecodedBelow, RawUpTo, Last;
    Wider(s.fb);
  }

  lemma BlitGood(s: State, a: Blitter)
    requires Good(s) && MayBlit(s, a)
    ensures Good(Blitted(s, a))
  {
    hide Good, MayBlit, Blitted;
    match a
    case Rows => RowsGood(s);
    case Take => TakeGood(s);
    case Release(ok) => ReleaseGood(s, ok);
    case Done => DoneGood(s);
  }

  lemma PaintGood(s: State, ok: bool)
    requires Good(s) && s.pc.Emitting? && !s.Asynchronous()
    ensures Good(PaintedInline(s, s.pc.frame, s.pc.eos, ok))
  {
    hide InOrder, Clean, DecodedBelow, RawUpTo, Last;
    Wider(s.fb);
    Landed(s.fb, s.pc.frame.n);
  }

  lemma MailGood(s: State, ok: bool)
    requires Good(s) && s.pc.Emitting? && s.Asynchronous()
    ensures Good(Mailed(s, s.pc.frame, s.pc.eos, ok))
  {
    hide InOrder, Clean, DecodedBelow, RawUpTo, Last;
    Wider(s.fb);
  }

  lemma ThreadGood(s: State, starts: bool)
    requires Good(s) && s.thread.None?
    ensures Good(s.(thread := Some(starts)))
  {
    hide InOrder, Clean, DecodedBelow, RawUpTo, Last;
  }

  lemma FrameGood(s: State, buf: nat, ok: bool, last: bool)
    requires Good(s) && s.pc.Draining? && s.undelivered > 0 && (last ==> s.pc.eos && s.undelivered == 1)
    ensures Good(GotFrame(s, buf, ok).(sawLast := s.sawLast || last))
  {
    hide InOrder, Clean, DecodedBelow, RawUpTo, Last;
    Wider(s.fb);
  }

  lemma EmptyGood(s: State, buf: nat, ok: bool, last: bool)
    requires Good(s) && s.pc.Draining? && (last ==> s.pc.eos && s.undelivered == 0)
    ensures Good(GotEmpty(s, buf, ok).(sawLast := s.sawLast || last))
  {
    hide InOrder, Clean, DecodedBelow, RawUpTo, Last;
    Wider(s.fb);
  }

  lemma LeaveGood(s: State, a: Drain)
    requires Good(s) && MayDrain(s, a) && (a.NoMore? || a.BadIndex?)
    ensures Good(Drained(s, a))
  {
    hide InOrder, Clean, DecodedBelow, RawUpTo, Last, GotEmpty, GotFrame, Emitted;
    Wider(s.fb);
  }

  lemma DrainGood(s: State, a: Drain)
    requires Good(s) && MayDrain(s, a)
    ensures Good(Drained(s, a))
  {
    hide Good, GotEmpty, GotFrame, Mailed, PaintedInline;
    match a
    case Dequeue(buf, empty, last, ok) =>
      if empty {
        EmptyGood(s, buf, ok, last);
      } else {
        FrameGood(s, buf, ok, last);
      }
    case Emit(starts, ok) =>
      if s.thread.None? {
        ThreadGood(s, starts);
      }
      var t := if s.thread.None? then s.(thread := Some(starts)) else s;
      if t.Asynchronous() {
        MailGood(t, ok);
      } else {
        PaintGood(t, ok);
      }
    case _ => LeaveGood(s, a);
  }

  lemma StopGood(s: State)
    requires Good(s)
    ensures Good(s.(stop := true))
  {
    hide InOrder, Clean, DecodedBelow, RawUpTo, Last;
  }

  lemma NextGood(s: State, a: Act)
    requires Good(s)
    ensures Good(Next(s, a))
  {
    hide Good, Received, Drained, Blitted, MayReceive, MayDrain, MayBlit;
    if Enabled(s, a) {
      match a
      case Main(r) => ReceiveGood(s, r);
      case Decoder(d) => DrainGood(s, d);
      case Thread(b) => BlitGood(s, b);
      case Stop => StopGood(s);
    }
  }

  lemma {:induction false} RunGood(nbufs: nat, acts: seq<Act>)
    ensures var s := Run(Start(nbufs), acts); Conserved(s) && s.nbufs == nbufs && Good(s)
  {
    hide Conserved, Good, Next;
    if acts == [] {
      StartGood(nbufs);
    } else {
      RunGood(nbufs, acts[..|acts| - 1]);
      var s := Run(Start(nbufs), acts[..|acts| - 1]);
      NextConserves(s, acts[|acts| - 1]);
      NextGood(s, acts[|acts| - 1]);
    }
  }

  lemma StartGood(nbufs: nat)
    ensures Conserved(Start(nbufs)) && Good(Start(nbufs)) && Start(nbufs).nbufs == nbufs
  {}

  // ------------------------------------------------------------- results

  /** In every interleaving each capture buffer is in exactly one place. */
  lemma OnePlace(nbufs: nat, acts: seq<Act>, b: nat)
    requires b < nbufs
    ensures Places(Run(Start(nbufs), acts), b) == 1
  {
    hide Places, Good, Run, Start;
    RunGood(nbufs, acts);
  }

  lemma FineLosesNothing(s: State, a: Act)
    requires s.lost == {} && a.Fine()
    ensures Next(s, a).lost == {}
  {
    hide MayReceive, MayDrain, MayBlit, Drained;
    if Enabled(s, a) && a.Decoder? {
      FineDrain(s, a.d);
    }
  }

  lemma FineDrain(s: State, d: Drain)
    requires s.lost == {} && MayDrain(s, d) && Decoder(d).Fine()
    ensures Drained(s, d).lost == {}
  {}

  /** As long as no ioctl fails no buffer is ever lost. */
  lemma {:induction false} NoneLost(nbufs: nat, acts: seq<Act>)
    requires forall i | 0 <= i < |acts| :: acts[i].Fine()
    ensures Run(Start(nbufs), acts).lost == {}
  {
    hide Next, Act.Fine;
    if acts != [] {
      NoneLost(nbufs, acts[..|acts| - 1]);
      FineLosesNothing(Run(Start(nbufs), acts[..|acts| - 1]), acts[|acts| - 1]);
    }
  }

  /** Decoded frames land in decode order, and when everything is handed over
      the newest one has landed, however many were dropped on the way. */
  lemma ShownInOrder(nbufs: nat, acts: seq<Act>)
    ensures var s := Run(Start(nbufs), acts);
      && InOrder(s.fb)
      && (s.pc == Loop && s.Still() ==> Last(s.fb) == s.decoded - 1)
  {
    hide Conserved, InOrder, Run, Start, Last, Quiet;
    RunGood(nbufs, acts);
  }

  /** No decoded frame ever lands over a RAW rect that was painted after the
      frame was dequeued: the snapshot that closes an episode stays. */
  lemma SnapshotStays(nbufs: nat, acts: seq<Act>)
    ensures Clean(Run(Start(nbufs), acts).fb)
  {
    hide Conserved, Clean, Run, Start, Queued, Newest;
    RunGood(nbufs, acts);
  }

  /** When the capture buffers are unmapped the blit thread holds no frame,
      unless the wait for it was cut short by a stop request. */
  lemma ClosedIsStill(nbufs: nat, acts: seq<Act>)
    requires Run(Start(nbufs), acts).pc == Closed
    ensures Run(Start(nbufs), acts).Still() || Run(Start(nbufs), acts).stop
  {
    hide Conserved, Clean, Run, Start, Queued, Newest;
    RunGood(nbufs, acts);
  }

  lemma RunSnoc(s: State, acts: seq<Act>, a: Act)
    ensures Run(s, acts + [a]) == Next(Run(s, acts), a)
  {
    hide Next;
    assert (acts + [a])[..|acts|] == acts;
  }

  /** The first frame, dequeued and handed to the blit thread. */
  function OneFrame(): State {
    Start(2).(driver := {1}, undelivered := 0, episode := true, thread := Some(true), busy := Some(Frame(0, 0)), decoded := 1)
  }

  lemma OneFrameReached() returns (acts: seq<Act>)
    ensures Run(Start(2), acts) == OneFrame()
  {
    hide Run;
    var s := Start(2);
    assert Run(s, []) == s by { RunNothing(s); }
    var f := Frame(0, 0);
    var s1 := s.(undelivered := 1, episode := true);
    acts := Then([], s, Main(Feed(1)), s1);
    var s2 := s1.(pc := Draining(false, None));
    acts := Then(acts, s1, Main(Pump), s2);
    var s3 := s2.(driver := {1}, undelivered := 0, decoded := 1, pc := Draining(false, Some(f)));
    assert s2.driver - {0} == {1};
    acts := Then(acts, s2, Decoder(Dequeue(0, false, false, true)), s3);
    var s4 := s3.(pc := Emitting(false, f));
    acts := Then(acts, s3, Decoder(NoMore(false)), s4);
    var s5 := s4.(pc := Loop, thread := Some(true), box := Some(f));
    acts := Then(acts, s4, Decoder(Emit(true, true)), s5);
    acts := Then(acts, s5, Thread(Take), OneFrame());
  }

  /** The frame landed and its buffer is with the driver again. */
  function FrameShown(): State {
    OneFrame().(driver := {0, 1}, busy := None, stage := Released, fb := [Decoded(0)])
  }

  lemma FrameLands() returns (acts: seq<Act>)
    ensures Run(Start(2), acts) == FrameShown()
  {
    hide Run;
    acts := OneFrameReached();
    var s := OneFrame();
    var s1 := s.(fb := [Decoded(0)], stage := Painting);
    acts := Then(acts, s, Thread(Rows), s1);
    var s2 := s1.(driver := {0, 1}, stage := Released);
    assert s1.driver + {0} == {0, 1};
    acts := Then(acts, s1, Thread(Release(true)), s2);
    acts := Then(acts, s2, Thread(Done), FrameShown());
  }

  /** A whole episode goes through: its frame lands, the snapshot over it, and
      every buffer is with the driver again. */
  lemma EpisodeEnds() returns (acts: seq<Act>)
    ensures var s := Run(Start(2), acts);
      s.pc == Loop && !s.episode && s.Still() && s.driver == {0, 1} && s.fb == [Decoded(0), RawRect(1)]
  {
    hide Run;
    acts := FrameLands();
    var s := FrameShown();
    var s1 := s.(pc := EosDrain, sawLast := false);
    acts := Then(acts, s, Main(Eos), s1);
    var s2 := s1.(pc := Draining(true, None));
    acts := Then(acts, s1, Main(EosPump), s2);
    var s3 := s2.(sawLast := true);
    acts := Then(acts, s2, Decoder(Dequeue(0, true, true, true)), s3);
    var s4 := s3.(pc := EosDrain);
    acts := Then(acts, s3, Decoder(NoMore(false)), s4);
    var s5 := s4.(pc := Syncing(false));
    acts := Then(acts, s4, Main(EosDone(true)), s5);
    var s6 := s5.(pc := Loop, episode := false);
    acts := Then(acts, s5, Main(Receive.Synced), s6);
    acts := Then(acts, s6, Main(Paint), s6.(fb := [Decoded(0), RawRect(1)]));
  }

  /** A stop request really can leave the blit thread with a frame whose
      buffer is gone. */
  lemma StopCutsShort() returns (acts: seq<Act>)
    ensures var s := Run(Start(2), acts); s.pc == Closed && s.busy == Some(Frame(0, 0)) && s.stage == Fetched
  {
    hide Run;
    acts := OneFrameReached();
    var s := OneFrame();
    var s1 := s.(pc := Syncing(true));
    acts := Then(acts, s, Main(Hangup), s1);
    var s2 := s1.(stop := true);
    acts := Then(acts, s1, Stop, s2);
    acts := Then(acts, s2, Main(Receive.Synced), s2.(pc := Closed));
  }

  lemma RunNothing(s: State)
    ensures Run(s, []) == s
  {}

  lemma Then(acts: seq<Act>, s: State, a: Act, s': State) returns (acts': seq<Act>)
    requires s == Run(Start(2), acts) && s' == Next(s, a)
    ensures acts' == acts + [a] && s' == Run(Start(2), acts')
  {
    RunSnoc(Start(2), acts, a);
    acts' := acts + [a];
  }
}
