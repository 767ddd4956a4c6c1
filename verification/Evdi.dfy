/** The EVDI source: a grabbed desktop, the composed cursor and the transmit
    engine over one frame buffer. */
module Evdi {
  import opened Common
  import opened Pixels
  import opened Geometry
  import opened Stream
  import opened TxState
  import opened Xmit
  import opened Cursor

  /** What the kernel and the compositor may do to a screen, and what the
      controller answers when the damage is handed on. */
  datatype Change =
    | Grabbed(rects: seq<Rect>, next: Desktop)
    | CursorShape(cs: CursorSet)
    | CursorAt(x: int, y: int)

  class Screen {
    const overlay: Overlay
    const tx: Client

    ghost predicate Valid()
      reads this, overlay, overlay.grabbuf, tx, tx.grabbuf, tx.shadowbuf
    {
      && overlay.Valid() && tx.Valid() && Wiring()
      && (overlay.Synced() || AllUnreported())
      && forall p <- tx.unreported :: overlay.InFrame(p.0, p.1)
    }

    ghost predicate Wiring()
    {
      && tx.grabbuf == overlay.grabbuf && tx.shadowbuf != tx.grabbuf
      && overlay.width == tx.cfg.width && overlay.height == tx.cfg.height
    }

    /** Nothing was reported yet. */
    ghost predicate AllUnreported()
      reads this, tx`unreported
    {
      forall x, y | overlay.InFrame(x, y) :: (x, y) in tx.unreported
    }

    constructor (overlay: Overlay, tx: Client)
      requires overlay.Valid() && tx.Valid()
      requires tx.grabbuf == overlay.grabbuf && tx.shadowbuf != tx.grabbuf
      requires overlay.width == tx.cfg.width && overlay.height == tx.cfg.height
      requires forall x, y :: (x, y) in tx.unreported <==> overlay.InFrame(x, y)
      ensures Valid() && this.overlay == overlay && this.tx == tx
    {
      hide Client.Valid, Overlay.Valid;
      this.overlay, this.tx := overlay, tx;
    }

    /** Applies a change to the frame and names the rects to report. */
    method Compose(e: Change) returns (damage: seq<Rect>, ghost changed: iset<(int, int)>)
      requires overlay.Valid() && Possible(e)
      modifies overlay, overlay.grabbuf
      ensures overlay.Valid() && overlay.Synced() && overlay.Shape()
      ensures forall p <- changed :: overlay.InFrame(p.0, p.1)
      ensures forall x, y | overlay.InFrame(x, y) && overlay.grabbuf[y, x] != old(overlay.grabbuf[y, x]) :: (x, y) in changed
      ensures old(overlay.Synced()) ==> changed <= Areas(damage, |damage|)
      ensures e.Grabbed? ==> damage == e.rects
      ensures overlay.desk == if e.Grabbed? then e.next else old(overlay.desk)
    {
      hide Overlay.Synced, Areas, Plane.Valid, Saved, Overlay.Composed;
      match e {
      case Grabbed(rects, next) =>
        overlay.Grab(rects, next);
        damage := rects;
      case CursorShape(cs) =>
        damage := overlay.Set(cs);
      case CursorAt(x, y) =>
        damage := overlay.Move(x, y);
      }
      changed := iset p: (int, int) | overlay.InFrame(p.0, p.1) && overlay.grabbuf[p.1, p.0] != old(overlay.grabbuf[p.1, p.0]);
    }

    /** The kernel changes the desktop only inside the rects of a grab. */
    ghost predicate Possible(e: Change)
      reads this, overlay
    {
      e.Grabbed? ==>
        && AllInside(e.rects, overlay.width, overlay.height)
        && forall x, y | overlay.InFrame(x, y) && (x, y) !in Areas(e.rects, |e.rects|) :: e.next(y, x) == overlay.desk(y, x)
    }

    /** The rects of a grab cover the screen. */
    ghost predicate CoversScreen(e: Change) {
      e.Grabbed? && forall x, y | overlay.InFrame(x, y) :: (x, y) in Areas(e.rects, |e.rects|)
    }

    /** A grab or a cursor event. What the engine has not been told of only
        ever shrinks, by the rects of each grab; one grab of the whole screen
        and nothing is left. */
    method Update(e: Change, ctl: Decision)
      requires Valid() && Possible(e) && (ctl.Switch? && ctl.mode == H264 ==> tx.cfg.h264)
      modifies overlay, overlay.grabbuf, tx
      ensures Valid() && overlay.Synced()
      ensures overlay.desk == if e.Grabbed? then e.next else old(overlay.desk)
      ensures old(tx.alive) ==> tx.unreported <= old(tx.unreported)
      ensures old(tx.alive) && e.Grabbed? ==> tx.unreported <= old(tx.unreported) - Areas(e.rects, |e.rects|)
      ensures old(tx.alive) && CoversScreen(e) ==> tx.unreported == iset{}
    {
      hide Client.Wired, Content, Overlay.Valid, Overlay.Synced, Overlay.Shape, Areas;
      var damage, changed := Compose(e);
      tx.unreported := tx.unreported + changed;
      tx.Changed();
      if tx.alive {
        tx.Damage(damage, ctl);
      }
    }

    /** The cursor is where it should be seen, so the frame is the desktop
        with the plane on top. */
    lemma FrameIsComposed(x: nat, y: nat)
      requires overlay.Valid() && overlay.Synced() && overlay.InFrame(x, y)
      ensures overlay.grabbuf[y, x] == overlay.plane.Over(x, y, overlay.desk(y, x))
    {
      hide Blend, Saved;
      OutsideClip(overlay.plane, overlay.width, overlay.height);
    }
  }

  /** From the desktop to the remote screen: once everything was reported and
      the engine is at rest in RAW mode, the receiver shows the desktop with
      the cursor on top, pixel for pixel. */
  lemma ScreenFollowsDesktop(s: Screen)
    requires s.Valid() && s.overlay.Synced() && s.tx.unreported == iset{}
    requires s.tx.alive && s.tx.mode == Raw && !s.tx.Work()
    ensures s.overlay.Shape() && s.overlay.Seen()
    ensures forall x, y | s.overlay.InFrame(x, y) ::
              var p := s.overlay.plane.Over(x, y, s.overlay.desk(y, x));
              var log := Take(s.tx.cfg, s.tx.sent).msgs;
              && Shown(s.tx.cfg, log, x, y) == Some(WirePixel(s.tx.cfg.fmt, s.tx.dither, p, x, y))
              && p == s.overlay.grabbuf[y, x] && Presents(s.tx.cfg, s.tx.dither, log, x, y, p)
  {
    hide Shown, Presents, Take, WirePixel, Content, Client.Wired, Plane.Over, Saved, Overlay.Composed, Overlay.Synced, Overlay.Seen;
    s.tx.NotCut();
    s.tx.Converged();
    s.overlay.SyncedSeen();
    forall x, y | s.overlay.InFrame(x, y)
      ensures s.overlay.grabbuf[y, x] == s.overlay.plane.Over(x, y, s.overlay.desk(y, x))
    {
      s.FrameIsComposed(x, y);
    }
  }
}
