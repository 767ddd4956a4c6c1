/** The KVM source: captured frames fanned out, at scale 1, to a client's
    frame buffer and its transmit engine. */
module Kvm {
  import opened Common
  import opened Wire
  import opened Pixels
  import opened Geometry
  import opened Stream
  import opened TxState
  import opened Xmit
  import opened Tiles
  import opened TileRects
  import opened Convert
  import opened Capture

  const UNBLANK: Message := Message(Header(ENC_UNBLANK, 0, 0, 0, 0, 0, 0), [])

  class Feed {
    const cap: Grabber
    const tx: Client
    var repaint: bool                // whole frame and UNBLANK at the next frame

    ghost predicate Wiring() {
      && tx.grabbuf != cap.master && tx.shadowbuf != cap.master && tx.shadowbuf != tx.grabbuf
      && cap.s.w == tx.cfg.width && cap.s.h == tx.cfg.height
      && (cap.s.rgb || cap.s.tile % 2 == 0)
    }

    /** The client's frame is the master image. */
    ghost predicate Same()
      requires MasterOk(cap.s, cap.master) && MasterOk(cap.s, tx.grabbuf)
      reads cap.master, tx.grabbuf
    {
      forall x, y | 0 <= x < cap.s.w && 0 <= y < cap.s.h :: tx.grabbuf[y, x] == cap.master[y, x]
    }

    ghost predicate Shape()
    {
      MasterOk(cap.s, cap.master) && MasterOk(cap.s, tx.grabbuf)
    }

    ghost predicate Valid()
      reads this, cap, cap.master, tx, tx.grabbuf, tx.shadowbuf
    {
      && Shape() && Wiring() && cap.Valid() && tx.Valid()
      && (!repaint ==> Same())
    }

    constructor (cap: Grabber, tx: Client, repaint: bool)
      requires MasterOk(cap.s, cap.master) && MasterOk(cap.s, tx.grabbuf) && cap.Valid() && tx.Valid()
      requires tx.grabbuf != cap.master && tx.shadowbuf != cap.master && tx.shadowbuf != tx.grabbuf
      requires cap.s.w == tx.cfg.width && cap.s.h == tx.cfg.height && (cap.s.rgb || cap.s.tile % 2 == 0)
      requires !repaint ==> forall x, y | 0 <= x < cap.s.w && 0 <= y < cap.s.h :: tx.grabbuf[y, x] == cap.master[y, x]
      ensures Valid() && this.cap == cap && this.tx == tx && this.repaint == repaint
    {
      hide Grabber.Valid, Client.Valid;
      this.cap, this.tx, this.repaint := cap, tx, repaint;
    }

    /** Copies one rect of the master image, cut to the frame; false when
        nothing of it is inside. */
    method BlitRect(r: Rect) returns (did: bool, out: Rect)
      requires Shape() && Wiring()
      modifies tx.grabbuf
      ensures out == Rect(Max(r.x1, 0), Max(r.y1, 0), Min(r.x2, cap.s.w), Min(r.y2, cap.s.h))
      ensures did == (out.x1 < out.x2 && out.y1 < out.y2)
      ensures forall x, y | 0 <= x < cap.s.w && 0 <= y < cap.s.h ::
                tx.grabbuf[y, x] == if out.Has(x, y) then cap.master[y, x] else old(tx.grabbuf[y, x])
    {
      out := Rect(Max(r.x1, 0), Max(r.y1, 0), Min(r.x2, cap.s.w), Min(r.y2, cap.s.h));
      did := out.x1 < out.x2 && out.y1 < out.y2;
      if !did { return; }
      for y := out.y1 to out.y2
        invariant forall x, i | 0 <= x < cap.s.w && 0 <= i < cap.s.h ::
                    tx.grabbuf[i, x] == if out.Has(x, i) && i < y then cap.master[i, x] else old(tx.grabbuf[i, x])
      {
        forall x | out.x1 <= x < out.x2 {
          tx.grabbuf[y, x] := cap.master[y, x];
        }
      }
    }

    /** All rects of a frame. */
    method BlitAll(rects: seq<Rect>) returns (out: seq<Rect>)
      requires Shape() && Wiring() && AllInside(rects, cap.s.w, cap.s.h)
      modifies tx.grabbuf
      ensures out == rects
      ensures forall x, y | 0 <= x < cap.s.w && 0 <= y < cap.s.h ::
                tx.grabbuf[y, x] == if (x, y) in Areas(rects, |rects|) then cap.master[y, x] else old(tx.grabbuf[y, x])
    {
      hide Areas;
      out := [];
      for i := 0 to |rects|
        invariant out == rects[..i]
        invariant forall x, y | 0 <= x < cap.s.w && 0 <= y < cap.s.h ::
                    tx.grabbuf[y, x] == if (x, y) in Areas(rects, i) then cap.master[y, x] else old(tx.grabbuf[y, x])
      {
        AreasStep(rects, i);
        var did, r := BlitRect(rects[i]);
        if did {
          out := out + [r];
        }
      }
    }

    /** Whole frame, UNBLANK, everything dirty. */
    method RepaintClient()
      requires Shape() && Wiring() && tx.Valid()
      modifies this`repaint, tx, tx.grabbuf
      ensures tx.Valid() && Same() && !repaint && tx.unreported == iset{}
      ensures tx.alive ==> tx.dirtyAll && tx.armed && tx.outq == old(tx.outq) + [UNBLANK]
    {
      hide Client.Valid;
      repaint := false;
      FillAll();
      UnblankIsControl();
      tx.Control(UNBLANK);
      tx.Repaint();
    }

    method FillAll()
      requires Shape() && Wiring() && tx.Valid()
      modifies tx`unreported, tx.grabbuf
      ensures tx.Valid() && Same()
    {
      hide Client.Wired, Content, Config.Valid;
      var full := Rect(0, 0, cap.s.w, cap.s.h);
      var did, out := BlitRect(full);
      tx.unreported := tx.unreported + Area(full);
      tx.Changed();
    }

    /** The changed rects only, then the damage report. */
    method PassOn(rects: seq<Rect>, ctl: Decision)
      requires Shape() && Wiring() && tx.Valid() && AllInside(rects, cap.s.w, cap.s.h)
      requires ctl.Switch? && ctl.mode == H264 ==> tx.cfg.h264
      modifies tx, tx.grabbuf
      ensures tx.Valid() && tx.unreported <= old(tx.unreported)
      ensures ctl.Stay? ==> tx.outq == old(tx.outq) && tx.order == old(tx.order) && tx.mode == old(tx.mode)
      ensures rects == [] ==> Idle()
      ensures ctl.Stay? && old(tx.Roomy(rects, 0)) ==> !tx.dirtyAll && GrowsIn(old(tx.dirty), tx.dirty, Areas(rects, |rects|))
      ensures forall x, y | 0 <= x < cap.s.w && 0 <= y < cap.s.h ::
                tx.grabbuf[y, x] == if (x, y) in Areas(rects, |rects|) then cap.master[y, x] else old(tx.grabbuf[y, x])
    {
      hide Client.Valid, Areas, Apart, GrowsIn;
      var out := CopyRects(rects);
      if out != [] {
        tx.Damage(out, ctl);
      } else {
        GrowsNot(tx.dirty, Areas(rects, |rects|));
      }
    }

    /** The engine was not told anything. */
    twostate predicate Idle()
      reads tx
    {
      && tx.dirty == old(tx.dirty) && tx.dirtyAll == old(tx.dirtyAll) && tx.armed == old(tx.armed)
      && tx.outq == old(tx.outq) && tx.order == old(tx.order) && tx.mode == old(tx.mode)
    }

    method CopyRects(rects: seq<Rect>) returns (out: seq<Rect>)
      requires Shape() && Wiring() && tx.Valid() && AllInside(rects, cap.s.w, cap.s.h)
      modifies tx`unreported, tx.grabbuf
      ensures tx.Valid() && out == rects && tx.unreported == old(tx.unreported) + Areas(rects, |rects|)
      ensures forall x, y | 0 <= x < cap.s.w && 0 <= y < cap.s.h ::
                tx.grabbuf[y, x] == if (x, y) in Areas(rects, |rects|) then cap.master[y, x] else old(tx.grabbuf[y, x])
    {
      hide Client.Wired, Content, Areas;
      out := BlitAll(rects);
      tx.unreported := tx.unreported + Areas(rects, |rects|);
      tx.Changed();
    }

    /** A captured frame. The client's frame then is the master image, and
        nothing that moved goes unreported. Unless the client waits for its
        first full picture only what changed is sent: nothing at all for a
        frame like the one before, and no tile without a change as long as
        the rects fit and keep apart. */
    method OnFrame(idx: nat, accepted: bool, ctl: Decision) returns (ghost rects: seq<Rect>)
      requires Valid() && idx < |cap.bufs| && cap.queued[idx]
      requires ctl.Switch? && ctl.mode == H264 ==> tx.cfg.h264
      modifies this`repaint, cap, cap.grid, cap.master, tx, tx.grabbuf
      ensures Valid() && cap.prev == idx && !repaint && Same()
      ensures tx.unreported <= old(tx.unreported) && (old(repaint) ==> tx.unreported == iset{})
      ensures old(repaint) && tx.alive ==> tx.dirtyAll && tx.armed && tx.outq == old(tx.outq) + [UNBLANK]
      ensures !old(repaint) && ctl.Stay? ==> tx.outq == old(tx.outq) && tx.order == old(tx.order) && tx.mode == old(tx.mode)
      ensures old(!repaint && cap.prev >= 0 && cap.bufs[idx] == cap.bufs[cap.prev]) ==>
                Idle() && forall x, y | 0 <= x < cap.s.w && 0 <= y < cap.s.h :: tx.grabbuf[y, x] == old(tx.grabbuf[y, x])
      ensures Reports(cap.s, cap.bufs[idx], old(cap.Retained()), rects)
      ensures |GridBlocks(cap.grid)| <= MAX_RECTS ==> Precise(cap.s, cap.bufs[idx], old(cap.Retained()), rects)
      ensures !old(repaint) && ctl.Stay? && old(tx.Roomy(rects, 0)) && |GridBlocks(cap.grid)| <= MAX_RECTS ==>
                !tx.dirtyAll && OnlyChanged(cap.s, cap.bufs[idx], old(cap.Retained()), old(tx.dirty), tx.dirty)
    {
      hide Client.Valid, Client.Roomy, Shows, Areas, Covered, Reports, Precise, GridBlocks, GrowsIn,
           OnlyChanged;
      ghost var was, waiting := cap.Retained(), tx.dirty;
      var rs := cap.FrameReady(idx, accepted);
      rects := rs;
      ghost var roomy := tx.Roomy(rs, 0);
      if repaint {
        RepaintClient();
        return;
      }
      PassOn(rs, ctl);
      CoveredAreas(rs);
      if ctl.Stay? && roomy && |GridBlocks(cap.grid)| <= MAX_RECTS {
        GrowsWhereChanged(cap.s, cap.bufs[idx], was, rs, waiting, tx.dirty);
      }
    }
  }

  /** Every pixel that waits did so before, or lies in a tile that changed. */
  ghost predicate OnlyChanged(s: Source, cur: Frame, prev: Option<Frame>, before: seq<Rect>, after: seq<Rect>)
    requires s.Valid() && FrameOk(s, cur) && (prev.Some? ==> FrameOk(s, prev.value))
  {
    forall x: nat, y: nat | x < s.w && y < s.h && Covered(after, x, y) ::
      Covered(before, x, y) || TileChanged(s, cur, prev, x / s.tile, y / s.tile)
  }

  lemma GrowsWhereChanged(s: Source, cur: Frame, prev: Option<Frame>, rects: seq<Rect>, before: seq<Rect>, after: seq<Rect>)
    requires s.Valid() && FrameOk(s, cur) && (prev.Some? ==> FrameOk(s, prev.value))
    requires GrowsIn(before, after, Areas(rects, |rects|)) && Precise(s, cur, prev, rects)
    ensures OnlyChanged(s, cur, prev, before, after)
  {
    hide Covered, TileChanged, Areas;
    CoveredAreas(rects);
  }

  lemma UnblankIsControl()
    ensures IsControl(UNBLANK)
  {}

  lemma CoveredAreas(rects: seq<Rect>)
    ensures forall x, y :: (x, y) in Areas(rects, |rects|) <==> Covered(rects, x, y)
  {
    forall x, y
      ensures (x, y) in Areas(rects, |rects|) <==> Covered(rects, x, y)
    {
      AreasMeaning(rects, |rects|, x, y);
    }
  }

  /** From captured bytes to the remote screen: once the engine is at rest in
      RAW mode, every convertible pixel the receiver shows is the conversion
      of the last captured frame. */
  lemma ScreenFollowsCapture(f: Feed)
    requires f.Valid() && !f.repaint && f.cap.prev >= 0 && f.tx.unreported == iset{}
    requires f.tx.alive && f.tx.mode == Raw && !f.tx.Work()
    ensures forall x, y | Converts(f.cap.s, x) && 0 <= y < f.cap.s.h ::
              var p := Conv(f.cap.s, f.cap.full, f.cap.bufs[f.cap.prev], x, y);
              var log := Take(f.tx.cfg, f.tx.sent).msgs;
              && Shown(f.tx.cfg, log, x, y) == Some(WirePixel(f.tx.cfg.fmt, f.tx.dither, p, x, y))
              && Presents(f.tx.cfg, f.tx.dither, log, x, y, p)
              && Coloured(f.cap.s, f.cap.full, f.cap.bufs[f.cap.prev], x, y, p)
  {
    hide Shown, Presents, Take, WirePixel, Conv, Coloured, Content, Client.Wired, Source.Valid, Source.TilesX, Source.TilesY;
    f.tx.NotCut();
    f.tx.Converged();
    forall x: nat, y: nat | Converts(f.cap.s, x) && y < f.cap.s.h
      ensures Coloured(f.cap.s, f.cap.full, f.cap.bufs[f.cap.prev], x, y, Conv(f.cap.s, f.cap.full, f.cap.bufs[f.cap.prev], x, y))
    {
      ConvColoured(f.cap.s, f.cap.full, f.cap.bufs[f.cap.prev], x, y);
    }
  }
}
