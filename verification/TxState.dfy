/** The abstract state of one client's transmit engine, its invariant, and
    what every step of the engine does to it. */
module TxState {
  import opened Common
  import opened Wire
  import opened Pixels
  import opened Geometry
  import opened Stream

  const DIRTY_MAX: nat := 16

  datatype Mode = Raw | H264

  const EOS: Message := Message(Header(ENC_H264_EOS, 0, 0, 0, 0, 0, 0), [])

  predicate IsControl(m: Message) {
    && m.WellFormed()
    && m.hdr.encoding in {ENC_BLANK, ENC_UNBLANK, ENC_PING}
    && m.hdr.len == (if m.hdr.encoding == ENC_PING then 8 else 0)
  }

  /** `order` is every message in submission order; `unreported` the pixels
      the source changed but did not report as damage yet; `swallowed` says
      that the encoder once answered a forced IDR with nothing, `cut` that
      H.264 was left in an open episode when the end of episode could no
      longer be queued. */
  datatype Tx = Tx(cfg: Config, dither: bool, alive: bool, mode: Mode, encOpen: bool, failed: bool,
                   forceIdr: bool, all: bool, dirty: seq<Rect>, order: seq<Message>,
                   unreported: iset<(int, int)>, swallowed: bool, cut: bool)
  {
    /** Whether pixel (x, y) waits to be sent. */
    ghost predicate Waits(x: int, y: int) {
      all || exists i | 0 <= i < |dirty| :: dirty[i].Has(x, y)
    }

    ghost predicate InFrame(x: int, y: int) { 0 <= x < cfg.width && 0 <= y < cfg.height }

    function WireAt(p: Pixel, x: nat, y: nat): nat { WirePixel(cfg.fmt, dither, p, x, y) }

    ghost function Phase(): Phase { PhaseOf(cfg, order) }
  }

  ghost predicate Framebuffer<T>(cfg: Config, fb: array2<T>) {
    fb.Length0 == cfg.height && fb.Length1 == cfg.width
  }

  // ----------------------------------------------------------- invariant

  /** Every reported difference from the shadow waits to be sent. */
  ghost predicate DamageKept(t: Tx, grab: array2<Pixel>, shadow: array2<Pixel>)
    requires Framebuffer(t.cfg, grab) && Framebuffer(t.cfg, shadow)
    reads grab, shadow
  {
    forall x, y | t.InFrame(x, y) && (x, y) !in t.unreported && grab[y, x] != shadow[y, x] :: t.Waits(x, y)
  }

  /** Every pixel that does not wait shows the shadow, as soon as everything
      submitted is delivered. */
  ghost predicate Mirrors(t: Tx, shadow: array2<Pixel>)
    requires Framebuffer(t.cfg, shadow)
    reads shadow
  {
    forall x, y | t.InFrame(x, y) && !t.Waits(x, y) ::
      Shown(t.cfg, t.order, x, y) == Some(t.WireAt(shadow[y, x], x, y))
  }

  /** How the transmit mode and the messages submitted so far fit together:
      each way to break the grammar has its one cause. */
  ghost predicate Episodes(t: Tx) {
    && (Loose(t.cfg, t.order) ==> t.swallowed)
    && (Stray(t.cfg, t.order) ==> t.cut)
    && !Partial(t.cfg, t.order)
    && (t.mode == Raw && t.Phase() == Open ==> t.cut)
    && (t.mode == Raw && t.Phase() == Ended ==> t.all)
    && (t.mode == H264 ==> t.Phase() == Open || t.forceIdr || t.swallowed)
    && (t.cut ==> !t.alive && t.Phase() == Open)
  }

  ghost predicate DirtyOk(t: Tx) {
    |t.dirty| <= DIRTY_MAX && AllInside(t.dirty, t.cfg.width, t.cfg.height)
  }

  /** The invariant of the picture side. It does not depend on `alive`: with
      a teardown scheduled frames still go out while the write watch lasts,
      only control messages are dropped. */
  ghost predicate Content(t: Tx, grab: array2<Pixel>, shadow: array2<Pixel>)
    reads grab, shadow
  {
    && t.cfg.Valid()
    && Framebuffer(t.cfg, grab) && Framebuffer(t.cfg, shadow) && grab != shadow
    && DirtyOk(t)
    && DamageKept(t, grab, shadow)
    && (t.mode == Raw && t.Phase() != Open ==> Mirrors(t, shadow))
    && Episodes(t)
    && (t.mode == H264 ==> t.encOpen && t.cfg.h264)
    && AllAccepted(t.cfg, t.order)
  }

  lemma ContentShape(t: Tx, grab: array2<Pixel>, shadow: array2<Pixel>)
    requires Content(t, grab, shadow)
    ensures t.cfg.Valid() && 0 < t.cfg.width && 0 < t.cfg.height
    ensures Framebuffer(t.cfg, grab) && Framebuffer(t.cfg, shadow) && grab != shadow && DirtyOk(t)
    ensures t.mode == H264 ==> t.cfg.h264
  {}

  lemma InitiallyOk(t: Tx, grab: array2<Pixel>, shadow: array2<Pixel>)
    requires t.cfg.Valid() && Framebuffer(t.cfg, grab) && Framebuffer(t.cfg, shadow) && grab != shadow
    requires t.mode == Raw && !t.all && t.dirty == [] && t.order == [] && !t.cut
    requires forall x, y | t.InFrame(x, y) :: shadow[y, x] == 0
    requires forall x, y | t.InFrame(x, y) && (x, y) !in t.unreported :: grab[y, x] == 0
    ensures Content(t, grab, shadow)
  {
    forall x: nat, y: nat
      ensures t.WireAt(0, x, y) == 0
    {
      BlackIsBlack(t.cfg.fmt, t.dither, x, y);
    }
  }

  lemma RepaintKeeps(t: Tx, grab: array2<Pixel>, shadow: array2<Pixel>)
    requires Content(t, grab, shadow)
    ensures Content(t.(all := true, unreported := iset{}), grab, shadow)
  {
    hide Shown, PhaseOf, Loose, Stray, Partial, AllAccepted, Config.Valid;
  }

  lemma LostKeeps(t: Tx, grab: array2<Pixel>, shadow: array2<Pixel>)
    requires Content(t, grab, shadow)
    ensures Content(t.(alive := false), grab, shadow)
  {
    hide Shown, PhaseOf, Loose, Stray, Partial, AllAccepted, Config.Valid;
    var u := t.(alive := false);
    assert forall x, y :: u.Waits(x, y) == t.Waits(x, y);
  }

  // -------------------------------------------------- control messages

  lemma ControlAccepted(cfg: Config, m: Message)
    requires IsControl(m)
    ensures Accepts(cfg, m) && m.WellFormed() && !m.IsPixels() && !m.IsEos()
  {}

  lemma EosAccepted(cfg: Config)
    requires cfg.h264
    ensures Accepts(cfg, EOS) && EOS.WellFormed() && !EOS.IsPixels() && EOS.IsEos()
  {}

  lemma ControlKeeps(t: Tx, m: Message, grab: array2<Pixel>, shadow: array2<Pixel>)
    requires Content(t, grab, shadow) && t.alive && IsControl(m)
    ensures Content(t.(order := t.order + [m]), grab, shadow)
  {
    hide Shown, PhaseOf, Loose, Stray, Partial, AllAccepted, Accepts, IsControl, Config.Valid;
    ControlAccepted(t.cfg, m);
    AcceptedSnoc(t.cfg, t.order, m);
    PhaseSnoc(t.cfg, t.order, m);
    FaultSnoc(t.cfg, t.order, m);
    if t.Phase() != Open {
      ShownUnmoved(t.cfg, t.order, m);
    }
    var u := t.(order := t.order + [m]);
    assert forall x, y :: u.Waits(x, y) == t.Waits(x, y);
  }

  // ------------------------------------------------------- mode switch

  /** `opens` answers the encoder open, when one is tried. */
  ghost function Switched(t: Tx, m: Mode, opens: bool): Tx {
    if t.mode == m then t
    else if m == Raw then
      t.(mode := Raw, order := if t.alive then t.order + [EOS] else t.order, all := true, dirty := [],
         cut := t.cut || (!t.alive && t.Phase() == Open))
    else if !t.encOpen && !opens then t.(failed := true)
    else t.(mode := H264, encOpen := true, forceIdr := true, all := t.all || t.dirty != [], dirty := [])
  }

  lemma SwitchKeeps(t: Tx, m: Mode, opens: bool, grab: array2<Pixel>, shadow: array2<Pixel>)
    requires Content(t, grab, shadow) && (m == H264 ==> t.cfg.h264)
    ensures Content(Switched(t, m, opens), grab, shadow)
  {
    hide Shown, PhaseOf, Loose, Stray, Partial, AllAccepted, Accepts, Config.Valid;
    var u := Switched(t, m, opens);
    if t.mode == H264 && m == Raw && t.alive {
      EosAccepted(t.cfg);
      AcceptedSnoc(t.cfg, t.order, EOS);
      PhaseSnoc(t.cfg, t.order, EOS);
      FaultSnoc(t.cfg, t.order, EOS);
    }
    assert forall x, y :: t.Waits(x, y) ==> u.Waits(x, y);
  }

  lemma SwitchedOn(t: Tx)
    requires t.mode == Raw
    ensures Switched(t, H264, true) ==
            t.(mode := H264, encOpen := true, forceIdr := true, all := t.all || t.dirty != [], dirty := [])
  {}

  lemma SwitchedOff(t: Tx)
    requires t.mode == H264
    ensures Switched(t, Raw, true) ==
            t.(mode := Raw, order := if t.alive then t.order + [EOS] else t.order, all := true, dirty := [],
               cut := t.cut || (!t.alive && t.Phase() == Open))
  {}

  lemma SwitchedSame(t: Tx, m: Mode, opens: bool)
    ensures t.mode == m ==> Switched(t, m, opens) == t
    ensures m == Raw || t.encOpen || opens ==> Switched(t, m, opens) == Switched(t, m, true)
  {}

  lemma SwitchedNot(t: Tx, opens: bool)
    requires t.mode == Raw && !t.encOpen && !opens
    ensures Switched(t, H264, opens) == Switched(t, H264, false) == t.(failed := true)
  {}

  /** A switch that really leaves H.264 announces the end of the episode, if
      it still can, and makes the next frame a full snapshot; one that enters
      forces an IDR. */
  lemma SwitchMeaning(t: Tx, m: Mode, opens: bool)
    requires t.mode != m
    ensures var u := Switched(t, m, opens);
      && (m == Raw ==> u.mode == Raw && u.all)
      && (m == Raw && t.alive ==> u.order == t.order + [EOS] && u.Phase() == Ended)
      && (m == Raw && !t.alive ==> u.order == t.order && (t.Phase() == Open ==> u.cut))
      && (m == H264 && u.mode == H264 ==>
            (u.forceIdr && u.order == t.order && ((exists x, y :: t.Waits(x, y)) ==> u.all)))
      && (m == H264 && u.mode != H264 ==> u == t.(failed := true))
  {
    if m == Raw {
      PhaseSnoc(t.cfg, t.order, EOS);
    }
  }

  // ------------------------------------------------------------- damage

  /** Enlarging the dirty list never stops a pixel from waiting. */
  lemma WaitsSame(t: Tx, u: Tx)
    requires t.all == u.all && t.dirty == u.dirty
    ensures forall x, y :: u.Waits(x, y) == t.Waits(x, y)
  {}

  lemma WaitsGrow(t: Tx, u: Tx)
    requires t.all ==> u.all
    requires u.all || Swallows(u.dirty, t.dirty)
    ensures forall x, y | t.Waits(x, y) :: u.Waits(x, y)
  {
    forall x, y | t.Waits(x, y)
      ensures u.Waits(x, y)
    {
      if !u.all {
        var k :| 0 <= k < |t.dirty| && t.dirty[k].Has(x, y);
        assert Holds(u.dirty, t.dirty[k]);
        var j :| 0 <= j < |u.dirty| && Contains(u.dirty[j], t.dirty[k]);
        assert u.dirty[j].Has(x, y);
      }
    }
  }

  /** Reporting r: the part of it that differs from the shadow lies in d,
      which is part of the dirty list from now on. */
  lemma DamageKeeps(t: Tx, u: Tx, r: Rect, d: Rect, grab: array2<Pixel>, shadow: array2<Pixel>)
    requires Content(t, grab, shadow)
    requires u == t.(all := u.all, dirty := u.dirty, unreported := u.unreported) && DirtyOk(u)
    requires u.unreported == t.unreported - Area(r)
    requires (t.all ==> u.all) && (u.all || Swallows(u.dirty, t.dirty))
    requires forall x, y | t.InFrame(x, y) && r.Has(x, y) && grab[y, x] != shadow[y, x] ::
               d.Has(x, y) && (u.all || Swallows(u.dirty, [d]))
    ensures Content(u, grab, shadow)
    ensures forall x, y | t.Waits(x, y) :: u.Waits(x, y)
  {
    WaitsGrow(t, u);
    forall x, y | u.InFrame(x, y) && (x, y) !in u.unreported && grab[y, x] != shadow[y, x]
      ensures u.Waits(x, y)
    {
      if r.Has(x, y) {
        WaitsGrow(t.(all := false, dirty := [d]), u);
        assert [d][0].Has(x, y);
      }
    }
  }

  // ------------------------------------------------------- frame builds

  function Width(r: Rect): nat requires r.x1 < r.x2 { r.x2 - r.x1 }
  function Height(r: Rect): nat requires r.y1 < r.y2 { r.y2 - r.y1 }

  /** The message for a rect whose converted pixels are `raw`: LZ4 when it is
      accepted and really shorter. */
  function RectMessage(cfg: Config, r: Rect, raw: seq<byte>): Message
    requires r.Inside(cfg.width, cfg.height)
  {
    var c := if cfg.lz4 then cfg.codec.compress(raw) else [];
    if 0 < |c| < |raw|
    then Message(Header(ENC_LZ4, 0, r.x1, r.y1, Width(r), Height(r), |c|), c)
    else Message(Header(ENC_RAW, 0, r.x1, r.y1, Width(r), Height(r), |raw|), raw)
  }

  function AccessUnitMessage(cfg: Config, idr: bool, au: seq<byte>): Message {
    Message(Header(ENC_H264, if idr then FLAG_IDR else 0, 0, 0, cfg.width, cfg.height, |au|), au)
  }

  lemma MulMono(a: nat, b: nat, c: nat, d: nat)
    requires a <= c && b <= d
    ensures a * b <= c * d
  {
    assert c * d == a * d + (c - a) * d;
    assert a * d == a * b + a * (d - b);
  }

  lemma RectFits(cfg: Config, r: Rect)
    requires r.Inside(cfg.width, cfg.height)
    ensures 0 < Width(r) * cfg.fmt.Bytes()
    ensures Height(r) * (Width(r) * cfg.fmt.Bytes()) <= cfg.FrameBytes()
  {
    MulMono(Width(r), cfg.fmt.Bytes(), cfg.width, cfg.fmt.Bytes());
    MulMono(Height(r), Width(r) * cfg.fmt.Bytes(), cfg.height, cfg.width * cfg.fmt.Bytes());
  }

  /** LZ4 is used if and only if it makes the rect smaller. */
  predicate Smallest(cfg: Config, m: Message) {
    var raw := if m.hdr.encoding == ENC_LZ4 then cfg.codec.decompress(m.payload) else m.payload;
    m.hdr.encoding == ENC_LZ4 <==> cfg.lz4 && 0 < |cfg.codec.compress(raw)| < |raw|
  }

  /** Receivers accept the message and read back exactly the pixels put in,
      compressed or not. */
  lemma RectMessageOk(cfg: Config, r: Rect, img: Image)
    requires cfg.Valid() && r.Inside(cfg.width, cfg.height)
    requires IsImage(img, Width(r), Height(r), cfg.fmt.Bytes())
    ensures var m := RectMessage(cfg, r, EncodeImage(img, cfg.fmt.Bytes()));
      && m.WellFormed() && Accepts(cfg, m) && m.IsRect() && Smallest(cfg, m)
      && (m.FullStream(cfg.width, cfg.height) <==> r == Rect(0, 0, cfg.width, cfg.height))
      && (forall x: int, y: int :: m.Covers(x, y) <==> r.Has(x, y))
      && (forall x: nat, y: nat | r.Has(x, y) :: RectPixel(cfg, m, x, y) == img[y - r.y1][x - r.x1])
  {
    hide EncodeImage, DecodeImage;
    var bpp := cfg.fmt.Bytes();
    var raw := EncodeImage(img, bpp);
    RectFits(cfg, r);
    ImageRoundTrip(img, Width(r), Height(r), bpp, Width(r) * bpp);
    var m := RectMessage(cfg, r, raw);
    assert RectData(cfg, m) == raw;
  }

  lemma AccessUnitOk(cfg: Config, idr: bool, au: seq<byte>)
    requires cfg.Valid() && cfg.h264 && 0 < |au| <= AU_CAP
    ensures var m := AccessUnitMessage(cfg, idr, au);
      && m.WellFormed() && Accepts(cfg, m) && m.IsAccessUnit() && (m.hdr.flag == FLAG_IDR <==> idr)
      && Encode(m) == EncodeHeader(m.hdr) + au
  {}

  /** The message carries the current frame's pixels of r. */
  ghost predicate Carries(cfg: Config, dither: bool, m: Message, r: Rect, grab: array2<Pixel>)
    requires Framebuffer(cfg, grab)
    reads grab
  {
    && r.Inside(cfg.width, cfg.height)
    && m.WellFormed() && Accepts(cfg, m) && m.IsRect()
    && (m.FullStream(cfg.width, cfg.height) <==> r == Rect(0, 0, cfg.width, cfg.height))
    && (forall x: int, y: int :: m.Covers(x, y) <==> r.Has(x, y))
    && (forall x: nat, y: nat | r.Has(x, y) :: RectPixel(cfg, m, x, y) == WirePixel(cfg.fmt, dither, grab[y, x], x, y))
  }

  /** Every pixel of r looks in the message as it does in the frame. */
  ghost predicate Pictures(cfg: Config, dither: bool, m: Message, r: Rect, grab: array2<Pixel>)
    requires Framebuffer(cfg, grab) && r.Inside(cfg.width, cfg.height)
    reads grab
  {
    forall x: nat, y: nat | r.Has(x, y) && m.Covers(x, y) :: Looks(cfg.fmt, dither, grab[y, x], RectPixel(cfg, m, x, y))
  }

  lemma CarriesPictures(cfg: Config, dither: bool, m: Message, r: Rect, grab: array2<Pixel>)
    requires Framebuffer(cfg, grab) && Carries(cfg, dither, m, r, grab)
    ensures Pictures(cfg, dither, m, r, grab)
  {
    hide Looks, WirePixel, RectPixel, Accepts;
    forall x: nat, y: nat | r.Has(x, y)
      ensures Looks(cfg.fmt, dither, grab[y, x], RectPixel(cfg, m, x, y))
    {
      WirePixelLooks(cfg.fmt, dither, grab[y, x], x, y);
    }
  }

  /** u is t with r taken off the dirty list: nothing else stops waiting. */
  ghost predicate Takes(t: Tx, u: Tx, r: Rect) {
    && u == t.(all := u.all, dirty := u.dirty) && DirtyOk(u)
    && (forall x, y :: t.InFrame(x, y) && t.Waits(x, y) ==> u.Waits(x, y) || r.Has(x, y))
    && (t.all ==> r == Rect(0, 0, t.cfg.width, t.cfg.height))
  }

  /** u is t after sending r. */
  ghost predicate Sends(t: Tx, u: Tx, r: Rect, m: Message) {
    && u == t.(all := u.all, dirty := u.dirty, order := t.order + [m]) && DirtyOk(u)
    && (forall x, y :: t.InFrame(x, y) && t.Waits(x, y) ==> u.Waits(x, y) || r.Has(x, y))
    && (t.all ==> r == Rect(0, 0, t.cfg.width, t.cfg.height))
  }

  lemma TakesFull(t: Tx, grab: array2<Pixel>, shadow: array2<Pixel>)
    requires Content(t, grab, shadow)
    ensures var full := Rect(0, 0, t.cfg.width, t.cfg.height);
            Takes(t, t.(all := false, dirty := []), full) && full.Inside(t.cfg.width, t.cfg.height)
  {
    hide DamageKept, Mirrors, Episodes, AllAccepted;
  }

  lemma TakesFirst(t: Tx, grab: array2<Pixel>, shadow: array2<Pixel>)
    requires Content(t, grab, shadow) && !t.all && t.dirty != []
    ensures Takes(t, t.(dirty := t.dirty[1..]), t.dirty[0]) && t.dirty[0].Inside(t.cfg.width, t.cfg.height)
  {
    hide DamageKept, Mirrors, Episodes, AllAccepted;
    var u := t.(dirty := t.dirty[1..]);
    forall x, y | t.InFrame(x, y) && t.Waits(x, y)
      ensures u.Waits(x, y) || t.dirty[0].Has(x, y)
    {
      var i :| 0 <= i < |t.dirty| && t.dirty[i].Has(x, y);
      if i > 0 {
        assert u.dirty[i - 1].Has(x, y);
      }
    }
  }

  lemma TakesParts(t: Tx, u: Tx, r: Rect)
    requires Takes(t, u, r)
    ensures u == t.(all := u.all, dirty := u.dirty)
  {}

  lemma TakesSends(t: Tx, u: Tx, r: Rect, m: Message)
    requires Takes(t, u, r)
    ensures Sends(t, u.(order := t.order + [m]), r, m)
  {
    var v := u.(order := t.order + [m]);
    assert forall x, y :: u.Waits(x, y) == v.Waits(x, y);
  }

  /** Inside r the shadow took the frame's pixels, elsewhere it stayed. */
  twostate predicate Copied(cfg: Config, r: Rect, grab: array2<Pixel>, shadow: array2<Pixel>)
    requires Framebuffer(cfg, grab) && Framebuffer(cfg, shadow)
    reads grab, shadow
  {
    forall x, y | 0 <= x < cfg.width && 0 <= y < cfg.height ::
      shadow[y, x] == if r.Has(x, y) then grab[y, x] else old(shadow[y, x])
  }

  /** Sending m for r took the engine from t to u. */
  datatype RectStep = RectStep(t: Tx, u: Tx, r: Rect, m: Message, grab: array2<Pixel>, shadow: array2<Pixel>) {
    ghost predicate Shape() { Framebuffer(t.cfg, grab) && Framebuffer(t.cfg, shadow) }

    twostate predicate Done(cfg: Config)
      requires cfg == t.cfg && Shape()
      reads grab, shadow
    {
      && old(Carries(cfg, t.dither, m, r, grab)) && unchanged(grab)
      && Copied(cfg, r, grab, shadow) && Sends(t, u, r, m)
    }
  }

  twostate lemma RectMirrors(s: RectStep)
    requires s.Shape() && s.Done(s.t.cfg)
    requires s.t.Phase() != Open && old(Mirrors(s.t, s.shadow))
    ensures Mirrors(s.u, s.shadow)
    ensures forall x, y | s.u.InFrame(x, y) && !s.u.Waits(x, y) ::
              Presents(s.u.cfg, s.u.dither, s.u.order, x, y, s.shadow[y, x])
  {
    hide Shown, Presents, Accepts, RectPixel, WirePixel, PhaseOf;
    var t, u, r, m := s.t, s.u, s.r, s.m;
    ShownRect(t.cfg, t.order, m);
    forall x, y | u.InFrame(x, y) && !u.Waits(x, y)
      ensures Shown(u.cfg, u.order, x, y) == Some(u.WireAt(s.shadow[y, x], x, y))
      ensures Presents(u.cfg, u.dither, u.order, x, y, s.shadow[y, x])
    {
      if r.Has(x, y) {
        assert m.Covers(x, y);
      } else {
        assert !m.Covers(x, y) && !t.Waits(x, y);
      }
      ShownPresents(u.cfg, u.dither, u.order, x, y, s.shadow[y, x]);
    }
  }

  twostate lemma RectDamage(s: RectStep)
    requires s.Shape() && s.Done(s.t.cfg)
    requires old(DamageKept(s.t, s.grab, s.shadow))
    ensures DamageKept(s.u, s.grab, s.shadow)
  {
    hide Shown, Accepts, RectPixel, WirePixel, PhaseOf;
    var t, u, r := s.t, s.u, s.r;
    forall x, y | u.InFrame(x, y) && (x, y) !in u.unreported && s.grab[y, x] != s.shadow[y, x]
      ensures u.Waits(x, y)
    {
      assert t.InFrame(x, y) && !r.Has(x, y);
      assert t.Waits(x, y);
    }
  }

  lemma RectEpisodes(t: Tx, u: Tx, r: Rect, m: Message)
    requires Episodes(t) && t.mode == Raw && Sends(t, u, r, m) && m.IsRect()
    requires m.FullStream(t.cfg.width, t.cfg.height) <==> r == Rect(0, 0, t.cfg.width, t.cfg.height)
    ensures Episodes(u) && (u.Phase() == Open <==> t.Phase() == Open)
  {
    hide PhaseOf, Loose, Stray, Partial;
    PhaseSnoc(t.cfg, t.order, m);
    FaultSnoc(t.cfg, t.order, m);
  }

  lemma RectFaults(cfg: Config, ms: seq<Message>, m: Message)
    requires m.IsRect()
    ensures Loose(cfg, ms + [m]) == Loose(cfg, ms)
    ensures Stray(cfg, ms + [m]) == (Stray(cfg, ms) || PhaseOf(cfg, ms) == Open)
  {
    hide Loose, Stray, Partial, PhaseOf;
    FaultSnoc(cfg, ms, m);
  }

  lemma EosFaults(cfg: Config, ms: seq<Message>)
    ensures Loose(cfg, ms + [EOS]) == Loose(cfg, ms) && Stray(cfg, ms + [EOS]) == Stray(cfg, ms)
  {
    hide Loose, Stray, Partial, PhaseOf;
    FaultSnoc(cfg, ms, EOS);
  }

  lemma ControlFaults(cfg: Config, ms: seq<Message>, m: Message)
    requires IsControl(m)
    ensures Loose(cfg, ms + [m]) == Loose(cfg, ms) && Stray(cfg, ms + [m]) == Stray(cfg, ms)
  {
    hide Loose, Stray, Partial, PhaseOf;
    FaultSnoc(cfg, ms, m);
  }

  lemma UnitFaults(cfg: Config, ms: seq<Message>, idr: bool, au: seq<byte>)
    ensures var m := AccessUnitMessage(cfg, idr, au);
      && Loose(cfg, ms + [m]) == (Loose(cfg, ms) || (!idr && PhaseOf(cfg, ms) != Open))
      && Stray(cfg, ms + [m]) == Stray(cfg, ms)
  {
    hide Loose, Stray, Partial, PhaseOf;
    FaultSnoc(cfg, ms, AccessUnitMessage(cfg, idr, au));
  }

  lemma ContentParts(t: Tx, grab: array2<Pixel>, shadow: array2<Pixel>)
    requires Content(t, grab, shadow)
    ensures Framebuffer(t.cfg, grab) && Framebuffer(t.cfg, shadow) && grab != shadow && t.cfg.Valid()
    ensures AllAccepted(t.cfg, t.order) && DamageKept(t, grab, shadow)
    ensures t.mode == Raw && t.Phase() != Open ==> Mirrors(t, shadow)
    ensures Episodes(t)
    ensures t.mode == H264 ==> t.encOpen && t.cfg.h264
  {
    hide Mirrors, DamageKept, AllAccepted, Config.Valid, PhaseOf, Loose, Stray, Partial, DirtyOk;
  }

  lemma CarriesParts(cfg: Config, dither: bool, m: Message, r: Rect, grab: array2<Pixel>)
    requires Framebuffer(cfg, grab) && Carries(cfg, dither, m, r, grab)
    ensures m.WellFormed() && Accepts(cfg, m) && m.IsRect()
    ensures m.FullStream(cfg.width, cfg.height) <==> r == Rect(0, 0, cfg.width, cfg.height)
  {
    hide RectPixel, Accepts, WirePixel;
  }

  /** A rect sent from the current frame: the shadow takes the sent pixels,
      and the receiver will show them. */
  lemma RectKeeps(t: Tx, u: Tx, r: Rect, m: Message, grab: array2<Pixel>, shadow: array2<Pixel>)
    requires Framebuffer(t.cfg, grab) && Framebuffer(t.cfg, shadow) && grab != shadow && t.cfg.Valid()
    requires AllAccepted(t.cfg, t.order) && Accepts(t.cfg, m) && m.WellFormed()
    requires Sends(t, u, r, m) && t.mode == Raw
    requires (u.Phase() != Open ==> Mirrors(u, shadow)) && DamageKept(u, grab, shadow) && Episodes(u)
    ensures Content(u, grab, shadow)
  {
    hide AllAccepted, Config.Valid, Accepts, Mirrors, DamageKept, Episodes, Tx.Waits, PhaseOf;
    AcceptedSnoc(t.cfg, t.order, m);
  }

  /** The encoder took the whole frame: the shadow is the frame, and with
      nothing submitted yet nothing has to wait. */
  lemma EncodedKeeps(t: Tx, u: Tx, grab: array2<Pixel>, shadow: array2<Pixel>)
    requires Framebuffer(t.cfg, grab) && Framebuffer(t.cfg, shadow) && grab != shadow && t.cfg.Valid()
    requires AllAccepted(t.cfg, t.order) && Episodes(t) && t.mode == H264 && t.encOpen && t.cfg.h264
    requires u == t.(all := false, dirty := [], failed := u.failed)
    requires forall x, y | t.InFrame(x, y) :: shadow[y, x] == grab[y, x]
    ensures Content(u, grab, shadow)
  {
    hide Shown, PhaseOf, Loose, Stray, Partial, AllAccepted, Config.Valid;
  }

  lemma ForgetIdr(t: Tx, grab: array2<Pixel>, shadow: array2<Pixel>)
    requires Content(t, grab, shadow)
    ensures Content(t.(forceIdr := false, swallowed := t.swallowed || (t.mode == H264 && t.forceIdr)), grab, shadow)
  {
    hide Shown, PhaseOf, Loose, Stray, Partial, AllAccepted, Config.Valid;
    var u := t.(forceIdr := false, swallowed := t.swallowed || (t.mode == H264 && t.forceIdr));
    assert forall x, y :: u.Waits(x, y) == t.Waits(x, y);
  }

  /** An access unit of the whole frame. */
  lemma AccessUnitKeeps(t: Tx, idr: bool, m: Message, grab: array2<Pixel>, shadow: array2<Pixel>)
    requires Content(t, grab, shadow) && t.mode == H264
    requires m.WellFormed() && Accepts(t.cfg, m) && m.IsAccessUnit() && (m.hdr.flag == FLAG_IDR <==> idr)
    requires t.forceIdr ==> idr
    ensures Content(t.(forceIdr := false, order := t.order + [m]), grab, shadow)
  {
    hide Shown, PhaseOf, Loose, Stray, Partial, AllAccepted, Config.Valid, Accepts;
    PhaseSnoc(t.cfg, t.order, m);
    FaultSnoc(t.cfg, t.order, m);
    AcceptedSnoc(t.cfg, t.order, m);
    var u := t.(forceIdr := false, order := t.order + [m]);
    assert forall x, y :: u.Waits(x, y) == t.Waits(x, y);
  }

  datatype ChangeStep = ChangeStep(t: Tx, u: Tx, grab: array2<Pixel>, shadow: array2<Pixel>)

  /** The source changed pixels: they are unreported until damage says so. */
  twostate lemma ChangeKeeps(s: ChangeStep)
    requires old(Content(s.t, s.grab, s.shadow)) && unchanged(s.shadow)
    requires s.u == s.t.(unreported := s.u.unreported) && s.t.unreported <= s.u.unreported
    requires forall x, y | s.t.InFrame(x, y) && s.grab[y, x] != old(s.grab[y, x]) :: (x, y) in s.u.unreported
    ensures Content(s.u, s.grab, s.shadow)
  {
    hide Shown, PhaseOf, Loose, Stray, Partial, AllAccepted, Config.Valid, Tx.Waits;
    WaitsSame(s.t, s.u);
  }
}
