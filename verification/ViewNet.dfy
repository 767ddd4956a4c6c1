/** The windowed receiver: the network thread's receive loop writes accepted
    messages into the shared framebuffer and records damage; the main thread
    uploads that damage to its texture. Both run under one lock. */
module ViewNet {
  import opened Common
  import opened Wire
  import opened Pixels
  import opened Geometry
  import opened Stream

  const DAMAGE_MAX: nat := 32
  const AU_SILENT_MAX: nat := 3

  /** A decoded picture in wire pixels. */
  datatype Picture = Picture(w: nat, h: nat, px: (nat, nat) -> nat)

  /** What the decoder does at its n-th call: fail, or hand out pictures. */
  type Decoder = nat -> Option<seq<Picture>>

  // ------------------------------------------------ shape of accepted rects

  lemma {:induction false} DecodeRowShape(s: seq<byte>, bpp: nat, w: nat)
    requires bpp > 0 && |s| == w * bpp
    ensures |DecodeRow(s, bpp)| == w
    decreases w
  {
    if w > 0 {
      assert w * bpp == (w - 1) * bpp + bpp;
      DecodeRowShape(s[bpp..], bpp, w - 1);
    } else {
      assert s == [];
    }
  }

  lemma {:induction false} DecodeImageShape(s: seq<byte>, rowLen: nat, bpp: nat, w: nat, h: nat)
    requires bpp > 0 && rowLen > 0 && rowLen == w * bpp && |s| == h * rowLen
    ensures var img := DecodeImage(s, rowLen, bpp);
            |img| == h && forall i | 0 <= i < h :: |img[i]| == w
    decreases h
  {
    if h > 0 {
      assert h * rowLen == (h - 1) * rowLen + rowLen;
      DecodeRowShape(s[..rowLen], bpp, w);
      DecodeImageShape(s[rowLen..], rowLen, bpp, w, h - 1);
    } else {
      assert s == [];
    }
  }

  method Zeroed(height: nat, width: nat) returns (a: array2<nat>)
    ensures fresh(a) && a.Length0 == height && a.Length1 == width
    ensures forall y, x | 0 <= y < height && 0 <= x < width :: a[y, x] == 0
  {
    a := new nat[height, width]((i, j) => 0);
  }

  lemma ConfigSize(c: Config)
    requires c.Valid()
    ensures c.width > 0 && c.height > 0
  {}

  /** Pixel (x, y) after the first n pictures, d before them. */
  function Painted(ps: seq<Picture>, n: nat, x: nat, y: nat, d: nat): nat
    requires n <= |ps|
  {
    if n == 0 then d
    else if x < ps[n - 1].w && y < ps[n - 1].h then ps[n - 1].px(y, x)
    else Painted(ps, n - 1, x, y, d)
  }

  class Viewer {
    var cfg: Config
    var fb: array2<nat>              // [y, x]: the shared framebuffer
    var damage: seq<Rect>            // at most 32
    var damageAll: bool
    var gen: nat                     // bumped on every connection
    var blanked: bool
    var dropped: bool
    var pending: seq<byte>           // received, not read yet
    var active: bool                 // inside an H.264 episode
    var silent: nat
    var calls: nat
    var tex: array2<nat>             // the main thread's texture
    var texGen: nat
    ghost var log: seq<Message>      // accepted on this connection
    ghost var got: seq<byte>         // received on this connection

    ghost predicate InFrame(x: int, y: int)
      reads this`cfg
    {
      0 <= x < cfg.width && 0 <= y < cfg.height
    }

    ghost predicate Shape()
      reads this`cfg, this`fb, this`tex, this`damage, this`gen, this`texGen
    {
      && 0 < cfg.width && 0 < cfg.height
      && fb.Length0 == cfg.height && fb.Length1 == cfg.width && fb != tex
      && |damage| <= DAMAGE_MAX && AllInside(damage, cfg.width, cfg.height)
      && texGen <= gen
      && (texGen == gen ==> tex.Length0 == cfg.height && tex.Length1 == cfg.width)
    }

    /** Every pixel the stream determines is in the framebuffer. */
    ghost predicate Faithful()
      requires Shape()
      reads this`cfg, this`fb, this`tex, this`damage, this`gen, this`texGen, this`active, this`log, fb
    {
      && active == (PhaseOf(cfg, log) == Open)
      && forall x, y | InFrame(x, y) && Shown(cfg, log, x, y).Some? :: fb[y, x] == Shown(cfg, log, x, y).value
    }

    ghost predicate Damaged(x: int, y: int)
      reads this`damage, this`damageAll
    {
      damageAll || exists i | 0 <= i < |damage| :: damage[i].Has(x, y)
    }

    /** The texture agrees with the framebuffer outside pending damage. */
    ghost predicate TextureOk()
      requires Shape()
      reads this`cfg, this`fb, this`tex, this`damage, this`gen, this`texGen, this`damageAll, fb, tex
    {
      texGen == gen ==> forall x, y | InFrame(x, y) && tex[y, x] != fb[y, x] :: Damaged(x, y)
    }

    ghost predicate Valid()
      reads this, fb, tex
    {
      Shape() && TextureOk() && (!dropped ==> Faithful())
    }

    constructor (cfg: Config)
      requires cfg.Valid()
      ensures Valid() && InStep() && this.cfg == cfg && log == [] && got == [] && !dropped && fresh(fb) && fresh(tex)
    {
      this.cfg := cfg;
      fb := new nat[cfg.height, cfg.width]((i, j) => 0);
      tex := new nat[cfg.height, cfg.width];
      damage, damageAll, gen, texGen := [], true, 1, 0;
      blanked, dropped, pending, active, silent, calls, log, got := false, false, [], false, 0, 0, [], [];
    }

    /** A new connection: a zeroed framebuffer of the new size, everything
        damaged, a new generation. */
    method SetStream(c: Config)
      requires Valid() && c.Valid()
      modifies this
      ensures Valid() && InStep() && cfg == c && log == [] && got == [] && !dropped && gen == old(gen) + 1 && fresh(fb)
    {
      hide Faithful, InStep, Config.Valid;
      ConfigSize(c);
      var zero := Zeroed(c.height, c.width);
      cfg, fb := c, zero;
      damage, damageAll := [], true;
      gen := gen + 1;
      blanked, dropped, pending, active, silent, log, got := false, false, [], false, 0, [], [];
      NothingShown();
    }

    lemma NothingShown()
      requires Shape() && log == [] && got == [] && pending == [] && !active && !dropped
      requires forall x, y | InFrame(x, y) :: fb[y, x] == 0
      ensures Faithful() && InStep()
    {}

    // ----------------------------------------------------------- damage

    method DamageAdd(r: Rect)
      requires Shape() && r.Inside(cfg.width, cfg.height)
      modifies this`damage
      ensures Shape()
      ensures damageAll || (Swallows(damage, old(damage)) && Swallows(damage, [r]))
      ensures if damageAll then damage == old(damage)
              else if |old(damage)| < DAMAGE_MAX then damage == old(damage) + [r]
              else |damage| == 1 && Tight(damage[0], old(damage) + [r])
    {
      if damageAll { return; }
      if |damage| < DAMAGE_MAX {
        damage := damage + [r];
        SwallowsPointwise(damage, old(damage));
      } else {
        var box := BoundingBox(damage, cfg.width, cfg.height);
        TightSnoc(box, damage, r);
        damage := [Union(box, r)];
        assert forall k | 0 <= k < |old(damage)| :: Contains(damage[0], old(damage)[k]);
      }
      SwallowsOne(damage, |damage| - 1, r);
    }

    lemma DamagedBy(before: seq<Rect>)
      requires damageAll || Swallows(damage, before)
      ensures forall i, x, y | 0 <= i < |before| && before[i].Has(x, y) :: Damaged(x, y)
    {
      forall i, x, y | 0 <= i < |before| && before[i].Has(x, y)
        ensures Damaged(x, y)
      {
        if !damageAll {
          assert Holds(damage, before[i]);
          var j :| 0 <= j < |damage| && Contains(damage[j], before[i]);
          assert damage[j].Has(x, y);
        }
      }
    }

    // ------------------------------------------------------------ pixels

    /** The rows of a decoded rect into the framebuffer. */
    method CopyRect(m: Message)
      requires Shape() && m.WellFormed() && Accepts(cfg, m) && m.IsRect()
      modifies fb
      ensures forall x: nat, y: nat | InFrame(x, y) ::
                fb[y, x] == if m.Covers(x, y) then RectPixel(cfg, m, x, y) else old(fb[y, x])
    {
      hide DecodeImage, RectData, PixFmt.Bytes, AllInside;
      var bpp := cfg.fmt.Bytes();
      var rows := DecodeImage(RectData(cfg, m), m.hdr.w * bpp, bpp);
      DecodeImageShape(RectData(cfg, m), m.hdr.w * bpp, bpp, m.hdr.w, m.hdr.h);
      var i := 0;
      while i < m.hdr.h
        invariant 0 <= i <= m.hdr.h
        invariant forall y, x | InFrame(x, y) :: fb[y, x] ==
                    if m.Covers(x, y) && y < m.hdr.y + i then rows[y - m.hdr.y][x - m.hdr.x] else old(fb[y, x])
      {
        forall x | 0 <= x < m.hdr.w {
          fb[m.hdr.y + i, m.hdr.x + x] := rows[i][x];
        }
        i := i + 1;
      }
    }

    /** Changed pixels that were added to the damage keep the texture's rule. */
    twostate lemma TextureKeeps(r: Rect)
      requires old(Shape()) && old(TextureOk()) && Shape()
      requires fb == old(fb) && tex == old(tex) && cfg == old(cfg) && gen == old(gen) && texGen == old(texGen) && unchanged(tex)
      requires damageAll || (!old(damageAll) && Swallows(damage, old(damage)) && Swallows(damage, [r]))
      requires forall x, y | InFrame(x, y) && !r.Has(x, y) :: fb[y, x] == old(fb[y, x])
      ensures TextureOk()
    {
      hide Swallows, AllInside;
      DamagedBy(old(damage));
      DamagedBy([r]);
      forall x, y | texGen == gen && InFrame(x, y) && tex[y, x] != fb[y, x]
        ensures Damaged(x, y)
      {
        if r.Has(x, y) {
          assert [r][0].Has(x, y);
        }
      }
    }

    /** A decoded rect: pixels and damage. */
    method PutRect(m: Message)
      requires Shape() && TextureOk() && m.WellFormed() && Accepts(cfg, m) && m.IsRect()
      modifies this`damage, fb
      ensures Shape() && TextureOk()
      ensures forall x: nat, y: nat | InFrame(x, y) ::
                fb[y, x] == if m.Covers(x, y) then RectPixel(cfg, m, x, y) else old(fb[y, x])
    {
      hide RectPixel, Swallows, AllInside, RectData, RectBytes;
      CopyRect(m);
      var r := Rect(m.hdr.x, m.hdr.y, m.hdr.x + m.hdr.w, m.hdr.y + m.hdr.h);
      DamageAdd(r);
      TextureKeeps(r);
    }

    /** One decoded picture: its overlap with the stream, published at once. */
    method ShowPicture(p: Picture)
      requires Shape() && TextureOk()
      modifies this`damage, this`damageAll, fb
      ensures Shape() && TextureOk() && damageAll && damage == []
      ensures forall x, y | InFrame(x, y) :: fb[y, x] == if x < p.w && y < p.h then p.px(y, x) else old(fb[y, x])
    {
      var w, h := Min(p.w, cfg.width), Min(p.h, cfg.height);
      forall y, x | 0 <= y < h && 0 <= x < w {
        fb[y, x] := p.px(y, x);
      }
      damageAll := true;
      damage := [];
    }

    /** The pictures that one decoder call returned, in order. */
    method ShowPictures(ps: seq<Picture>)
      requires Shape() && TextureOk()
      modifies this`damage, this`damageAll, fb
      ensures Shape() && TextureOk() && (ps != [] ==> damageAll)
      ensures forall x, y | InFrame(x, y) :: fb[y, x] == Painted(ps, |ps|, x, y, old(fb[y, x]))
    {
      hide TextureOk;
      for i := 0 to |ps|
        invariant Shape() && TextureOk() && (i > 0 ==> damageAll)
        invariant forall x, y | InFrame(x, y) :: fb[y, x] == Painted(ps, i, x, y, old(fb[y, x]))
      {
        ShowPicture(ps[i]);
      }
    }

    // ---------------------------------------------------------- messages

    /** Adding m to the log keeps the framebuffer faithful when m's pixels, if
        it has any, were written and no other pixel outside an episode moved. */
    twostate lemma FaithfulKeeps(m: Message)
      requires old(Shape()) && old(Faithful()) && Shape()
      requires cfg == old(cfg) && log == old(log) + [m]
      requires active == if m.IsAccessUnit() then true else if m.IsEos() then false else old(active)
      requires forall x: nat, y: nat | InFrame(x, y) && !m.IsAccessUnit() && !old(active) ::
                 fb[y, x] == if m.IsRect() && m.Covers(x, y) then RectPixel(cfg, m, x, y) else old(fb[y, x])
      ensures Faithful()
    {
      hide Shown, PhaseOf, RectPixel, AllInside;
      PhaseSnoc(cfg, old(log), m);
      forall x: nat, y: nat { ShownSnoc(cfg, old(log), m, x, y); }
    }

    /** An access unit, or the end of an episode: what comes out of the
        decoder is shown. */
    method ApplyVideo(m: Message, dec: Decoder)
      requires Valid() && !dropped && m.WellFormed() && (m.IsAccessUnit() || (m.IsEos() && active))
      modifies this`damage, this`damageAll, this`active, this`silent, this`calls, this`dropped, this`log, fb
      ensures Valid() && log == old(log) + [m] && calls == old(calls) + 1
      ensures dropped <==> dec(old(calls)).None? || (m.IsAccessUnit() && silent >= AU_SILENT_MAX)
      ensures dec(old(calls)).Some? ==> var ps := dec(old(calls)).value;
        && (forall x, y | InFrame(x, y) :: fb[y, x] == Painted(ps, |ps|, x, y, old(fb[y, x])))
        && active == m.IsAccessUnit()
        && (m.IsAccessUnit() ==> silent == if ps != [] then 0 else if old(active) then old(silent) + 1 else 1)
    {
      hide Shown, PhaseOf, RectPixel, AllInside, TextureOk, Painted;
      var answer := dec(calls);
      calls := calls + 1;
      log := log + [m];
      if answer.None? {
        dropped := true;
        return;
      }
      ShowPictures(answer.value);
      if m.IsAccessUnit() {
        silent := if answer.value != [] then 0 else if active then silent + 1 else 1;
        active := true;
        dropped := silent >= AU_SILENT_MAX;
      } else {
        active := false;
      }
      FaithfulKeeps(m);
    }

    method ApplyRect(m: Message)
      requires Valid() && !dropped && m.WellFormed() && Accepts(cfg, m) && m.IsRect()
      modifies this`damage, this`log, fb
      ensures Valid() && log == old(log) + [m]
    {
      hide Shown, PhaseOf, RectPixel, Accepts, AllInside, TextureOk;
      PutRect(m);
      log := log + [m];
      FaithfulKeeps(m);
    }

    method ApplyControl(m: Message)
      requires Valid() && !dropped && m.WellFormed() && !m.IsRect() && !m.IsAccessUnit() && (m.IsEos() ==> !active)
      modifies this`blanked, this`log
      ensures Valid() && log == old(log) + [m]
      ensures blanked == if m.hdr.encoding == ENC_BLANK then true else if m.hdr.encoding == ENC_UNBLANK then false else old(blanked)
    {
      hide Shown, PhaseOf, RectPixel, AllInside, TextureOk;
      if m.hdr.encoding == ENC_BLANK || m.hdr.encoding == ENC_UNBLANK {
        blanked := m.hdr.encoding == ENC_BLANK;
      }
      log := log + [m];
      FaithfulKeeps(m);
    }

    /** One accepted message. */
    method Apply(m: Message, dec: Decoder)
      requires Valid() && !dropped && m.WellFormed() && Accepts(cfg, m)
      modifies this`damage, this`damageAll, this`blanked, this`active, this`silent, this`calls, this`dropped, this`log, fb
      ensures Valid() && log == old(log) + [m]
      ensures dropped ==> (m.IsAccessUnit() || m.IsEos()) && (dec(old(calls)).None? || silent >= AU_SILENT_MAX)
    {
      hide Shown, Accepts, Faithful, TextureOk, Painted;
      if m.IsRect() {
        ApplyRect(m);
      } else if m.IsAccessUnit() || (m.IsEos() && active) {
        ApplyVideo(m, dec);
      } else {
        ApplyControl(m);
      }
    }

    /** Everything received on this connection and what became of it. */
    ghost predicate InStep()
      reads this`cfg, this`got, this`log, this`pending, this`dropped
    {
      !dropped ==> Take(cfg, got) == Taken(log, pending, false)
    }

    /** The receive loop on everything that has arrived: whatever the bytes
        and however they were cut, exactly the messages that Take finds are
        applied, and the rest is kept for the next arrival. */
    method Receive(input: seq<byte>, dec: Decoder)
      requires Valid() && InStep() && !dropped
      modifies this`damage, this`damageAll, this`blanked, this`active, this`silent, this`calls, this`dropped, this`log,
               this`pending, this`got, fb
      ensures Valid() && InStep() && got == old(got) + input
      ensures old(log) <= log <= Take(cfg, got).msgs
      ensures dropped ==> Take(cfg, got).dropped || (exists k :: dec(k).None?) || silent >= AU_SILENT_MAX
    {
      hide Accepts, HeaderOk, DecodeHeader, HeaderMagic, Shape, Faithful, TextureOk, Take;
      TakeChunks(cfg, got, input);
      got := got + input;
      pending := pending + input;
      Dispatch(dec);
    }

    method Dispatch(dec: Decoder)
      requires Valid() && !dropped
      modifies this`damage, this`damageAll, this`blanked, this`active, this`silent, this`calls, this`dropped, this`log,
               this`pending, fb
      ensures Valid()
      ensures var t := Take(cfg, old(pending));
        && old(log) <= log <= old(log) + t.msgs
        && (!dropped ==> log == old(log) + t.msgs && pending == t.rest && !t.dropped)
        && (dropped ==> t.dropped || (exists k :: dec(k).None?) || silent >= AU_SILENT_MAX)
    {
      hide Accepts, HeaderOk, DecodeHeader, HeaderMagic, Shape, Faithful, TextureOk, Take;
      ghost var t := Take(cfg, pending);
      ghost var done: seq<Message> := [];
      while |pending| >= HDR_LEN
        invariant Valid() && !dropped && log == old(log) + done
        invariant var u := Take(cfg, pending);
                  t == Taken(done + u.msgs, u.rest, u.dropped)
        decreases |pending|
      {
        TakeStops(cfg, pending);
        if HeaderMagic(pending) != MAGIC {
          dropped := true;
          return;
        }
        var h := DecodeHeader(pending);
        if !HeaderOk(cfg, h) {
          dropped := true;
          return;
        }
        if |pending| < HDR_LEN + h.len { return; }
        var m := Message(h, pending[HDR_LEN..HDR_LEN + h.len]);
        if !Accepts(cfg, m) {
          dropped := true;
          return;
        }
        TakeOne(cfg, pending, m);
        pending := pending[HDR_LEN + h.len..];
        ConcatAssoc(done, [m], Take(cfg, pending).msgs);
        Apply(m, dec);
        done := done + [m];
        if dropped { return; }
      }
      TakeStops(cfg, pending);
    }

    /** The main thread's pull: the texture equals the framebuffer again. */
    method Refresh()
      requires Valid()
      modifies this`tex, this`texGen, this`damage, this`damageAll, tex
      ensures Valid() && texGen == gen && damage == [] && !damageAll
      ensures tex.Length0 == cfg.height && tex.Length1 == cfg.width
      ensures forall x, y | InFrame(x, y) :: tex[y, x] == fb[y, x]
    {
      hide Shown, PhaseOf, RectPixel;
      if gen != texGen {
        texGen := gen;
        tex := new nat[cfg.height, cfg.width];
        damageAll := true;
      }
      if damageAll {
        forall y, x | 0 <= y < cfg.height && 0 <= x < cfg.width {
          tex[y, x] := fb[y, x];
        }
      } else {
        UploadDamage();
      }
      damageAll := false;
      damage := [];
    }

    method UploadDamage()
      requires Valid() && texGen == gen && !damageAll
      modifies tex
      ensures forall x, y | InFrame(x, y) :: tex[y, x] == fb[y, x]
    {
      hide Shown, PhaseOf, RectPixel;
      var i := 0;
      while i < |damage|
        invariant 0 <= i <= |damage|
        invariant forall x, y | InFrame(x, y) && tex[y, x] != fb[y, x] :: exists k | i <= k < |damage| :: damage[k].Has(x, y)
      {
        var r := damage[i];
        forall y, x | r.y1 <= y < r.y2 && r.x1 <= x < r.x2 {
          tex[y, x] := fb[y, x];
        }
        i := i + 1;
      }
    }
  }
}
