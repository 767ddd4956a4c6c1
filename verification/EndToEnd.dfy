/** The transmit engine and the receiver together. */
module EndToEnd {
  import opened Wire
  import opened Pixels
  import opened Stream
  import opened TxState
  import opened Xmit
  import opened ViewNet

  /** A receiver that got every byte the engine sent shows the local frame,
      once the engine has nothing left to do in RAW mode. */
  lemma SamePicture(c: Client, v: Viewer)
    requires c.Valid() && c.alive && c.mode == Raw && !c.Work()
    requires v.Valid() && v.InStep() && !v.dropped && v.cfg == c.cfg && v.got == c.sent
    ensures Framebuffer(c.cfg, c.grabbuf) && Framebuffer(c.cfg, v.fb)
    ensures forall x, y | c.View().InFrame(x, y) && (x, y) !in c.unreported ::
              && v.fb[y, x] == WirePixel(c.cfg.fmt, c.dither, c.grabbuf[y, x], x, y)
              && Looks(c.cfg.fmt, c.dither, c.grabbuf[y, x], v.fb[y, x])
  {
    hide Shown, Looks, Take, WirePixel, PhaseOf, Client.Wired, DamageKept, Mirrors, Episodes, AllAccepted;
    c.NotCut();
    c.Converged();
  }

  /** No receiver state ever asks for a byte the engine did not submit: what
      the receiver applied is a prefix of the submitted messages, in order. */
  lemma AppliedInOrder(c: Client, v: Viewer)
    requires c.Valid()
    requires v.Valid() && v.InStep() && !v.dropped && v.cfg == c.cfg && v.got <= c.sent
    ensures v.log <= c.order
  {
    hide Shown, Take, PhaseOf, Client.Wired, DamageKept, Mirrors, Episodes, AllAccepted;
    c.SentPrefixTaken(v.got);
  }

  /** From any state of a RAW-mode connection: let the socket drain, a byte at
      a time if it likes, hand the bytes to the receiver in two pieces cut
      anywhere, pull once; the texture then is the local frame. Only a decoder
      failure can end it otherwise. */
  method Synchronise(c: Client, v: Viewer, envs: nat -> Env, dec: Decoder, have: nat, cut: nat)
    requires forall i: nat :: envs(i).Ok(c.cfg) && envs(i).Willing()
    requires c.Valid() && c.alive && c.mode == Raw && c.unreported == iset{}
    requires v.Valid() && v.InStep() && !v.dropped && v.cfg == c.cfg && v.got <= c.sent && have == |v.got|
    requires {c.grabbuf as object, c.shadowbuf, c} !! {v.fb as object, v.tex, v}
    modifies c, c.shadowbuf, v, v.fb, v.tex
    ensures c.Valid() && c.alive && !c.Work() && v.Valid()
    ensures v.dropped ==> (exists k :: dec(k).None?) || v.silent >= AU_SILENT_MAX
    ensures Framebuffer(c.cfg, c.grabbuf)
    ensures !v.dropped ==> Framebuffer(c.cfg, v.tex) && forall x, y | c.View().InFrame(x, y) ::
              && v.tex[y, x] == WirePixel(c.cfg.fmt, c.dither, c.grabbuf[y, x], x, y)
              && Looks(c.cfg.fmt, c.dither, c.grabbuf[y, x], v.tex[y, x])
  {
    hide Shown, Looks, Take, WirePixel, PhaseOf, Content, Client.Wired, Viewer.Faithful, Viewer.TextureOk, Env.Ok, Env.Willing;
    c.DrainAll(envs);
    var rest := c.sent[have..];
    var at := if cut <= |rest| then cut else |rest|;
    assert v.got + rest == c.sent;
    assert rest == rest[..at] + rest[at..];
    ConcatAssoc(v.got, rest[..at], rest[at..]);
    v.Receive(rest[..at], dec);
    if v.dropped {
      c.SentPrefixTaken(v.got);
      return;
    }
    v.Receive(rest[at..], dec);
    if v.dropped {
      c.SentPrefixTaken(v.got);
      return;
    }
    SamePicture(c, v);
    v.Refresh();
  }
}
