/** What a sequence of server messages means to a receiver: which messages
    it accepts, which pixel values it is bound to show, and the episode
    grammar that the H.264 mode switches must respect. */
module Stream {
  import opened Common
  import opened Wire
  import opened Pixels

  /** LZ4 as an abstract pair: an empty result of `compress` means failure. */
  datatype Codec = Codec(compress: seq<byte> -> seq<byte>, decompress: seq<byte> -> seq<byte>) {
    ghost predicate Sound() {
      forall s :: compress(s) != [] ==> decompress(compress(s)) == s
    }
  }

  const AU_CAP: nat := 0x10_0000
  const LZ4_MAX_INPUT: nat := 0x7E00_0000

  function CompressBound(n: nat): nat { n + n / 255 + 16 }

  /** The negotiated stream. */
  datatype Config = Config(width: nat, height: nat, fmt: PixFmt, lz4: bool, h264: bool, codec: Codec) {
    function FrameBytes(): nat { height * (width * fmt.Bytes()) }

    ghost predicate Valid() {
      && 0 < width < 0x1_0000 && 0 < height < 0x1_0000
      && FrameBytes() <= LZ4_MAX_INPUT
      && codec.Sound()
    }
  }

  function RectBytes(cfg: Config, hdr: Header): nat {
    hdr.h * (hdr.w * cfg.fmt.Bytes())
  }

  /** The raw bytes of a rect message. */
  function RectData(cfg: Config, m: Message): seq<byte> {
    if m.hdr.encoding == ENC_LZ4 then cfg.codec.decompress(m.payload) else m.payload
  }

  /** The checks of the receive loop on a header; anything else drops the
      connection. */
  predicate HeaderOk(cfg: Config, h: Header) {
    if h.encoding == ENC_BLANK || h.encoding == ENC_UNBLANK then h.len == 0
    else if h.encoding == ENC_PING then h.len == 8
    else if h.encoding == ENC_H264 then
      cfg.h264 && h.x == 0 && h.y == 0 && h.w == cfg.width && h.h == cfg.height && 0 < h.len <= AU_CAP
    else if h.encoding == ENC_H264_EOS then cfg.h264 && h.len == 0
    else
      && (h.encoding == ENC_RAW || h.encoding == ENC_LZ4)
      && 0 < h.w && 0 < h.h && h.x + h.w <= cfg.width && h.y + h.h <= cfg.height
      && (h.encoding == ENC_RAW ==> h.len == RectBytes(cfg, h))
      && (h.encoding == ENC_LZ4 ==> cfg.lz4 && 0 < h.len <= CompressBound(cfg.FrameBytes()))
  }

  /** ... and on a complete message: an LZ4 block must unpack to the rect. */
  predicate Accepts(cfg: Config, m: Message) {
    HeaderOk(cfg, m.hdr) && (m.IsRect() ==> |RectData(cfg, m)| == RectBytes(cfg, m.hdr))
  }

  ghost predicate AllAccepted(cfg: Config, ms: seq<Message>) {
    forall m <- ms :: m.WellFormed() && Accepts(cfg, m)
  }

  /** What the receive loop makes of the bytes it got so far: the accepted
      messages, the unread rest, and whether it dropped the connection. */
  datatype Taken = Taken(msgs: seq<Message>, rest: seq<byte>, dropped: bool)

  function Take(cfg: Config, s: seq<byte>): Taken
    decreases |s|
  {
    if |s| < HDR_LEN then Taken([], s, false)
    else if HeaderMagic(s) != MAGIC then Taken([], s, true)
    else
      var h := DecodeHeader(s);
      if !HeaderOk(cfg, h) then Taken([], s, true)
      else if |s| < HDR_LEN + h.len then Taken([], s, false)
      else
        var m := Message(h, s[HDR_LEN..HDR_LEN + h.len]);
        if !Accepts(cfg, m) then Taken([], s, true)
        else
          var r := Take(cfg, s[HDR_LEN + h.len..]);
          Taken([m] + r.msgs, r.rest, r.dropped)
  }

  lemma TakeWhole(cfg: Config, m: Message, tail: seq<byte>)
    requires m.WellFormed() && Accepts(cfg, m)
    ensures var r := Take(cfg, tail);
            Take(cfg, Encode(m) + tail) == Taken([m] + r.msgs, r.rest, r.dropped)
  {
    hide EncodeHeader, DecodeHeader, HeaderMagic, RectData, RectBytes, CompressBound;
    var s := Encode(m) + tail;
    assert s == EncodeHeader(m.hdr) + (m.payload + tail);
    HeaderRoundTrip(m.hdr, m.payload + tail);
    assert s[HDR_LEN..HDR_LEN + m.hdr.len] == m.payload;
    assert s[HDR_LEN + m.hdr.len..] == tail;
  }

  lemma SameHeader(a: seq<byte>, b: seq<byte>)
    requires |a| >= HDR_LEN
    ensures HeaderMagic(a + b) == HeaderMagic(a) && DecodeHeader(a + b) == DecodeHeader(a)
  {
    var s := a + b;
    assert s[0..4] == a[0..4];
    assert s[8..10] == a[8..10] && s[10..12] == a[10..12] && s[12..14] == a[12..14];
    assert s[14..16] == a[14..16] && s[16..20] == a[16..20];
  }

  /** The ways the receive loop stops before a message. */
  lemma TakeStops(cfg: Config, s: seq<byte>)
    ensures |s| < HDR_LEN ==> Take(cfg, s) == Taken([], s, false)
    ensures |s| >= HDR_LEN ==>
      var h := DecodeHeader(s);
      && (HeaderMagic(s) != MAGIC || !HeaderOk(cfg, h) ==> Take(cfg, s) == Taken([], s, true))
      && (HeaderMagic(s) == MAGIC && HeaderOk(cfg, h) && |s| < HDR_LEN + h.len ==> Take(cfg, s) == Taken([], s, false))
      && (HeaderMagic(s) == MAGIC && HeaderOk(cfg, h) && |s| >= HDR_LEN + h.len ==>
            (!Accepts(cfg, Message(h, s[HDR_LEN..HDR_LEN + h.len])) ==> Take(cfg, s) == Taken([], s, true)))
  {
    hide HeaderOk, HeaderMagic, DecodeHeader, Accepts;
  }

  /** A complete acceptable message stands at the start of s. */
  predicate Leads(cfg: Config, s: seq<byte>, m: Message) {
    && |s| >= HDR_LEN && HeaderMagic(s) == MAGIC && m.hdr == DecodeHeader(s)
    && |s| >= HDR_LEN + m.hdr.len && m.payload == s[HDR_LEN..HDR_LEN + m.hdr.len]
    && Accepts(cfg, m)
  }

  /** One turn of the receive loop that finds a message. */
  lemma TakeOne(cfg: Config, s: seq<byte>, m: Message)
    requires Leads(cfg, s, m)
    ensures m.WellFormed()
    ensures var r := Take(cfg, s[HDR_LEN + m.hdr.len..]);
            Take(cfg, s) == Taken([m] + r.msgs, r.rest, r.dropped)
  {
    hide HeaderMagic, RectData, RectBytes, CompressBound;
    Widths();
    FromLittleEndianBound(s[8..10]);
    FromLittleEndianBound(s[10..12]);
    FromLittleEndianBound(s[12..14]);
    FromLittleEndianBound(s[14..16]);
    FromLittleEndianBound(s[16..20]);
  }

  lemma LeadsLonger(cfg: Config, a: seq<byte>, b: seq<byte>, m: Message)
    requires Leads(cfg, a, m)
    ensures Leads(cfg, a + b, m) && (a + b)[HDR_LEN + m.hdr.len..] == a[HDR_LEN + m.hdr.len..] + b
  {
    hide Accepts, HeaderMagic, DecodeHeader;
    SameHeader(a, b);
    assert (a + b)[HDR_LEN..HDR_LEN + m.hdr.len] == a[HDR_LEN..HDR_LEN + m.hdr.len];
  }

  /** The receive loop is indifferent to how the bytes were cut. */
  lemma {:induction false} TakeChunks(cfg: Config, a: seq<byte>, b: seq<byte>)
    requires !Take(cfg, a).dropped
    ensures var t, u := Take(cfg, a), Take(cfg, Take(cfg, a).rest + b);
            Take(cfg, a + b) == Taken(t.msgs + u.msgs, u.rest, u.dropped)
    decreases |a|
  {
    hide Take, Accepts, HeaderOk, HeaderMagic, DecodeHeader;
    TakeStops(cfg, a);
    if Take(cfg, a) == Taken([], a, false) {
      assert [] + Take(cfg, a + b).msgs == Take(cfg, a + b).msgs;
    } else {
      var h := DecodeHeader(a);
      var m := Message(h, a[HDR_LEN..HDR_LEN + h.len]);
      var tail := a[HDR_LEN + h.len..];
      LeadsLonger(cfg, a, b, m);
      TakeOne(cfg, a, m);
      TakeOne(cfg, a + b, m);
      TakeChunks(cfg, tail, b);
      ConcatAssoc([m], Take(cfg, tail).msgs, Take(cfg, Take(cfg, tail).rest + b).msgs);
    }
  }

  lemma TakePartial(cfg: Config, m: Message, s: seq<byte>)
    requires m.WellFormed() && Accepts(cfg, m)
    requires s < Encode(m)
    ensures Take(cfg, s) == Taken([], s, false)
  {
    hide EncodeHeader, DecodeHeader, HeaderMagic, RectData, RectBytes, CompressBound;
    if |s| >= HDR_LEN {
      assert s[..HDR_LEN] == Encode(m)[..HDR_LEN] == EncodeHeader(m.hdr);
      assert s == EncodeHeader(m.hdr) + s[HDR_LEN..];
      HeaderRoundTrip(m.hdr, s[HDR_LEN..]);
    }
  }

  /** Every prefix of an encoded sequence of acceptable messages is taken as
      a prefix of that sequence; no byte is lost and nothing is dropped. */
  lemma {:induction false} TakePrefix(cfg: Config, ms: seq<Message>, s: seq<byte>)
    requires AllAccepted(cfg, ms)
    requires s <= EncodeAll(ms)
    ensures var p := Take(cfg, s);
            !p.dropped && p.msgs <= ms && s == EncodeAll(p.msgs) + p.rest
            && (|p.msgs| < |ms| ==> |p.rest| < |Encode(ms[|p.msgs|])|)
            && (|p.msgs| == |ms| ==> p.rest == [])
  {
    hide Encode, Accepts;
    if ms != [] {
      var m, n := ms[0], |Encode(ms[0])|;
      assert m in ms;
      assert forall k <- ms[1..] :: k in ms;
      var all := EncodeAll(ms);
      assert all == Encode(m) + EncodeAll(ms[1..]);
      if |s| < n {
        assert s == all[..|s|] == Encode(m)[..|s|];
        TakePartial(cfg, m, s);
      } else {
        var tail := s[n..];
        assert s[..n] == all[..n] == Encode(m);
        assert tail == all[n..|s|] == EncodeAll(ms[1..])[..|s| - n];
        TakePrefix(cfg, ms[1..], tail);
        assert s == Encode(m) + tail;
        TakeWhole(cfg, m, tail);
        PrefixStep(ms, Take(cfg, tail).msgs, Take(cfg, tail).rest);
      }
    }
  }

  lemma TakeAll(cfg: Config, ms: seq<Message>)
    requires AllAccepted(cfg, ms)
    ensures Take(cfg, EncodeAll(ms)) == Taken(ms, [], false)
  {
    hide Encode, Accepts;
    TakePrefix(cfg, ms, EncodeAll(ms));
    PrefixIsShorter(Take(cfg, EncodeAll(ms)).msgs, ms);
  }

  /** The wire value a rect message carries for stream pixel (x, y). */
  function RectPixel(cfg: Config, m: Message, x: nat, y: nat): nat
    requires m.Covers(x, y)
  {
    var img := DecodeImage(RectData(cfg, m), m.hdr.w * cfg.fmt.Bytes(), cfg.fmt.Bytes());
    var i, j := y - m.hdr.y, x - m.hdr.x;
    if i < |img| && j < |img[i]| then img[i][j] else 0
  }

  /** Where a message sequence stands with respect to H.264 episodes. */
  datatype Phase = Synced | Open | Ended

  function NextPhase(p: Phase, m: Message, width: nat, height: nat): Phase {
    if m.IsAccessUnit() then Open
    else if m.IsEos() then Ended
    else if m.IsRect() && p == Ended && m.FullStream(width, height) then Synced
    else p
  }

  function PhaseOf(cfg: Config, log: seq<Message>): Phase {
    if log == [] then Synced
    else NextPhase(PhaseOf(cfg, log[..|log| - 1]), log[|log| - 1], cfg.width, cfg.height)
  }

  predicate StepOk(cfg: Config, p: Phase, m: Message) {
    && (m.IsAccessUnit() ==> p == Open || m.hdr.flag == FLAG_IDR)
    && (m.IsRect() ==> p != Open && (p == Ended ==> m.FullStream(cfg.width, cfg.height)))
  }

  /** The episode grammar. */
  predicate Grammar(cfg: Config, log: seq<Message>) {
    log == [] ||
    (var prev := log[..|log| - 1];
     Grammar(cfg, prev) && StepOk(cfg, PhaseOf(cfg, prev), log[|log| - 1]))
  }

  // The three ways to break the grammar.

  /** An ordinary access unit opened an episode. */
  predicate Loose(cfg: Config, log: seq<Message>) {
    log != [] &&
    (var prev, m := log[..|log| - 1], log[|log| - 1];
     Loose(cfg, prev) || (m.IsAccessUnit() && m.hdr.flag != FLAG_IDR && PhaseOf(cfg, prev) != Open))
  }

  /** A rect sits inside an open episode. */
  predicate Stray(cfg: Config, log: seq<Message>) {
    log != [] &&
    (var prev, m := log[..|log| - 1], log[|log| - 1];
     Stray(cfg, prev) || (m.IsRect() && PhaseOf(cfg, prev) == Open))
  }

  /** A part of the picture came first after an end of episode. */
  predicate Partial(cfg: Config, log: seq<Message>) {
    log != [] &&
    (var prev, m := log[..|log| - 1], log[|log| - 1];
     Partial(cfg, prev) || (m.IsRect() && PhaseOf(cfg, prev) == Ended && !m.FullStream(cfg.width, cfg.height)))
  }

  lemma {:induction false} GrammarFaults(cfg: Config, log: seq<Message>)
    ensures Grammar(cfg, log) <==> !Loose(cfg, log) && !Stray(cfg, log) && !Partial(cfg, log)
  {
    if log != [] {
      GrammarFaults(cfg, log[..|log| - 1]);
    }
  }

  lemma FaultSnoc(cfg: Config, log: seq<Message>, m: Message)
    ensures Loose(cfg, log + [m]) <==> Loose(cfg, log) || (m.IsAccessUnit() && m.hdr.flag != FLAG_IDR && PhaseOf(cfg, log) != Open)
    ensures Stray(cfg, log + [m]) <==> Stray(cfg, log) || (m.IsRect() && PhaseOf(cfg, log) == Open)
    ensures Partial(cfg, log + [m]) <==>
              Partial(cfg, log) || (m.IsRect() && PhaseOf(cfg, log) == Ended && !m.FullStream(cfg.width, cfg.height))
  {
    assert (log + [m])[..|log|] == log;
  }

  /** The wire value that pixel (x, y) shows once `log` was received by a
      receiver that started zeroed; None while a decoder may paint it: from
      an access unit up to and including its end-of-episode message, and
      until a rect repaints the pixel. Rects received inside an episode do
      not count, a late picture may still land over them. */
  function Shown(cfg: Config, log: seq<Message>, x: nat, y: nat): Option<nat> {
    if log == [] then Some(0)
    else
      var prev, m := log[..|log| - 1], log[|log| - 1];
      if m.IsAccessUnit() || PhaseOf(cfg, prev) == Open then None
      else if m.IsRect() && m.Covers(x, y) then Some(RectPixel(cfg, m, x, y))
      else Shown(cfg, prev, x, y)
  }

  /** What the receiver shows at (x, y) looks like p. */
  ghost predicate Presents(cfg: Config, dither: bool, log: seq<Message>, x: nat, y: nat, p: Pixel) {
    var v := Shown(cfg, log, x, y);
    v.Some? && Looks(cfg.fmt, dither, p, v.value)
  }

  lemma ShownPresents(cfg: Config, dither: bool, log: seq<Message>, x: nat, y: nat, p: Pixel)
    requires Shown(cfg, log, x, y) == Some(WirePixel(cfg.fmt, dither, p, x, y))
    ensures Presents(cfg, dither, log, x, y, p)
  {
    hide Shown, WirePixel, Looks;
    WirePixelLooks(cfg.fmt, dither, p, x, y);
  }

  lemma PhaseSnoc(cfg: Config, log: seq<Message>, m: Message)
    ensures PhaseOf(cfg, log + [m]) == NextPhase(PhaseOf(cfg, log), m, cfg.width, cfg.height)
    ensures Grammar(cfg, log + [m]) <==> Grammar(cfg, log) && StepOk(cfg, PhaseOf(cfg, log), m)
  {
    assert (log + [m])[..|log|] == log;
  }

  /** An access unit longer than the receivers' buffer: they drop the
      connection as soon as its header is in. */
  lemma OversizedDrops(cfg: Config, m: Message, tail: seq<byte>)
    requires m.WellFormed() && m.IsAccessUnit() && |m.payload| > AU_CAP
    ensures Take(cfg, Encode(m) + tail).dropped && Take(cfg, Encode(m) + tail).msgs == []
  {
    HeaderRoundTrip(m.hdr, m.payload + tail);
    ConcatAssoc(EncodeHeader(m.hdr), m.payload, tail);
  }

  lemma ShownSnoc(cfg: Config, log: seq<Message>, m: Message, x: nat, y: nat)
    ensures Shown(cfg, log + [m], x, y) ==
            if m.IsAccessUnit() || PhaseOf(cfg, log) == Open then None
            else if m.IsRect() && m.Covers(x, y) then Some(RectPixel(cfg, m, x, y))
            else Shown(cfg, log, x, y)
  {
    assert (log + [m])[..|log|] == log;
  }

  /** Messages that carry no pixels change no pixel outside an episode. */
  lemma ShownUnmoved(cfg: Config, log: seq<Message>, m: Message)
    requires !m.IsPixels() && PhaseOf(cfg, log) != Open
    ensures forall x: nat, y: nat :: Shown(cfg, log + [m], x, y) == Shown(cfg, log, x, y)
  {
    forall x: nat, y: nat
      ensures Shown(cfg, log + [m], x, y) == Shown(cfg, log, x, y)
    {
      ShownSnoc(cfg, log, m, x, y);
    }
  }

  /** A rect paints what it covers and leaves the rest. */
  lemma ShownRect(cfg: Config, log: seq<Message>, m: Message)
    requires m.IsRect() && PhaseOf(cfg, log) != Open
    ensures forall x: nat, y: nat | m.Covers(x, y) :: Shown(cfg, log + [m], x, y) == Some(RectPixel(cfg, m, x, y))
    ensures forall x: nat, y: nat | !m.Covers(x, y) :: Shown(cfg, log + [m], x, y) == Shown(cfg, log, x, y)
  {
    forall x: nat, y: nat
      ensures m.Covers(x, y) ==> Shown(cfg, log + [m], x, y) == Some(RectPixel(cfg, m, x, y))
      ensures !m.Covers(x, y) ==> Shown(cfg, log + [m], x, y) == Shown(cfg, log, x, y)
    {
      ShownSnoc(cfg, log, m, x, y);
    }
  }

  lemma AcceptedSnoc(cfg: Config, ms: seq<Message>, m: Message)
    requires AllAccepted(cfg, ms) && m.WellFormed() && Accepts(cfg, m)
    ensures AllAccepted(cfg, ms + [m])
  {}

  /** The phase read off the last episode message. */
  lemma {:induction false} PhaseMeaning(cfg: Config, log: seq<Message>)
    ensures PhaseOf(cfg, log) == Open <==>
            exists i | 0 <= i < |log| :: log[i].IsAccessUnit() && forall k | i < k < |log| :: !log[k].IsEos()
    ensures PhaseOf(cfg, log) == Ended <==>
            exists i | 0 <= i < |log| :: log[i].IsEos()
              && forall k | i < k < |log| :: !log[k].IsAccessUnit() && !(log[k].IsRect() && log[k].FullStream(cfg.width, cfg.height))
  {
    if log != [] {
      var n := |log| - 1;
      PhaseMeaning(cfg, log[..n]);
      assert forall k | 0 <= k < n :: log[..n][k] == log[k];
      var m := log[n];
      if m.IsAccessUnit() {
        assert log[n].IsAccessUnit();
      } else if m.IsEos() {
        assert log[n].IsEos();
      }
    }
  }

  /** What the grammar promises, by position: an access unit that is not in
      an open episode is an IDR; no rect sits between an access unit and the
      end of its episode; the first pixels after an end of episode are a
      full-stream rect or an IDR. */
  lemma {:induction false} GrammarMeaning(cfg: Config, log: seq<Message>, j: nat)
    requires Grammar(cfg, log) && j < |log|
    ensures log[j].IsAccessUnit() && log[j].hdr.flag != FLAG_IDR ==>
              exists i | 0 <= i < j :: log[i].IsAccessUnit() && forall k | i < k < j :: !log[k].IsEos()
    ensures log[j].IsRect() ==>
              forall i | 0 <= i < j && log[i].IsAccessUnit() :: exists k | i < k < j :: log[k].IsEos()
    ensures forall i | 0 <= i < j && log[i].IsEos() && (forall k | i < k < j :: !log[k].IsPixels()) ::
              log[j].IsPixels() ==>
                (log[j].IsRect() && log[j].FullStream(cfg.width, cfg.height)) || log[j].hdr.flag == FLAG_IDR
    decreases |log|
  {
    var n := |log| - 1;
    assert forall k | 0 <= k < n :: log[..n][k] == log[k];
    if j < n {
      GrammarMeaning(cfg, log[..n], j);
    } else {
      PhaseMeaning(cfg, log[..n]);
      assert StepOk(cfg, PhaseOf(cfg, log[..n]), log[n]);
    }
  }
}
