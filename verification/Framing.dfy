/** The byte accounting of one connection: what the socket accepted, the rest
    of the frame in flight and the rest of the control queue, in this order,
    are exactly the encoding of everything submitted. */
module Framing {
  import opened Wire

  ghost predicate Framed(order: seq<Message>, sent: seq<byte>, rest: seq<byte>, outq: seq<Message>, off: nat) {
    off <= |EncodeAll(outq)| && sent + (rest + EncodeAll(outq)[off..]) == EncodeAll(order)
  }

  lemma QueueMessage(order: seq<Message>, sent: seq<byte>, rest: seq<byte>, outq: seq<Message>, off: nat, m: Message)
    requires Framed(order, sent, rest, outq, off)
    ensures Framed(order + [m], sent, rest, outq + [m], off)
  {
    hide Encode;
    EncodeAllSnoc(outq, m);
    EncodeAllSnoc(order, m);
    assert EncodeAll(outq + [m])[off..] == EncodeAll(outq)[off..] + Encode(m);
    ConcatAssoc(rest, EncodeAll(outq)[off..], Encode(m));
    ConcatAssoc(sent, rest + EncodeAll(outq)[off..], Encode(m));
  }

  lemma StartFrame(order: seq<Message>, sent: seq<byte>, m: Message)
    requires Framed(order, sent, [], [], 0)
    ensures Framed(order + [m], sent, Encode(m), [], 0)
  {
    hide Encode;
    EncodeAllSnoc(order, m);
    assert sent + ([] + EncodeAll([])[0..]) == sent;
    assert Encode(m) + EncodeAll([])[0..] == Encode(m);
  }

  lemma SendFrame(order: seq<Message>, sent: seq<byte>, rest: seq<byte>, outq: seq<Message>, off: nat, n: nat)
    requires Framed(order, sent, rest, outq, off) && n <= |rest|
    ensures Framed(order, sent + rest[..n], rest[n..], outq, off)
  {
    var q := EncodeAll(outq)[off..];
    assert rest == rest[..n] + rest[n..];
    ConcatAssoc(rest[..n], rest[n..], q);
    ConcatAssoc(sent, rest[..n], rest[n..] + q);
  }

  /** The segment that holds frame position pos, and the position in it. */
  function Segment(seg0: seq<byte>, seg1: seq<byte>, pos: nat): (r: (seq<byte>, nat))
    requires pos <= |seg0| + |seg1|
    ensures r.1 <= |r.0|
    ensures pos < |seg0| + |seg1| ==> r.1 < |r.0|
  {
    if pos < |seg0| then (seg0, pos) else (seg1, pos - |seg0|)
  }

  lemma SegmentFits(seg0: seq<byte>, seg1: seq<byte>, pos: nat)
    requires pos <= |seg0| + |seg1|
    ensures var (seg, at) := Segment(seg0, seg1, pos); pos + (|seg| - at) <= |seg0| + |seg1|
  {}

  /** Sending n bytes of the current segment. */
  lemma SendSegment(order: seq<Message>, sent: seq<byte>, seg0: seq<byte>, seg1: seq<byte>, pos: nat,
                    outq: seq<Message>, off: nat, n: nat)
    requires pos <= |seg0| + |seg1|
    requires Framed(order, sent, (seg0 + seg1)[pos..], outq, off)
    requires var (seg, at) := Segment(seg0, seg1, pos); n <= |seg| - at
    ensures var (seg, at) := Segment(seg0, seg1, pos);
            pos + n <= |seg0| + |seg1| && Framed(order, sent + seg[at..at + n], (seg0 + seg1)[pos + n..], outq, off)
  {
    hide Framed;
    var (seg, at) := Segment(seg0, seg1, pos);
    var rest := (seg0 + seg1)[pos..];
    SendFrame(order, sent, rest, outq, off, n);
    assert rest[..n] == seg[at..at + n];
    assert rest[n..] == (seg0 + seg1)[pos + n..];
  }

  lemma SendQueued(order: seq<Message>, sent: seq<byte>, outq: seq<Message>, off: nat, n: nat)
    requires Framed(order, sent, [], outq, off) && outq != [] && off + n <= |Encode(outq[0])|
    ensures Framed(order, sent + Encode(outq[0])[off..off + n], [], outq, off + n)
  {
    hide Encode;
    var e, tail := Encode(outq[0]), EncodeAll(outq[1..]);
    assert EncodeAll(outq) == e + tail;
    assert (e + tail)[off..] == e[off..off + n] + (e + tail)[off + n..];
    assert [] + (e + tail)[off..] == (e + tail)[off..];
    assert [] + (e + tail)[off + n..] == (e + tail)[off + n..];
    ConcatAssoc(sent, e[off..off + n], (e + tail)[off + n..]);
  }

  lemma PopQueued(order: seq<Message>, sent: seq<byte>, outq: seq<Message>)
    requires outq != [] && Framed(order, sent, [], outq, |Encode(outq[0])|)
    ensures Framed(order, sent, [], outq[1..], 0)
  {
    hide Encode;
    var e, tail := Encode(outq[0]), EncodeAll(outq[1..]);
    assert EncodeAll(outq) == e + tail;
    assert (e + tail)[|e|..] == tail[0..];
  }

  /** Once nothing waits, every submitted message is on the wire; before
      that the wire holds a prefix of them. */
  lemma WireIsPrefix(order: seq<Message>, sent: seq<byte>, rest: seq<byte>, outq: seq<Message>, off: nat)
    requires Framed(order, sent, rest, outq, off)
    ensures sent <= EncodeAll(order)
    ensures rest == [] && outq == [] ==> sent == EncodeAll(order)
  {
    if rest == [] && outq == [] {
      assert sent + ([] + EncodeAll([])[off..]) == sent;
    }
  }
}
