/** The client-to-server direction: 16-byte messages reassembled from
    whatever pieces the socket returns, with a byte-wise resynchronisation on
    the magic that gives up after too much garbage. */
module Upstream {
  import opened Wire

  const MSG_LEN: nat := 16
  const RECV_CAP: nat := 1024
  const GARBAGE_MAX: nat := 256
  const MAGIC_BYTES: seq<byte> := [0x72, 0x46, 0x62, 0x30]

  /** The bytes hunted for are the magic of the protocol, little-endian. */
  lemma MagicBytes()
    ensures MAGIC_BYTES == LittleEndian(4, MAGIC)
  {}

  // ---------------------------------------------------------- the stream

  /** What the parser makes of a stream: the messages, the bytes kept for
      later, the garbage skipped since the last message, the verdict. */
  datatype Parsed = Parsed(msgs: seq<seq<byte>>, rest: seq<byte>, garbage: nat, dropped: bool)

  function Prepend(ms: seq<seq<byte>>, p: Parsed): Parsed { p.(msgs := ms + p.msgs) }

  predicate Misaligned(s: seq<byte>) { |s| >= 4 && s[..4] != MAGIC_BYTES }

  function Scan(s: seq<byte>, garbage: nat): Parsed
    decreases |s|
  {
    if Misaligned(s) then
      if garbage + 1 > GARBAGE_MAX then Parsed([], s[1..], garbage + 1, true) else Scan(s[1..], garbage + 1)
    else if |s| < MSG_LEN then Parsed([], s, garbage, false)
    else Prepend([s[..MSG_LEN]], Scan(s[MSG_LEN..], 0))
  }

  lemma ScanAligned(s: seq<byte>, garbage: nat)
    requires !Misaligned(s)
    ensures Scan(s, garbage) ==
            if |s| < MSG_LEN then Parsed([], s, garbage, false) else Prepend([s[..MSG_LEN]], Scan(s[MSG_LEN..], 0))
  {}

  /** Splitting a stream anywhere changes nothing: the second piece goes on
      where the first one stopped, unless that one was dropped already. */
  lemma {:induction false} ScanSplit(a: seq<byte>, b: seq<byte>, g: nat)
    ensures var p := Scan(a, g);
      if p.dropped then Scan(a + b, g).dropped && Scan(a + b, g).msgs == p.msgs
      else Scan(a + b, g) == Prepend(p.msgs, Scan(p.rest + b, p.garbage))
    decreases |a|
  {
    hide Scan, Misaligned;
    MisalignedSplit(a, b);
    if Misaligned(a) {
      ScanMisaligned(a, g);
      ScanMisaligned(a + b, g);
      assert (a + b)[1..] == a[1..] + b;
      if g + 1 <= GARBAGE_MAX {
        ScanSplit(a[1..], b, g + 1);
      }
      return;
    }
    ScanAligned(a, g);
    if |a| >= MSG_LEN {
      ScanAligned(a + b, g);
      assert (a + b)[..MSG_LEN] == a[..MSG_LEN] && (a + b)[MSG_LEN..] == a[MSG_LEN..] + b;
      ScanSplit(a[MSG_LEN..], b, 0);
      var p := Scan(a[MSG_LEN..], 0);
      ConcatAssoc([a[..MSG_LEN]], p.msgs, Scan(p.rest + b, p.garbage).msgs);
    }
  }

  lemma MisalignedSplit(a: seq<byte>, b: seq<byte>)
    ensures |a| >= 4 ==> Misaligned(a + b) == Misaligned(a)
    ensures Misaligned(a) ==> |a| >= 4
  {
    if |a| >= 4 {
      assert (a + b)[..4] == a[..4];
    }
  }

  lemma ScanMisaligned(s: seq<byte>, g: nat)
    requires Misaligned(s)
    ensures s != []
    ensures Scan(s, g) == if g + 1 > GARBAGE_MAX then Parsed([], s[1..], g + 1, true) else Scan(s[1..], g + 1)
  {}

  /** After a parse that goes on, fewer than 16 bytes remain and the garbage
      counter is within bounds; what was skipped and taken is accounted for. */
  lemma {:induction false} ScanLeaves(s: seq<byte>, g: nat)
    requires g <= GARBAGE_MAX
    ensures var p := Scan(s, g);
      && |p.rest| <= |s| && p.rest == s[|s| - |p.rest|..]
      && (!p.dropped ==> |p.rest| < MSG_LEN && p.garbage <= GARBAGE_MAX && !Misaligned(p.rest))
      && (p.dropped ==> p.garbage == GARBAGE_MAX + 1)
      && forall i | 0 <= i < |p.msgs| :: |p.msgs[i]| == MSG_LEN && p.msgs[i][..4] == MAGIC_BYTES
    decreases |s|
  {
    if Misaligned(s) {
      if g + 1 <= GARBAGE_MAX {
        ScanLeaves(s[1..], g + 1);
      }
    } else if |s| >= MSG_LEN {
      ScanLeaves(s[MSG_LEN..], 0);
    }
  }

  function Join(ms: seq<seq<byte>>): seq<byte> { if ms == [] then [] else ms[0] + Join(ms[1..]) }

  predicate Block(m: seq<byte>) { |m| == MSG_LEN && m[..4] == MAGIC_BYTES }

  /** A stream of well-formed messages comes back message by message. */
  lemma {:induction false} ScanJoin(ms: seq<seq<byte>>, tail: seq<byte>, g: nat)
    requires forall i | 0 <= i < |ms| :: Block(ms[i])
    requires |tail| < MSG_LEN && !Misaligned(tail)
    ensures Scan(Join(ms) + tail, g) == Parsed(ms, tail, if ms == [] then g else 0, false)
  {
    var s := Join(ms) + tail;
    if ms != [] {
      assert s == ms[0] + (Join(ms[1..]) + tail);
      assert s[..MSG_LEN] == ms[0] && s[MSG_LEN..] == Join(ms[1..]) + tail && s[..4] == ms[0][..4];
      ScanJoin(ms[1..], tail, 0);
    } else {
      assert s == tail;
    }
  }

  /** Up to 256 bytes of junk that never look like the magic are skipped, and
      the stream behind them is read as if it had come alone. */
  lemma {:induction false} ScanResync(junk: seq<byte>, s: seq<byte>, g: nat)
    requires g + |junk| <= GARBAGE_MAX
    requires forall i | 0 <= i < |junk| :: Misaligned((junk + s)[i..])
    ensures Scan(junk + s, g) == Scan(s, g + |junk|)
    decreases |junk|
  {
    if junk == [] {
      assert junk + s == s;
    } else {
      assert (junk + s)[0..] == junk + s;
      assert (junk + s)[1..] == junk[1..] + s;
      forall i | 0 <= i < |junk| - 1
        ensures Misaligned((junk[1..] + s)[i..])
      {
        assert (junk + s)[i + 1..] == (junk[1..] + s)[i..];
      }
      ScanResync(junk[1..], s, g + 1);
    }
  }

  /** One byte more and the connection is dropped, whatever follows. */
  lemma {:induction false} TooMuchGarbage(s: seq<byte>, g: nat)
    requires g <= GARBAGE_MAX < g + |s| && forall i | 0 <= i <= GARBAGE_MAX - g :: Misaligned(s[i..])
    ensures Scan(s, g).dropped && Scan(s, g).msgs == []
    decreases GARBAGE_MAX - g
  {
    assert s[0..] == s;
    if g < GARBAGE_MAX {
      forall i | 0 <= i <= GARBAGE_MAX - (g + 1)
        ensures Misaligned(s[1..][i..])
      {
        assert s[1..][i..] == s[i + 1..];
      }
      TooMuchGarbage(s[1..], g + 1);
    }
  }

  // ------------------------------------------------------------ messages

  const PONG: byte := 1
  const INPUT: byte := 2

  /** An input value travels as a 32-bit two's complement number. */
  datatype Msg =
    | Pong(t: nat)
    | Input(dev: byte, evType: nat, evCode: nat, value: int)
  {
    predicate Fits() {
      match this
      case Pong(t) => t < Pow256(8)
      case Input(_, evType, evCode, value) => evType < 0x1_0000 && evCode < 0x1_0000 && -0x8000_0000 <= value < 0x8000_0000
    }
  }

  function Unsigned(v: int): nat requires -0x8000_0000 <= v < 0x8000_0000 { if v < 0 then v + 0x1_0000_0000 else v }
  function Signed(u: nat): int { if u >= 0x8000_0000 then u - 0x1_0000_0000 else u }

  function EncodeMsg(m: Msg): (s: seq<byte>)
    requires m.Fits()
    ensures Block(s)
  {
    match m
    case Pong(t) => MAGIC_BYTES + [PONG, 0, 0, 0] + LittleEndian(8, t)
    case Input(dev, evType, evCode, value) =>
      MAGIC_BYTES + [INPUT, dev, 0, 0] + LittleEndian(2, evType) + LittleEndian(2, evCode) + LittleEndian(4, Unsigned(value))
  }

  /** What one block asks for; nothing when its type is unknown or was not
      negotiated. */
  function Upcall(b: seq<byte>, feedback: bool, input: bool): seq<Msg>
    requires |b| == MSG_LEN
  {
    if b[4] == PONG && feedback then [Pong(FromLittleEndian(b[8..16]))]
    else if b[4] == INPUT && input then
      [Input(b[5], FromLittleEndian(b[8..10]), FromLittleEndian(b[10..12]), Signed(FromLittleEndian(b[12..16])))]
    else []
  }

  lemma UpcallRoundTrip(m: Msg)
    requires m.Fits()
    ensures Upcall(EncodeMsg(m), true, true) == [m]
    ensures m.Pong? ==> Upcall(EncodeMsg(m), true, false) == [m] && Upcall(EncodeMsg(m), false, true) == []
    ensures m.Input? ==> Upcall(EncodeMsg(m), false, true) == [m] && Upcall(EncodeMsg(m), true, false) == []
  {
    var b := EncodeMsg(m);
    Widths();
    match m
    case Pong(t) =>
      LittleEndianRoundTrip(8, t);
      assert b[8..16] == LittleEndian(8, t);
    case Input(dev, evType, evCode, value) =>
      LittleEndianRoundTrip(2, evType);
      LittleEndianRoundTrip(2, evCode);
      LittleEndianRoundTrip(4, Unsigned(value));
      assert b[8..10] == LittleEndian(2, evType);
      assert b[10..12] == LittleEndian(2, evCode);
      assert b[12..] == LittleEndian(4, Unsigned(value));
      assert b[12..16] == b[12..];
  }

  function Upcalls(bs: seq<seq<byte>>, feedback: bool, input: bool): seq<Msg>
    requires forall i | 0 <= i < |bs| :: |bs[i]| == MSG_LEN
  {
    if bs == [] then [] else Upcalls(bs[..|bs| - 1], feedback, input) + Upcall(bs[|bs| - 1], feedback, input)
  }

  function Encoded(ms: seq<Msg>): (bs: seq<seq<byte>>)
    requires forall i | 0 <= i < |ms| :: ms[i].Fits()
    ensures |bs| == |ms| && forall i | 0 <= i < |ms| :: bs[i] == EncodeMsg(ms[i])
  {
    hide EncodeMsg;
    seq(|ms|, i requires 0 <= i < |ms| && ms[i].Fits() => EncodeMsg(ms[i]))
  }

  lemma {:induction false} UpcallsOfEncoded(ms: seq<Msg>)
    requires forall i | 0 <= i < |ms| :: ms[i].Fits()
    ensures Upcalls(Encoded(ms), true, true) == ms
  {
    hide EncodeMsg, Upcall;
    if ms != [] {
      var n := |ms| - 1;
      UpcallsOfEncoded(ms[..n]);
      UpcallRoundTrip(ms[n]);
      assert Encoded(ms)[..n] == Encoded(ms[..n]);
    }
  }

  /** Whatever a client sends well-formed is handed on unchanged, in order. */
  lemma StreamRoundTrip(ms: seq<Msg>)
    requires forall i | 0 <= i < |ms| :: ms[i].Fits()
    ensures var p := Scan(Join(Encoded(ms)), 0);
            !p.dropped && p.rest == [] && p.msgs == Encoded(ms) && Upcalls(p.msgs, true, true) == ms
  {
    hide EncodeMsg, Upcall, Scan;
    ScanJoin(Encoded(ms), [], 0);
    assert Join(Encoded(ms)) + [] == Join(Encoded(ms));
    UpcallsOfEncoded(ms);
  }

  // ------------------------------------------------------------ receiver

  class Receiver {
    const recvbuf: array<byte>
    const feedback: bool
    const input: bool
    var recvlen: nat
    var garbage: nat                     // bytes skipped hunting for the magic
    var lost: bool                       // teardown scheduled
    var calls: seq<Msg>                  // handed to the controller and the replay
    ghost var blocks: seq<seq<byte>>     // taken out of the stream
    ghost var got: seq<byte>             // read so far

    ghost function Pending(): (s: seq<byte>)
      requires recvlen <= recvbuf.Length
      reads this`recvlen, recvbuf
      ensures |s| == recvlen
    {
      recvbuf[..recvlen]
    }

    ghost predicate Shape()
      reads this`recvlen, this`blocks, this`calls
    {
      && recvbuf.Length == RECV_CAP && recvlen <= RECV_CAP
      && (forall i | 0 <= i < |blocks| :: |blocks[i]| == MSG_LEN)
      && calls == Upcalls(blocks, feedback, input)
    }

    /** The state is the parse of everything read, however it was cut. */
    ghost predicate Valid()
      reads this, recvbuf
    {
      && Shape()
      && (if lost then Scan(got, 0).dropped && Scan(got, 0).msgs == blocks
          else recvlen < MSG_LEN && Scan(got, 0) == Parsed(blocks, Pending(), garbage, false))
    }

    constructor (feedback: bool, input: bool)
      ensures Valid() && !lost && got == [] && calls == [] && fresh(recvbuf)
      ensures this.feedback == feedback && this.input == input
    {
      this.feedback, this.input := feedback, input;
      recvbuf := new byte[RECV_CAP];
      recvlen, garbage, lost, calls, blocks, got := 0, 0, false, [], [], [];
    }

    /** Shifts the buffer down by n bytes, in place. */
    method Shift(n: nat)
      requires n <= recvlen <= recvbuf.Length
      modifies this`recvlen, recvbuf
      ensures recvlen == old(recvlen) - n && Pending() == old(Pending())[n..]
    {
      recvlen := recvlen - n;
      forall i | 0 <= i < recvlen {
        recvbuf[i] := recvbuf[i + n];
      }
    }

    predicate AtGarbage()
      requires recvlen <= recvbuf.Length
      reads this`recvlen, recvbuf
      ensures AtGarbage() == Misaligned(Pending())
    {
      assert recvlen >= 4 ==> Pending()[..4] == recvbuf[..4];
      recvlen >= 4 && recvbuf[..4] != MAGIC_BYTES
    }

    /** Hunts for the magic at the start of the buffer. */
    method Hunt()
      requires recvbuf.Length == RECV_CAP && recvlen <= RECV_CAP && garbage <= GARBAGE_MAX && !lost
      modifies this`recvlen, this`garbage, this`lost, recvbuf
      ensures recvlen <= old(recvlen)
      ensures Scan(old(Pending()), old(garbage)) == if lost then Parsed([], Pending(), garbage, true) else Scan(Pending(), garbage)
      ensures !lost ==> !Misaligned(Pending()) && garbage <= GARBAGE_MAX
    {
      hide Scan, Misaligned, AtGarbage, Pending;
      while AtGarbage()
        invariant recvlen <= old(recvlen) && garbage <= GARBAGE_MAX && !lost
        invariant Scan(old(Pending()), old(garbage)) == Scan(Pending(), garbage)
        decreases recvlen
      {
        Skip();
        if lost { return; }
      }
    }

    /** One byte of garbage. */
    method Skip()
      requires recvbuf.Length == RECV_CAP && recvlen <= RECV_CAP && garbage <= GARBAGE_MAX && !lost && Misaligned(Pending())
      modifies this`recvlen, this`garbage, this`lost, recvbuf
      ensures recvlen < old(recvlen) && lost == (garbage > GARBAGE_MAX)
      ensures Scan(old(Pending()), old(garbage)) == if lost then Parsed([], Pending(), garbage, true) else Scan(Pending(), garbage)
    {
      hide Scan, Misaligned, AtGarbage, Pending;
      ScanMisaligned(Pending(), garbage);
      Shift(1);
      garbage := garbage + 1;
      lost := garbage > GARBAGE_MAX;
    }

    /** Takes one message off the buffer and hands it on. */
    method Deliver()
      requires Shape() && recvlen >= MSG_LEN
      modifies this`recvlen, this`garbage, this`calls, this`blocks, recvbuf
      ensures Shape() && garbage == 0 && blocks == old(blocks) + [old(Pending())[..MSG_LEN]]
      ensures Pending() == old(Pending())[MSG_LEN..]
    {
      hide Upcall;
      var msg := recvbuf[..MSG_LEN];
      assert msg == Pending()[..MSG_LEN];
      Shift(MSG_LEN);
      garbage := 0;
      calls := calls + Upcall(msg, feedback, input);
      blocks := blocks + [msg];
      assert blocks[..|blocks| - 1] == old(blocks);
    }

    method Parse()
      requires Shape() && garbage <= GARBAGE_MAX && !lost
      modifies this`recvlen, this`garbage, this`lost, this`calls, this`blocks, recvbuf
      ensures Shape()
      ensures var p := Scan(old(Pending()), old(garbage));
        && lost == p.dropped && blocks == old(blocks) + p.msgs
        && (!lost ==> p == Parsed(p.msgs, Pending(), garbage, false) && recvlen < MSG_LEN)
    {
      hide Scan, Misaligned, Upcall, Pending;
      ghost var p := Scan(Pending(), garbage);
      ghost var taken: seq<seq<byte>> := [];
      while true
        invariant Shape() && garbage <= GARBAGE_MAX && !lost
        invariant blocks == old(blocks) + taken && p == Prepend(taken, Scan(Pending(), garbage))
        decreases recvlen
      {
        Hunt();
        if lost { return; }
        ScanAligned(Pending(), garbage);
        if recvlen < MSG_LEN { return; }
        taken := taken + [Pending()[..MSG_LEN]];
        Deliver();
      }
    }

    /** A read returned `bytes`: there always was room for it. */
    method Read(bytes: seq<byte>)
      requires Valid() && !lost && 0 < |bytes| <= RECV_CAP - recvlen
      modifies this, recvbuf
      ensures Valid() && got == old(got) + bytes
      ensures lost == Scan(got, 0).dropped && calls == Upcalls(Scan(got, 0).msgs, feedback, input)
    {
      hide Scan, Misaligned, Upcalls, Pending;
      ScanSplit(got, bytes, 0);
      ScanLeaves(got, 0);
      Append(bytes);
      got := got + bytes;
      Parse();
    }

    method Append(bytes: seq<byte>)
      requires recvbuf.Length == RECV_CAP && recvlen + |bytes| <= RECV_CAP
      modifies this`recvlen, recvbuf
      ensures recvlen == old(recvlen) + |bytes| && Pending() == old(Pending()) + bytes
    {
      forall i | 0 <= i < |bytes| {
        recvbuf[recvlen + i] := bytes[i];
      }
      recvlen := recvlen + |bytes|;
    }
  }
}
