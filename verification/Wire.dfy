/** Framing of the server-to-client stream: every message is a 20-byte
    little-endian header followed by `len` payload bytes. */
module Wire {

  type byte = b: int | 0 <= b < 256

  const MAGIC: nat := 0x30624672
  const HDR_LEN: nat := 20

  const ENC_RAW: byte := 0
  const ENC_LZ4: byte := 1
  const ENC_BLANK: byte := 2
  const ENC_UNBLANK: byte := 3
  const ENC_PING: byte := 4
  const ENC_H264: byte := 5
  const ENC_H264_EOS: byte := 6

  const FLAG_IDR: byte := 1

  datatype Header = Header(encoding: byte, flag: byte, x: nat, y: nat, w: nat, h: nat, len: nat) {
    predicate Fits() {
      x < 0x1_0000 && y < 0x1_0000 && w < 0x1_0000 && h < 0x1_0000 && len < 0x1_0000_0000
    }
  }

  datatype Message = Message(hdr: Header, payload: seq<byte>) {
    predicate WellFormed() { hdr.Fits() && hdr.len == |payload| }
    predicate IsRect() { hdr.encoding == ENC_RAW || hdr.encoding == ENC_LZ4 }
    predicate IsAccessUnit() { hdr.encoding == ENC_H264 }
    predicate IsEos() { hdr.encoding == ENC_H264_EOS }
    predicate IsPixels() { IsRect() || IsAccessUnit() }
    predicate Covers(px: int, py: int) {
      hdr.x <= px < hdr.x + hdr.w && hdr.y <= py < hdr.y + hdr.h
    }
    predicate FullStream(width: nat, height: nat) {
      hdr.x == 0 && hdr.y == 0 && hdr.w == width && hdr.h == height
    }
  }

  /** The n-byte little-endian form of v. */
  function LittleEndian(n: nat, v: nat): (s: seq<byte>)
    ensures |s| == n
  {
    if n == 0 then [] else [v % 256] + LittleEndian(n - 1, v / 256)
  }

  function FromLittleEndian(s: seq<byte>): nat {
    if s == [] then 0 else s[0] + 256 * FromLittleEndian(s[1..])
  }

  function Pow256(n: nat): (p: nat)
    ensures p > 0
  {
    if n == 0 then 1 else 256 * Pow256(n - 1)
  }

  lemma {:induction false} LittleEndianRoundTrip(n: nat, v: nat)
    requires v < Pow256(n)
    ensures FromLittleEndian(LittleEndian(n, v)) == v
  {
    if n > 0 {
      LittleEndianRoundTrip(n - 1, v / 256);
      assert LittleEndian(n, v)[1..] == LittleEndian(n - 1, v / 256);
    }
  }

  lemma {:induction false} FromLittleEndianBound(s: seq<byte>)
    ensures FromLittleEndian(s) < Pow256(|s|)
  {
    if s != [] {
      FromLittleEndianBound(s[1..]);
    }
  }

  lemma Widths()
    ensures Pow256(1) == 256 && Pow256(2) == 0x1_0000 && Pow256(4) == 0x1_0000_0000
  {
    assert Pow256(2) == 256 * Pow256(1);
    assert Pow256(3) == 256 * Pow256(2);
  }

  function EncodeHeader(h: Header): (s: seq<byte>)
    ensures |s| == HDR_LEN
  {
    LittleEndian(4, MAGIC) + [h.encoding, h.flag, 0, 0] +
    LittleEndian(2, h.x) + LittleEndian(2, h.y) + LittleEndian(2, h.w) + LittleEndian(2, h.h) +
    LittleEndian(4, h.len)
  }

  function HeaderMagic(s: seq<byte>): nat
    requires |s| >= HDR_LEN
  {
    FromLittleEndian(s[0..4])
  }

  function DecodeHeader(s: seq<byte>): Header
    requires |s| >= HDR_LEN
  {
    Header(s[4], s[5], FromLittleEndian(s[8..10]), FromLittleEndian(s[10..12]),
           FromLittleEndian(s[12..14]), FromLittleEndian(s[14..16]), FromLittleEndian(s[16..20]))
  }

  lemma HeaderRoundTrip(h: Header, tail: seq<byte>)
    requires h.Fits()
    ensures HeaderMagic(EncodeHeader(h) + tail) == MAGIC
    ensures DecodeHeader(EncodeHeader(h) + tail) == h
  {
    hide LittleEndian, FromLittleEndian, Pow256;
    var s := EncodeHeader(h) + tail;
    Widths();
    LittleEndianRoundTrip(4, MAGIC);
    LittleEndianRoundTrip(2, h.x);
    LittleEndianRoundTrip(2, h.y);
    LittleEndianRoundTrip(2, h.w);
    LittleEndianRoundTrip(2, h.h);
    LittleEndianRoundTrip(4, h.len);
    assert s[0..4] == LittleEndian(4, MAGIC);
    assert s[8..10] == LittleEndian(2, h.x);
    assert s[10..12] == LittleEndian(2, h.y);
    assert s[12..14] == LittleEndian(2, h.w);
    assert s[14..16] == LittleEndian(2, h.h);
    assert s[16..20] == LittleEndian(4, h.len);
  }

  function Encode(m: Message): (s: seq<byte>)
    ensures |s| == HDR_LEN + |m.payload|
  {
    EncodeHeader(m.hdr) + m.payload
  }

  function EncodeAll(ms: seq<Message>): seq<byte> {
    if ms == [] then [] else Encode(ms[0]) + EncodeAll(ms[1..])
  }

  lemma ConcatAssoc<T>(x: seq<T>, y: seq<T>, z: seq<T>)
    ensures x + (y + z) == (x + y) + z
  {}

  lemma {:induction false} EncodeAllConcat(a: seq<Message>, b: seq<Message>)
    ensures EncodeAll(a + b) == EncodeAll(a) + EncodeAll(b)
  {
    hide Encode;
    if a == [] {
      assert a + b == b;
    } else {
      var t := a[1..] + b;
      EncodeAllConcat(a[1..], b);
      assert (a + b)[0] == a[0] && (a + b)[1..] == t;
      ConcatAssoc(Encode(a[0]), EncodeAll(a[1..]), EncodeAll(b));
    }
  }

  lemma EncodeAllSnoc(a: seq<Message>, m: Message)
    ensures EncodeAll(a + [m]) == EncodeAll(a) + Encode(m)
  {
    EncodeAllConcat(a, [m]);
    assert EncodeAll([m]) == Encode(m) + EncodeAll([]);
  }

  lemma PrefixStep(ms: seq<Message>, q: seq<Message>, rest: seq<byte>)
    requires ms != [] && q <= ms[1..]
    ensures [ms[0]] + q <= ms
    ensures EncodeAll([ms[0]] + q) + rest == Encode(ms[0]) + (EncodeAll(q) + rest)
  {
    assert ms == [ms[0]] + ms[1..];
    assert ([ms[0]] + q)[1..] == q;
  }

  lemma PrefixIsShorter(q: seq<Message>, ms: seq<Message>)
    requires q <= ms
    ensures |q| < |ms| ==> |EncodeAll(ms)| >= |EncodeAll(q)| + |Encode(ms[|q|])|
  {
    hide Encode;
    assert ms == q + ms[|q|..];
    EncodeAllConcat(q, ms[|q|..]);
  }
}
