/**
 The 13-byte frame header and the framing of a byte stream
 (src/network.c:1917-1965, include/types.h).
 */
module Frames {
  import opened Bytes

  const FRAME_MAGIC: int := 0xDEADC0DE
  const MAC_LEN: int := 16
  const HEADER_SIZE: int := 13
  const MAX_PAYLOAD: int := 4096 + MAC_LEN
  /** RECV_BUF_CAPACITY and TX_BUF_CAPACITY: one maximal frame. */
  const BUF_CAPACITY: int := HEADER_SIZE + MAX_PAYLOAD

  const MSG_TEXT: Byte := 1
  const MSG_FILE: Byte := 2
  const MSG_ACK: Byte := 3
  const MSG_CTRL: Byte := 4

  datatype Header = Header(magic: nat, typ: Byte, seqNo: nat, len: nat) {
    predicate Fields32() {
      magic < TWO32 && seqNo < TWO32 && len < TWO32
    }
    predicate Accepted() {
      magic == FRAME_MAGIC && MSG_TEXT <= typ <= MSG_CTRL && len <= MAX_PAYLOAD
    }
  }

  function EncodeHeader(h: Header): (wire: seq<Byte>)
    requires h.Fields32()
    ensures |wire| == HEADER_SIZE
  {
    BigEndian(4, h.magic) + [h.typ] + BigEndian(4, h.seqNo) + BigEndian(4, h.len)
  }

  function RawHeader(wire: seq<Byte>): (h: Header)
    requires |wire| >= HEADER_SIZE
  {
    Header(FromBigEndian(wire[0..4]), wire[4], FromBigEndian(wire[5..9]), FromBigEndian(wire[9..13]))
  }

  /** frame_header_decode: None is NOX_ERR_PROTO. */
  function DecodeHeader(wire: seq<Byte>): (h: Option<Header>)
    requires |wire| >= HEADER_SIZE
  {
    var raw := RawHeader(wire);
    if raw.magic != FRAME_MAGIC then None
    else if raw.typ < MSG_TEXT || raw.typ > MSG_CTRL then None
    else if raw.len > MAX_PAYLOAD then None
    else Some(raw)
  }

  /** Decoding an encoded header, whatever bytes follow it, gives it back exactly when it is acceptable. */
  lemma DecodeEncodeHeader(h: Header, rest: seq<Byte>)
    requires h.Fields32()
    ensures DecodeHeader(EncodeHeader(h) + rest) == if h.Accepted() then Some(h) else None
  {
    PowersOf256();
    var w := EncodeHeader(h) + rest;
    assert w[0..4] == BigEndian(4, h.magic);
    assert w[5..9] == BigEndian(4, h.seqNo);
    assert w[9..13] == BigEndian(4, h.len);
    BigEndianRoundTrip(4, h.magic);
    BigEndianRoundTrip(4, h.seqNo);
    BigEndianRoundTrip(4, h.len);
  }

  /** Every accepted wire header is the encoding of what it decodes to: no two wires decode alike. */
  lemma EncodeDecodeHeader(wire: seq<Byte>)
    requires |wire| >= HEADER_SIZE && DecodeHeader(wire).Some?
    ensures DecodeHeader(wire).value.Fields32() && DecodeHeader(wire).value.Accepted()
    ensures EncodeHeader(DecodeHeader(wire).value) == wire[..HEADER_SIZE]
  {
    PowersOf256();
    FromBigEndianRoundTrip(wire[0..4]);
    FromBigEndianRoundTrip(wire[5..9]);
    FromBigEndianRoundTrip(wire[9..13]);
    assert wire[..13] == wire[0..4] + [wire[4]] + wire[5..9] + wire[9..13];
  }

  datatype Frame = Frame(typ: Byte, seqNo: nat, payload: seq<Byte>) {
    /** What the sender side produces and the receiver side accepts. */
    predicate WellFormed() {
      MSG_TEXT <= typ <= MSG_CTRL && seqNo < TWO32 && 1 <= |payload| <= MAX_PAYLOAD
    }
    function Head(): Header {
      Header(FRAME_MAGIC, typ, seqNo, |payload|)
    }
  }

  function EncodeFrame(f: Frame): (wire: seq<Byte>)
    requires f.WellFormed()
    ensures |wire| == HEADER_SIZE + |f.payload|
  {
    EncodeHeader(f.Head()) + f.payload
  }

  ghost predicate AllWellFormed(fs: seq<Frame>) {
    forall i :: 0 <= i < |fs| ==> fs[i].WellFormed()
  }

  function EncodeFrames(fs: seq<Frame>): (wire: seq<Byte>)
    requires AllWellFormed(fs)
  {
    if fs == [] then [] else EncodeFrame(fs[0]) + EncodeFrames(fs[1..])
  }

  lemma {:induction false} EncodeFramesAppend(a: seq<Frame>, b: seq<Frame>)
    requires AllWellFormed(a) && AllWellFormed(b)
    ensures AllWellFormed(a + b)
    ensures EncodeFrames(a + b) == EncodeFrames(a) + EncodeFrames(b)
  {
    hide EncodeFrame;
    if a == [] {
      assert a + b == b;
    } else {
      assert (a + b)[0] == a[0] && (a + b)[1..] == a[1..] + b;
      EncodeFramesAppend(a[1..], b);
    }
  }

  /** What the front of a receive buffer holds. */
  datatype Front = Incomplete | Malformed | Complete(frame: Frame, rest: seq<Byte>)

  function ParseFront(buf: seq<Byte>): (r: Front)
    ensures r.Complete? ==> |r.rest| < |buf|
  {
    if |buf| < HEADER_SIZE then Incomplete
    else
      var h := DecodeHeader(buf);
      if h.None? || h.value.len == 0 || h.value.len > MAX_PAYLOAD then Malformed
      else
        var total := HEADER_SIZE + h.value.len;
        if |buf| < total then Incomplete
        else Complete(Frame(h.value.typ, h.value.seqNo, buf[HEADER_SIZE..total]), buf[total..])
  }

  /** A complete frame at the front is found, and nothing after it matters. */
  lemma ParseEncoded(f: Frame, rest: seq<Byte>)
    requires f.WellFormed()
    ensures ParseFront(EncodeFrame(f) + rest) == Complete(f, rest)
  {
    DecodeEncodeHeader(f.Head(), f.payload + rest);
    var w := EncodeFrame(f) + rest;
    assert w == EncodeHeader(f.Head()) + (f.payload + rest);
    assert w[HEADER_SIZE..HEADER_SIZE + |f.payload|] == f.payload;
    assert w[HEADER_SIZE + |f.payload|..] == rest;
  }

  /** A strict prefix of a frame is never taken for a frame and never for garbage. */
  lemma ParsePartial(f: Frame, part: seq<Byte>)
    requires f.WellFormed() && part < EncodeFrame(f)
    ensures ParseFront(part) == Incomplete
  {
    if |part| >= HEADER_SIZE {
      var head := EncodeHeader(f.Head());
      assert part[..HEADER_SIZE] == EncodeFrame(f)[..HEADER_SIZE] == head;
      assert part == head + part[HEADER_SIZE..];
      DecodeEncodeHeader(f.Head(), part[HEADER_SIZE..]);
    }
  }

  /** Parsing loses nothing: the buffer is the encoding of the frame found, then the rest. */
  lemma ParseIsFaithful(buf: seq<Byte>)
    requires ParseFront(buf).Complete?
    ensures var r := ParseFront(buf); r.frame.WellFormed() && buf == EncodeFrame(r.frame) + r.rest
  {
    EncodeDecodeHeader(buf);
    var r := ParseFront(buf);
    assert buf == buf[..HEADER_SIZE] + r.frame.payload + r.rest;
  }

  /** Where a cut falls in a stream of frames: m whole frames, then a strict prefix of the next. */
  lemma {:induction false} CutPoint(fs: seq<Frame>, cut: seq<Byte>) returns (m: nat, part: seq<Byte>)
    requires AllWellFormed(fs) && cut <= EncodeFrames(fs)
    ensures m <= |fs| && AllWellFormed(fs[..m])
    ensures cut == EncodeFrames(fs[..m]) + part
    ensures if m == |fs| then part == [] else part < EncodeFrame(fs[m])
  {
    hide EncodeFrame;
    if fs == [] {
      m, part := 0, [];
    } else {
      var e := EncodeFrame(fs[0]);
      var whole := SplitPrefix(e, EncodeFrames(fs[1..]), cut);
      if !whole {
        m, part := 0, cut;
      } else {
        var k;
        k, part := CutPoint(fs[1..], cut[|e|..]);
        m := k + 1;
        assert fs[..m][0] == fs[0] && fs[..m][1..] == fs[1..][..k];
        assert cut == (e + EncodeFrames(fs[1..][..k])) + part;
      }
    }
  }

  /** A prefix of a + b either stops inside a or is a and a prefix of b. */
  lemma SplitPrefix(a: seq<Byte>, b: seq<Byte>, cut: seq<Byte>) returns (whole: bool)
    requires cut <= a + b
    ensures whole == (|cut| >= |a|)
    ensures !whole ==> cut < a
    ensures whole ==> cut[|a|..] <= b && cut == a + cut[|a|..]
  {
    whole := |cut| >= |a|;
    assert cut == (a + b)[..|cut|];
    if whole {
      assert cut[|a|..] == b[..|cut| - |a|];
      assert cut[..|a|] == a;
    } else {
      assert cut == a[..|cut|];
    }
  }
}
