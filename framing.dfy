/** The frame codec of GameClient: the 8-byte header, the frame built by
    sendPacket, and the receive loop of onReadyRead as a function on the
    receive buffer. */
module Framing {
  import opened BigEndian

  /** Message codes. */
  const CmdJoin: uint16 := 1
  const CmdMove: uint16 := 2
  const CmdEatBean: uint16 := 3
  const CmdGetState: uint16 := 4
  const CmdState: uint16 := 5

  /** sizeof(COMM_PKG_HEADER): two unsigned shorts and an int, no padding. */
  const HeaderLen: nat := 8

  /** The largest body whose total length still fits the 16-bit pkgLen field. */
  const MaxBodyLen: nat := 0xFFFF - HeaderLen

  /** The CRC-32 routine of the server's library, whose table and polynomial are
      not part of this model: every statement holds for any checksum function. */
  type Checksum = seq<uint8> -> int32

  /** COMM_PKG_HEADER as it travels, big-endian. */
  datatype Header = Header(pkgLen: uint16, msgCode: uint16, crc32: int32)

  /** One message: its code and its raw body bytes. */
  datatype Message = Message(msgCode: uint16, body: seq<uint8>)

  function EncodeHeader(h: Header): (r: seq<uint8>)
    ensures |r| == HeaderLen
    ensures ParseHeader(r) == h
  {
    var r := EncodeU16(h.pkgLen) + EncodeU16(h.msgCode) + EncodeI32(h.crc32);
    assert r[0..2] == EncodeU16(h.pkgLen) && r[2..4] == EncodeU16(h.msgCode) && r[4..8] == EncodeI32(h.crc32);
    r
  }

  /** `stream >> pkgLen >> msgCode >> crc32Received` on the receive buffer. */
  function ParseHeader(buf: seq<uint8>): (h: Header)
    requires |buf| >= HeaderLen
  {
    Header(DecodeU16(buf[0..2]), DecodeU16(buf[2..4]), DecodeI32(buf[4..8]))
  }

  /** The header is read from the first eight bytes and nothing else. */
  lemma ParseHeaderPrefix(a: seq<uint8>, b: seq<uint8>)
    requires |a| >= HeaderLen && |b| >= HeaderLen && a[..HeaderLen] == b[..HeaderLen]
    ensures ParseHeader(a) == ParseHeader(b)
  {
    assert a[0..2] == a[..HeaderLen][0..2] == b[0..2];
    assert a[2..4] == a[..HeaderLen][2..4] == b[2..4];
    assert a[4..8] == a[..HeaderLen][4..8] == b[4..8];
  }

  /** Every eight bytes are the encoding of the header they parse to. */
  lemma HeaderRoundTrip(buf: seq<uint8>)
    requires |buf| == HeaderLen
    ensures EncodeHeader(ParseHeader(buf)) == buf
  {
    EncodeDecodeU16(buf[0..2]);
    EncodeDecodeU16(buf[2..4]);
    EncodeDecodeI32(buf[4..8]);
    assert buf == buf[0..2] + buf[2..4] + buf[4..8];
  }

  /** `static_cast<unsigned short>(totalLen)`: the low 16 bits of 8 + bodyLen. */
  function LengthField(bodyLen: nat): (r: uint16)
  {
    (HeaderLen + bodyLen) % 0x1_0000
  }

  /** The packet sendPacket writes: header, then the body bytes unchanged. The
      checksum field is 0 for an empty body and the CRC of the body otherwise. */
  function Frame(crc: Checksum, msgCode: uint16, body: seq<uint8>): (r: seq<uint8>)
    ensures |r| == HeaderLen + |body|
    ensures r[HeaderLen..] == body
    ensures ParseHeader(r).msgCode == msgCode
    ensures ParseHeader(r).crc32 == (if |body| == 0 then 0 else crc(body))
    ensures |body| <= MaxBodyLen ==> ParseHeader(r).pkgLen == |r|
    ensures |body| > MaxBodyLen ==> ParseHeader(r).pkgLen == |r| % 0x1_0000 < |r|
  {
    var h := Header(LengthField(|body|), msgCode, if |body| == 0 then 0 else crc(body));
    var r := EncodeHeader(h) + body;
    ParseHeaderPrefix(r, EncodeHeader(h));
    r
  }

  /** `packet.mid(PKG_HEADER_LEN)`: the bytes after the header, empty when the
      packet is no longer than a header. */
  function FrameBody(packet: seq<uint8>): (body: seq<uint8>)
    ensures |packet| <= HeaderLen ==> body == []
    ensures |packet| > HeaderLen ==> packet == packet[..HeaderLen] + body
  {
    if |packet| <= HeaderLen then [] else packet[HeaderLen..]
  }

  /** What one pass through the body of onReadyRead's loop does. */
  datatype StepResult =
    | NeedMore                                            // `break`: nothing removed
    | Dropped(len: nat)                                   // CRC mismatch: removed, `continue`
    | Delivered(msgCode: uint16, body: seq<uint8>, len: nat)  // removed and dispatched

  /** One iteration of the receive loop on the buffer `buf`: stop while fewer
      than 8 bytes, or fewer than pkgLen bytes, are there; otherwise remove the
      first pkgLen bytes and check the CRC of their body. */
  function Step(crc: Checksum, buf: seq<uint8>): (r: StepResult)
    ensures !r.NeedMore? ==> |buf| >= HeaderLen && r.len == ParseHeader(buf).pkgLen <= |buf|
  {
    if |buf| < HeaderLen then NeedMore
    else
      var h := ParseHeader(buf);
      if |buf| < h.pkgLen then NeedMore
      else
        var body := FrameBody(buf[..h.pkgLen]);
        if crc(body) != h.crc32 then Dropped(h.pkgLen)
        else Delivered(h.msgCode, body, h.pkgLen)
  }

  /** The number of bytes an iteration removes from the front of the buffer. */
  function Consumed(s: StepResult): (n: nat)
  {
    if s.NeedMore? then 0 else s.len
  }

  /** The receive loop cannot advance: it breaks (NeedMore), or the header at
      the front declares pkgLen 0 and the iteration would remove nothing. */
  predicate Halted(crc: Checksum, buf: seq<uint8>)
  {
    Consumed(Step(crc, buf)) == 0
  }

  /** The loop halts exactly when fewer than 8 bytes are buffered, when fewer
      bytes than the front header's pkgLen are buffered, or when that pkgLen
      is 0. */
  lemma HaltedIff(crc: Checksum, buf: seq<uint8>)
    ensures Halted(crc, buf)
        <==> |buf| < HeaderLen || |buf| < ParseHeader(buf).pkgLen || ParseHeader(buf).pkgLen == 0
  {
  }

  /** `rest` is what remains of `buf` after removing some prefix. */
  predicate IsSuffix(rest: seq<uint8>, buf: seq<uint8>)
  {
    |rest| <= |buf| && rest == buf[|buf| - |rest|..]
  }

  /** The messages validated by the receive loop, oldest first, and the bytes
      left in the buffer. */
  datatype Drained = Drained(messages: seq<Message>, rest: seq<uint8>)

  /** The receive loop run on `buf` until it halts. */
  function Drain(crc: Checksum, buf: seq<uint8>): (r: Drained)
    ensures IsSuffix(r.rest, buf)
    ensures Halted(crc, r.rest)
    decreases |buf|
  {
    var s := Step(crc, buf);
    if Consumed(s) == 0 then Drained([], buf)
    else
      var d := Drain(crc, buf[s.len..]);
      if s.Dropped? then d
      else Drained([Message(s.msgCode, s.body)] + d.messages, d.rest)
  }

  /** One iteration that removes bytes: the loop then continues on the rest,
      keeping the message when its checksum matched. */
  lemma DrainUnfold(crc: Checksum, buf: seq<uint8>)
    requires Consumed(Step(crc, buf)) > 0
    ensures var s := Step(crc, buf);
            var d := Drain(crc, buf[s.len..]);
            Drain(crc, buf) == if s.Dropped? then d else Drained([Message(s.msgCode, s.body)] + d.messages, d.rest)
  {
  }

  /** Bookkeeping of the receive loop: a frame removed for a bad checksum
      adds no message. */
  lemma DrainDroppedStep(crc: Checksum, all: seq<uint8>, delivered: seq<Message>, buf: seq<uint8>)
    requires Step(crc, buf).Dropped? && Step(crc, buf).len > 0
    requires Drain(crc, all) == Drained(delivered + Drain(crc, buf).messages, Drain(crc, buf).rest)
    ensures var rest := buf[Step(crc, buf).len..];
            Drain(crc, all) == Drained(delivered + Drain(crc, rest).messages, Drain(crc, rest).rest)
  {
    DrainUnfold(crc, buf);
  }

  /** Bookkeeping of the receive loop: a frame removed with a matching
      checksum adds its message after those before it. */
  lemma DrainDeliveredStep(crc: Checksum, all: seq<uint8>, delivered: seq<Message>, buf: seq<uint8>)
    requires Step(crc, buf).Delivered? && Step(crc, buf).len > 0
    requires Drain(crc, all) == Drained(delivered + Drain(crc, buf).messages, Drain(crc, buf).rest)
    ensures var s := Step(crc, buf);
            var rest := buf[s.len..];
            var d := Drain(crc, rest);
            Drain(crc, all) == Drained(delivered + [Message(s.msgCode, s.body)] + d.messages, d.rest)
  {
    var s := Step(crc, buf);
    DrainUnfold(crc, buf);
    AppendAssoc(delivered, [Message(s.msgCode, s.body)], Drain(crc, buf[s.len..]).messages);
  }

  /** A header declaring pkgLen 0 makes the receive loop spin: the iteration
      removes nothing, its body is empty, and the buffer it leaves is the one
      it started from, so the next iteration is the same one again. */
  lemma ZeroLengthFrameSpins(crc: Checksum, buf: seq<uint8>)
    requires |buf| >= HeaderLen && ParseHeader(buf).pkgLen == 0
    ensures !Step(crc, buf).NeedMore? && Step(crc, buf).len == 0
    ensures buf[Consumed(Step(crc, buf))..] == buf
    ensures Step(crc, buf).Delivered? ==> Step(crc, buf).body == []
  {
  }

  /** Once a header declaring pkgLen 0 is at the front, no later bytes get the
      loop past it: nothing is ever delivered and the buffer only grows. */
  lemma ZeroLengthFrameStallsStream(crc: Checksum, buf: seq<uint8>, more: seq<uint8>)
    requires |buf| >= HeaderLen && ParseHeader(buf).pkgLen == 0
    ensures Drain(crc, buf + more) == Drained([], buf + more)
  {
    ZeroLengthFrameSpins(crc, buf);
    StepExtend(crc, buf, more);
  }

  /** A pkgLen of 1 to 7 removes that many bytes and yields an empty body. */
  lemma ShortLengthFrameHasEmptyBody(crc: Checksum, buf: seq<uint8>)
    requires |buf| >= HeaderLen && 0 < ParseHeader(buf).pkgLen < HeaderLen
    ensures Consumed(Step(crc, buf)) == ParseHeader(buf).pkgLen
    ensures Step(crc, buf).Delivered? <==> crc([]) == ParseHeader(buf).crc32
    ensures Step(crc, buf).Delivered? ==> Step(crc, buf).body == []
  {
  }

  /** Bytes that arrive later do not change an iteration that already had
      enough bytes to run. */
  lemma StepExtend(crc: Checksum, a: seq<uint8>, b: seq<uint8>)
    requires !Step(crc, a).NeedMore?
    ensures Step(crc, a + b) == Step(crc, a)
  {
    var n := Step(crc, a).len;
    assert (a + b)[..HeaderLen] == a[..HeaderLen];
    ParseHeaderPrefix(a + b, a);
    assert (a + b)[..n] == a[..n];
  }

  lemma AppendAssoc<T>(x: seq<T>, y: seq<T>, z: seq<T>)
    ensures x + (y + z) == (x + y) + z
  {
  }

  /** Feeding the bytes in two reads gives the same messages, in the same
      order, and the same leftover as one read of all of them. */
  lemma {:induction false} DrainSplit(crc: Checksum, a: seq<uint8>, b: seq<uint8>)
    ensures var d1 := Drain(crc, a);
            var d2 := Drain(crc, d1.rest + b);
            Drain(crc, a + b) == Drained(d1.messages + d2.messages, d2.rest)
    decreases |a|
  {
    var s := Step(crc, a);
    if Consumed(s) == 0 {
      assert Drain(crc, a) == Drained([], a);
      assert [] + Drain(crc, a + b).messages == Drain(crc, a + b).messages;
    } else {
      var n := s.len;
      StepExtend(crc, a, b);
      assert (a + b)[n..] == a[n..] + b;
      DrainSplit(crc, a[n..], b);
      var d := Drain(crc, a[n..]);
      var e := Drain(crc, a[n..] + b);
      assert Drain(crc, a) == if s.Dropped? then d else Drained([Message(s.msgCode, s.body)] + d.messages, d.rest);
      assert Drain(crc, a + b) == if s.Dropped? then e else Drained([Message(s.msgCode, s.body)] + e.messages, e.rest);
      var d2 := Drain(crc, d.rest + b);
      assert e == Drained(d.messages + d2.messages, d2.rest);
      if s.Delivered? {
        var m := [Message(s.msgCode, s.body)];
        AppendAssoc(m, d.messages, d2.messages);
      }
    }
  }

  /** A complete, well-formed frame at the front of the buffer is delivered
      whole: its code and body come back, and exactly its bytes are removed.
      An empty body is accepted only when the CRC of no bytes is 0, since
      sendPacket writes 0 there but the receive loop still computes the CRC. */
  lemma StepOnFrame(crc: Checksum, msgCode: uint16, body: seq<uint8>, tail: seq<uint8>)
    requires |body| <= MaxBodyLen
    requires |body| > 0 || crc([]) == 0
    ensures Step(crc, Frame(crc, msgCode, body) + tail)
         == Delivered(msgCode, body, HeaderLen + |body|)
  {
    var f := Frame(crc, msgCode, body);
    var buf := f + tail;
    assert buf[..HeaderLen] == f[..HeaderLen];
    ParseHeaderPrefix(buf, f);
    assert buf[..|f|] == f;
    if |body| > 0 {
      assert FrameBody(f) == f[HeaderLen..] == body;
    }
  }

  /** A frame with an empty body, as sendPacket writes it (checksum field 0),
      is accepted back if and only if the CRC of no bytes is 0; otherwise its
      eight bytes are removed as a checksum mismatch. */
  lemma EmptyFrameAcceptedIff(crc: Checksum, msgCode: uint16, tail: seq<uint8>)
    ensures Step(crc, Frame(crc, msgCode, []) + tail)
         == if crc([]) == 0 then Delivered(msgCode, [], HeaderLen) else Dropped(HeaderLen)
  {
    var f := Frame(crc, msgCode, []);
    var buf := f + tail;
    assert buf[..HeaderLen] == f[..HeaderLen];
    ParseHeaderPrefix(buf, f);
    assert buf[..HeaderLen] == f;
  }

  /** Before the last byte of a frame has arrived the loop waits and removes
      nothing, whatever prefix of the frame is in the buffer. */
  lemma StepOnPartialFrame(crc: Checksum, msgCode: uint16, body: seq<uint8>, n: nat)
    requires |body| <= MaxBodyLen
    requires n < HeaderLen + |body|
    ensures Step(crc, Frame(crc, msgCode, body)[..n]) == NeedMore
    ensures Drain(crc, Frame(crc, msgCode, body)[..n]) == Drained([], Frame(crc, msgCode, body)[..n])
  {
    var f := Frame(crc, msgCode, body);
    if n >= HeaderLen {
      assert f[..n][..HeaderLen] == f[..HeaderLen];
      ParseHeaderPrefix(f[..n], f);
    }
  }

  /** A frame whose checksum field differs from the CRC of its body is removed
      whole and yields nothing; the loop goes on with the bytes after it. */
  lemma DrainDropsBadChecksum(crc: Checksum, msgCode: uint16, checksum: int32, body: seq<uint8>, tail: seq<uint8>)
    requires |body| <= MaxBodyLen
    requires checksum != crc(body)
    ensures var buf := EncodeHeader(Header(HeaderLen + |body|, msgCode, checksum)) + body + tail;
            Step(crc, buf) == Dropped(HeaderLen + |body|) && Drain(crc, buf) == Drain(crc, tail)
  {
    var e := EncodeHeader(Header(HeaderLen + |body|, msgCode, checksum));
    var buf := e + body + tail;
    assert buf[..HeaderLen] == e;
    ParseHeaderPrefix(buf, e);
    assert buf[..HeaderLen + |body|] == e + body;
    assert FrameBody(e + body) == body;
    assert buf[HeaderLen + |body|..] == tail;
  }

  /** The bytes sendPacket writes for a sequence of messages, one after another. */
  function Wire(crc: Checksum, ms: seq<Message>): (r: seq<uint8>)
  {
    if ms == [] then [] else Frame(crc, ms[0].msgCode, ms[0].body) + Wire(crc, ms[1..])
  }

  /** A message the receive loop accepts back after sendPacket framed it. */
  predicate Sendable(crc: Checksum, m: Message)
  {
    |m.body| <= MaxBodyLen && (|m.body| > 0 || crc([]) == 0)
  }

  /** A buffer of concatenated frames is consumed entirely: every message comes
      out once, in arrival order, and the loop then goes on with what follows. */
  lemma {:induction false} DrainWire(crc: Checksum, ms: seq<Message>, tail: seq<uint8>)
    requires forall i :: 0 <= i < |ms| ==> Sendable(crc, ms[i])
    ensures Drain(crc, Wire(crc, ms) + tail)
         == Drained(ms + Drain(crc, tail).messages, Drain(crc, tail).rest)
  {
    if ms != [] {
      var m := ms[0];
      var f := Frame(crc, m.msgCode, m.body);
      var rest := Wire(crc, ms[1..]) + tail;
      var buf := f + rest;
      AppendAssoc(f, Wire(crc, ms[1..]), tail);
      assert Wire(crc, ms) + tail == buf;
      StepOnFrame(crc, m.msgCode, m.body, rest);
      assert buf[|f|..] == rest;
      assert Drain(crc, buf) == Drained([m] + Drain(crc, rest).messages, Drain(crc, rest).rest);
      DrainWire(crc, ms[1..], tail);
      AppendAssoc([m], ms[1..], Drain(crc, tail).messages);
      assert [m] + ms[1..] == ms;
    } else {
      assert Wire(crc, ms) + tail == tail;
      assert ms + Drain(crc, tail).messages == Drain(crc, tail).messages;
    }
  }

  /** The framed messages followed by the first bytes of one more frame: all
      complete messages are delivered and the partial frame stays buffered. */
  lemma DrainWireThenPartial(crc: Checksum, ms: seq<Message>, m: Message, n: nat)
    requires forall i :: 0 <= i < |ms| ==> Sendable(crc, ms[i])
    requires |m.body| <= MaxBodyLen && n < HeaderLen + |m.body|
    ensures var partial := Frame(crc, m.msgCode, m.body)[..n];
            Drain(crc, Wire(crc, ms) + partial) == Drained(ms, partial)
  {
    var partial := Frame(crc, m.msgCode, m.body)[..n];
    StepOnPartialFrame(crc, m.msgCode, m.body, n);
    var d := Drain(crc, partial);
    assert d.messages == [] && d.rest == partial;
    DrainWire(crc, ms, partial);
    assert Drain(crc, Wire(crc, ms) + partial) == Drained(ms + d.messages, d.rest);
    assert ms + d.messages == ms;
  }
}
