/** GameClient: the session that frames outgoing commands, reassembles the
    inbound stream in its receive buffer, and turns State messages into the
    three update notifications. The socket is replaced by a log of written
    packets and a parameter of onReadyRead; the signals by a log of events. */
module Client {
  import opened BigEndian
  import opened Framing
  import opened StatePayload

  /** The three signals of GameClient. */
  datatype Event =
    | PlayerUpdated(x: int32, y: int32, score: int32)   // updatePlayer
    | BeansUpdated(beans: seq<Bean>)                    // updateBeans
    | OthersUpdated(others: seq<Player>)                // updateOtherPlayers

  /** The signals a server's State message carries: the player, the beans
      and the other players, in that order. */
  function UpdatesFor(st: State): (r: seq<Event>)
  {
    [PlayerUpdated(st.player.x, st.player.y, st.player.score),
     BeansUpdated(st.beans), OthersUpdated(st.others)]
  }

  /** The signals handleState emits for a body: none for a body shorter than
      the fixed prefix, otherwise the updates for the state it decodes to. */
  function StateEvents(body: seq<uint8>): (r: seq<Event>)
    ensures |body| < StatePrefixLen <==> r == []
    ensures |body| >= StatePrefixLen ==> |r| == 3
  {
    match ParseState(body)
    case None => []
    case Some(st) => UpdatesFor(st)
  }

  /** The body the server sends for a state yields exactly that state's
      updates. */
  lemma StateEventsOfEncoded(st: State)
    requires Encodable(st)
    ensures StateEvents(EncodeState(st)) == UpdatesFor(st)
  {
    ParseStateRoundTrip(st);
  }

  /** The signals emitted for validated messages: handleState once per message
      with code CMD_STATE, in arrival order; other codes are ignored. */
  function Dispatch(ms: seq<Message>): (r: seq<Event>)
  {
    if ms == [] then []
    else (if ms[0].msgCode == CmdState then StateEvents(ms[0].body) else []) + Dispatch(ms[1..])
  }

  lemma {:induction false} DispatchAppend(a: seq<Message>, b: seq<Message>)
    ensures Dispatch(a + b) == Dispatch(a) + Dispatch(b)
  {
    if a == [] {
      assert a + b == b;
    } else {
      assert (a + b)[1..] == a[1..] + b;
      DispatchAppend(a[1..], b);
      var e := if a[0].msgCode == CmdState then StateEvents(a[0].body) else [];
      AppendAssoc(e, Dispatch(a[1..]), Dispatch(b));
    }
  }

  /** Messages with codes other than CMD_STATE never produce a signal. */
  lemma {:induction false} DispatchIgnoresOtherCodes(ms: seq<Message>)
    requires forall i :: 0 <= i < |ms| ==> ms[i].msgCode != CmdState
    ensures Dispatch(ms) == []
  {
    if ms != [] {
      DispatchIgnoresOtherCodes(ms[1..]);
    }
  }

  /** The body of Move and EatBean: two int32 written big-endian, first
      argument first. */
  function PointBody(x: int32, y: int32): (r: seq<uint8>)
    ensures |r| == 8
    ensures DecodeI32(r[0..4]) == x && DecodeI32(r[4..8]) == y
  {
    var r := EncodeI32(x) + EncodeI32(y);
    assert r[0..4] == EncodeI32(x) && r[4..8] == EncodeI32(y);
    r
  }

  /** Join and RequestState are a bare header: length 8, their code, checksum 0,
      whatever the checksum function. */
  lemma HeaderOnlyFrames(crc: Checksum)
    ensures Frame(crc, CmdJoin, []) == [0, 8, 0, 1, 0, 0, 0, 0]
    ensures Frame(crc, CmdGetState, []) == [0, 8, 0, 4, 0, 0, 0, 0]
  {
  }

  /** A Move or EatBean frame read back by a receiver: the code, and both
      coordinates exactly, negative ones included. */
  lemma PointFrameRoundTrip(crc: Checksum, msgCode: uint16, x: int32, y: int32)
    ensures var s := Step(crc, Frame(crc, msgCode, PointBody(x, y)));
            s.Delivered? && s.msgCode == msgCode && s.len == 16
            && DecodeI32(s.body[0..4]) == x && DecodeI32(s.body[4..8]) == y
  {
    StepOnFrame(crc, msgCode, PointBody(x, y), []);
    assert Frame(crc, msgCode, PointBody(x, y)) + [] == Frame(crc, msgCode, PointBody(x, y));
  }

  /** A header declaring pkgLen 0 emits no signal: the iteration hands
      handleState an empty body, for which nothing is emitted. */
  lemma ZeroLengthFrameEmitsNothing(crc: Checksum, buf: seq<uint8>)
    requires |buf| >= HeaderLen && ParseHeader(buf).pkgLen == 0
    ensures Step(crc, buf).Delivered? ==> Dispatch([Message(Step(crc, buf).msgCode, Step(crc, buf).body)]) == []
  {
    ZeroLengthFrameSpins(crc, buf);
    var s := Step(crc, buf);
    if s.Delivered? {
      var ms := [Message(s.msgCode, s.body)];
      assert ms[1..] == [];
      assert Dispatch(ms) == (if s.msgCode == CmdState then StateEvents(s.body) else []) + Dispatch([]);
    }
  }

  /** Reading `a` and then `b` emits the same signals, in the same order, and
      leaves the same buffer as reading `a + b` at once. */
  lemma TwoReadsAsOne(crc: Checksum, buf: seq<uint8>, a: seq<uint8>, b: seq<uint8>)
    ensures var d1 := Drain(crc, buf + a);
            var d2 := Drain(crc, d1.rest + b);
            var d := Drain(crc, buf + a + b);
            d.rest == d2.rest
            && Dispatch(d.messages) == Dispatch(d1.messages) + Dispatch(d2.messages)
  {
    DrainSplit(crc, buf + a, b);
    var d1 := Drain(crc, buf + a);
    DispatchAppend(d1.messages, Drain(crc, d1.rest + b).messages);
  }

  /** N State frames as the server sends them, read in one go from an empty
      buffer: each is dispatched once, in order, and the buffer ends empty. */
  lemma {:induction false} StatesDispatchedInOrder(crc: Checksum, sts: seq<State>)
    requires forall i :: 0 <= i < |sts| ==>
               Encodable(sts[i]) && |EncodeState(sts[i])| <= MaxBodyLen
    ensures var ms := seq(|sts|, i requires 0 <= i < |sts| => Message(CmdState, EncodeState(sts[i])));
            var d := Drain(crc, Wire(crc, ms));
            d.rest == [] && d.messages == ms && Dispatch(d.messages) == AllUpdates(sts)
  {
    var ms := seq(|sts|, i requires 0 <= i < |sts| => Message(CmdState, EncodeState(sts[i])));
    DrainWire(crc, ms, []);
    assert Drain(crc, []) == Drained([], []);
    assert Wire(crc, ms) + [] == Wire(crc, ms);
    assert ms + [] == ms;
    DispatchStates(sts);
  }

  /** The signals for a list of server states, one triple per state. */
  function AllUpdates(sts: seq<State>): (r: seq<Event>)
  {
    if sts == [] then [] else UpdatesFor(sts[0]) + AllUpdates(sts[1..])
  }

  lemma {:induction false} DispatchStates(sts: seq<State>)
    requires forall i :: 0 <= i < |sts| ==> Encodable(sts[i])
    ensures Dispatch(seq(|sts|, i requires 0 <= i < |sts| => Message(CmdState, EncodeState(sts[i]))))
         == AllUpdates(sts)
  {
    var ms := seq(|sts|, i requires 0 <= i < |sts| => Message(CmdState, EncodeState(sts[i])));
    if sts != [] {
      ParseStateRoundTrip(sts[0]);
      var tail := seq(|sts| - 1, i requires 0 <= i < |sts| - 1 => Message(CmdState, EncodeState(sts[1..][i])));
      assert ms[1..] == tail;
      DispatchStates(sts[1..]);
    }
  }

  lemma DispatchOne(delivered: seq<Message>, m: Message)
    ensures Dispatch(delivered + [m])
         == Dispatch(delivered) + (if m.msgCode == CmdState then StateEvents(m.body) else [])
  {
    DispatchAppend(delivered, [m]);
    assert Dispatch([m]) == (if m.msgCode == CmdState then StateEvents(m.body) else []) + [];
  }

  class GameClient {
    /** The CRC-32 routine shared with the server. */
    const crc: Checksum
    /** m_receiveBuffer: stream bytes not yet consumed, oldest first. */
    var receiveBuffer: seq<uint8>
    /** Packets written to the socket, oldest first. */
    var sent: seq<seq<uint8>>
    /** Signals emitted, oldest first. */
    var events: seq<Event>

    constructor(crc: Checksum)
      ensures this.crc == crc
      ensures receiveBuffer == [] && sent == [] && events == []
    {
      this.crc := crc;
      receiveBuffer := [];
      sent := [];
      events := [];
    }

    /** sendPacket: the header fields written big-endian (the length cast to
        unsigned short), then the body appended, then one socket write. */
    method SendPacket(msgCode: uint16, body: seq<uint8>)
      modifies this`sent
      ensures sent == old(sent) + [Frame(crc, msgCode, body)]
    {
      var totalLen := HeaderLen + |body|;
      var checksum: int32 := if |body| > 0 then crc(body) else 0;
      var packet: seq<uint8> := [];
      packet := packet + EncodeU16(totalLen % 0x1_0000);
      packet := packet + EncodeU16(msgCode);
      packet := packet + EncodeI32(checksum);
      assert packet == EncodeHeader(Header(LengthField(|body|), msgCode, checksum));
      packet := packet + body;
      sent := sent + [packet];
    }

    method SendJoin()
      modifies this`sent
      ensures sent == old(sent) + [Frame(crc, CmdJoin, [])]
    {
      SendPacket(CmdJoin, []);
    }

    method SendMove(x: int32, y: int32)
      modifies this`sent
      ensures sent == old(sent) + [Frame(crc, CmdMove, PointBody(x, y))]
    {
      var body: seq<uint8> := [];
      body := body + EncodeI32(x);
      body := body + EncodeI32(y);
      assert body == PointBody(x, y);
      SendPacket(CmdMove, body);
    }

    method SendEatBean(beanX: int32, beanY: int32)
      modifies this`sent
      ensures sent == old(sent) + [Frame(crc, CmdEatBean, PointBody(beanX, beanY))]
    {
      var body: seq<uint8> := [];
      body := body + EncodeI32(beanX);
      body := body + EncodeI32(beanY);
      assert body == PointBody(beanX, beanY);
      SendPacket(CmdEatBean, body);
    }

    /** The poll the timer triggers. */
    method RequestState()
      modifies this`sent
      ensures sent == old(sent) + [Frame(crc, CmdGetState, [])]
    {
      SendPacket(CmdGetState, []);
    }

    /** onConnected: join the game. */
    method OnConnected()
      modifies this`sent
      ensures sent == old(sent) + [Frame(crc, CmdJoin, [])]
    {
      SendJoin();
    }

    /** handleState: decode the body and emit the three signals, or nothing
        for a body shorter than the fixed prefix. */
    method HandleState(body: seq<uint8>)
      modifies this`events
      ensures events == old(events) + StateEvents(body)
    {
      var r := DecodeState(body);
      if r.Some? {
        var st := r.value;
        events := events + [PlayerUpdated(st.player.x, st.player.y, st.player.score),
                            BeansUpdated(st.beans), OthersUpdated(st.others)];
      }
    }

    /** onReadyRead with `data` as what readAll returned: append it, then
        remove and check complete frames from the front while there are any,
        dispatching State messages. `stalled` reports the one case where the
        loop cannot end: a header at the front declaring pkgLen 0, on which
        the iteration repeats forever without effect (Framing.ZeroLengthFrameSpins);
        here the loop stops instead. */
    method OnReadyRead(data: seq<uint8>) returns (stalled: bool)
      modifies this`receiveBuffer, this`events
      ensures Halted(crc, receiveBuffer)
      ensures receiveBuffer == Drain(crc, old(receiveBuffer) + data).rest
      ensures events == old(events) + Dispatch(Drain(crc, old(receiveBuffer) + data).messages)
      ensures stalled <==> |receiveBuffer| >= HeaderLen && ParseHeader(receiveBuffer).pkgLen == 0
    {
      receiveBuffer := receiveBuffer + data;
      ghost var all := receiveBuffer;
      ghost var events0 := events;
      ghost var delivered: seq<Message> := [];
      stalled := false;
      while |receiveBuffer| >= HeaderLen
        invariant events == events0 + Dispatch(delivered)
        invariant Drain(crc, all)
               == Drained(delivered + Drain(crc, receiveBuffer).messages, Drain(crc, receiveBuffer).rest)
        invariant !stalled
        decreases |receiveBuffer|
      {
        ghost var before := receiveBuffer;
        var h := ParseHeader(receiveBuffer);
        if |receiveBuffer| < h.pkgLen {
          break;
        }
        if h.pkgLen == 0 {
          stalled := true;
          break;
        }
        var packet := receiveBuffer[..h.pkgLen];
        receiveBuffer := receiveBuffer[h.pkgLen..];
        var body := FrameBody(packet);
        var calculated := crc(body);
        if calculated != h.crc32 {
          assert Step(crc, before) == Dropped(h.pkgLen);
          DrainDroppedStep(crc, all, delivered, before);
          continue;
        }
        assert Step(crc, before) == Delivered(h.msgCode, body, h.pkgLen);
        var m := Message(h.msgCode, body);
        DrainDeliveredStep(crc, all, delivered, before);
        DispatchOne(delivered, m);
        ghost var emitted := Dispatch(delivered);
        delivered := delivered + [m];
        if h.msgCode == CmdState {
          HandleState(body);
          AppendAssoc(events0, emitted, StateEvents(body));
        } else {
          assert emitted + [] == emitted;
        }
      }
      assert Drain(crc, receiveBuffer) == Drained([], receiveBuffer);
      assert delivered + [] == delivered;
    }
  }
}
