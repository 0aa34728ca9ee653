# Pac-Man game client: wire protocol model

This project models the binary protocol engine of the Pac-Man game client
`GameClient` (main.cpp). The client talks to the game server over one TCP
stream. Every message is a frame: an 8-byte big-endian header (`pkgLen` u16
including the header, `msgCode` u16, `crc32` i32) followed by the body.

- Outgoing commands (Join 1, Move 2, EatBean 3, GetState 4) are framed by
  `sendPacket`. The checksum field is 0 for an empty body and the CRC-32 of
  the body otherwise.
- Incoming bytes are appended to a receive buffer. `onReadyRead` peels
  complete frames off the front and drops those whose checksum does not
  match. It hands State frames (code 5) to `handleState` and leaves a partial
  trailing frame in the buffer.
- `handleState` ignores bodies shorter than 20 bytes. Otherwise it reads the
  player, `bean_count`, `other_player_count`, then that many bean pairs and
  player triples, and emits three notifications.

Modules, one per component:

- `BigEndian` (bigendian.dfy): fixed-width integer types and the big-endian
  layout QDataStream reads and writes.
- `Framing` (framing.dfy): the header, the frame `sendPacket` builds, one
  pass of the receive loop (`Step`) and the whole loop as a function on the
  buffer (`Drain`).
- `StatePayload` (state.dfy): the State body. Its meaning is `ParseState`.
  The reading loops of `handleState` are `DecodeState`, `ReadBeans` and
  `ReadPlayers`, with `ReadInt32` standing for one stream read.
- `Client` (client.dfy): the class `GameClient`. It holds the receive buffer
  `receiveBuffer`, a log `sent` of packets written to the socket, and a log
  `events` of emitted signals. Its methods mirror the slots of the source.

The CRC-32 routine is not part of this model. It is a field
`crc: seq<uint8> -> int32` of the client (a parameter of the pure
functions), and every property holds for any such function. The socket is
replaced as follows: `write` appends to `sent`, and the bytes `readAll`
returns are the `data` parameter of `OnReadyRead`. Qt signals become entries
of `events`.

Behaviour of the source kept on purpose:

- The length field is `static_cast<unsigned short>(8 + bodyLen)`. It is
  modelled as the low 16 bits (`LengthField`), so a body over 65527 bytes
  gives a truncated length (`Frame`'s last ensures). The frame lemmas
  require `|body| <= MaxBodyLen`.
- On receipt the CRC is computed even for an empty body, while `sendPacket`
  writes 0 there. An empty-body frame is therefore accepted back if and
  only if `crc([]) == 0`, and is otherwise dropped as a checksum mismatch
  (`EmptyFrameAcceptedIff`).
- A `pkgLen` of 1 to 7 removes that many bytes and checks an empty body
  (`ShortLengthFrameHasEmptyBody`).
- A `pkgLen` of 0 removes nothing. The source loop then repeats the same
  iteration forever (`ZeroLengthFrameSpins`). See "Findings".
- `handleState` never compares the counts with the body size. A QDataStream
  read with fewer than four bytes left yields 0 and moves the cursor to the
  end (`IntAt`, `ReadInt32`). So the lists always have `max(count, 0)`
  entries, and entries past the end are zeros. A negative count reads none.

## Model

| member | source | states |
|---|---|---|
| BigEndian.EncodeI32 | main.cpp:78-92 | four bytes whose big-endian two's-complement reading is the value again, negatives included |
| BigEndian.EncodeDecodeI32 | main.cpp:150-154 | every four bytes are the encoding of the int32 they read as, so the int32 layout is a bijection |
| BigEndian.EncodeU16 | main.cpp:142 | two bytes, high first, that read back as the same unsigned short |
| BigEndian.EncodeIntsAt | main.cpp:153-168 | the k-th four-byte group of a sequence of int32 writes reads back as the k-th value |
| Framing.EncodeHeader | main.cpp:47-52 | the header is 8 bytes and parses back to the same three fields |
| Framing.HeaderRoundTrip | main.cpp:108-113 | every 8 bytes are the encoding of the header read from them |
| Framing.ParseHeaderPrefix | main.cpp:108-113 | the header read depends only on the first 8 buffered bytes |
| Framing.Frame | main.cpp:134-145 | a frame is 8 + bodyLen bytes; its header parses to the code, to checksum 0 for an empty body or CRC(body) otherwise, and to length 8 + bodyLen up to 65527 body bytes (the low 16 bits beyond); the body follows unchanged |
| Framing.Step | main.cpp:107-125 | an iteration that runs removes exactly pkgLen bytes, never more than are buffered |
| Framing.Drain | main.cpp:107-130 | the loop only ever removes a prefix, and on exit the buffer is halted: fewer than 8 bytes, fewer than pkgLen, or pkgLen 0 |
| Framing.HaltedIff | main.cpp:107-115 | halting is exactly: fewer than 8 bytes, fewer than the declared pkgLen, or pkgLen 0 |
| Framing.ZeroLengthFrameSpins | main.cpp:114-118 | with pkgLen 0 the iteration removes nothing and sees an empty body, so the loop repeats itself forever |
| Framing.ZeroLengthFrameStallsStream | main.cpp:104-118 | once a pkgLen-0 header is at the front, however many bytes arrive later, the loop delivers nothing and removes nothing |
| Framing.ShortLengthFrameHasEmptyBody | main.cpp:117-121 | a pkgLen of 1..7 removes that many bytes; `mid(8)` of so short a packet is empty, and the frame is accepted iff CRC of no bytes equals the received checksum |
| Framing.StepExtend | main.cpp:105-118 | bytes appended later do not change an iteration that already had its frame |
| Framing.DrainSplit | main.cpp:104-118 | two reads give the same messages, in order, and the same leftover as one read of all the bytes |
| Framing.StepOnFrame | main.cpp:113-128 | a frame built by sendPacket is delivered whole: `mid(8)` gives back its body unchanged, with its code, and exactly its bytes are removed (empty bodies when CRC of no bytes is 0) |
| Framing.EmptyFrameAcceptedIff | main.cpp:117-124 | an empty-body frame from sendPacket (checksum field 0) is accepted iff CRC of no bytes is 0, and otherwise removed as a checksum mismatch |
| Framing.StepOnPartialFrame | main.cpp:114-115 | any proper prefix of a frame makes the loop wait and remove nothing |
| Framing.DrainDropsBadChecksum | main.cpp:117-125 | a frame whose checksum differs from its body's CRC is removed whole, yields nothing, and the loop goes on with the next frame |
| Framing.DrainWire | main.cpp:107-130 | concatenated frames from sendPacket are all consumed, each message once, in arrival order |
| Framing.DrainWireThenPartial | main.cpp:107-131 | after the complete frames, a partial trailing frame stays in the buffer untouched |
| StatePayload.ParseState | main.cpp:148-168 | bodies under 20 bytes are rejected; otherwise there are max(bean_count, 0) beans and max(other_player_count, 0) other players |
| StatePayload.ReadInt32 | main.cpp:154 | one `stream >> int` read: with 4 bytes left, they are exactly the big-endian encoding `stream << int` writes for the value read, and the cursor moves 4; with fewer, the value is 0 and the cursor goes to the end |
| StatePayload.ReadBeans | main.cpp:156-161 | the bean loop reads exactly the bean records laid out from offset 20, and leaves the cursor after them |
| StatePayload.ReadPlayers | main.cpp:163-168 | the other-player loop reads exactly the player records that follow the beans |
| StatePayload.DecodeState | main.cpp:147-168 | handleState's sequential reads compute exactly ParseState |
| StatePayload.ParseStateRoundTrip | main.cpp:153-168 | a correctly sized State body decodes to exactly the player, beans and other players it encodes |
| StatePayload.ParseStatePrefixBoundary | main.cpp:148 | a 20-byte body with zero counts gives the player and two empty lists; 19 bytes are rejected |
| Client.StateEvents | main.cpp:147-173 | no signal for a body under 20 bytes, exactly three signals otherwise |
| Client.StateEventsOfEncoded | main.cpp:147-173 | the body the server encodes for a state yields exactly the player, beans and other-player updates of that state |
| Client.PointBody | main.cpp:78-92 | Move and EatBean bodies are 8 bytes: the first argument, then the second, each reading back exactly |
| Client.HeaderOnlyFrames | main.cpp:74-96 | Join and GetState are the 8 bytes 00 08 00 01 00 00 00 00 and 00 08 00 04 00 00 00 00, for any CRC |
| Client.PointFrameRoundTrip | main.cpp:78-92 | a Move or EatBean frame is delivered as a 16-byte frame with its code and both coordinates exact |
| Client.DispatchIgnoresOtherCodes | main.cpp:127-129 | frames with codes other than 5 produce no signal |
| Client.ZeroLengthFrameEmitsNothing | main.cpp:114-128 | an iteration on a pkgLen-0 header emits no signal, since handleState gets an empty body |
| Client.DispatchAppend | main.cpp:107-130 | the signals of successive messages are concatenated in arrival order |
| Client.TwoReadsAsOne | main.cpp:104-131 | two onReadyRead calls emit the same signals and leave the same buffer as one call with all the bytes |
| Client.StatesDispatchedInOrder | main.cpp:107-173 | N server State frames read at once are all consumed, one handleState each in order, leaving the buffer empty |
| Client.GameClient.constructor | main.cpp:57 | empty receive buffer, nothing sent, nothing emitted |
| Client.GameClient.SendPacket | main.cpp:134-145 | writes exactly one packet, Frame(code, body) |
| Client.GameClient.SendJoin | main.cpp:74-76 | writes the Join frame with an empty body |
| Client.GameClient.SendMove | main.cpp:78-84 | writes the Move frame with body PointBody(x, y) |
| Client.GameClient.SendEatBean | main.cpp:86-92 | writes the EatBean frame with body PointBody(beanX, beanY) |
| Client.GameClient.RequestState | main.cpp:94-96 | writes the GetState frame with an empty body |
| Client.GameClient.OnConnected | main.cpp:99-102 | sends Join |
| Client.GameClient.HandleState | main.cpp:147-173 | appends exactly StateEvents(body): player, beans, others in that order, or nothing |
| Client.GameClient.OnReadyRead | main.cpp:104-131 | appends the data, leaves exactly Drain's leftover in the buffer, emits Dispatch of the delivered messages in order, keeps the buffer halted, and reports a pkgLen-0 stall |

## Findings

| source | as written | input that shows it | evidently intended | confidence | as-written member | corrected member |
|---|---|---|---|---|---|---|
| main.cpp:107-118 | the receive loop removes `pkgLen` bytes per iteration without checking `pkgLen >= 8`, so a header declaring pkgLen 0 removes nothing and the same iteration repeats forever, freezing the client's event loop | receive buffer `00 00 00 05 00 00 00 00` (pkgLen 0, code 5, checksum 0) | every iteration makes progress or the loop stops | high (proved of the model; not executed) | Framing.ZeroLengthFrameSpins | Client.GameClient.OnReadyRead |

`ZeroLengthFrameSpins` proves that on such a header an iteration removes no
bytes and leaves the buffer as it was, so the next iteration is the same
one. `OnReadyRead` is the corrected loop. It always terminates, because it
decreases the buffer length. It leaves the loop on that header and reports
`stalled` exactly when the remaining buffer starts with a pkgLen-0 header.
Its buffer and signals are still exactly those of `Drain` and `Dispatch`.
The correction only trades the freeze for a permanent stall. The pkgLen-0
header stays at the front of the buffer, and every later read stops on it
again, so no further message is ever delivered
(`ZeroLengthFrameStallsStream`). The stream does not recover.

## Left out

- Client.GameClient.OnReadyRead: given a header declaring pkgLen 0, the source loops forever. The model leaves the loop instead and returns `stalled` (see "Findings"). `Framing.ZeroLengthFrameSpins` proves that such an iteration leaves the buffer unchanged, and `Client.ZeroLengthFrameEmitsNothing` that it emits no signal. The model does not skip the bad header either, so the stream stays stalled on it (`Framing.ZeroLengthFrameStallsStream`).
- Client.GameClient.constructor: the socket connect to 127.0.0.1:81, the signal connections and the 10 ms QTimer that calls requestState are not modelled. They are transport and event-loop scheduling; `RequestState` is a method to call.
- The CRC-32 routine (`ngx_c_crc32.h`, the CCRC32 singleton) is not part of this model. It is a checksum parameter. Because of that, sensitivity to flipped bits is not stated.
- QTcpSocket I/O is not modelled: `write` becomes the `sent` log and `readAll` becomes the `data` parameter.
- Qt signal emission and the QVariantMap construction are not modelled. They become `Event` records in the `events` log.
- qDebug logging is left out. It has no behaviour.
- Application setup and `main` (QGuiApplication, QML engine) are left out. They are UI lifecycle with no protocol logic.
