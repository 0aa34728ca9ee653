/** The body of a State message (code 5) and how handleState reads it. */
module StatePayload {
  import opened BigEndian

  datatype Option<T> = None | Some(value: T)

  /** STRUCT_PLAYER: a position and a score. */
  datatype Player = Player(x: int32, y: int32, score: int32)

  /** STRUCT_BEAN: a position. */
  datatype Bean = Bean(x: int32, y: int32)

  /** What one State body tells the client: its own player, the beans, and the
      other players. */
  datatype State = State(player: Player, beans: seq<Bean>, others: seq<Player>)

  /** sizeof(int) * 5: x, y, score, bean_count, other_player_count. */
  const StatePrefixLen: nat := 20

  function Min(a: int, b: int): (r: int)
  {
    if a <= b then a else b
  }

  /** The number of iterations of `for (int i = 0; i < count; ++i)`. */
  function Count(count: int32): (n: nat)
  {
    if count < 0 then 0 else count
  }

  /** The int32 a big-endian QDataStream reads at offset p of s: zero when fewer
      than four bytes are left, as Qt yields once a read runs past the end. */
  function IntAt(s: seq<uint8>, p: nat): (v: int32)
  {
    if p + 4 <= |s| then DecodeI32(s[p..p + 4]) else 0
  }

  /** The n bean records laid out from offset `start`, eight bytes each. */
  function BeansAt(s: seq<uint8>, start: nat, n: nat): (r: seq<Bean>)
    ensures |r| == n
  {
    seq(n, k requires 0 <= k < n => Bean(IntAt(s, start + 8 * k), IntAt(s, start + 8 * k + 4)))
  }

  /** The n player records laid out from offset `start`, twelve bytes each. */
  function PlayersAt(s: seq<uint8>, start: nat, n: nat): (r: seq<Player>)
    ensures |r| == n
  {
    seq(n, k requires 0 <= k < n =>
      Player(IntAt(s, start + 12 * k), IntAt(s, start + 12 * k + 4), IntAt(s, start + 12 * k + 8)))
  }

  /** The meaning of a State body: None when it is shorter than the fixed
      prefix; otherwise the player from bytes 0..12, bean_count bean records
      from byte 20 on, then other_player_count player records. Counts are not
      checked against the body size: records past its end read as zeros, and a
      negative count reads no records. */
  function ParseState(s: seq<uint8>): (r: Option<State>)
    ensures r.None? <==> |s| < StatePrefixLen
    ensures r.Some? ==> |r.value.beans| == Count(IntAt(s, 12))
    ensures r.Some? ==> |r.value.others| == Count(IntAt(s, 16))
  {
    if |s| < StatePrefixLen then None
    else
      var nb := Count(IntAt(s, 12));
      var no := Count(IntAt(s, 16));
      Some(State(Player(IntAt(s, 0), IntAt(s, 4), IntAt(s, 8)),
                 BeansAt(s, StatePrefixLen, nb),
                 PlayersAt(s, StatePrefixLen + 8 * nb, no)))
  }

  /** `stream >> qint32` at cursor `pos`: the value and the cursor after it. A
      read with fewer than four bytes left yields 0 and leaves the cursor at
      the end. */
  method ReadInt32(s: seq<uint8>, pos: nat) returns (v: int32, next: nat)
    requires pos <= |s|
    ensures pos + 4 <= |s| ==> EncodeI32(v) == s[pos..pos + 4] && next == pos + 4
    ensures pos + 4 > |s| ==> v == 0 && next == |s|
    ensures v == IntAt(s, pos) && next == Min(pos + 4, |s|)
  {
    if pos + 4 <= |s| {
      v := DecodeI32(s[pos..pos + 4]);
      EncodeDecodeI32(s[pos..pos + 4]);
      next := pos + 4;
    } else {
      v := 0;
      next := |s|;
    }
  }

  /** A read at a cursor clamped to the end is the read at the unclamped offset. */
  lemma IntAtClamped(s: seq<uint8>, q: nat)
    ensures IntAt(s, Min(q, |s|)) == IntAt(s, q)
  {
  }

  /** The bean loop of handleState: `count` iterations of `stream >> bx >> by`
      from cursor `pos`, which stands at offset `start` clamped to the end. */
  method ReadBeans(s: seq<uint8>, pos: nat, count: int32, ghost start: nat) returns (beans: seq<Bean>, next: nat)
    requires pos == Min(start, |s|)
    ensures beans == BeansAt(s, start, Count(count))
    ensures next == Min(start + 8 * Count(count), |s|)
  {
    ghost var expected := BeansAt(s, start, Count(count));
    beans, next := [], pos;
    var i := 0;
    while i < count
      invariant 0 <= i <= Count(count)
      invariant next == Min(start + 8 * i, |s|)
      invariant |beans| == i
      invariant forall k :: 0 <= k < i ==> beans[k] == expected[k]
    {
      var beanX, beanY;
      IntAtClamped(s, start + 8 * i);
      beanX, next := ReadInt32(s, next);
      IntAtClamped(s, start + 8 * i + 4);
      beanY, next := ReadInt32(s, next);
      assert Bean(beanX, beanY) == expected[i];
      beans := beans + [Bean(beanX, beanY)];
      i := i + 1;
    }
    assert beans == expected;
  }

  /** The other-player loop of handleState: `count` iterations of
      `stream >> ox >> oy >> os` from cursor `pos`, which stands at offset
      `start` clamped to the end. */
  method ReadPlayers(s: seq<uint8>, pos: nat, count: int32, ghost start: nat) returns (players: seq<Player>, next: nat)
    requires pos == Min(start, |s|)
    ensures players == PlayersAt(s, start, Count(count))
    ensures next == Min(start + 12 * Count(count), |s|)
  {
    ghost var expected := PlayersAt(s, start, Count(count));
    players, next := [], pos;
    var j := 0;
    while j < count
      invariant 0 <= j <= Count(count)
      invariant next == Min(start + 12 * j, |s|)
      invariant |players| == j
      invariant forall k :: 0 <= k < j ==> players[k] == expected[k]
    {
      var ox, oy, os;
      IntAtClamped(s, start + 12 * j);
      ox, next := ReadInt32(s, next);
      IntAtClamped(s, start + 12 * j + 4);
      oy, next := ReadInt32(s, next);
      IntAtClamped(s, start + 12 * j + 8);
      os, next := ReadInt32(s, next);
      assert Player(ox, oy, os) == expected[j];
      players := players + [Player(ox, oy, os)];
      j := j + 1;
    }
    assert players == expected;
  }

  /** handleState's reading of the body: the length check, the fixed prefix,
      then the bean loop and the other-player loop on one stream cursor. */
  method DecodeState(body: seq<uint8>) returns (r: Option<State>)
    ensures r == ParseState(body)
  {
    if |body| < StatePrefixLen {
      return None;
    }
    var pos: nat := 0;
    var x, y, score, beanCount, otherCount;
    x, pos := ReadInt32(body, pos);
    y, pos := ReadInt32(body, pos);
    score, pos := ReadInt32(body, pos);
    beanCount, pos := ReadInt32(body, pos);
    otherCount, pos := ReadInt32(body, pos);
    var beans, others;
    beans, pos := ReadBeans(body, pos, beanCount, StatePrefixLen);
    others, pos := ReadPlayers(body, pos, otherCount, StatePrefixLen + 8 * Count(beanCount));
    r := Some(State(Player(x, y, score), beans, others));
  }

  /** The int32 fields of a bean list, in wire order. */
  function BeanInts(bs: seq<Bean>): (r: seq<int32>)
    ensures |r| == 2 * |bs|
  {
    if bs == [] then [] else [bs[0].x, bs[0].y] + BeanInts(bs[1..])
  }

  /** The int32 fields of a player list, in wire order. */
  function PlayerInts(ps: seq<Player>): (r: seq<int32>)
    ensures |r| == 3 * |ps|
  {
    if ps == [] then [] else [ps[0].x, ps[0].y, ps[0].score] + PlayerInts(ps[1..])
  }

  lemma {:induction false} BeanIntsAt(bs: seq<Bean>, k: nat)
    requires k < |bs|
    ensures BeanInts(bs)[2 * k] == bs[k].x && BeanInts(bs)[2 * k + 1] == bs[k].y
  {
    if k > 0 {
      BeanIntsAt(bs[1..], k - 1);
    }
  }

  lemma {:induction false} PlayerIntsAt(ps: seq<Player>, k: nat)
    requires k < |ps|
    ensures PlayerInts(ps)[3 * k] == ps[k].x
    ensures PlayerInts(ps)[3 * k + 1] == ps[k].y
    ensures PlayerInts(ps)[3 * k + 2] == ps[k].score
  {
    if k > 0 {
      PlayerIntsAt(ps[1..], k - 1);
    }
  }

  /** Counts the server can declare in its int32 count fields. */
  predicate Encodable(st: State)
  {
    |st.beans| < 0x8000_0000 && |st.others| < 0x8000_0000
  }

  /** The int32 fields of a State body in wire order (STRUCT_STATE followed by
      its records). */
  function StateInts(st: State): (r: seq<int32>)
    requires Encodable(st)
    ensures |r| == 5 + 2 * |st.beans| + 3 * |st.others|
  {
    [st.player.x, st.player.y, st.player.score, |st.beans|, |st.others|]
      + BeanInts(st.beans) + PlayerInts(st.others)
  }

  /** The body a server sends for `st`, with counts that match the records. */
  function EncodeState(st: State): (r: seq<uint8>)
    requires Encodable(st)
    ensures |r| == StatePrefixLen + 8 * |st.beans| + 12 * |st.others|
  {
    EncodeInts(StateInts(st))
  }

  /** A four-byte-aligned read of an encoded int list yields the list element. */
  lemma IntAtEncoded(xs: seq<int32>, j: nat)
    requires j < |xs|
    ensures IntAt(EncodeInts(xs), 4 * j) == xs[j]
  {
    EncodeIntsAt(xs, j);
  }

  /** The k-th bean record of an encoded State body. */
  lemma BeanAt(st: State, k: nat)
    requires Encodable(st) && k < |st.beans|
    ensures var s := EncodeState(st);
            var p := StatePrefixLen + 8 * k;
            Bean(IntAt(s, p), IntAt(s, p + 4)) == st.beans[k]
  {
    var xs := StateInts(st);
    var head := [st.player.x, st.player.y, st.player.score, |st.beans|, |st.others|];
    var bs := BeanInts(st.beans);
    assert xs == head + bs + PlayerInts(st.others);
    var j := 5 + 2 * k;
    BeanIntsAt(st.beans, k);
    assert xs[j] == bs[2 * k] && xs[j + 1] == bs[2 * k + 1];
    IntAtEncoded(xs, j);
    IntAtEncoded(xs, j + 1);
    assert 4 * j == StatePrefixLen + 8 * k;
  }

  lemma BeansRoundTrip(st: State)
    requires Encodable(st)
    ensures BeansAt(EncodeState(st), StatePrefixLen, |st.beans|) == st.beans
  {
    var r := BeansAt(EncodeState(st), StatePrefixLen, |st.beans|);
    forall k | 0 <= k < |st.beans|
      ensures r[k] == st.beans[k]
    {
      BeanAt(st, k);
    }
  }

  /** The k-th other-player record of an encoded State body. */
  lemma OtherAt(st: State, k: nat)
    requires Encodable(st) && k < |st.others|
    ensures var s := EncodeState(st);
            var p := StatePrefixLen + 8 * |st.beans| + 12 * k;
            Player(IntAt(s, p), IntAt(s, p + 4), IntAt(s, p + 8)) == st.others[k]
  {
    var xs := StateInts(st);
    var head := [st.player.x, st.player.y, st.player.score, |st.beans|, |st.others|] + BeanInts(st.beans);
    var ps := PlayerInts(st.others);
    assert xs == head + ps;
    var j := |head| + 3 * k;
    assert j == 5 + 2 * |st.beans| + 3 * k;
    PlayerIntsAt(st.others, k);
    assert xs[j] == ps[3 * k] && xs[j + 1] == ps[3 * k + 1] && xs[j + 2] == ps[3 * k + 2];
    IntAtEncoded(xs, j);
    IntAtEncoded(xs, j + 1);
    IntAtEncoded(xs, j + 2);
    assert 4 * j == StatePrefixLen + 8 * |st.beans| + 12 * k;
  }

  lemma OthersRoundTrip(st: State)
    requires Encodable(st)
    ensures PlayersAt(EncodeState(st), StatePrefixLen + 8 * |st.beans|, |st.others|) == st.others
  {
    var r := PlayersAt(EncodeState(st), StatePrefixLen + 8 * |st.beans|, |st.others|);
    forall k | 0 <= k < |st.others|
      ensures r[k] == st.others[k]
    {
      OtherAt(st, k);
    }
  }

  /** A correctly sized State body decodes to exactly the player, beans and
      other players it was written from, each field equal, negatives included. */
  lemma ParseStateRoundTrip(st: State)
    requires Encodable(st)
    ensures ParseState(EncodeState(st)) == Some(st)
  {
    var xs := StateInts(st);
    IntAtEncoded(xs, 0);
    IntAtEncoded(xs, 1);
    IntAtEncoded(xs, 2);
    IntAtEncoded(xs, 3);
    IntAtEncoded(xs, 4);
    var s := EncodeState(st);
    assert IntAt(s, 12) == |st.beans| && IntAt(s, 16) == |st.others|;
    assert Player(IntAt(s, 0), IntAt(s, 4), IntAt(s, 8)) == st.player;
    BeansRoundTrip(st);
    OthersRoundTrip(st);
  }

  /** A body of exactly the fixed prefix with both counts zero carries the
      player and two empty lists; one byte less is rejected. */
  lemma ParseStatePrefixBoundary(p: Player)
    ensures ParseState(EncodeState(State(p, [], []))) == Some(State(p, [], []))
    ensures ParseState(EncodeState(State(p, [], []))[..StatePrefixLen - 1]) == None
  {
    ParseStateRoundTrip(State(p, [], []));
  }
}
