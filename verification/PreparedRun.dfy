/** The batch FIFO consumer (`yz_rsx_run_prepared_blocks`) against a producer that may change any word
    at any moment.

    The callbacks are an environment indexed by time, the number of callbacks made before: the same
    address may read differently at every call. */
module PreparedRun {
  import opened Basics

  const MAX_PACKETS := 64
  const MAX_ARGUMENTS := 4096
  const BUFFER_WORDS := 2047
  const PAGE := 0x10_0000

  datatype Env = Env(
    put: nat -> U32,
    read: (nat, U32) -> Option<U32>,
    readBlock: (nat, U32) -> Option<nat -> U32>,
    admit: U32 -> bool,
    execute: (nat, U32, seq<U32>) -> bool,
    publish: (nat, U32) -> bool)

  /** The 11-bit argument count of a method header. */
  function Count(header: U32): (n: nat)
    ensures n <= BUFFER_WORDS
  {
    header / 0x4_0000 % 0x800
  }

  function Bytes(header: U32): (n: nat)
    ensures 4 <= n <= 4 + 4 * BUFFER_WORDS && n % 4 == 0
  {
    4 + 4 * Count(header)
  }

  /** A retired packet: where it was, the PUT sampled for it, what was read and executed. */
  datatype Packet = Packet(get: U32, put: U32, header: U32, words: seq<U32>)

  /** The admission rule of one packet. */
  predicate Fits(get: U32, put: U32, header: U32) {
    && (get < put ==> Bytes(header) <= put - get)
    && Bytes(header) <= M32 - 1 - get
    && Bytes(header) <= PAGE - get % PAGE
  }

  /** The count is bits 18 to 28 of the header. */
  lemma CountIsItsField(high: nat, count: nat, low: nat)
    requires high < 8 && count < 2048 && low < 0x4_0000
    ensures Count(high * 0x2000_0000 + count * 0x4_0000 + low) == count
  {
    QuotientIs(high * 0x2000_0000 + count * 0x4_0000 + low, 0x4_0000, high * 0x800 + count, low);
    QuotientIs(high * 0x800 + count, 0x800, high, count);
  }

  /** The header and its words, four bytes each, end at or before a PUT that is ahead, inside the 32-bit space, and
      inside the megabyte they begin in. */
  lemma FitsMeans(get: U32, put: U32, header: U32)
    ensures var end := get + 4 + 4 * Count(header);
            Fits(get, put, header) <==>
              (get < put ==> end <= put) && end <= 0xFFFF_FFFF && (end - 1) / 0x10_0000 == get / 0x10_0000
  {
    hide Count;
    var page, off, bytes := get / PAGE, get % PAGE, Bytes(header);
    assert get == page * PAGE + off;
    if off + bytes - 1 < PAGE {
      QuotientIs(get + bytes - 1, PAGE, page, off + bytes - 1);
    } else {
      assert (get + bytes - 1) / PAGE >= page + 1;
    }
  }

  function Words(env: Env, t: nat, get: U32, header: U32): Option<seq<U32>>
    requires Fits(get, 0, header)
  {
    if Count(header) == 0 then Some([])
    else
      match env.readBlock(t + 2, get + 4)
      case None => None
      case Some(word) => Some(seq(Count(header), i requires 0 <= i < Count(header) => word(i)))
  }

  /** One packet decoded on its own at time t: sample PUT, read the header, admit it, read its arguments,
      execute. None leaves it at GET. */
  function Decode(env: Env, t: nat, get: U32, room: nat): Option<Packet> {
    var put := env.put(t);
    if get % 4 != 0 || put % 4 != 0 || get == put then None
    else
      match env.read(t + 1, get)
      case None => None
      case Some(header) =>
        if !env.admit(header) || !Fits(get, put, header) || Count(header) > room then None
        else
          match Words(env, t, get, header)
          case None => None
          case Some(words) =>
            if env.execute(ExecuteTime(t, header), header, words) then Some(Packet(get, put, header, words)) else None
  }

  function ExecuteTime(t: nat, header: U32): nat { if Count(header) > 0 then t + 3 else t + 2 }

  function PublishTime(t: nat, header: U32): nat { ExecuteTime(t, header) + 1 }

  function NextGet(p: Packet): int { p.get + Bytes(p.header) }

  lemma DecodedPacket(env: Env, t: nat, get: U32, room: nat)
    requires Decode(env, t, get, room).Some?
    ensures var p := Decode(env, t, get, room).value;
            p.get == get && Fits(get, p.put, p.header) && |p.words| == Count(p.header) <= room
            && get % 4 == 0 && p.put % 4 == 0 && get != p.put && NextGet(p) < M32 && NextGet(p) % 4 == 0
  {
  }

  /** The words behind a header, all of them and in order. */
  ghost predicate AreItsWords(env: Env, t: nat, get: U32, header: U32, words: seq<U32>) {
    && |words| == Count(header)
    && (Count(header) > 0 ==> get + 4 < M32 && env.readBlock(t + 2, get + 4).Some?)
    && (Count(header) > 0 ==> forall k :: 0 <= k < |words| ==> words[k] == env.readBlock(t + 2, get + 4).value(k))
  }

  lemma WordsAreRead(env: Env, t: nat, get: U32, header: U32)
    requires Fits(get, 0, header)
    ensures get + 4 < M32
    ensures Words(env, t, get, header).Some? <==> Count(header) == 0 || env.readBlock(t + 2, get + 4).Some?
    ensures Words(env, t, get, header).Some? ==> AreItsWords(env, t, get, header, Words(env, t, get, header).value)
  {
    hide Count;
  }

  /** A packet is the header at GET with the words behind it, sampled in this order and handed to execute; GET and
      PUT are aligned and differ, the header is admitted and the whole fits. */
  lemma PacketIsRead(env: Env, t: nat, get: U32, room: nat)
    requires Decode(env, t, get, room).Some?
    ensures var put, p := env.put(t), Decode(env, t, get, room).value;
            && p.get == get && p.put == put && env.read(t + 1, get) == Some(p.header)
            && AreItsWords(env, t, get, p.header, p.words)
            && env.execute(if Count(p.header) > 0 then t + 3 else t + 2, p.header, p.words)
            && get % 4 == 0 && put % 4 == 0 && get != put && env.admit(p.header) && Fits(get, put, p.header)
            && Count(p.header) <= room && PublishTime(t, p.header) == t + (if Count(p.header) > 0 then 4 else 3)
  {
    hide Count, Fits, AreItsWords;
    FitsWithoutPut(get, env.put(t), env.read(t + 1, get).value);
    WordsAreRead(env, t, get, env.read(t + 1, get).value);
  }

  lemma FitsWithoutPut(get: U32, put: U32, header: U32)
    requires Fits(get, put, header)
    ensures Fits(get, 0, header)
  {
    hide Count;
  }

  /** And nothing else makes it refuse one. */
  lemma PacketIsRefused(env: Env, t: nat, get: U32, room: nat)
    requires Decode(env, t, get, room).None?
    requires get % 4 == 0 && env.put(t) % 4 == 0 && get != env.put(t) && env.read(t + 1, get).Some?
    requires var header := env.read(t + 1, get).value;
             env.admit(header) && Fits(get, env.put(t), header) && Count(header) <= room
    ensures var header := env.read(t + 1, get).value;
            || (Count(header) > 0 && env.readBlock(t + 2, get + 4).None?)
            || exists words :: AreItsWords(env, t, get, header, words)
                               && !env.execute(if Count(header) > 0 then t + 3 else t + 2, header, words)
  {
    hide Count, Fits, AreItsWords;
    var header := env.read(t + 1, get).value;
    FitsWithoutPut(get, env.put(t), header);
    WordsAreRead(env, t, get, header);
    if Words(env, t, get, header).Some? {
      assert AreItsWords(env, t, get, header, Words(env, t, get, header).value);
    }
  }

  /** The specification of the batch: decode packets one at a time, each after the previous one was
      published, until one is refused, a publication reports a change, or a budget runs out. */
  function Batch(env: Env, t: nat, get: U32, packets: nat, room: nat): seq<Packet>
    decreases packets
  {
    if packets == 0 then []
    else
      match Decode(env, t, get, room)
      case None => []
      case Some(p) =>
        DecodedPacket(env, t, get, room);
        var published := PublishTime(t, p.header);
        if env.publish(published, NextGet(p))
        then [p] + Batch(env, published + 1, NextGet(p), packets - 1, room - Count(p.header))
        else [p]
  }

  function Arguments(ps: seq<Packet>): nat {
    if ps == [] then 0 else Count(ps[0].header) + Arguments(ps[1..])
  }

  function Consumed(ps: seq<Packet>): nat {
    if ps == [] then 0 else Bytes(ps[0].header) + Consumed(ps[1..])
  }

  lemma BatchTakes(env: Env, t: nat, get: U32, packets: nat, room: nat)
    requires packets > 0 && Decode(env, t, get, room).Some?
    ensures var p := Decode(env, t, get, room).value;
            0 <= NextGet(p) < M32 && Count(p.header) <= room
            && Batch(env, t, get, packets, room)
               == (if env.publish(PublishTime(t, p.header), NextGet(p))
                   then [p] + Batch(env, PublishTime(t, p.header) + 1, NextGet(p), packets - 1, room - Count(p.header))
                   else [p])
  {
    hide Fits, Bytes, Count, Decode;
    DecodedPacket(env, t, get, room);
  }

  lemma BatchRefuses(env: Env, t: nat, get: U32, packets: nat, room: nat)
    requires packets == 0 || Decode(env, t, get, room).None?
    ensures Batch(env, t, get, packets, room) == []
  {
  }

  /** One pass of the loop up to the execute callback, with the argument words read into the buffer. */
  method DecodePacket(env: Env, t: nat, get: U32, arguments: nat, words: array<U32>) returns (packet: Option<Packet>)
    requires words.Length == BUFFER_WORDS && arguments <= MAX_ARGUMENTS
    modifies words
    ensures packet == Decode(env, t, get, MAX_ARGUMENTS - arguments)
  {
    var put := env.put(t);
    if get % 4 != 0 || put % 4 != 0 || get == put {
      return None;
    }
    var read := env.read(t + 1, get);
    if read.None? || !env.admit(read.value) {
      return None;
    }
    var header := read.value;
    var count := Count(header);
    var bytes := 4 + count * 4;
    if (get < put && bytes > put - get) || bytes > M32 - 1 - get || bytes > PAGE - get % PAGE
       || arguments + count > MAX_ARGUMENTS {
      return None;
    }
    if count > 0 {
      var block := env.readBlock(t + 2, get + 4);
      if block.None? {
        return None;
      }
      forall i | 0 <= i < count {
        words[i] := block.value(i);
      }
      assert words[..count] == seq(count, i requires 0 <= i < count => block.value(i));
    }
    assert Words(env, t, get, header) == Some(words[..count]) by {
      assert Words(env, t, get, header).Some?;
      assert words[..count] == Words(env, t, get, header).value;
    }
    if !env.execute(ExecuteTime(t, header), header, words[..count]) {
      return None;
    }
    packet := Some(Packet(get, put, header, words[..count]));
  }

  /** The consumer's loop retires exactly the packets of the specification, and leaves GET right after
      the last of them. */
  method RunPreparedBlocks(env: Env, start: U32) returns (retired: nat, get: U32, packets: seq<Packet>)
    ensures packets == Batch(env, 0, start, 64, 4096)
    ensures retired == |packets| <= 64
    ensures get == start + Consumed(packets)
  {
    hide Decode, Batch, Consumed, Bytes, Count;
    get, retired, packets := start, 0, [];
    var arguments: nat, t: nat := 0, 0;
    var words := new U32[BUFFER_WORDS];
    ghost var all := Batch(env, 0, start, MAX_PACKETS, MAX_ARGUMENTS);
    NothingConsumed();
    while true
      invariant retired == |packets| <= MAX_PACKETS && arguments <= MAX_ARGUMENTS
      invariant all == packets + Batch(env, t, get, MAX_PACKETS - retired, MAX_ARGUMENTS - arguments)
      invariant get == start + Consumed(packets)
      decreases MAX_PACKETS - retired
    {
      if retired >= MAX_PACKETS {
        BatchRefuses(env, t, get, MAX_PACKETS - retired, MAX_ARGUMENTS - arguments);
        break;
      }
      var decoded := DecodePacket(env, t, get, arguments, words);
      if decoded.None? {
        BatchRefuses(env, t, get, MAX_PACKETS - retired, MAX_ARGUMENTS - arguments);
        break;
      }
      var p := decoded.value;
      BatchTakes(env, t, get, MAX_PACKETS - retired, MAX_ARGUMENTS - arguments);
      DecodedPacket(env, t, get, MAX_ARGUMENTS - arguments);
      ConsumedAppend(packets, p);
      arguments := arguments + Count(p.header);
      retired := retired + 1;
      packets := packets + [p];
      get := NextGet(p);
      t := PublishTime(t, p.header);
      if !env.publish(t, get) {
        assert packets + [] == packets;
        return;
      }
      t := t + 1;
    }
    assert packets + [] == packets;
  }

  lemma NothingConsumed()
    ensures Consumed([]) == 0
  {
  }

  lemma {:induction false} ConsumedAppend(ps: seq<Packet>, p: Packet)
    ensures Consumed(ps + [p]) == Consumed(ps) + Bytes(p.header)
  {
    if ps != [] {
      assert (ps + [p])[1..] == ps[1..] + [p];
      ConsumedAppend(ps[1..], p);
    }
  }

  // ----- properties of the specification -----

  /** Packets are contiguous, each inside its page, the 32-bit space, the buffer and the PUT sampled for
      it, and together inside the budgets. */
  lemma {:induction false} BatchIsBounded(env: Env, t: nat, get: U32, packets: nat, room: nat)
    ensures var ps := Batch(env, t, get, packets, room);
            && |ps| <= packets && Arguments(ps) <= room
            && (ps != [] ==> ps[0].get == get)
            && (forall k :: 0 <= k < |ps| ==>
                 Fits(ps[k].get, ps[k].put, ps[k].header) && |ps[k].words| == Count(ps[k].header) <= BUFFER_WORDS)
            && (forall k :: 0 <= k < |ps| - 1 ==> ps[k + 1].get == NextGet(ps[k]))
    decreases packets
  {
    hide Fits, Decode, Bytes, Count, Batch;
    if packets == 0 || Decode(env, t, get, room).None? {
      BatchRefuses(env, t, get, packets, room);
    } else {
      var ps := Batch(env, t, get, packets, room);
      BatchTakes(env, t, get, packets, room);
      DecodedPacket(env, t, get, room);
      var p := Decode(env, t, get, room).value;
      var published := PublishTime(t, p.header);
      if env.publish(published, NextGet(p)) {
        BatchIsBounded(env, published + 1, NextGet(p), packets - 1, room - Count(p.header));
        assert ps[1..] == Batch(env, published + 1, NextGet(p), packets - 1, room - Count(p.header));
        assert forall k :: 0 < k < |ps| ==> ps[k] == ps[1..][k - 1];
      } else {
        assert ps[1..] == [];
      }
    }
  }

  /** When the k-th packet is published. */
  function PublishedAt(t: nat, ps: seq<Packet>, k: nat): nat
    requires k < |ps|
    decreases k
  {
    if k == 0 then PublishTime(t, ps[0].header) else PublishedAt(PublishTime(t, ps[0].header) + 1, ps[1..], k - 1)
  }

  /** The environments answer alike up to time `until`. */
  ghost predicate AgreeUntil(a: Env, b: Env, until: nat) {
    && (forall h: U32 :: a.admit(h) == b.admit(h))
    && (forall t: nat :: t <= until ==> a.put(t) == b.put(t))
    && (forall t: nat, x: U32 :: t <= until ==> a.read(t, x) == b.read(t, x))
    && (forall t: nat, x: U32 :: t <= until ==> a.readBlock(t, x) == b.readBlock(t, x))
    && (forall t: nat, h: U32, w: seq<U32> :: t <= until ==> a.execute(t, h, w) == b.execute(t, h, w))
    && (forall t: nat, x: U32 :: t <= until ==> a.publish(t, x) == b.publish(t, x))
  }

  lemma DecodeAgrees(a: Env, b: Env, t: nat, get: U32, room: nat, until: nat)
    requires AgreeUntil(a, b, until) && Decode(a, t, get, room).Some?
    requires PublishTime(t, Decode(a, t, get, room).value.header) <= until
    ensures Decode(b, t, get, room) == Decode(a, t, get, room)
  {
    var p := Decode(a, t, get, room).value;
    assert t + 1 <= until && ExecuteTime(t, p.header) <= until;
    assert a.read(t + 1, get) == b.read(t + 1, get);
    assert Words(b, t, get, p.header) == Words(a, t, get, p.header) by {
      if Count(p.header) > 0 {
        assert a.readBlock(t + 2, get + 4) == b.readBlock(t + 2, get + 4);
      }
    }
    assert a.execute(ExecuteTime(t, p.header), p.header, p.words)
           == b.execute(ExecuteTime(t, p.header), p.header, p.words);
  }

  /** Nothing of packet k + 1 is read before packet k is published: the first k + 1 packets depend only on
      what the producer had written up to the publication of packet k. Rewriting any later word after that
      changes none of them. */
  lemma {:induction false} EarlierPacketsIgnoreTheFuture(a: Env, b: Env, t: nat, get: U32, packets: nat, room: nat,
                                                         k: nat)
    requires k < |Batch(a, t, get, packets, room)|
    requires AgreeUntil(a, b, PublishedAt(t, Batch(a, t, get, packets, room), k))
    ensures k < |Batch(b, t, get, packets, room)|
    ensures Batch(b, t, get, packets, room)[..k + 1] == Batch(a, t, get, packets, room)[..k + 1]
    decreases k
  {
    hide Fits, Decode, Bytes, Count, Batch;
    var ps := Batch(a, t, get, packets, room);
    if packets == 0 || Decode(a, t, get, room).None? {
      BatchRefuses(a, t, get, packets, room);
    }
    BatchTakes(a, t, get, packets, room);
    var p := ps[0];
    PublishedAtGrows(t, ps, k);
    DecodeAgrees(a, b, t, get, room, PublishedAt(t, ps, k));
    BatchTakes(b, t, get, packets, room);
    var published := PublishTime(t, p.header);
    var next := NextGet(p);
    assert a.publish(published, next) == b.publish(published, next);
    if k > 0 {
      var rest := Batch(a, published + 1, next, packets - 1, room - Count(p.header));
      assert ps == [p] + rest && ps[1..] == rest;
      EarlierPacketsIgnoreTheFuture(a, b, published + 1, next, packets - 1, room - Count(p.header), k - 1);
      var bs := Batch(b, published + 1, next, packets - 1, room - Count(p.header));
      assert ([p] + rest)[..k + 1] == [p] + rest[..k];
      assert ([p] + bs)[..k + 1] == [p] + bs[..k];
    } else {
      assert ps[..1] == [p] == Batch(b, t, get, packets, room)[..1];
    }
  }

  lemma {:induction false} PublishedAtGrows(t: nat, ps: seq<Packet>, k: nat)
    requires k < |ps|
    ensures PublishedAt(t, ps, k) >= PublishTime(t, ps[0].header)
    decreases k
  {
    if k > 0 {
      PublishedAtGrows(PublishTime(t, ps[0].header) + 1, ps[1..], k - 1);
    }
  }

  // ----- refinement of packet-at-a-time decoding without budgets -----

  /** n packets decoded one at a time, with no batch budget. */
  function OneAtATime(env: Env, t: nat, get: U32, n: nat): seq<Packet>
    decreases n
  {
    if n == 0 then []
    else
      match Decode(env, t, get, BUFFER_WORDS)
      case None => []
      case Some(p) =>
        DecodedPacket(env, t, get, BUFFER_WORDS);
        [p] + OneAtATime(env, PublishTime(t, p.header) + 1, NextGet(p), n - 1)
  }

  lemma OneAtATimeTakes(env: Env, t: nat, get: U32, n: nat, p: Packet)
    requires n > 0 && Decode(env, t, get, BUFFER_WORDS) == Some(p)
    ensures 0 <= NextGet(p) < M32
    ensures OneAtATime(env, t, get, n) == [p] + OneAtATime(env, PublishTime(t, p.header) + 1, NextGet(p), n - 1)
  {
    hide Fits, Bytes, Count;
    DecodedPacket(env, t, get, BUFFER_WORDS);
  }

  lemma MoreRoomSamePacket(env: Env, t: nat, get: U32, room: nat)
    requires Decode(env, t, get, room).Some?
    ensures Decode(env, t, get, BUFFER_WORDS) == Decode(env, t, get, room)
  {
    hide Fits, Bytes;
  }

  /** The batch is the packet-at-a-time run, cut short. */
  lemma {:induction false} BatchRefinesOneAtATime(env: Env, t: nat, get: U32, packets: nat, room: nat)
    ensures var ps := Batch(env, t, get, packets, room);
            OneAtATime(env, t, get, |ps|) == ps
    decreases packets
  {
    hide Fits, Decode, Bytes, Count, Batch;
    if packets == 0 || Decode(env, t, get, room).None? {
      BatchRefuses(env, t, get, packets, room);
    } else {
      BatchTakes(env, t, get, packets, room);
      MoreRoomSamePacket(env, t, get, room);
      var p := Decode(env, t, get, room).value;
      var ps := Batch(env, t, get, packets, room);
      OneAtATimeTakes(env, t, get, |ps|, p);
      var published := PublishTime(t, p.header);
      if env.publish(published, NextGet(p)) {
        BatchRefinesOneAtATime(env, published + 1, NextGet(p), packets - 1, room - Count(p.header));
      }
    }
  }

  /** The time right after the last publication, and GET then. */
  function EndTime(t: nat, ps: seq<Packet>): nat
    decreases |ps|
  {
    if ps == [] then t else EndTime(PublishTime(t, ps[0].header) + 1, ps[1..])
  }

  function EndGet(get: int, ps: seq<Packet>): int { if ps == [] then get else NextGet(ps[|ps| - 1]) }

  /** Why a batch ended: its packet budget, a change reported by the last publication, or a packet that
      the one-packet decoder refuses at the final GET with the room that is left. */
  ghost predicate StopReason(env: Env, t: nat, get: U32, packets: nat, room: nat, ps: seq<Packet>) {
    || |ps| == packets
    || (ps != [] && EndTime(t, ps) > 0 && 0 <= EndGet(get, ps) < M32
        && !env.publish(EndTime(t, ps) - 1, EndGet(get, ps)))
    || (0 <= EndGet(get, ps) < M32 && Arguments(ps) <= room
        && Decode(env, EndTime(t, ps), EndGet(get, ps), room - Arguments(ps)).None?)
  }

  lemma ReasonExtends(env: Env, t: nat, get: U32, packets: nat, room: nat, p: Packet, rest: seq<Packet>)
    requires packets > 0 && 0 <= NextGet(p) < M32 && Count(p.header) <= room
    requires StopReason(env, PublishTime(t, p.header) + 1, NextGet(p), packets - 1, room - Count(p.header), rest)
    ensures StopReason(env, t, get, packets, room, [p] + rest)
  {
    hide Decode, Bytes, Count;
    assert ([p] + rest)[1..] == rest;
    assert EndTime(t, [p] + rest) == EndTime(PublishTime(t, p.header) + 1, rest);
    assert EndGet(get, [p] + rest) == EndGet(NextGet(p), rest);
    assert Arguments([p] + rest) == Count(p.header) + Arguments(rest);
  }

  /** The batch is cut short only for a reason. */
  lemma {:induction false} BatchStopsForAReason(env: Env, t: nat, get: U32, packets: nat, room: nat)
    ensures StopReason(env, t, get, packets, room, Batch(env, t, get, packets, room))
    decreases packets
  {
    hide Fits, Decode, Bytes, Count, Batch;
    if packets == 0 || Decode(env, t, get, room).None? {
      BatchRefuses(env, t, get, packets, room);
    } else {
      BatchTakes(env, t, get, packets, room);
      var p := Decode(env, t, get, room).value;
      var published := PublishTime(t, p.header);
      if env.publish(published, NextGet(p)) {
        BatchStopsForAReason(env, published + 1, NextGet(p), packets - 1, room - Count(p.header));
        ReasonExtends(env, t, get, packets, room, p,
                      Batch(env, published + 1, NextGet(p), packets - 1, room - Count(p.header)));
      } else {
        assert [p][1..] == [];
        assert EndTime(t, [p]) == EndTime(published + 1, []) == published + 1;
      }
    }
  }
}
