/** The MQTT client: publish packets, their framing on the wire, and delivery to subscriptions. */
module Mqtt {
  import opened Option

  /** A byte as a number. */
  type Octet = b: int | 0 <= b < 256

  const MAXBUFFERSIZE := 125
  const MAXSUBSCRIPTIONS := 5
  const SUBSCRIPTIONDATALEN := 20
  const READINTERVAL := 10
  const PUBLISH: Octet := 0x30

  // ---- Packets ----

  /** A length-prefixed string, section 1.5.3 of MQTT 3.1.1. */
  function StringField(s: seq<Octet>): seq<Octet> {
    [|s| / 256 % 256, |s| % 256] + s
  }

  /** The length comes with its high byte first, in front of the string. */
  lemma StringFieldIs(s: seq<Octet>)
    requires |s| < 0x1_0000
    ensures var f := StringField(s);
            |f| == 2 + |s| && f[0] as int * 0x100 + f[1] as int == |s| && f[2..] == s
  {}

  /** A QoS 0 publish packet, section 3.3 of MQTT 3.1.1. */
  function Packet(topic: seq<Octet>, data: seq<Octet>): seq<Octet> {
    [PUBLISH, (2 + |topic| + |data|) % 256] + StringField(topic) + data
  }

  predicate Fits(topic: seq<Octet>, data: seq<Octet>) {
    4 + |topic| + |data| <= MAXBUFFERSIZE
  }

  datatype Message = Message(topic: seq<Octet>, data: seq<Octet>)

  /** What a receiver reads from one packet: a publish header with a remaining length of one byte, then the topic with
      its length, then the payload up to the end. */
  function Parse(p: seq<Octet>): Option<Message> {
    if |p| < 4 || p[0] != PUBLISH || p[1] >= 128 || |p| != 2 + p[1] then None else
    var n: int := (p[2] as int) * 256 + p[3];
    if 4 + n > |p| then None else Some(Message(p[4..4 + n], p[4 + n..]))
  }

  /** The bytes of a packet: type 3 without flags, the remaining length, the length of the topic with its high byte
      first, the topic, the payload. */
  lemma PacketIs(topic: seq<Octet>, data: seq<Octet>)
    requires Fits(topic, data)
    ensures Packet(topic, data) == [0x30, 2 + |topic| + |data|, 0, |topic|] + topic + data
  {}

  /** Any message that fits the buffer is read back from its packet. */
  lemma PacketRoundTrip(topic: seq<Octet>, data: seq<Octet>)
    requires Fits(topic, data)
    ensures Parse(Packet(topic, data)) == Some(Message(topic, data))
  {
    var p := Packet(topic, data);
    assert p == [PUBLISH, 2 + |topic| + |data|, 0, |topic|] + topic + data;
    assert p[4..4 + |topic|] == topic && p[4 + |topic|..] == data;
  }

  // ---- The link ----

  /** What one wait brings: bytes, and whether the connection is still up. */
  datatype Poll = Poll(up: bool, bytes: seq<Octet>)

  datatype Link = Link(up: bool, now: seq<Octet>, later: seq<Poll>)

  function Bytes(polls: seq<Poll>): seq<Octet> {
    if polls == [] then [] else polls[0].bytes + Bytes(polls[1..])
  }

  /** Everything that has not been read yet, in order. */
  function Stream(l: Link): seq<Octet> {
    l.now + Bytes(l.later)
  }

  function Wait(l: Link): (m: Link)
    ensures Stream(m) == Stream(l)
  {
    if l.later == [] then l else
    var m := Link(l.later[0].up, l.now + l.later[0].bytes, l.later[1..]);
    assert Stream(m) == Stream(l);
    m
  }

  // ---- Framing ----

  /** A publish packet is complete when its length byte says so. */
  predicate Complete(p: seq<Octet>) {
    2 <= |p| && p[0] == PUBLISH && p[1] == |p| - 2
  }

  predicate Stops(p: seq<Octet>, max: nat, check: bool) {
    |p| == max || (check && Complete(p))
  }

  /** Where the next frame ends: behind the first byte, from k on, at which reading stops. */
  function FrameEnd(s: seq<Octet>, k: nat, max: nat, check: bool): (n: nat)
    requires k <= |s|
    ensures k <= n <= |s|
    ensures n < |s| ==> k < n && Stops(s[..n], max, check)
    ensures forall j :: k < j < n ==> !Stops(s[..j], max, check)
    decreases |s| - k
  {
    if k == |s| || Stops(s[..k + 1], max, check) then (if k == |s| then k else k + 1)
    else FrameEnd(s, k + 1, max, check)
  }

  /** The stream cut into frames. */
  function Frames(s: seq<Octet>): seq<seq<Octet>> {
    if s == [] then [] else
    var n := FrameEnd(s, 0, MAXBUFFERSIZE, true);
    if n == 0 then [] else [s[..n]] + Frames(s[n..])
  }

  function Flatten(ps: seq<seq<Octet>>): seq<Octet> {
    if ps == [] then [] else ps[0] + Flatten(ps[1..])
  }

  /** A complete packet that fits the buffer is the first frame of any stream that starts with it. */
  lemma PacketIsFrame(p: seq<Octet>, rest: seq<Octet>)
    requires Complete(p) && |p| <= MAXBUFFERSIZE
    ensures FrameEnd(p + rest, 0, MAXBUFFERSIZE, true) == |p|
  {
    var s := p + rest;
    var n := FrameEnd(s, 0, MAXBUFFERSIZE, true);
    assert s[..|p|] == p;
    if 0 < n < |p| {
      NotYet(p, rest, n);
    }
  }

  lemma NotYet(p: seq<Octet>, rest: seq<Octet>, n: nat)
    requires Complete(p) && |p| <= MAXBUFFERSIZE && 0 < n < |p|
    ensures !Stops((p + rest)[..n], MAXBUFFERSIZE, true)
  {}

  /** Packets sent one after the other come back one at a time. */
  lemma {:induction false} FramesOfPackets(ps: seq<seq<Octet>>)
    requires forall p :: p in ps ==> Complete(p) && |p| <= MAXBUFFERSIZE
    ensures Frames(Flatten(ps)) == ps
  {
    if ps != [] {
      hide Complete, FrameEnd;
      var rest := Flatten(ps[1..]);
      assert ps[0] in ps;
      PacketIsFrame(ps[0], rest);
      FramesOfPackets(ps[1..]);
      assert (ps[0] + rest)[..|ps[0]|] == ps[0] && (ps[0] + rest)[|ps[0]|..] == rest;
    }
  }

  /** The rest of the frame arrives before the timeout: the link stays up and no silence lasts too long. */
  predicate Prompt(l: Link, left: int, timeout: int, need: nat)
    decreases |l.later|
  {
    need == 0 ||
    (l.up && left >= 0 &&
     (need <= |l.now| ||
      (l.later != [] &&
       Prompt(Wait(l.(now := [])), (if l.now != [] then timeout else left) - READINTERVAL, timeout, need - |l.now|))))
  }

  /** Everything is brought by polls that find the link up and bring something each. */
  predicate Steady(polls: seq<Poll>) {
    forall i :: 0 <= i < |polls| ==> polls[i].up && polls[i].bytes != []
  }

  /** A link that has something and brings something at every poll brings every frame in time, with any limit of ten
      milliseconds or more. */
  lemma {:induction false} SteadyIsPrompt(l: Link, left: int, limit: int, need: nat)
    requires l.up && l.now != [] && Steady(l.later) && 0 <= left && 10 <= limit && need <= |Stream(l)|
    ensures Prompt(l, left, limit, need)
    decreases |l.later|
  {
    if need > |l.now| {
      var silent := l.(now := []);
      assert l.later[0].up && l.later[0].bytes != [];
      assert Wait(silent).now == l.later[0].bytes;
      SteadyIsPrompt(Wait(silent), limit - 10, limit, need - |l.now|);
    }
  }

  /** Every silent poll takes ten milliseconds from the time that is left; when that falls below zero the frame is given
      up. */
  lemma {:induction false} SilenceExact(l: Link, left: int, limit: int, need: nat, k: nat)
    requires l.up && l.now == [] && 0 < need && k <= |l.later|
    requires forall i :: 0 <= i < k ==> l.later[i] == Poll(true, [])
    ensures Prompt(l, left, limit, need) <==> Prompt(Link(true, [], l.later[k..]), left - 10 * k, limit, need)
    ensures left < 10 * k ==> !Prompt(l, left, limit, need)
    decreases k
  {
    if k > 0 {
      var next := Link(true, [], l.later[1..]);
      assert l.later[0] == Poll(true, []) && Wait(l.(now := [])) == next;
      assert next.later[k - 1..] == l.later[k..];
      SilenceExact(next, left - 10, limit, need, k - 1);
    } else {
      assert l.later[0..] == l.later;
    }
  }

  // ---- Delivery ----

  function Fold(c: Octet): Octet {
    if 65 <= c <= 90 then c + 32 else c
  }

  /** Two bytes fold to the same exactly if they are equal or the two cases of a letter. */
  lemma FoldExact(c: Octet, d: Octet)
    ensures Fold(c) == Fold(d) <==> SameLetter(c, d)
  {}

  /** Equal up to the case of ASCII letters. */
  predicate EqualFold(a: seq<Octet>, b: seq<Octet>) {
    |a| == |b| && forall k :: 0 <= k < |a| ==> Fold(a[k]) == Fold(b[k])
  }

  /** The same letter, in any case. */
  predicate SameLetter(c: Octet, d: Octet) {
    c == d || ('A' as int <= c <= 'Z' as int && d == c + 32) || ('A' as int <= d <= 'Z' as int && c == d + 32)
  }

  lemma EqualFoldExact(a: seq<Octet>, b: seq<Octet>)
    ensures EqualFold(a, b) <==> |a| == |b| && forall k :: 0 <= k < |a| ==> SameLetter(a[k], b[k])
  {
    forall k | 0 <= k < |a| && |a| == |b| ensures Fold(a[k]) == Fold(b[k]) <==> SameLetter(a[k], b[k]) {
      FoldExact(a[k], b[k]);
    }
  }

  /** What a subscription keeps of a payload: all of it up to 20 bytes, otherwise the first 19. */
  function Kept(data: seq<Octet>): (k: seq<Octet>)
    ensures |k| <= SUBSCRIPTIONDATALEN && k <= data
    ensures |data| <= SUBSCRIPTIONDATALEN ==> k == data
  {
    if |data| > SUBSCRIPTIONDATALEN then data[..SUBSCRIPTIONDATALEN - 1] else data
  }

  function Zeros(n: nat): (z: seq<Octet>)
    ensures |z| == n && forall i :: 0 <= i < n ==> z[i] == 0
  {
    seq(n, _ => 0)
  }

  /** A received frame under whatever the buffer held before. */
  function Received(frame: seq<Octet>, before: seq<Octet>): (b: seq<Octet>)
    requires |frame| <= |before|
    ensures |b| == |before|
  {
    frame + before[|frame|..]
  }

  predicate TopicMatches(topic: seq<Octet>, b: seq<Octet>)
    requires |b| == MAXBUFFERSIZE
  {
    |topic| == b[3] && 4 + |topic| <= |b| && EqualFold(b[4..4 + |topic|], topic)
  }

  /** The payload as the source computes it, with a length of eight bits. */
  function PayloadLength(len: nat, topiclen: Octet): nat {
    var n := (len - topiclen - 4) % 256;
    if n > SUBSCRIPTIONDATALEN then SUBSCRIPTIONDATALEN - 1 else n
  }

  /** The payload of a whole frame is cut to 19 bytes if it has more than 20; the length of a frame that ends inside its
      topic wraps in eight bits, and is cut as well unless the topic is longer than 235. */
  lemma PayloadLengthExact(len: nat, topiclen: Octet)
    requires len <= 125
    ensures var n := len - 4 - topiclen;
            PayloadLength(len, topiclen) ==
            if 0 <= n <= 20 then n else if -256 <= n <= -236 then n + 256 else 19
  {
    var n := len - 4 - topiclen;
    if n < -256 {
      assert n % 256 == n + 512;
    } else if n < 0 {
      assert n % 256 == n + 256;
    }
  }

  class Subscription {
    const topic: seq<Octet>
    var lastread: seq<Octet>
    var datalen: nat

    constructor (topic: seq<Octet>)
      ensures this.topic == topic && datalen == 0 && lastread == Zeros(SUBSCRIPTIONDATALEN)
    {
      this.topic, lastread, datalen := topic, Zeros(SUBSCRIPTIONDATALEN), 0;
    }
  }

  /** The first slot whose topic is the one in the buffer, or |slots|. */
  function FirstSlot(slots: seq<Subscription?>, b: seq<Octet>, i: nat): (k: nat)
    requires i <= |slots| && |b| == MAXBUFFERSIZE
    ensures i <= k <= |slots|
    ensures k < |slots| ==> slots[k] != null && TopicMatches(slots[k].topic, b)
    ensures forall j :: i <= j < k && slots[j] != null ==> !TopicMatches(slots[j].topic, b)
    decreases |slots| - i
  {
    if i == |slots| || (slots[i] != null && TopicMatches(slots[i].topic, b)) then i else FirstSlot(slots, b, i + 1)
  }

  /** The bytes behind the topic. */
  function Payload(b: seq<Octet>, topiclen: nat, n: nat): seq<Octet>
    requires 4 + topiclen + n <= |b|
  {
    b[4 + topiclen..4 + topiclen + n]
  }

  /** Exactly when reading the payload behind a topic that fits leaves the buffer: the topic is longer than 102, and the
      frame ends inside it. */
  lemma PayloadReach(len: nat, topiclen: Octet)
    requires len <= MAXBUFFERSIZE && 4 + topiclen <= MAXBUFFERSIZE
    ensures 4 + topiclen + PayloadLength(len, topiclen) > MAXBUFFERSIZE <==> topiclen > 102 && len < 4 + topiclen
  {
    if len < 4 + topiclen {
      assert (len - topiclen - 4) % 256 == 256 + len - topiclen - 4;
    }
  }

  /** With such topics no reader leaves the buffer: either they are short, or they fit and the frame is a whole publish
      packet. */
  ghost predicate InReach(slots: seq<Subscription?>, l: Link, limit: int) {
    (forall i :: 0 <= i < |slots| && slots[i] != null ==> |slots[i].topic| <= 102) ||
    ((forall i :: 0 <= i < |slots| && slots[i] != null ==> 4 + |slots[i].topic| <= MAXBUFFERSIZE) &&
     WholePacket(l, limit))
  }

  ghost predicate WholePacket(l: Link, limit: int) {
    var s := Stream(l);
    var end := FrameEnd(s, 0, MAXBUFFERSIZE, true);
    Prompt(l, limit, limit, end) && Parse(s[..end]).Some?
  }

  /** What the buffer holds of a whole packet, as the reader takes it apart. */
  lemma PacketInBuffer(topic: seq<Octet>, data: seq<Octet>, before: seq<Octet>, t: seq<Octet>)
    requires Fits(topic, data) && |before| == MAXBUFFERSIZE
    ensures var b := Received(Packet(topic, data), before);
            var n := PayloadLength(|Packet(topic, data)|, |topic|);
            (TopicMatches(t, b) <==> EqualFold(topic, t)) &&
            4 + |topic| + n <= MAXBUFFERSIZE && n == |Kept(data)| && Payload(b, |topic|, n) == Kept(data)
  {
    PacketLayout(topic, data);
    var p, b := Packet(topic, data), Received(Packet(topic, data), before);
    ReceivedFront(p, before);
    hide Packet, Received;
    assert b[..|p|][3] == b[3];
    assert b[4..4 + |topic|] == b[..|p|][4..4 + |topic|];
    assert b[4 + |topic|..4 + |topic| + |data|] == b[..|p|][4 + |topic|..];
    hide TopicMatches, EqualFold, PayloadLength, Payload, Kept;
    TopicInBuffer(topic, b, t);
    PayloadInBuffer(topic, data, b);
  }

  lemma TopicInBuffer(topic: seq<Octet>, b: seq<Octet>, t: seq<Octet>)
    requires |b| == MAXBUFFERSIZE && 4 + |topic| <= |b| && b[3] == |topic| && b[4..4 + |topic|] == topic
    ensures TopicMatches(t, b) <==> EqualFold(topic, t)
  {}

  lemma PayloadInBuffer(topic: seq<Octet>, data: seq<Octet>, b: seq<Octet>)
    requires Fits(topic, data) && |b| == MAXBUFFERSIZE && b[4 + |topic|..4 + |topic| + |data|] == data
    ensures var n := PayloadLength(4 + |topic| + |data|, |topic|);
            4 + |topic| + n <= MAXBUFFERSIZE && n == |Kept(data)| && Payload(b, |topic|, n) == Kept(data)
  {
    FrontOf(b, 4 + |topic|, PayloadLength(4 + |topic| + |data|, |topic|), data);
  }

  lemma FrontOf(b: seq<Octet>, lo: nat, n: nat, data: seq<Octet>)
    requires n <= |data| && lo + |data| <= |b| && b[lo..lo + |data|] == data
    ensures b[lo..lo + n] == data[..n]
  {
    forall k | 0 <= k < n ensures b[lo + k] == data[k] {
      assert b[lo + k] == b[lo..lo + |data|][k];
    }
  }

  lemma PacketLayout(topic: seq<Octet>, data: seq<Octet>)
    requires Fits(topic, data)
    ensures var p := Packet(topic, data);
            |p| == 4 + |topic| + |data| && p[3] == |topic| && p[4..4 + |topic|] == topic && p[4 + |topic|..] == data
  {
    assert Packet(topic, data) == [PUBLISH, 2 + |topic| + |data|, 0, |topic|] + topic + data;
  }

  lemma ReceivedFront(p: seq<Octet>, before: seq<Octet>)
    requires |p| <= |before|
    ensures Received(p, before)[..|p|] == p
  {}

  /** A published message is one frame, and goes to the first slot with its topic, in any case of letters. */
  lemma PublishedIsDelivered(slots: seq<Subscription?>, topic: seq<Octet>, data: seq<Octet>, rest: seq<Octet>,
                             before: seq<Octet>)
    requires Fits(topic, data) && |before| == MAXBUFFERSIZE
    ensures var p := Packet(topic, data);
            var b := Received(p, before);
            var k := FirstSlot(slots, b, 0);
            FrameEnd(p + rest, 0, MAXBUFFERSIZE, true) == |p| && Parse(p).Some? &&
            (k < |slots| ==>
               slots[k] != null && EqualFold(topic, slots[k].topic) &&
               var n := PayloadLength(|p|, |slots[k].topic|);
               4 + |slots[k].topic| + n <= MAXBUFFERSIZE && Payload(b, |slots[k].topic|, n) == Kept(data)) &&
            (forall j :: 0 <= j < k && slots[j] != null ==> !EqualFold(topic, slots[j].topic))
  {
    var p := Packet(topic, data);
    var b := Received(p, before);
    PacketIsFrame(p, rest);
    PacketRoundTrip(topic, data);
    hide Parse, Packet, Received, Payload, TopicMatches, PayloadLength, Kept, FrameEnd;
    forall j | 0 <= j < |slots| && slots[j] != null
      ensures TopicMatches(slots[j].topic, b) <==> EqualFold(topic, slots[j].topic)
    {
      PacketInBuffer(topic, data, before, slots[j].topic);
    }
    var k := FirstSlot(slots, b, 0);
    if k < |slots| {
      PacketInBuffer(topic, data, before, slots[k].topic);
    }
  }

  /** What one call of readSubscription does: the slot it finds, or |slots|, and the payload it stores there. */
  datatype Delivery = Delivery(slot: nat, data: seq<Octet>)

  /** One call that reads a whole frame, and leaves the frame in the buffer. */
  function DeliverOne(slots: seq<Subscription?>, b: seq<Octet>, len: nat): Delivery
    requires |b| == MAXBUFFERSIZE
  {
    var k := FirstSlot(slots, b, 0);
    if k == |slots| then Delivery(k, [])
    else
      var n := PayloadLength(len, |slots[k].topic|);
      Delivery(k, if 4 + |slots[k].topic| + n <= |b| then Payload(b, |slots[k].topic|, n) else [])
  }

  lemma NotDelivered(slots: seq<Subscription?>, b: seq<Octet>, len: nat)
    requires |b| == MAXBUFFERSIZE && FirstSlot(slots, b, 0) == |slots|
    ensures DeliverOne(slots, b, len) == Delivery(|slots|, [])
  {}

  lemma StoredIs(slots: seq<Subscription?>, b: seq<Octet>, len: nat, topiclen: nat, n: nat, stored: seq<Octet>,
                 pad: seq<Octet>)
    requires |b| == MAXBUFFERSIZE && FirstSlot(slots, b, 0) < |slots|
    requires topiclen == |slots[FirstSlot(slots, b, 0)].topic| && n == PayloadLength(len, topiclen)
    requires 4 + topiclen + n <= |b| && stored == Payload(b, topiclen, n) + pad
    ensures |stored| >= n && DeliverOne(slots, b, len) == Delivery(FirstSlot(slots, b, 0), stored[..n])
  {
    hide FirstSlot, PayloadLength;
    assert stored[..n] == Payload(b, topiclen, n);
  }

  /** Calls that read one frame after the other from a stream that brings each in time. */
  function Deliver(slots: seq<Subscription?>, s: seq<Octet>, before: seq<Octet>, calls: nat): seq<Delivery>
    requires |before| == MAXBUFFERSIZE
    decreases calls
  {
    if calls == 0 then [] else
    var end := FrameEnd(s, 0, MAXBUFFERSIZE, true);
    if end > MAXBUFFERSIZE then [] else
    var b := Received(s[..end], before);
    [DeliverOne(slots, b, end)] + Deliver(slots, s[end..], b, calls - 1)
  }

  /** The first slot that subscribes to a topic, in any case of letters. */
  function Subscriber(slots: seq<Subscription?>, topic: seq<Octet>, i: nat): (k: nat)
    requires i <= |slots|
    ensures i <= k <= |slots|
    decreases |slots| - i
  {
    if i == |slots| || (slots[i] != null && EqualFold(topic, slots[i].topic)) then i
    else Subscriber(slots, topic, i + 1)
  }

  function Due(slots: seq<Subscription?>, ms: seq<Message>): seq<Delivery> {
    if ms == [] then [] else
    var k := Subscriber(slots, ms[0].topic, 0);
    [Delivery(k, if k < |slots| then Kept(ms[0].data) else [])] + Due(slots, ms[1..])
  }

  function Sent(ms: seq<Message>): seq<Octet> {
    if ms == [] then [] else Packet(ms[0].topic, ms[0].data) + Sent(ms[1..])
  }

  lemma {:induction false} SubscriberIs(slots: seq<Subscription?>, topic: seq<Octet>, b: seq<Octet>, i: nat)
    requires i <= |slots| && |b| == MAXBUFFERSIZE
    requires forall j :: 0 <= j < |slots| && slots[j] != null ==>
               (TopicMatches(slots[j].topic, b) <==> EqualFold(topic, slots[j].topic))
    ensures FirstSlot(slots, b, i) == Subscriber(slots, topic, i)
    decreases |slots| - i
  {
    hide TopicMatches, EqualFold;
    if i < |slots| {
      SubscriberIs(slots, topic, b, i + 1);
    }
  }

  lemma DeliveredOne(slots: seq<Subscription?>, m: Message, before: seq<Octet>)
    requires Fits(m.topic, m.data) && |before| == MAXBUFFERSIZE
    ensures var p := Packet(m.topic, m.data);
            var k := Subscriber(slots, m.topic, 0);
            DeliverOne(slots, Received(p, before), |p|) == Delivery(k, if k < |slots| then Kept(m.data) else [])
  {
    hide Packet, Received, Payload, TopicMatches, PayloadLength, Kept, EqualFold, Subscriber;
    PacketComplete(m);
    var p := Packet(m.topic, m.data);
    var b := Received(p, before);
    forall j | 0 <= j < |slots| && slots[j] != null
      ensures TopicMatches(slots[j].topic, b) <==> EqualFold(m.topic, slots[j].topic)
    {
      PacketInBuffer(m.topic, m.data, before, slots[j].topic);
    }
    SubscriberIs(slots, m.topic, b, 0);
    PublishedIsDelivered(slots, m.topic, m.data, [], before);
  }

  /** Any number of published messages, sent one after the other and read by as many calls, arrive one by one and in
      order, each at the first slot that subscribes to its topic and with its payload cut as `Kept` says; whatever
      follows on the stream, and whatever each packet finds in the buffer. */
  lemma {:induction false} AllDelivered(slots: seq<Subscription?>, ms: seq<Message>, rest: seq<Octet>,
                                        before: seq<Octet>)
    requires forall m :: m in ms ==> Fits(m.topic, m.data)
    requires |before| == MAXBUFFERSIZE
    ensures Deliver(slots, Sent(ms) + rest, before, |ms|) == Due(slots, ms)
  {
    hide FrameEnd, Received, DeliverOne, Packet, Subscriber, Kept, Fits, Complete;
    if ms != [] {
      var m := ms[0];
      assert m in ms;
      var p, tail := Packet(m.topic, m.data), Sent(ms[1..]) + rest;
      assert Sent(ms) + rest == p + tail && (p + tail)[..|p|] == p && (p + tail)[|p|..] == tail;
      PacketComplete(m);
      PacketIsFrame(p, tail);
      DeliveredOne(slots, m, before);
      AllDelivered(slots, ms[1..], rest, Received(p, before));
    }
  }

  lemma PacketComplete(m: Message)
    requires Fits(m.topic, m.data)
    ensures Complete(Packet(m.topic, m.data)) && |Packet(m.topic, m.data)| <= MAXBUFFERSIZE
  {}

  /** Reading the payload of a matching slot stays inside the buffer. */
  lemma PayloadInReach(slots: seq<Subscription?>, l: Link, limit: int, before: seq<Octet>, len: nat, k: nat)
    requires |before| == MAXBUFFERSIZE && InReach(slots, l, limit) && k < |slots| && slots[k] != null
    requires len <= FrameEnd(Stream(l), 0, MAXBUFFERSIZE, true) && len <= MAXBUFFERSIZE
    requires Prompt(l, limit, limit, FrameEnd(Stream(l), 0, MAXBUFFERSIZE, true)) ==>
               len == FrameEnd(Stream(l), 0, MAXBUFFERSIZE, true)
    requires TopicMatches(slots[k].topic, Received(Stream(l)[..len], before))
    ensures 4 + |slots[k].topic| + PayloadLength(len, |slots[k].topic|) <= MAXBUFFERSIZE
  {
    hide FrameEnd, Prompt, Stream, PayloadLength;
    PayloadReach(len, |slots[k].topic|);
    if |slots[k].topic| > 102 {
      assert WholePacket(l, limit);
      assert Received(Stream(l)[..len], before)[3] == Stream(l)[..len][3];
    }
  }

  lemma FrameStep(s: seq<Octet>, k: nat, max: nat, check: bool)
    requires k < |s|
    ensures FrameEnd(s, k, max, check) ==
            if Stops(s[..k + 1], max, check) then k + 1 else FrameEnd(s, k + 1, max, check)
  {}

  /** The tests on the buffer are tests on the frame read so far. */
  lemma BufferHolds(s: seq<Octet>, len: nat, before: seq<Octet>)
    requires 0 < len <= |s| && len <= |before| == MAXBUFFERSIZE
    ensures var b := Received(s[..len], before);
            Complete(s[..len]) <==> b[0] == PUBLISH && b[1] == len - 2
  {}

  /** One turn of the outer loop, in which `taken` bytes are read. */
  lemma PromptStep(l: Link, left: int, limit: int, need: nat, taken: nat)
    requires l.up && left >= 0 && taken <= |l.now| && taken <= need
    ensures taken == need ==> Prompt(l, left, limit, need)
    ensures taken == |l.now| ==>
              (Prompt(l, left, limit, need) <==>
               Prompt(Wait(l.(now := [])), (if taken > 0 then limit else left) - READINTERVAL, limit, need - taken))
  {}

  lemma PromptEnds(l: Link, left: int, limit: int, need: nat)
    requires !l.up || left < 0
    ensures Prompt(l, left, limit, need) <==> need == 0
  {}

  lemma TailLength(s: seq<Octet>, n: nat)
    requires n <= |s|
    ensures |s[n..]| == |s| - n
  {}

  lemma WaitShrinks(l: Link)
    ensures |Wait(l).later| <= |l.later|
  {}

  lemma NothingReceived(s: seq<Octet>, before: seq<Octet>)
    ensures s[..0] == [] && s[0..] == s && Received([], before) == before
  {}

  lemma TakeByte(l: Link, s: seq<Octet>, len: nat, before: seq<Octet>)
    requires l.now != [] && len <= |s| && Stream(l) == s[len..] && len < |before|
    ensures len < |s| && s[len] == l.now[0] && Stream(l.(now := l.now[1..])) == s[len + 1..]
    ensures Received(s[..len], before)[len := l.now[0]] == Received(s[..len + 1], before)
  {
    assert Stream(l.(now := l.now[1..])) == Stream(l)[1..];
  }

  lemma FieldWritten(b: seq<Octet>, before: seq<Octet>, p: nat, s: seq<Octet>)
    requires p + 2 + |s| <= |b| == |before| && |s| < 0x1_0000
    requires b[p] == |s| / 256 && b[p + 1] == |s| % 256
    requires forall k :: 0 <= k < |s| ==> b[p + 2 + k] == s[k]
    requires forall i :: 0 <= i < p || p + 2 + |s| <= i < |b| ==> b[i] == before[i]
    ensures b == before[..p] + StringField(s) + before[p + 2 + |s|..]
  {
    var q := p + 2 + |s|;
    assert b[p + 2..q] == s && b[..p] == before[..p] && b[q..] == before[q..];
    assert b[p..q] == StringField(s);
    assert b == b[..p] + b[p..q] + b[q..];
  }

  class MqttClient {
    const buffer: array<Octet>
    const subscriptions: array<Subscription?>
    var link: Link

    ghost predicate Valid()
      reads this, subscriptions
    {
      buffer.Length == MAXBUFFERSIZE && subscriptions.Length == MAXSUBSCRIPTIONS &&
      (forall i, j :: 0 <= i < j < MAXSUBSCRIPTIONS && subscriptions[i] == subscriptions[j] ==>
                        subscriptions[i] == null)
    }

    constructor (link: Link)
      ensures Valid() && fresh(buffer) && fresh(subscriptions) && this.link == link && subscriptions.Length == 5
      ensures forall i :: 0 <= i < MAXSUBSCRIPTIONS ==> subscriptions[i] == null
    {
      buffer := new Octet[MAXBUFFERSIZE](_ => 0);
      subscriptions := new Subscription?[MAXSUBSCRIPTIONS](_ => null);
      this.link := link;
    }

    /** Adds the subscription unless it is there already; fails exactly when all slots are taken by others. */
    method Subscribe(sub: Subscription) returns (ok: bool)
      requires Valid()
      modifies subscriptions
      ensures Valid()
      ensures ok <==> old(sub in subscriptions[..] || null in subscriptions[..])
      ensures ok ==> sub in subscriptions[..]
      ensures old(sub in subscriptions[..]) || !ok ==> subscriptions[..] == old(subscriptions[..])
      ensures ok && old(sub !in subscriptions[..]) ==>
                exists i :: 0 <= i < MAXSUBSCRIPTIONS && old(subscriptions[i]) == null &&
                            (forall j :: 0 <= j < i ==> old(subscriptions[j]) != null) &&
                            subscriptions[..] == old(subscriptions[..])[i := sub]
    {
      for i := 0 to MAXSUBSCRIPTIONS
        invariant sub !in subscriptions[..i]
      {
        if subscriptions[i] == sub {
          return true;
        }
      }
      for i := 0 to MAXSUBSCRIPTIONS
        invariant forall j :: 0 <= j < i ==> subscriptions[j] != null
        invariant subscriptions[..] == old(subscriptions[..])
      {
        if subscriptions[i] == null {
          subscriptions[i] := sub;
          assert subscriptions[..][i] == sub;
          assert subscriptions[..] == old(subscriptions[..])[i := sub];
          return true;
        }
      }
      return false;
    }

    method StringPrint(p: nat, s: seq<Octet>) returns (q: nat)
      requires p + 2 + |s| <= buffer.Length && |s| < 0x1_0000
      modifies buffer
      ensures q == p + 2 + |s|
      ensures buffer[..] == old(buffer[..p]) + StringField(s) + old(buffer[q..])
    {
      ghost var before := buffer[..];
      buffer[p], buffer[p + 1] := |s| / 256, |s| % 256;
      forall k | 0 <= k < |s| {
        buffer[p + 2 + k] := s[k];
      }
      q := p + 2 + |s|;
      hide StringField;
      FieldWritten(buffer[..], before, p, s);
    }

    /** Writes a QoS 0 publish packet to the front of the buffer. */
    method PublishPacket(topic: seq<Octet>, data: seq<Octet>) returns (len: nat)
      requires Valid() && Fits(topic, data)
      modifies buffer
      ensures len == 4 + |topic| + |data|
      ensures buffer[..] == Packet(topic, data) + old(buffer[len..])
    {
      buffer[0] := PUBLISH;
      var p := StringPrint(2, topic);
      forall k | 0 <= k < |data| {
        buffer[p + k] := data[k];
      }
      len := p + |data|;
      buffer[1] := (len - 2) % 256;
    }

    /** Takes what is available, until the frame ends. */
    method ReadAvailable(start: nat, maxlen: nat, check: bool, ghost s: seq<Octet>, ghost before: seq<Octet>)
      returns (len: nat, done: bool)
      requires Valid() && start < maxlen && 2 <= maxlen <= MAXBUFFERSIZE && |before| == MAXBUFFERSIZE
      requires start <= |s| && Stream(link) == s[start..] && buffer[..] == Received(s[..start], before)
      modifies this`link, buffer
      ensures Valid() && start <= len <= |s| && len <= MAXBUFFERSIZE
      ensures Stream(link) == s[len..] && buffer[..] == Received(s[..len], before)
      ensures len - start <= |old(link).now| && link == old(link).(now := old(link).now[len - start..])
      ensures done ==> start < len && FrameEnd(s, start, maxlen, check) == len
      ensures !done ==> link.now == [] && len < maxlen &&
                        FrameEnd(s, start, maxlen, check) == FrameEnd(s, len, maxlen, check)
    {
      hide FrameEnd, Received, Stream;
      len, done := start, false;
      ghost var all := link.now;
      while link.now != []
        invariant start <= len <= |s| && len < maxlen
        invariant Stream(link) == s[len..] && buffer[..] == Received(s[..len], before)
        invariant len - start <= |all| && link == old(link).(now := all[len - start..])
        invariant FrameEnd(s, start, maxlen, check) == FrameEnd(s, len, maxlen, check)
        decreases |link.now|
      {
        var c := link.now[0];
        TakeByte(link, s, len, before);
        FrameStep(s, len, maxlen, check);
        BufferHolds(s, len + 1, before);
        link := link.(now := link.now[1..]);
        buffer[len] := c;
        len := len + 1;
        if len == maxlen {
          return len, true;
        }
        if check && buffer[0] == PUBLISH && buffer[1] == len - 2 {
          return len, true;
        }
      }
    }

    /** Reads one frame: all of it exactly if it arrives promptly, otherwise the part that did. */
    method ReadPacket(maxlen: nat, limit: int, check: bool) returns (len: nat)
      requires Valid() && 2 <= maxlen <= MAXBUFFERSIZE
      modifies this`link, buffer
      ensures Valid()
      ensures var s := old(Stream(link));
              var end := FrameEnd(s, 0, maxlen, check);
              len <= end && len <= MAXBUFFERSIZE && Stream(link) == s[len..] &&
              buffer[..] == Received(s[..len], old(buffer[..])) &&
              (len == end <==> Prompt(old(link), limit, limit, end))
    {
      hide FrameEnd, Stream, Received, Stops, Wait, Prompt;
      len := 0;
      var timeout := limit;
      ghost var s, before := Stream(link), buffer[..];
      ghost var end := FrameEnd(s, 0, maxlen, check);
      NothingReceived(s, before);
      while link.up && timeout >= 0
        invariant Valid() && len <= end <= |s| && len < maxlen
        invariant Stream(link) == s[len..] && buffer[..] == Received(s[..len], before)
        invariant FrameEnd(s, len, maxlen, check) == end
        invariant Prompt(link, timeout, limit, end - len) <==> Prompt(old(link), limit, limit, end)
        decreases |link.later| + |Stream(link)|, timeout
      {
        var first := len;
        ghost var l, left := link, timeout;
        TailLength(s, len);
        var done;
        len, done := ReadAvailable(len, maxlen, check, s, before);
        PromptStep(l, left, limit, end - first, len - first);
        if done {
          return;
        }
        if len > first {
          timeout := limit;
        }
        TailLength(s, len);
        timeout := timeout - READINTERVAL;
        WaitShrinks(link);
        link := Wait(link);
      }
      PromptEnds(link, timeout, limit, end - len);
    }

    ghost function Subscribers(): set<Subscription>
      reads this, subscriptions
    {
      set i | 0 <= i < subscriptions.Length && subscriptions[i] != null :: subscriptions[i]
    }

    method FindSlot() returns (i: nat)
      requires Valid()
      requires forall j :: 0 <= j < MAXSUBSCRIPTIONS && subscriptions[j] != null ==>
                           4 + |subscriptions[j].topic| <= MAXBUFFERSIZE
      ensures i == FirstSlot(subscriptions[..], buffer[..], 0)
    {
      i := 0;
      while i < MAXSUBSCRIPTIONS
        invariant 0 <= i <= MAXSUBSCRIPTIONS
        invariant FirstSlot(subscriptions[..], buffer[..], 0) == FirstSlot(subscriptions[..], buffer[..], i)
      {
        var sub := subscriptions[i];
        if sub != null && |sub.topic| == buffer[3] && EqualFold(buffer[4..4 + |sub.topic|], sub.topic) {
          return;
        }
        i := i + 1;
      }
    }

    /** Reads one frame and stores its payload in the first matching subscription, and nowhere else. */
    method ReadSubscription(limit: int) returns (sub: Subscription?, ghost len: nat)
      requires Valid() && InReach(subscriptions[..], link, limit)
      modifies this`link, buffer, Subscribers()
      ensures Valid()
      ensures var s := old(Stream(link));
              var end := FrameEnd(s, 0, MAXBUFFERSIZE, true);
              len <= end && len <= MAXBUFFERSIZE && Stream(link) == s[len..] &&
              buffer[..] == Received(s[..len], old(buffer[..])) &&
              (len == end <==> Prompt(old(link), limit, limit, end))
      ensures var k := FirstSlot(subscriptions[..], buffer[..], 0);
              sub == if len == 0 || k == MAXSUBSCRIPTIONS then null else subscriptions[k]
      ensures sub != null ==>
                var n := PayloadLength(len, |sub.topic|);
                4 + |sub.topic| + n <= MAXBUFFERSIZE && n <= SUBSCRIPTIONDATALEN && sub.datalen == n &&
                sub.lastread == Payload(buffer[..], |sub.topic|, n) + Zeros(SUBSCRIPTIONDATALEN - n)
      ensures len > 0 ==>
                var k := FirstSlot(subscriptions[..], buffer[..], 0);
                DeliverOne(subscriptions[..], buffer[..], len) ==
                Delivery(k, if sub == null then [] else sub.lastread[..sub.datalen])
      ensures forall other :: other in Subscribers() && other != sub ==>
                              other.lastread == old(other.lastread) && other.datalen == old(other.datalen)
    {
      hide Prompt, Stream, FrameEnd, Received, EqualFold, FirstSlot, Complete, Parse, DeliverOne;
      ghost var l, before := link, buffer[..];
      var n := ReadPacket(MAXBUFFERSIZE, limit, true);
      len := n;
      if n == 0 {
        return null, len;
      }
      var i := FindSlot();
      if i == MAXSUBSCRIPTIONS {
        NotDelivered(subscriptions[..], buffer[..], n);
        return null, len;
      }
      sub := subscriptions[i];
      PayloadInReach(subscriptions[..], l, limit, before, n, i);
      var topiclen, datalen := buffer[3], (n - buffer[3] - 4) % 256;
      if datalen > SUBSCRIPTIONDATALEN {
        datalen := SUBSCRIPTIONDATALEN - 1;
      }
      sub.lastread := buffer[4 + topiclen..4 + topiclen + datalen] + Zeros(SUBSCRIPTIONDATALEN - datalen);
      sub.datalen := datalen;
      StoredIs(subscriptions[..], buffer[..], n, topiclen, datalen, sub.lastread, Zeros(SUBSCRIPTIONDATALEN - datalen));
    }
  }
}
