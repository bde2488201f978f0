/**
 A client and a server session joined by a byte pipe each way, from the first byte of the handshake:
 every schedule of offered messages, partial writes, reads, pings and departures is one run.
 */
module Link {
  import opened Bytes
  import opened Frames
  import opened FrameReader
  import opened FrameStream
  import opened Resumable
  import opened Session
  import opened SessionStream
  import opened Outbox
  import Handshake
  import Base64
  import Utf8

  // ---- The system ----

  /** `seen` is what the session was given before this end left; `offered` every text it was asked to send. */
  datatype Node = Node(
    core: Core,
    box: Outbox,
    arrived: nat,
    seen: bytes,
    events: seq<SessionEvent>,
    offered: seq<bytes>,
    shut: bool)

  datatype Link = Link(client: Node, server: Node)

  /** The two configurations; one message bound, and each end's queue bound. */
  datatype Ends = Ends(client: Options, server: Options, nonce: bytes, queueBound: nat)

  datatype Action =
    | Offer(text: bytes)
    | Service(script: seq<Write>)
    | Deliver(count: nat)
    | SendPing(payload: bytes)
    | Leave

  datatype Move = Move(side: Side, action: Action)

  ghost predicate Compatible(e: Ends) {
    && e.client.side.Client? && e.server.side.Server?
    && e.client.path == e.server.path && e.client.sha1 == e.server.sha1
    && e.client.maxMessageBytes == e.server.maxMessageBytes < SIZE_T
    && e.client.maxMessageBytes < 0x8000_0000_0000_0000
    && e.client.clientKey == Base64.Encoded(e.nonce)
    && Handshake.IsRequestable(e.client.host, e.client.path, e.nonce)
    && Handshake.IsOctets(e.client.host) && Handshake.IsOctets(e.client.path)
    && |Request(e.client)| <= 8192
    && |e.client.sha1(e.client.clientKey + Handshake.ACCEPT_GUID)| == 20
  }

  function InitNode(o: Options): Node {
    Node(START, Outbox(if o.side.Client? then Request(o) else [], 0, [], 0, 0, [], []), 0, [], [], [], false)
  }

  function Init(e: Ends): Link {
    Link(InitNode(e.client), InitNode(e.server))
  }

  /** What a frame sender lets through: encoded text within the message bound. */
  predicate Sendable(o: Options, text: bytes) {
    Utf8.Valid(text) && |text| <= o.maxMessageBytes
  }

  /** Up to `count` of the bytes the peer's socket has taken and this end has not yet read. */
  function Chunk(n: Node, peer: Node, count: nat): bytes {
    if n.arrived >= |peer.box.taken| then []
    else
      var end := if n.arrived + count <= |peer.box.taken| then n.arrived + count else |peer.box.taken|;
      peer.box.taken[n.arrived..end]
  }

  ghost function Received(o: Options, n: Node, chunk: bytes): Node {
    var run := Drained(o, Receive(n.core, chunk));
    var k := |n.core.owed|;
    var owed := if k <= |run.state.owed| then run.state.owed[k..] else [];
    n.(core := run.state,
       box := n.box.(outbound := n.box.outbound + Printed(o, owed, n.box.drawn), drawn := n.box.drawn + Draws(o, owed)),
       arrived := n.arrived + |chunk|,
       seen := n.seen + chunk,
       events := n.events + run.events)
  }

  ghost function Act(o: Options, bound: nat, n: Node, peer: Node, a: Action): Node {
    match a
    case Offer(text) =>
      if n.core.phase.Open? && Sendable(o, text)
      then n.(box := Enqueued(n.box, Bound(bound), text), offered := n.offered + [text])
      else n
    case Service(script) => n.(box := Flushed(o, n.box, n.core.phase.Open?, script))
    case Deliver(count) =>
      var chunk := Chunk(n, peer, count);
      if n.shut then n.(arrived := n.arrived + |chunk|) else Received(o, n, chunk)
    case SendPing(payload) =>
      if n.core.phase.Open? && |payload| <= 125 then n.(box := Sending(o, n.box, Ping, payload)) else n
    case Leave =>
      n.(core := End(n.core),
         box := if n.core.phase.Open? then Sending(o, n.box, Close, ClosePayload(1001)) else n.box,
         shut := true)
  }

  ghost function Moved(e: Ends, l: Link, m: Move): Link {
    match m.side
    case Client => l.(client := Act(e.client, e.queueBound, l.client, l.server, m.action))
    case Server => l.(server := Act(e.server, e.queueBound, l.server, l.client, m.action))
  }

  /** The state after a schedule. */
  ghost function After(e: Ends, schedule: seq<Move>): Link {
    if schedule == [] then Init(e)
    else Moved(e, After(e, schedule[..|schedule| - 1]), schedule[|schedule| - 1])
  }

  // ---- Everything an end has printed ----

  datatype Item = HeadItem(head: bytes) | FrameItem(frame: Frame)

  function Rendered(items: seq<Item>): bytes {
    if items == [] then []
    else (if items[0].HeadItem? then items[0].head else Encode(items[0].frame)) + Rendered(items[1..])
  }

  /** The frames among the items, and the texts of those that carry a message. */
  function FramesOf(items: seq<Item>): seq<Frame> {
    if items == [] then []
    else (if items[0].FrameItem? then [items[0].frame] else []) + FramesOf(items[1..])
  }

  function TextsOf(frames: seq<Frame>): seq<bytes> {
    if frames == [] then []
    else (if frames[0].opcode.Text? then [frames[0].payload] else []) + TextsOf(frames[1..])
  }

  lemma {:induction false} RenderedAppend(a: seq<Item>, b: seq<Item>)
    ensures Rendered(a + b) == Rendered(a) + Rendered(b)
  {
    hide Encode;
    if a == [] {
      assert a + b == b;
    } else {
      assert (a + b)[1..] == a[1..] + b;
      RenderedAppend(a[1..], b);
    }
  }

  lemma {:induction false} FramesOfAppend(a: seq<Item>, b: seq<Item>)
    ensures FramesOf(a + b) == FramesOf(a) + FramesOf(b)
  {
    if a == [] {
      assert a + b == b;
    } else {
      assert (a + b)[1..] == a[1..] + b;
      FramesOfAppend(a[1..], b);
      var first := if a[0].FrameItem? then [a[0].frame] else [];
      assert first + (FramesOf(a[1..]) + FramesOf(b)) == (first + FramesOf(a[1..])) + FramesOf(b);
    }
  }

  lemma {:induction false} TextsAppend(a: seq<Frame>, b: seq<Frame>)
    ensures TextsOf(a + b) == TextsOf(a) + TextsOf(b)
  {
    if a == [] {
      assert a + b == b;
    } else {
      assert (a + b)[1..] == a[1..] + b;
      TextsAppend(a[1..], b);
    }
  }

  /** What replies print, as items. */
  function ItemsOf(o: Options, replies: seq<Reply>, drawn: nat): seq<Item> {
    if replies == [] then []
    else
      [match replies[0]
       case HeadReply(head) => HeadItem(head)
       case FrameReply(op, payload) => FrameItem(FrameFor(o, op, payload, drawn))]
      + ItemsOf(o, replies[1..], if DrawsMask(o, replies[0]) then drawn + 1 else drawn)
  }

  lemma {:induction false} ItemsPrint(o: Options, replies: seq<Reply>, drawn: nat)
    ensures Rendered(ItemsOf(o, replies, drawn)) == Printed(o, replies, drawn)
  {
    hide Encode;
    if replies != [] {
      var next := if DrawsMask(o, replies[0]) then drawn + 1 else drawn;
      ItemsPrint(o, replies[1..], next);
      assert ItemsOf(o, replies, drawn)[1..] == ItemsOf(o, replies[1..], next);
    }
  }

  // ---- What a conforming end prints ----

  /** A frame that the other end, configured as `cfg`, takes without a fault. */
  ghost predicate GoodFrame(cfg: Config, f: Frame) {
    && f.fin && Printable(f) && f.mask.Some? == cfg.expectMasked
    && (f.opcode.Text? || f.opcode.Ping? || f.opcode.Pong? || f.opcode.Close?)
    && (f.opcode.Text? ==> Utf8.Valid(f.payload) && |f.payload| <= cfg.maxMessageBytes)
    && (f.opcode.Close? ==> ReadClose(f.payload).Reads?)
  }

  ghost predicate GoodFrames(cfg: Config, frames: seq<Frame>) {
    forall f :: f in frames ==> GoodFrame(cfg, f)
  }

  lemma {:induction false} GoodConforms(cfg: Config, frames: seq<Frame>)
    requires GoodFrames(cfg, frames)
    ensures Conforming(cfg, frames, None)
  {
    hide Utf8.Valid, ReadClose, CloseSaid;
    if frames != [] {
      assert frames[0] in frames;
      CloseIsRead(frames[0].payload, 0);
      GoodConforms(cfg, frames[1..]);
      assert [] + frames[0].payload == frames[0].payload;
    }
  }

  /** The texts among session events. */
  function Messages(events: seq<SessionEvent>): seq<bytes> {
    if events == [] then []
    else (if events[0].TextMessage? then [events[0].text] else []) + Messages(events[1..])
  }

  /** Nothing in the events speaks of a refused handshake or a framing fault. */
  predicate Peaceful(events: seq<SessionEvent>) {
    forall e :: e in events ==> !e.Refused? && !e.SessionFault?
  }

  ghost predicate HasClose(frames: seq<Frame>) {
    exists f :: f in frames && f.opcode.Close?
  }

  /** What the first frame of a good stream adds to what the rest gives. */
  lemma FirstFrameSays(cfg: Config, frames: seq<Frame>, at: nat)
    requires GoodFrames(cfg, frames) && frames != []
    ensures frames[0].opcode.Text? || frames[0].opcode.Ping? || frames[0].opcode.Pong? || frames[0].opcode.Close?
    ensures var f, said := frames[0], Given(Spelled(frames, at, None));
            var tail := Given(Spelled(frames[1..], at + |Encode(f)|, None));
            if f.opcode.Text? then said == [TextMessage(f.payload)] + tail
            else if f.opcode.Close? then |said| == 1 && said[0].Closed?
            else said == tail
  {
    hide Encode, Utf8.Valid, ReadClose, Printable, CloseSaid;
    var f, rest := frames[0], frames[1..];
    assert f in frames;
    var next := at + |Encode(f)|;
    if f.opcode.Text? {
      assert [] + f.payload == f.payload;
      assert Spelled(frames, at, None) == [Message(f.payload, at)] + Spelled(rest, next, None);
    } else if f.opcode.Close? {
      CloseIsRead(f.payload, at);
      assert Spelled(frames, at, None)[1..] == [];
    } else {
      assert Spelled(frames, at, None)[1..] == Spelled(rest, next, None);
    }
  }

  /** The events a good stream gives: its texts in order, up to a close frame, and no fault. */
  lemma {:induction false} GoodFramesSay(cfg: Config, frames: seq<Frame>, at: nat)
    requires GoodFrames(cfg, frames)
    ensures var said := Given(Spelled(frames, at, None));
            && Messages(said) <= TextsOf(frames) && Peaceful(said)
            && (!HasClose(frames) ==> Messages(said) == TextsOf(frames))
  {
    hide Encode, Spelled, Given, GoodFrame;
    if frames != [] {
      var f, rest := frames[0], frames[1..];
      var next := at + |Encode(f)|;
      FirstFrameSays(cfg, frames, at);
      GoodFramesSay(cfg, rest, next);
      assert HasClose(rest) ==> HasClose(frames);
      var tail := Given(Spelled(rest, next, None));
      if f.opcode.Text? {
        assert ([TextMessage(f.payload)] + tail)[1..] == tail;
      } else if f.opcode.Close? {
        assert f in frames;
        assert Given(Spelled(frames, at, None))[1..] == [];
      }
    } else {
      NothingSays(at);
    }
  }

  lemma NothingSays(at: nat)
    ensures Given(Spelled([], at, None)) == []
  {
  }

  // ---- What every schedule keeps ----

  /** The items after an end's head: good frames only. */
  ghost predicate GoodItems(cfg: Config, items: seq<Item>) {
    forall i :: i in items ==> i.FrameItem? && GoodFrame(cfg, i.frame)
  }

  /** An end that has printed anything printed its head first. */
  ghost predicate WellPrinted(hello: bytes, cfg: Config, items: seq<Item>) {
    items != [] ==> items[0] == HeadItem(hello) && GoodItems(cfg, items[1..])
  }

  ghost predicate RunsOn(o: Options, n: Node) {
    var run := Drained(o, Receive(START, n.seen));
    n.events == run.events && (if n.shut then n.core.phase.Ended? else n.core == run.state)
  }

  /** What one end is at any moment; `items` is all it has printed, `fates` what befell its texts. */
  ghost predicate NodeInv(o: Options, peer: Options, hello: bytes, n: Node, items: seq<Item>, fates: seq<bool>) {
    && RunsOn(o, n)
    && n.box.taken + n.box.outbound == Rendered(items)
    && WellPrinted(hello, ConfigOf(peer), items)
    && (o.side.Client? || (!n.shut && !n.core.phase.Handshaking?) ==> items != [])
    && (n.core.phase.Handshaking? && o.side.Server? ==> items == [])
    && n.box.started == TextsOf(FramesOf(items))
    && Accounted(n.box, n.offered, fates)
    && (forall t :: t in n.box.queue ==> Sendable(o, t))
    && (HasClose(FramesOf(items)) ==> n.core.phase.Ended?)
  }

  /** What an end has been given is the beginning of what its peer's socket took. */
  ghost predicate FedBy(n: Node, taken: bytes) {
    n.arrived <= |taken| && n.seen <= taken[..n.arrived] && (!n.shut ==> n.seen == taken[..n.arrived])
  }

  // ---- Printing frames of one's own ----

  lemma GoodItemsAppend(cfg: Config, a: seq<Item>, b: seq<Item>)
    requires GoodItems(cfg, a) && GoodItems(cfg, b)
    ensures GoodItems(cfg, a + b)
  {
  }

  /** The item one frame of the session's own prints. */
  lemma OwnFrame(o: Options, peer: Options, x: Outbox, op: Opcode, payload: bytes) returns (item: Item)
    requires o.side.Client? <==> peer.side.Server?
    requires GoodFrame(ConfigOf(peer), FrameFor(o, op, payload, x.drawn))
    ensures item == FrameItem(FrameFor(o, op, payload, x.drawn))
    ensures Rendered([item]) == Printed(o, [FrameReply(op, payload)], x.drawn)
    ensures FramesOf([item]) == [item.frame] && GoodItems(ConfigOf(peer), [item])
    ensures TextsOf([item.frame]) == if op.Text? then [payload] else []
  {
    hide Encode, GoodFrame;
    item := FrameItem(FrameFor(o, op, payload, x.drawn));
    ItemsPrint(o, [FrameReply(op, payload)], x.drawn);
    assert ItemsOf(o, [FrameReply(op, payload)], x.drawn) == [item];
    assert FramesOf([item]) == [item.frame];
    assert TextsOf([item.frame]) == if op.Text? then [payload] else [];
  }

  /** The part of `NodeInv` that speaks of what an end sends. */
  ghost predicate BoxInv(o: Options, peer: Options, hello: bytes, x: Outbox, items: seq<Item>,
                         offered: seq<bytes>, fates: seq<bool>)
  {
    && x.taken + x.outbound == Rendered(items)
    && WellPrinted(hello, ConfigOf(peer), items)
    && x.started == TextsOf(FramesOf(items))
    && Accounted(x, offered, fates)
    && forall t :: t in x.queue ==> Sendable(o, t)
  }

  /** Printing one good frame keeps the invariant, on an end that has printed its head. */
  lemma FrameKeepsBox(o: Options, peer: Options, hello: bytes, x: Outbox, items: seq<Item>, op: Opcode, payload: bytes)
    returns (items': seq<Item>)
    requires items != [] && WellPrinted(hello, ConfigOf(peer), items)
    requires x.taken + x.outbound == Rendered(items) && x.started == TextsOf(FramesOf(items))
    requires o.side.Client? <==> peer.side.Server?
    requires GoodFrame(ConfigOf(peer), FrameFor(o, op, payload, x.drawn))
    ensures var x' := Sending(o, x, op, payload);
            && x'.taken + x'.outbound == Rendered(items') && items' != []
            && WellPrinted(hello, ConfigOf(peer), items')
            && TextsOf(FramesOf(items')) == x.started + (if op.Text? then [payload] else [])
            && (HasClose(FramesOf(items')) ==> HasClose(FramesOf(items)) || op.Close?)
  {
    hide Encode, GoodFrame, Printed, Draws, FrameFor, Rendered, FramesOf, TextsOf, GoodItems, HasClose;
    var item := OwnFrame(o, peer, x, op, payload);
    items' := items + [item];
    RenderedAppend(items, [item]);
    FramesOfAppend(items, [item]);
    TextsAppend(FramesOf(items), [item.frame]);
    assert items'[1..] == items[1..] + [item];
    GoodItemsAppend(ConfigOf(peer), items[1..], [item]);
    OpcodeOfFrame(o, op, payload, x.drawn);
    CloseAmong(FramesOf(items), [item.frame]);
    OneClose(item.frame);
    var printed := Printed(o, [FrameReply(op, payload)], x.drawn);
    assert x.taken + (x.outbound + printed) == x.taken + x.outbound + printed;
  }

  lemma CloseAmong(a: seq<Frame>, b: seq<Frame>)
    ensures HasClose(a + b) ==> HasClose(a) || HasClose(b)
  {
  }

  lemma OneClose(f: Frame)
    ensures HasClose([f]) ==> f.opcode.Close?
  {
  }

  lemma OpcodeOfFrame(o: Options, op: Opcode, payload: bytes, drawn: nat)
    ensures FrameFor(o, op, payload, drawn).opcode == op
  {
  }

  lemma TextIsGood(o: Options, peer: Options, text: bytes, drawn: nat)
    requires o.side.Client? <==> peer.side.Server?
    requires o.maxMessageBytes == peer.maxMessageBytes < 0x8000_0000_0000_0000 && Sendable(o, text)
    ensures GoodFrame(ConfigOf(peer), FrameFor(o, Text, text, drawn))
  {
  }

  lemma {:induction false} FlushKeepsBox(o: Options, peer: Options, hello: bytes, x: Outbox, open: bool,
                                         script: seq<Write>, items: seq<Item>, offered: seq<bytes>, fates: seq<bool>)
    returns (items': seq<Item>, fates': seq<bool>)
    requires BoxInv(o, peer, hello, x, items, offered, fates) && (open ==> items != [])
    requires o.side.Client? <==> peer.side.Server?
    requires o.maxMessageBytes == peer.maxMessageBytes < 0x8000_0000_0000_0000
    ensures BoxInv(o, peer, hello, Flushed(o, x, open, script), items', offered, fates')
    ensures x.taken <= Flushed(o, x, open, script).taken
    ensures items != [] ==> items' != []
    ensures !open ==> items' == items
    ensures HasClose(FramesOf(items')) ==> HasClose(FramesOf(items))
    ensures fates <= fates'
    decreases |script| + |x.queue|
  {
    hide Printed, Draws, Sendable, GoodFrame, Rendered, TextsOf, FramesOf;
    items', fates' := items, fates;
    if x.outbound == [] {
      if open && x.queue != [] {
        var text := x.queue[0];
        assert text in x.queue;
        TextIsGood(o, peer, text, x.drawn);
        var more := FrameKeepsBox(o, peer, hello, x, items, Text, text);
        FrontConsumed(x, Started(o, x), offered, fates, true);
        items', fates' := FlushKeepsBox(o, peer, hello, Started(o, x), open, script, more, offered, fates + [true]);
      }
    } else if script != [] {
      var after := Taking(x, script[0].accepts);
      TakingMoves(x, script[0].accepts);
      if script[0].status.Ok? {
        items', fates' := FlushKeepsBox(o, peer, hello, after, open, script[1..], items, offered, fates);
      }
    }
  }

  lemma TakingMoves(x: Outbox, count: nat)
    ensures Taking(x, count).taken + Taking(x, count).outbound == x.taken + x.outbound
    ensures x.taken <= Taking(x, count).taken
  {
  }

  lemma {:induction false} EnqueueKeepsBox(o: Options, peer: Options, hello: bytes, x: Outbox, bound: nat, text: bytes,
                                           items: seq<Item>, offered: seq<bytes>, fates: seq<bool>)
    returns (fates': seq<bool>)
    requires BoxInv(o, peer, hello, x, items, offered, fates) && Sendable(o, text) && bound >= 1
    ensures BoxInv(o, peer, hello, Enqueued(x, bound, text), items, offered + [text], fates')
    ensures Enqueued(x, bound, text).taken == x.taken && fates <= fates'
  {
    hide Sendable, Rendered, TextsOf, FramesOf;
    fates' := EnqueueAccounts(x, bound, text, offered, fates);
    EnqueueTouchesTheQueue(x, bound, text);
  }

  lemma {:induction false} EnqueueTouchesTheQueue(x: Outbox, bound: nat, text: bytes)
    requires bound >= 1
    ensures var x' := Enqueued(x, bound, text);
            && x'.outbound == x.outbound && x'.taken == x.taken && x'.started == x.started
            && forall t :: t in x'.queue ==> t in x.queue || t == text
    decreases |x.queue|
  {
    if |x.queue| >= bound {
      EnqueueTouchesTheQueue(x.(queue := x.queue[1..], dropped := x.dropped + 1), bound, text);
    }
  }

  // ---- Replying ----

  lemma ReplyIsGood(o: Options, peer: Options, reply: Reply, drawn: nat)
    requires GoodReply(reply) && (o.side.Client? <==> peer.side.Server?)
    ensures reply.FrameReply? && !reply.opcode.Text?
    ensures GoodFrame(ConfigOf(peer), FrameFor(o, reply.opcode, reply.payload, drawn))
  {
    hide ReadClose;
  }

  lemma {:induction false} RepliesPrintGoodItems(o: Options, peer: Options, replies: seq<Reply>, drawn: nat)
    requires GoodReplies(replies) && (o.side.Client? <==> peer.side.Server?)
    ensures var items := ItemsOf(o, replies, drawn);
            && GoodItems(ConfigOf(peer), items) && TextsOf(FramesOf(items)) == []
            && (HasClose(FramesOf(items)) ==> OwesClose(replies))
  {
    hide Encode, ReadClose, GoodFrame, GoodReply;
    if replies != [] {
      assert replies[0] in replies;
      ReplyIsGood(o, peer, replies[0], drawn);
      var next := if DrawsMask(o, replies[0]) then drawn + 1 else drawn;
      RepliesPrintGoodItems(o, peer, replies[1..], next);
      var items := ItemsOf(o, replies, drawn);
      assert items[1..] == ItemsOf(o, replies[1..], next);
      assert items == [items[0]] + items[1..];
      assert FramesOf(items) == [items[0].frame] + FramesOf(items[1..]);
      assert FramesOf(items)[1..] == FramesOf(items[1..]);
      assert OwesClose(replies[1..]) ==> OwesClose(replies);
    }
  }

  /** Replies printed after the head keep what is said of an end's printing. */
  lemma RepliesKeepPrinting(o: Options, peer: Options, hello: bytes, x: Outbox, items: seq<Item>, replies: seq<Reply>)
    returns (items': seq<Item>)
    requires items != [] && WellPrinted(hello, ConfigOf(peer), items)
    requires x.taken + x.outbound == Rendered(items) && x.started == TextsOf(FramesOf(items))
    requires GoodReplies(replies) && (o.side.Client? <==> peer.side.Server?)
    ensures items' != [] && WellPrinted(hello, ConfigOf(peer), items')
    ensures x.taken + (x.outbound + Printed(o, replies, x.drawn)) == Rendered(items')
    ensures x.started == TextsOf(FramesOf(items'))
    ensures HasClose(FramesOf(items')) ==> HasClose(FramesOf(items)) || OwesClose(replies)
  {
    hide Encode, GoodFrame, Printed, GoodReplies, Rendered, FramesOf, TextsOf, GoodItems, HasClose, OwesClose, ItemsOf;
    RepliesPrintGoodItems(o, peer, replies, x.drawn);
    ItemsPrint(o, replies, x.drawn);
    var more := ItemsOf(o, replies, x.drawn);
    var printed := Printed(o, replies, x.drawn);
    items' := items + more;
    CloseAmong(FramesOf(items), FramesOf(more));
    assert x.taken + (x.outbound + printed) == x.taken + x.outbound + printed;
    RenderedAppend(items, more);
    FramesOfAppend(items, more);
    TextsAppend(FramesOf(items), FramesOf(more));
    assert items'[1..] == items[1..] + more;
    GoodItemsAppend(ConfigOf(peer), items[1..], more);
    assert x.started + [] == x.started;
  }

  /** The server's head, printed first of all. */
  lemma HeadKeepsPrinting(o: Options, peer: Options, hello: bytes, x: Outbox, replies: seq<Reply>)
    returns (items': seq<Item>)
    requires x.taken + x.outbound == [] && x.started == []
    requires replies != [] && replies[0] == HeadReply(hello) && GoodReplies(replies[1..])
    requires o.side.Client? <==> peer.side.Server?
    ensures items' != [] && WellPrinted(hello, ConfigOf(peer), items')
    ensures x.taken + (x.outbound + Printed(o, replies, x.drawn)) == Rendered(items')
    ensures x.started == TextsOf(FramesOf(items'))
    ensures HasClose(FramesOf(items')) ==> OwesClose(replies[1..])
  {
    hide Encode, GoodFrame, Printed, GoodReply;
    RepliesPrintGoodItems(o, peer, replies[1..], x.drawn);
    ItemsPrint(o, replies, x.drawn);
    items' := ItemsOf(o, replies, x.drawn);
    assert items'[0] == HeadItem(hello) && items'[1..] == ItemsOf(o, replies[1..], x.drawn);
    assert FramesOf(items') == [] + FramesOf(items'[1..]) == FramesOf(items'[1..]);
  }

  // ---- Every move keeps the invariant ----

  /** The two ends as each other sees them. */
  ghost predicate Paired(o: Options, peer: Options) {
    && (o.side.Client? <==> peer.side.Server?)
    && o.maxMessageBytes == peer.maxMessageBytes < 0x8000_0000_0000_0000
  }

  /** `hello` is what this end prints first, `theirs` what it is to hear first, `replies` its answer. */
  ghost predicate Introduced(o: Options, hello: bytes, theirs: bytes, replies: seq<Reply>) {
    && Greets(o, theirs, replies)
    && replies == if o.side.Server? then [HeadReply(hello)] else []
  }

  lemma ChunkExtends(n: Node, peer: Node, count: nat)
    requires FedBy(n, peer.box.taken)
    ensures var chunk := Chunk(n, peer, count);
            && n.arrived + |chunk| <= |peer.box.taken|
            && peer.box.taken[..n.arrived] + chunk == peer.box.taken[..n.arrived + |chunk|]
  {
  }

  lemma DeliverKeeps(o: Options, peer: Options, hello: bytes, theirs: bytes, replies: seq<Reply>,
                     n: Node, chunk: bytes, items: seq<Item>, fates: seq<bool>) returns (items': seq<Item>)
    requires Paired(o, peer) && Introduced(o, hello, theirs, replies)
    requires NodeInv(o, peer, hello, n, items, fates) && !n.shut
    requires n.seen + chunk <= theirs || theirs <= n.seen + chunk
    ensures NodeInv(o, peer, hello, Received(o, n, chunk), items', fates)
  {
    hide OpenNext, HandshakeNext, Printed, Draws, GoodReply, GoodFrame, Encode, Rendered, FramesOf, TextsOf, Sendable, Greets;
    ServingIsResumable(o);
    DeliveryOwes(o, theirs, replies, n.seen, chunk);
    var n' := Received(o, n, chunk);
    var c, c' := n.core, n'.core;
    var owed := c'.owed[|c.owed|..];
    items' := items;
    if c'.phase.Handshaking? {
      NothingPrinted(o, n.box);
    } else if c.phase.Handshaking? && o.side.Server? {
      assert n.box.taken + n.box.outbound == [] && n.box.started == [] by { NothingRendered(); }
      items' := HeadKeepsPrinting(o, peer, hello, n.box, owed);
    } else {
      items' := RepliesKeepPrinting(o, peer, hello, n.box, items, owed);
    }
  }

  lemma NothingPrinted(o: Options, x: Outbox)
    ensures Printed(o, [], x.drawn) == [] && Draws(o, []) == 0
  {
  }

  lemma NothingRendered()
    ensures Rendered([]) == [] && FramesOf([]) == [] && TextsOf([]) == []
  {
  }

  /** An open end's own control frame, and its departure, keep the invariant. */
  lemma ControlKeeps(o: Options, peer: Options, hello: bytes, n: Node, items: seq<Item>, fates: seq<bool>,
                     op: Opcode, payload: bytes) returns (items': seq<Item>)
    requires Paired(o, peer) && NodeInv(o, peer, hello, n, items, fates) && n.core.phase.Open?
    requires (op.Ping? && |payload| <= 125) || (op.Close? && payload == ClosePayload(1001))
    ensures var left := n.(core := End(n.core), box := Sending(o, n.box, op, payload), shut := true);
            var stayed := n.(box := Sending(o, n.box, op, payload));
            NodeInv(o, peer, hello, if op.Close? then left else stayed, items', fates)
  {
    ControlIsGood(o, peer, op, payload, n.box.drawn);
    hide OpenNext, HandshakeNext, Printed, Draws, GoodFrame, Encode, Rendered, FramesOf, TextsOf, Sendable, FrameFor;
    items' := FrameKeepsBox(o, peer, hello, n.box, items, op, payload);
    assert n.box.started + [] == n.box.started;
  }

  lemma ControlIsGood(o: Options, peer: Options, op: Opcode, payload: bytes, drawn: nat)
    requires o.side.Client? <==> peer.side.Server?
    requires (op.Ping? && |payload| <= 125) || (op.Close? && payload == ClosePayload(1001))
    ensures GoodFrame(ConfigOf(peer), FrameFor(o, op, payload, drawn))
  {
    ClosePayloadReads(1001);
  }

  /** Whatever one end does, what is said of it stays true. */
  lemma ActKeeps(o: Options, peer: Options, hello: bytes, theirs: bytes, replies: seq<Reply>, bound: nat,
                 n: Node, p: Node, items: seq<Item>, fates: seq<bool>, a: Action)
    returns (items': seq<Item>, fates': seq<bool>)
    requires Paired(o, peer) && Introduced(o, hello, theirs, replies)
    requires NodeInv(o, peer, hello, n, items, fates) && FedBy(n, p.box.taken)
    requires p.box.taken <= theirs || theirs <= p.box.taken
    ensures var n' := Act(o, bound, n, p, a);
            && NodeInv(o, peer, hello, n', items', fates') && FedBy(n', p.box.taken)
            && n.box.taken <= n'.box.taken && n.events <= n'.events
            && n.offered <= n'.offered && fates <= fates'
  {
    hide OpenNext, HandshakeNext, Printed, Draws, GoodFrame, Encode, Rendered, FramesOf, TextsOf, Sendable, Greets;
    items', fates' := items, fates;
    match a {
      case Offer(text) =>
        if n.core.phase.Open? && Sendable(o, text) {
          fates' := EnqueueKeepsBox(o, peer, hello, n.box, Bound(bound), text, items, n.offered, fates);
        }
      case Service(script) =>
        items', fates' := FlushKeepsBox(o, peer, hello, n.box, n.core.phase.Open?, script, items, n.offered, fates);
      case Deliver(count) =>
        ChunkExtends(n, p, count);
        if !n.shut {
          var chunk := Chunk(n, p, count);
          Comparable(n.seen + chunk, p.box.taken, theirs);
          items' := DeliverKeeps(o, peer, hello, theirs, replies, n, chunk, items, fates);
        }
      case SendPing(payload) =>
        if n.core.phase.Open? && |payload| <= 125 {
          items' := ControlKeeps(o, peer, hello, n, items, fates, Ping, payload);
        }
      case Leave =>
        if n.core.phase.Open? {
          items' := ControlKeeps(o, peer, hello, n, items, fates, Close, ClosePayload(1001));
        }
    }
  }

  // ---- Every reachable state ----

  function ServerHello(e: Ends): bytes {
    Response(e.server, e.client.clientKey)
  }

  ghost predicate LinkInv(e: Ends, l: Link, up: seq<Item>, down: seq<Item>, upFates: seq<bool>, downFates: seq<bool>) {
    && NodeInv(e.client, e.server, Request(e.client), l.client, up, upFates)
    && NodeInv(e.server, e.client, ServerHello(e), l.server, down, downFates)
    && FedBy(l.client, l.server.box.taken) && FedBy(l.server, l.client.box.taken)
  }

  lemma Introductions(e: Ends)
    requires Compatible(e)
    ensures Introduced(e.client, Request(e.client), ServerHello(e), [])
    ensures Introduced(e.server, ServerHello(e), Request(e.client), [HeadReply(ServerHello(e))])
    ensures Paired(e.client, e.server) && Paired(e.server, e.client)
    ensures e.client.side.Client? && e.server.side.Server?
  {
    hide Greets, Request, Handshake.WriteUpgradeResponse;
    ClientGreets(e.client);
    ServerGreets(e.server, e.client, e.nonce);
  }

  /** What a socket has taken begins with the end's head, as far as it goes. */
  lemma TakenBegins(o: Options, peer: Options, hello: bytes, n: Node, items: seq<Item>, fates: seq<bool>)
    requires NodeInv(o, peer, hello, n, items, fates)
    ensures n.box.taken <= hello || hello <= n.box.taken
  {
    hide RunsOn, Accounted, TextsOf, FramesOf, Sendable;
    if items != [] {
      assert Rendered(items) == hello + Rendered(items[1..]);
      Comparable(n.box.taken, Rendered(items), hello);
    }
  }

  lemma FedByGrows(n: Node, taken: bytes, more: bytes)
    requires FedBy(n, taken) && taken <= more
    ensures FedBy(n, more)
  {
    assert more[..n.arrived] == taken[..n.arrived];
  }

  /** What was offered, decided and heard at an end stays so. */
  predicate Extends(n: Node, n': Node, fates: seq<bool>, fates': seq<bool>) {
    n.offered <= n'.offered && fates <= fates' && n.events <= n'.events
  }

  /** Each move of either end keeps the invariant, and undoes nothing that was offered, decided or heard. */
  lemma MoveKeeps(e: Ends, l: Link, m: Move, up: seq<Item>, down: seq<Item>, upFates: seq<bool>, downFates: seq<bool>)
    returns (up': seq<Item>, down': seq<Item>, upFates': seq<bool>, downFates': seq<bool>)
    requires Compatible(e) && LinkInv(e, l, up, down, upFates, downFates)
    ensures LinkInv(e, Moved(e, l, m), up', down', upFates', downFates')
    ensures Extends(l.client, Moved(e, l, m).client, upFates, upFates')
    ensures Extends(l.server, Moved(e, l, m).server, downFates, downFates')
  {
    hide NodeInv, Act, FedBy, Introduced, Paired, Compatible, Request, ServerHello;
    Introductions(e);
    up', down', upFates', downFates' := up, down, upFates, downFates;
    var q := e.queueBound;
    if m.side.Client? {
      TakenBegins(e.server, e.client, ServerHello(e), l.server, down, downFates);
      up', upFates' := ActKeeps(e.client, e.server, Request(e.client), ServerHello(e), [], q,
                                l.client, l.server, up, upFates, m.action);
      FedByGrows(l.server, l.client.box.taken, Moved(e, l, m).client.box.taken);
    } else {
      TakenBegins(e.client, e.server, Request(e.client), l.client, up, upFates);
      down', downFates' := ActKeeps(e.server, e.client, ServerHello(e), Request(e.client), [HeadReply(ServerHello(e))], q,
                                    l.server, l.client, down, downFates, m.action);
      FedByGrows(l.client, l.server.box.taken, Moved(e, l, m).server.box.taken);
    }
  }

  lemma InitRuns(o: Options, theirs: bytes, replies: seq<Reply>)
    requires Greets(o, theirs, replies) && theirs != []
    ensures RunsOn(o, InitNode(o))
  {
    hide HandshakeNext, OpenNext, Request, Greets, Serving;
    NothingYet(o, theirs, replies);
  }

  lemma InitNodeKeeps(o: Options, peer: Options, hello: bytes, theirs: bytes, replies: seq<Reply>)
    requires Greets(o, theirs, replies) && theirs != []
    requires o.side.Client? ==> hello == Request(o)
    ensures NodeInv(o, peer, hello, InitNode(o), if o.side.Client? then [HeadItem(hello)] else [], [])
  {
    hide HandshakeNext, OpenNext, Request, Greets, Rendered, FramesOf, TextsOf, RunsOn, Serving;
    InitRuns(o, theirs, replies);
    NothingRendered();
    HeadRendered(hello);
    assert [HeadItem(hello)][1..] == [];
  }

  lemma HeadRendered(hello: bytes)
    ensures Rendered([HeadItem(hello)]) == hello && FramesOf([HeadItem(hello)]) == []
  {
    assert hello + [] == hello;
  }

  lemma InitKeeps(e: Ends)
    requires Compatible(e)
    ensures LinkInv(e, Init(e), [HeadItem(Request(e.client))], [], [], [])
  {
    hide NodeInv, Request, ServerHello, Greets;
    Introductions(e);
    HelloIsLong(e);
    InitNodeKeeps(e.client, e.server, Request(e.client), ServerHello(e), []);
    InitNodeKeeps(e.server, e.client, ServerHello(e), Request(e.client), [HeadReply(ServerHello(e))]);
  }

  lemma HelloIsLong(e: Ends)
    requires Compatible(e)
    ensures |Request(e.client)| >= 4 && |ServerHello(e)| >= 4
  {
    hide Handshake.FindHeadEnd, Handshake.WriteUpgradeRequest, Handshake.WriteUpgradeResponse;
    Handshake.RequestHeadEnd(e.client.host, e.client.path, e.nonce, []);
    Handshake.ResponseHeadEnd(e.server.sha1, e.client.clientKey, []);
  }

  lemma NothingYet(o: Options, theirs: bytes, replies: seq<Reply>)
    requires Greets(o, theirs, replies) && theirs != []
    ensures Drained(o, Receive(START, [])) == Run(START, [])
  {
    hide HandshakeNext, OpenNext;
    ServingIsResumable(o);
    assert GreetsAt(o, theirs, replies, []);
  }

  lemma {:induction false} ReachableKeeps(e: Ends, schedule: seq<Move>)
    returns (up: seq<Item>, down: seq<Item>, upFates: seq<bool>, downFates: seq<bool>)
    requires Compatible(e)
    ensures LinkInv(e, After(e, schedule), up, down, upFates, downFates)
  {
    hide LinkInv, Compatible, Moved, Init;
    if schedule == [] {
      InitKeeps(e);
      up, down, upFates, downFates := [HeadItem(Request(e.client))], [], [], [];
    } else {
      var before, last := schedule[..|schedule| - 1], schedule[|schedule| - 1];
      up, down, upFates, downFates := ReachableKeeps(e, before);
      up, down, upFates, downFates := MoveKeeps(e, After(e, before), last, up, down, upFates, downFates);
    }
  }

  /** From any reachable state on, however the schedule goes on, nothing is undone. */
  lemma {:induction false} GoesOnFrom(e: Ends, schedule: seq<Move>, longer: seq<Move>,
                                      up: seq<Item>, down: seq<Item>, upFates: seq<bool>, downFates: seq<bool>)
    returns (up': seq<Item>, down': seq<Item>, upFates': seq<bool>, downFates': seq<bool>)
    requires Compatible(e) && schedule <= longer && LinkInv(e, After(e, schedule), up, down, upFates, downFates)
    ensures LinkInv(e, After(e, longer), up', down', upFates', downFates')
    ensures Extends(After(e, schedule).client, After(e, longer).client, upFates, upFates')
    ensures Extends(After(e, schedule).server, After(e, longer).server, downFates, downFates')
    decreases |longer|
  {
    hide LinkInv, Compatible, Moved, Init;
    up', down', upFates', downFates' := up, down, upFates, downFates;
    if |schedule| < |longer| {
      var before, last := longer[..|longer| - 1], longer[|longer| - 1];
      up', down', upFates', downFates' := GoesOnFrom(e, schedule, before, up, down, upFates, downFates);
      up', down', upFates', downFates' := MoveKeeps(e, After(e, before), last, up', down', upFates', downFates');
    } else {
      assert schedule == longer;
    }
  }

  // ---- What each end has heard ----

  lemma {:induction false} RenderedFrames(cfg: Config, items: seq<Item>)
    requires GoodItems(cfg, items)
    ensures Rendered(items) == EncodeAll(FramesOf(items)) && GoodFrames(cfg, FramesOf(items))
  {
    hide Encode, GoodFrame;
    if items != [] {
      assert items[0] in items;
      RenderedFrames(cfg, items[1..]);
      assert FramesOf(items)[1..] == FramesOf(items[1..]);
    }
  }

  lemma {:induction false} MessagesOfPrefix(a: seq<SessionEvent>, b: seq<SessionEvent>)
    requires a <= b
    ensures Messages(a) <= Messages(b)
    ensures Peaceful(b) ==> Peaceful(a)
  {
    if a != [] {
      MessagesOfPrefix(a[1..], b[1..]);
    }
    assert forall e :: e in a ==> e in b;
  }

  /** What a session would make of all that its peer has printed. */
  lemma PrintedSpeaks(o: Options, theirs: bytes, replies: seq<Reply>, items: seq<Item>)
    requires Greets(o, theirs, replies) && o.maxMessageBytes < SIZE_T
    requires items != [] && WellPrinted(theirs, ConfigOf(o), items)
    ensures var said := Drained(o, Receive(START, Rendered(items))).events;
            && said != [] && said[0] == Opened && Peaceful(said)
            && Messages(said) <= TextsOf(FramesOf(items))
            && (!HasClose(FramesOf(items)) ==> Messages(said) == TextsOf(FramesOf(items)))
  {
    hide HandshakeNext, OpenNext, Greets, Encode, GoodFrame, NextOf, Given, Spelled, EncodeAll, TextsOf, Conforming;
    var frames := FramesOf(items[1..]);
    RenderedFrames(ConfigOf(o), items[1..]);
    assert Rendered(items) == theirs + EncodeAll(frames);
    assert FramesOf(items) == [] + frames == frames;
    GoodConforms(ConfigOf(o), frames);
    ConformingIsServed(o, theirs, replies, frames);
    GoodFramesSay(ConfigOf(o), frames, |theirs|);
    var said := [Opened] + Given(Spelled(frames, |theirs|, None));
    assert said[1..] == Given(Spelled(frames, |theirs|, None));
  }

  lemma SeenIsAPrefix(o: Options, seen: bytes, whole: bytes)
    requires seen <= whole
    ensures Drained(o, Receive(START, seen)).events <= Drained(o, Receive(START, whole)).events
  {
    hide NextCore, Receive;
    ServingIsResumable(o);
    PrefixOfStream(Serving(o), START, seen, whole[|seen|..]);
    assert seen + whole[|seen|..] == whole;
  }

  /** One end has heard, whole and in order, a beginning of what the other has started to send. */
  lemma EndHears(o: Options, peer: Options, hello: bytes, theirs: bytes, replies: seq<Reply>, n: Node, p: Node,
                 items: seq<Item>, fates: seq<bool>, pItems: seq<Item>, pFates: seq<bool>)
    requires Paired(o, peer) && Introduced(o, hello, theirs, replies) && theirs != []
    requires NodeInv(o, peer, hello, n, items, fates) && NodeInv(peer, o, theirs, p, pItems, pFates)
    requires FedBy(n, p.box.taken)
    ensures Messages(n.events) <= p.box.started && Peaceful(n.events)
    ensures (Delivered(n, p) && pItems != [] && !HasClose(FramesOf(pItems)))
            ==> (Messages(n.events) == p.box.started && n.events != [] && n.events[0] == Opened)
  {
    hide Drained, Receive, Greets, Sendable, Accounted, Rendered, FramesOf, TextsOf, Messages, Peaceful, HasClose, WellPrinted;
    var whole := Rendered(pItems);
    SeenIsPrinted(n, p, whole);
    if pItems == [] {
      NothingYet(o, theirs, replies);
      NothingRendered();
      NoEvents();
    } else {
      PrintedSpeaks(o, theirs, replies, pItems);
      SeenIsAPrefix(o, n.seen, whole);
      MessagesOfPrefix(n.events, Drained(o, Receive(START, whole)).events);
    }
  }

  /** Everything one end has printed has been read by the other, and neither has left. */
  predicate Delivered(n: Node, p: Node) {
    !n.shut && !p.shut && p.box.outbound == [] && n.arrived == |p.box.taken|
  }

  lemma SeenIsPrinted(n: Node, p: Node, whole: bytes)
    requires FedBy(n, p.box.taken) && p.box.taken + p.box.outbound == whole
    ensures n.seen <= whole
    ensures Delivered(n, p) ==> n.seen == whole
  {
  }

  lemma NoEvents()
    ensures Messages([]) == [] && Peaceful([])
  {
  }

  // ---- The theorem over every schedule ----

  /** What may be said of one end, given the other: it heard only what was started, and started only what was offered. */
  ghost predicate HearsFaithfully(n: Node, p: Node, pFates: seq<bool>) {
    && Messages(n.events) <= p.box.started
    && Peaceful(n.events)
    && Accounted(p.box, p.offered, pFates)
  }

  /**
   Whatever is offered, however the sockets cut reads and writes, whenever pings are sent, queues
   overflow and ends leave: each end hears a beginning of the messages the other started, whole and in
   order; neither handshake is refused and no framing fault occurs; and each end's offered messages
   are exactly those it started, those it dropped before starting and those still queued.
   */
  lemma EveryScheduleIsFaithful(e: Ends, schedule: seq<Move>) returns (upFates: seq<bool>, downFates: seq<bool>)
    requires Compatible(e)
    ensures var l := After(e, schedule);
            HearsFaithfully(l.server, l.client, upFates) && HearsFaithfully(l.client, l.server, downFates)
  {
    hide Compatible, NodeInv, After, Introduced, FedBy, Request, ServerHello;
    var l := After(e, schedule);
    var up, down, us, ds := ReachableKeeps(e, schedule);
    upFates, downFates := us, ds;
    Introductions(e);
    HelloIsLong(e);
    EndHears(e.server, e.client, ServerHello(e), Request(e.client), [HeadReply(ServerHello(e))],
             l.server, l.client, down, ds, up, us);
    EndHears(e.client, e.server, Request(e.client), ServerHello(e), [], l.client, l.server, up, us, down, ds);
    BooksBalance(e.client, e.server, Request(e.client), l.client, up, us);
    BooksBalance(e.server, e.client, ServerHello(e), l.server, down, ds);
  }

  /**
   However a schedule goes on, what came of a text is final: the texts offered, each decided one's fate, the
   texts started and the events heard only extend.
   */
  lemma FatesAreFinal(e: Ends, schedule: seq<Move>, longer: seq<Move>)
    returns (up: seq<bool>, down: seq<bool>, up': seq<bool>, down': seq<bool>)
    requires Compatible(e) && schedule <= longer
    ensures var l, l' := After(e, schedule), After(e, longer);
            && Accounted(l.client.box, l.client.offered, up) && Accounted(l'.client.box, l'.client.offered, up')
            && Accounted(l.server.box, l.server.offered, down) && Accounted(l'.server.box, l'.server.offered, down')
            && Extends(l.client, l'.client, up, up') && Extends(l.server, l'.server, down, down')
            && l.client.box.started <= l'.client.box.started && l.server.box.started <= l'.server.box.started
  {
    hide Compatible, NodeInv, After, FedBy, Request, ServerHello, Accounted;
    var l, l' := After(e, schedule), After(e, longer);
    var a, b, us, ds := ReachableKeeps(e, schedule);
    var a', b', us', ds' := GoesOnFrom(e, schedule, longer, a, b, us, ds);
    up, down, up', down' := us, ds, us', ds';
    BooksBalance(e.client, e.server, Request(e.client), l.client, a, us);
    BooksBalance(e.server, e.client, ServerHello(e), l.server, b, ds);
    BooksBalance(e.client, e.server, Request(e.client), l'.client, a', us');
    BooksBalance(e.server, e.client, ServerHello(e), l'.server, b', ds');
    StartedGrows(l.client.box, l'.client.box, l.client.offered, l'.client.offered, us, us');
    StartedGrows(l.server.box, l'.server.box, l.server.offered, l'.server.offered, ds, ds');
  }

  lemma BooksBalance(o: Options, peer: Options, hello: bytes, n: Node, items: seq<Item>, fates: seq<bool>)
    requires NodeInv(o, peer, hello, n, items, fates)
    ensures Accounted(n.box, n.offered, fates)
    ensures !n.core.phase.Ended? ==> !HasClose(FramesOf(items))
    ensures o.side.Client? || (!n.shut && !n.core.phase.Handshaking?) ==> items != []
  {
  }

  /**
   Once everything printed has been read and neither end is over, both are open and each has heard
   exactly the messages the other started.
   */
  lemma DeliveredIsHeard(e: Ends, schedule: seq<Move>)
    requires Compatible(e)
    requires var l := After(e, schedule);
             && Delivered(l.server, l.client) && Delivered(l.client, l.server)
             && !l.client.core.phase.Ended? && !l.server.core.phase.Ended?
    ensures var l := After(e, schedule);
            && l.client.core.phase.Open? && l.server.core.phase.Open?
            && Messages(l.server.events) == l.client.box.started
            && Messages(l.client.events) == l.server.box.started
  {
    hide Compatible, NodeInv, After, Introduced, FedBy, Request, ServerHello, Messages, HasClose, FramesOf;
    var l := After(e, schedule);
    var up, down, us, ds := ReachableKeeps(e, schedule);
    Introductions(e);
    HelloIsLong(e);
    BooksBalance(e.client, e.server, Request(e.client), l.client, up, us);
    BooksBalance(e.server, e.client, ServerHello(e), l.server, down, ds);
    EndHears(e.server, e.client, ServerHello(e), Request(e.client), [HeadReply(ServerHello(e))],
             l.server, l.client, down, ds, up, us);
    OpenedIsOpen(e.server, e.client, ServerHello(e), l.server, down, ds);
    EndHears(e.client, e.server, Request(e.client), ServerHello(e), [], l.client, l.server, up, us, down, ds);
    OpenedIsOpen(e.client, e.server, Request(e.client), l.client, up, us);
  }

  /** A session that gave its opening event is past the handshake. */
  lemma OpenedIsOpen(o: Options, peer: Options, hello: bytes, n: Node, items: seq<Item>, fates: seq<bool>)
    requires NodeInv(o, peer, hello, n, items, fates) && !n.shut && n.events != []
    ensures !n.core.phase.Handshaking?
  {
    hide HandshakeNext, OpenNext;
    ServingIsResumable(o);
    EventsOpen(o, Receive(START, n.seen));
  }

  lemma EventsOpen(o: Options, c: Core)
    requires Drained(o, c).events != [] && c.phase.Handshaking?
    ensures !Drained(o, c).state.phase.Handshaking?
  {
    hide OpenNext, GoodReply;
    ServingIsResumable(o);
    var step := Serving(o).next(c);
    assert !step.state.phase.Handshaking?;
    DrainOwesFrames(o, step.state);
  }
}
