/**
 Nothing gets stuck: as long as nobody leaves, neither end of a link is ever over, and wherever a schedule
 has got to, the sockets have only to go on for everything queued to be heard.
 */
module LinkProgress {
  import opened Bytes
  import opened Frames
  import opened FrameReader
  import opened FrameStream
  import opened Resumable
  import opened Session
  import opened SessionStream
  import opened Outbox
  import opened Link

  predicate NobodyLeaves(schedule: seq<Move>) {
    forall m :: m in schedule ==> !m.action.Leave?
  }

  predicate IsUp(n: Node) {
    !n.shut && !n.core.phase.Ended?
  }

  // ---- Neither end is over ----

  lemma GivenInTwo(o: Options, seen: bytes, more: bytes)
    ensures Serving(o).feed(Serving(o).feed(START, seen), more) == Receive(START, seen + more)
    ensures Serving(o).feed(START, seen) == Receive(START, seen)
    ensures forall c :: Serving(o).feed(c, more) == Receive(c, more)
  {
    hide NextCore;
    assert [] + (seen + more) == [] + seen + more;
  }

  lemma OverStaysOver(c: Core, more: bytes)
    requires c.phase.Ended?
    ensures Receive(c, more).phase.Ended?
  {
  }

  /** A session that is over on part of a stream is over on the whole of it. */
  lemma EndedStays(o: Options, seen: bytes, whole: bytes)
    requires seen <= whole && Drained(o, Receive(START, seen)).state.phase.Ended?
    ensures Drained(o, Receive(START, whole)).state.phase.Ended?
  {
    ServingIsResumable(o);
    var m, more := Serving(o), whole[|seen|..];
    assert seen + more == whole;
    GivenInTwo(o, seen, more);
    hide Serving, Receive, NextCore, Shrinks, Stable, Appends;
    var c := Drain(m, Receive(START, seen)).state;
    DrainIsStable(m, Receive(START, seen), more);
    OverStaysOver(c, more);
    EndedIsSilent(o, Receive(c, more));
  }

  /** All that a peer has printed, without a close frame in it, leaves a session open. */
  lemma PrintedKeepsOpen(o: Options, theirs: bytes, replies: seq<Reply>, items: seq<Item>)
    requires Greets(o, theirs, replies)
    requires items != [] && WellPrinted(theirs, ConfigOf(o), items) && !HasClose(FramesOf(items))
    ensures Drained(o, Receive(START, Rendered(items))).state.phase.Open?
  {
    hide Greets, Encode, GoodFrame, Given, Spelled, EncodeAll, Conforming, Answers, Drained, Receive;
    var frames := FramesOf(items[1..]);
    RenderedFrames(ConfigOf(o), items[1..]);
    assert Rendered(items) == theirs + EncodeAll(frames);
    assert FramesOf(items) == [] + frames == frames;
    GoodConforms(ConfigOf(o), frames);
    ConformingIsServed(o, theirs, replies, frames);
  }

  /** An end that has not left is over only if its peer has printed a close frame. */
  lemma HearingKeepsUp(o: Options, peer: Options, hello: bytes, theirs: bytes, replies: seq<Reply>, n: Node, p: Node,
                       items: seq<Item>, fates: seq<bool>, pItems: seq<Item>, pFates: seq<bool>)
    requires Greets(o, theirs, replies) && theirs != []
    requires NodeInv(o, peer, hello, n, items, fates) && NodeInv(peer, o, theirs, p, pItems, pFates)
    requires FedBy(n, p.box.taken) && !n.shut && IsUp(p)
    ensures IsUp(n)
  {
    hide Drained, Receive, Greets, Sendable, Accounted, Rendered, FramesOf, TextsOf, HasClose, WellPrinted;
    BooksBalance(peer, o, theirs, p, pItems, pFates);
    SeenIsPrinted(n, p, Rendered(pItems));
    if pItems == [] {
      NothingYet(o, theirs, replies);
      NothingRendered();
    } else {
      PrintedKeepsOpen(o, theirs, replies, pItems);
      if n.core.phase.Ended? {
        EndedStays(o, n.seen, Rendered(pItems));
      }
    }
  }

  lemma OnlyLeavingShuts(o: Options, bound: nat, n: Node, p: Node, a: Action)
    requires !a.Leave?
    ensures Act(o, bound, n, p, a).shut == n.shut
  {
    hide Drained, Receive, Flushed, Enqueued, Sending, Sendable, Chunk, Printed, Draws;
  }

  /** A schedule in which nobody leaves ends no session: no handshake is refused, and no close frame is printed. */
  lemma {:induction false} StaysUp(e: Ends, schedule: seq<Move>)
    returns (up: seq<Item>, down: seq<Item>, upFates: seq<bool>, downFates: seq<bool>)
    requires Compatible(e) && NobodyLeaves(schedule)
    ensures LinkInv(e, After(e, schedule), up, down, upFates, downFates)
    ensures IsUp(After(e, schedule).client) && IsUp(After(e, schedule).server)
  {
    hide Compatible, Act, NodeInv, FedBy, Introduced, Request, ServerHello;
    if schedule == [] {
      InitKeeps(e);
      up, down, upFates, downFates := [HeadItem(Request(e.client))], [], [], [];
    } else {
      var before, last := schedule[..|schedule| - 1], schedule[|schedule| - 1];
      assert last in schedule && NobodyLeaves(before);
      up, down, upFates, downFates := StaysUp(e, before);
      var l := After(e, before);
      up, down, upFates, downFates := MoveKeeps(e, l, last, up, down, upFates, downFates);
      OneMoveStaysUp(e, l, last, up, down, upFates, downFates);
    }
  }

  lemma OneMoveStaysUp(e: Ends, l: Link, m: Move, up: seq<Item>, down: seq<Item>, upFates: seq<bool>, downFates: seq<bool>)
    requires Compatible(e) && !m.action.Leave? && IsUp(l.client) && IsUp(l.server)
    requires LinkInv(e, Moved(e, l, m), up, down, upFates, downFates)
    ensures IsUp(Moved(e, l, m).client) && IsUp(Moved(e, l, m).server)
  {
    hide Compatible, Act, NodeInv, FedBy, Greets, Request, ServerHello;
    Introductions(e);
    HelloIsLong(e);
    var l' := Moved(e, l, m);
    if m.side.Client? {
      OnlyLeavingShuts(e.client, e.queueBound, l.client, l.server, m.action);
      HearingKeepsUp(e.client, e.server, Request(e.client), ServerHello(e), [], l'.client, l'.server,
                     up, upFates, down, downFates);
    } else {
      OnlyLeavingShuts(e.server, e.queueBound, l.server, l.client, m.action);
      HearingKeepsUp(e.server, e.client, ServerHello(e), Request(e.client), [HeadReply(ServerHello(e))],
                     l'.server, l'.client, down, downFates, up, upFates);
    }
  }

  // ---- Everything queued is heard ----

  /** A socket that takes all it is given empties the outbound bytes, and of an open session the queue too. */
  lemma {:induction false} Emptying(o: Options, x: Outbox, open: bool) returns (script: seq<Write>)
    ensures var x' := Flushed(o, x, open, script);
            && x'.outbound == [] && x'.dropped == x.dropped
            && (if open then x'.queue == [] && x'.started == x.started + x.queue
                else x'.queue == x.queue && x'.started == x.started)
    decreases |x.queue|, |x.outbound|
  {
    hide Printed, Draws;
    script := [];
    if x.outbound != [] {
      var after := Taking(x, |x.outbound|);
      var rest := Emptying(o, after, open);
      script := [Write(|x.outbound|, Ok)] + rest;
      assert script[1..] == rest;
    } else if open && x.queue != [] {
      script := Emptying(o, Started(o, x), open);
      assert x.started + x.queue == x.started + [x.queue[0]] + x.queue[1..];
    }
  }

  function NodeOf(l: Link, side: Side): Node {
    if side.Client? then l.client else l.server
  }

  function Across(side: Side): Side {
    if side.Client? then Server else Client
  }

  ghost function OptionsOf(e: Ends, side: Side): Options {
    if side.Client? then e.client else e.server
  }

  lemma OneMoveOn(e: Ends, schedule: seq<Move>, m: Move)
    ensures var l, l' := After(e, schedule), After(e, schedule + [m]);
            && NodeOf(l', m.side) == Act(OptionsOf(e, m.side), e.queueBound, NodeOf(l, m.side), NodeOf(l, Across(m.side)), m.action)
            && NodeOf(l', Across(m.side)) == NodeOf(l, Across(m.side))
  {
    hide Act;
    assert (schedule + [m])[..|schedule|] == schedule;
  }

  /** One end's socket takes all it is given. */
  lemma SocketTakesAll(e: Ends, schedule: seq<Move>, side: Side) returns (m: Move)
    ensures m.side == side && m.action.Service?
    ensures var l, l' := After(e, schedule), After(e, schedule + [m]);
            var n, n' := NodeOf(l, side), NodeOf(l', side);
            && n'.core == n.core && n'.events == n.events && n'.offered == n.offered && n'.arrived == n.arrived
            && n'.box.outbound == [] && n'.box.dropped == n.box.dropped
            && (if n.core.phase.Open? then n'.box.queue == [] && n'.box.started == n.box.started + n.box.queue
                else n'.box.queue == n.box.queue && n'.box.started == n.box.started)
            && NodeOf(l', Across(side)) == NodeOf(l, Across(side))
  {
    hide After, Flushed;
    var n := NodeOf(After(e, schedule), side);
    var script := Emptying(OptionsOf(e, side), n.box, n.core.phase.Open?);
    m := Move(side, Service(script));
    OneMoveOn(e, schedule, m);
  }

  /** One end reads all that the other's socket has taken. */
  lemma AllIsRead(e: Ends, schedule: seq<Move>, side: Side) returns (m: Move)
    requires Compatible(e) && NobodyLeaves(schedule)
    ensures m.side == side && m.action.Deliver?
    ensures var l, l' := After(e, schedule), After(e, schedule + [m]);
            var n, n', p := NodeOf(l, side), NodeOf(l', side), NodeOf(l, Across(side));
            && n'.arrived == |p.box.taken| && n'.offered == n.offered
            && n'.box.queue == n.box.queue && n'.box.started == n.box.started && n'.box.dropped == n.box.dropped
            && NodeOf(l', Across(side)) == p
  {
    hide After, Drained, Receive, Printed, Draws, Compatible, NodeInv;
    var l := After(e, schedule);
    m := Move(side, Deliver(|NodeOf(l, Across(side)).box.taken|));
    OneMoveOn(e, schedule, m);
    var up, down, us, ds := StaysUp(e, schedule);
  }

  /** An end that has read all its peer printed is open and has heard every text the peer started. */
  lemma ReadIsHeard(e: Ends, schedule: seq<Move>, side: Side)
    requires Compatible(e) && NobodyLeaves(schedule)
    requires var l := After(e, schedule);
             var n, p := NodeOf(l, side), NodeOf(l, Across(side));
             n.arrived == |p.box.taken| && p.box.outbound == [] && (side.Server? || !p.core.phase.Handshaking?)
    ensures var l := After(e, schedule);
            var n, p := NodeOf(l, side), NodeOf(l, Across(side));
            n.core.phase.Open? && Messages(n.events) == p.box.started
  {
    hide Compatible, NodeInv, After, Introduced, FedBy, Request, ServerHello, Messages, HasClose, FramesOf;
    var l := After(e, schedule);
    var up, down, us, ds := StaysUp(e, schedule);
    Introductions(e);
    HelloIsLong(e);
    BooksBalance(e.client, e.server, Request(e.client), l.client, up, us);
    BooksBalance(e.server, e.client, ServerHello(e), l.server, down, ds);
    if side.Server? {
      EndHears(e.server, e.client, ServerHello(e), Request(e.client), [HeadReply(ServerHello(e))],
               l.server, l.client, down, ds, up, us);
      OpenedIsOpen(e.server, e.client, ServerHello(e), l.server, down, ds);
    } else {
      EndHears(e.client, e.server, Request(e.client), ServerHello(e), [], l.client, l.server, up, us, down, ds);
      OpenedIsOpen(e.client, e.server, Request(e.client), l.client, up, us);
    }
  }

  /** Nothing this end had in hand is lost: it has started all of it, and the other has heard all it ever started. */
  predicate AllHeard(n: Node, n': Node, p': Node) {
    && n'.core.phase.Open? && n'.box.queue == [] && n'.box.dropped == n.box.dropped && n'.offered == n.offered
    && n'.box.started == n.box.started + n.box.queue && Messages(p'.events) == n'.box.started
  }

  /**
   However far a schedule in which nobody leaves has got, with whatever cuts, pings and queues: six moves of
   the two sockets alone, three of each end, and both ends are open, both queues are empty, and each end has
   heard, whole and in order, all the other ever started and all it had still queued.
   */
  lemma EverythingArrives(e: Ends, schedule: seq<Move>) returns (rest: seq<Move>)
    requires Compatible(e) && NobodyLeaves(schedule)
    ensures |rest| == 6 && forall m :: m in rest ==> m.action.Service? || m.action.Deliver?
    ensures var l, l' := After(e, schedule), After(e, schedule + rest);
            AllHeard(l.client, l'.client, l'.server) && AllHeard(l.server, l'.server, l'.client)
  {
    hide Compatible, After, Messages;
    var a := SocketTakesAll(e, schedule, Client);
    var s1 := schedule + [a];
    var b := AllIsRead(e, s1, Server);
    var s2 := s1 + [b];
    ReadIsHeard(e, s2, Server);
    var c := SocketTakesAll(e, s2, Server);
    var s3 := s2 + [c];
    var d := AllIsRead(e, s3, Client);
    var s4 := s3 + [d];
    ReadIsHeard(e, s4, Client);
    var f := SocketTakesAll(e, s4, Client);
    var s5 := s4 + [f];
    var g := AllIsRead(e, s5, Server);
    var s6 := s5 + [g];
    ReadIsHeard(e, s6, Server);
    rest := [a, b, c, d, f, g];
    assert schedule + rest == s6;
  }
}
