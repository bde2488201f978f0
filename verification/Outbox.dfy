/**
 One peer's outbound half, as Endpoint.cpp services it: the queue of messages not yet started, the
 bytes the session owes, and a socket that takes as much of them as it pleases.
 */
module Outbox {
  import opened Bytes
  import opened Frames
  import opened Session

  datatype IoStatus = Ok | WouldBlock | Failed

  /** One `Write` of the socket: how many bytes it took at most, and what it reported. */
  datatype Write = Write(accepts: nat, status: IoStatus)

  /** `taken` is everything the socket has taken so far, `started` the messages begun, in order. */
  datatype Outbox = Outbox(
    outbound: bytes,
    drawn: nat,
    queue: seq<bytes>,
    sent: nat,
    dropped: nat,
    started: seq<bytes>,
    taken: bytes)

  function Bound(peerQueueMessages: nat): nat {
    if peerQueueMessages < 1 then 1 else peerQueueMessages
  }

  /** The oldest messages not started make room, each counted, and the new one joins the end. */
  function Enqueued(x: Outbox, bound: nat, text: bytes): Outbox
    requires bound >= 1
    decreases |x.queue|
  {
    if |x.queue| >= bound then Enqueued(x.(queue := x.queue[1..], dropped := x.dropped + 1), bound, text)
    else x.(queue := x.queue + [text])
  }

  /** The bytes a session's own frame prints, and what becomes of the mask counter. */
  function Sending(o: Options, x: Outbox, op: Opcode, payload: bytes): Outbox {
    x.(outbound := x.outbound + Printed(o, [FrameReply(op, payload)], x.drawn),
       drawn := x.drawn + Draws(o, [FrameReply(op, payload)]))
  }

  /** The front message starts: from now on it is never dropped. */
  function Started(o: Options, x: Outbox): Outbox
    requires x.queue != []
  {
    Sending(o, x, Text, x.queue[0]).(queue := x.queue[1..], sent := x.sent + 1, started := x.started + [x.queue[0]])
  }

  function Taking(x: Outbox, count: nat): Outbox {
    var k := if count <= |x.outbound| then count else |x.outbound|;
    x.(outbound := x.outbound[k..], taken := x.taken + x.outbound[..k])
  }

  /** Writes until the socket would block or fails, or nothing is owed; a script that ends would block. */
  function Flushed(o: Options, x: Outbox, open: bool, script: seq<Write>): Outbox
    decreases |script| + |x.queue|
  {
    if x.outbound == [] then
      if !open || x.queue == [] then x else Flushed(o, Started(o, x), open, script)
    else if script == [] then x
    else
      var after := Taking(x, script[0].accepts);
      if script[0].status.Ok? then Flushed(o, after, open, script[1..]) else after
  }

  // ---- The peer as the program keeps it ----

  class Peer {
    const connection: Connection
    var queue: seq<bytes>
    var sent: nat
    var dropped: nat
    ghost var started: seq<bytes>
    var taken: bytes

    ghost predicate Valid()
      reads this, connection, connection.reader
    {
      connection.Valid()
    }

    ghost function Abs(): Outbox
      reads this, connection
    {
      Outbox(connection.outbound, connection.drawn, queue, sent, dropped, started, taken)
    }

    constructor (connection: Connection)
      requires connection.Valid()
      ensures Valid() && this.connection == connection
      ensures Abs() == Outbox(connection.outbound, connection.drawn, [], 0, 0, [], [])
    {
      this.connection := connection;
      queue, sent, dropped, started, taken := [], 0, 0, [], [];
    }

    method Enqueue(peerQueueMessages: nat, text: bytes)
      requires Valid()
      modifies this
      ensures Valid()
      ensures Abs() == if connection.phase.Open? then Enqueued(old(Abs()), Bound(peerQueueMessages), text) else old(Abs())
    {
      if !connection.phase.Open? {
        return;
      }
      var bound := Bound(peerQueueMessages);
      while |queue| >= bound
        invariant Enqueued(Abs(), bound, text) == Enqueued(old(Abs()), bound, text)
        invariant connection.Valid() && connection.phase == old(connection.phase)
      {
        queue := queue[1..];
        dropped := dropped + 1;
      }
      queue := queue + [text];
    }

    method Flush(script: seq<Write>)
      requires Valid()
      modifies this, connection`outbound, connection`drawn
      ensures Valid()
      ensures Abs() == Flushed(connection.options, old(Abs()), connection.phase.Open?, script)
    {
      hide Printed, Draws;
      var i := 0;
      while true
        invariant Valid() && 0 <= i <= |script|
        invariant Flushed(connection.options, Abs(), connection.phase.Open?, script[i..])
               == Flushed(connection.options, old(Abs()), connection.phase.Open?, script)
        decreases |script| - i + |queue|
      {
        var out := connection.outbound;
        if out == [] {
          if !connection.phase.Open? || queue == [] {
            return;
          }
          connection.SendText(queue[0]);
          started := started + [queue[0]];
          queue := queue[1..];
          sent := sent + 1;
          continue;
        }
        if i == |script| {
          return;
        }
        var written := if script[i].accepts <= |out| then script[i].accepts else |out|;
        taken := taken + out[..written];
        connection.outbound := out[written..];
        i := i + 1;
        if !script[i - 1].status.Ok? {
          return;
        }
        assert script[i - 1..][1..] == script[i..];
      }
    }
  }

  // ---- Nothing is lost, and nothing started is dropped ----

  /** A peer's whole life so far: every text offered, and whether each consumed one was sent. */
  ghost predicate Accounted(x: Outbox, offered: seq<bytes>, fates: seq<bool>) {
    && |offered| == |fates| + |x.queue|
    && x.queue == offered[|fates|..]
    && x.started == Chosen(offered[..|fates|], fates)
    && x.sent == |x.started|
    && x.sent + x.dropped == |fates|
  }

  /** The texts whose fate was to be sent, in order. */
  function Chosen(texts: seq<bytes>, fates: seq<bool>): seq<bytes>
    requires |texts| == |fates|
  {
    if texts == [] then []
    else Chosen(texts[..|texts| - 1], fates[..|fates| - 1]) + if fates[|fates| - 1] then [texts[|texts| - 1]] else []
  }

  /** What was decided of the first texts is what it was, whatever came after. */
  lemma {:induction false} ChosenGrows(texts: seq<bytes>, fates: seq<bool>, moreTexts: seq<bytes>, moreFates: seq<bool>)
    requires |texts| == |fates| && |moreTexts| == |moreFates| && texts <= moreTexts && fates <= moreFates
    ensures Chosen(texts, fates) <= Chosen(moreTexts, moreFates)
    decreases |moreTexts|
  {
    if |texts| < |moreTexts| {
      ChosenGrows(texts, fates, moreTexts[..|moreTexts| - 1], moreFates[..|moreFates| - 1]);
    } else {
      assert texts == moreTexts && fates == moreFates;
    }
  }

  /** While offers and fates only extend, so do the texts started. */
  lemma StartedGrows(x: Outbox, x': Outbox, offered: seq<bytes>, offered': seq<bytes>, fates: seq<bool>, fates': seq<bool>)
    requires Accounted(x, offered, fates) && Accounted(x', offered', fates') && offered <= offered' && fates <= fates'
    ensures x.started <= x'.started && x.sent <= x'.sent
  {
    assert offered[..|fates|] <= offered'[..|fates'|];
    ChosenGrows(offered[..|fates|], fates, offered'[..|fates'|], fates');
  }

  lemma FrontConsumed(x: Outbox, x': Outbox, offered: seq<bytes>, fates: seq<bool>, isSent: bool)
    requires Accounted(x, offered, fates) && x.queue != [] && x'.queue == x.queue[1..]
    requires x'.started == x.started + (if isSent then [x.queue[0]] else [])
    requires x'.sent == x.sent + (if isSent then 1 else 0) && x'.dropped == x.dropped + (if isSent then 0 else 1)
    ensures Accounted(x', offered, fates + [isSent])
  {
    var k := |fates|;
    assert (fates + [isSent])[..k] == fates && offered[..k + 1][..k] == offered[..k];
    assert offered[k] == x.queue[0];
  }

  /** However full the queue was, enqueuing drops only messages that had not started, oldest first. */
  lemma {:induction false} EnqueueAccounts(x: Outbox, bound: nat, text: bytes, offered: seq<bytes>, fates: seq<bool>)
    returns (fates': seq<bool>)
    requires bound >= 1 && Accounted(x, offered, fates)
    ensures Accounted(Enqueued(x, bound, text), offered + [text], fates')
    ensures fates <= fates' && Enqueued(x, bound, text).started == x.started
    ensures |Enqueued(x, bound, text).queue| <= bound
    decreases |x.queue|
  {
    if |x.queue| >= bound {
      var x' := x.(queue := x.queue[1..], dropped := x.dropped + 1);
      FrontConsumed(x, x', offered, fates, false);
      fates' := EnqueueAccounts(x', bound, text, offered, fates + [false]);
    } else {
      fates' := fates;
      assert (offered + [text])[..|fates|] == offered[..|fates|];
      assert (offered + [text])[|fates|..] == x.queue + [text];
    }
  }

  /** Flushing only ever starts the oldest message, and moves bytes from owed to taken in order. */
  lemma {:induction false} FlushAccounts(o: Options, x: Outbox, open: bool, script: seq<Write>,
                                         offered: seq<bytes>, fates: seq<bool>)
    returns (fates': seq<bool>)
    requires Accounted(x, offered, fates)
    ensures Accounted(Flushed(o, x, open, script), offered, fates') && fates <= fates'
    ensures Flushed(o, x, open, script).dropped == x.dropped
    decreases |script| + |x.queue|
  {
    hide Printed, Draws;
    fates' := fates;
    if x.outbound == [] {
      if open && x.queue != [] {
        FrontConsumed(x, Started(o, x), offered, fates, true);
        fates' := FlushAccounts(o, Started(o, x), open, script, offered, fates + [true]);
      }
    } else if script != [] && script[0].status.Ok? {
      fates' := FlushAccounts(o, Taking(x, script[0].accepts), open, script[1..], offered, fates);
    }
  }

  /** What a full queue keeps is its latest, and it drops no more than it must. */
  lemma {:induction false} EnqueueKeepsLatest(x: Outbox, bound: nat, text: bytes)
    requires bound >= 1
    ensures var kept := if |x.queue| < bound then |x.queue| else Nat(bound - 1);
            && Enqueued(x, bound, text).queue == x.queue[|x.queue| - kept..] + [text]
            && Enqueued(x, bound, text).dropped == x.dropped + |x.queue| - kept
    decreases |x.queue|
  {
    if |x.queue| >= bound {
      EnqueueKeepsLatest(x.(queue := x.queue[1..], dropped := x.dropped + 1), bound, text);
    }
  }

  /** The configured bound, of which zero is one, is how many texts can wait. */
  lemma QueueIsBounded(x: Outbox, peerQueueMessages: nat, text: bytes)
    ensures var queue := Enqueued(x, Bound(peerQueueMessages), text).queue;
            |queue| == if peerQueueMessages <= 1 then 1 else if |x.queue| < peerQueueMessages then |x.queue| + 1 else peerQueueMessages
  {
    EnqueueKeepsLatest(x, Bound(peerQueueMessages), text);
  }

  function Nat(n: int): nat
    requires n >= 0
  {
    n
  }

  // ---- How far a flush comes ----

  /** Everything a peer could write: what is owed, and then each text waiting, as the session prints it. */
  function Segments(o: Options, x: Outbox, open: bool): (segments: seq<bytes>)
    ensures |segments| == 1 + if open then |x.queue| else 0
  {
    [x.outbound] + if open then Texts(o, x.queue, x.drawn) else []
  }

  function Texts(o: Options, queue: seq<bytes>, drawn: nat): (texts: seq<bytes>)
    ensures |texts| == |queue|
  {
    if queue == [] then []
    else
      var replies := [FrameReply(Text, queue[0])];
      [Printed(o, replies, drawn)] + Texts(o, queue[1..], drawn + Draws(o, replies))
  }

  /** Where the segment ends that holds the byte at `at`. */
  function EndOf(segments: seq<bytes>, at: nat): nat {
    if segments == [] then 0
    else if at < |segments[0]| then |segments[0]|
    else |segments[0]| + EndOf(segments[1..], at - |segments[0]|)
  }

  /** How far one write comes: as far as the socket takes, but not past the segment it is of. */
  function Next(segments: seq<bytes>, at: nat, accepts: nat): nat {
    var end := EndOf(segments, at);
    if at + accepts < end then at + accepts else end
  }

  /**
   How far the writes of a flush come, one after the other: each but the last is taken without complaint,
   and after the last the script has ended, or the socket has complained, or nothing is left.
   */
  ghost predicate Reaches(segments: seq<bytes>, script: seq<Write>, at: seq<nat>) {
    && 0 < |at| <= |script| + 1 && at[0] == 0
    && (forall i :: 0 <= i < |at| - 1 ==>
          at[i] < |Concat(segments)| && at[i + 1] == Next(segments, at[i], script[i].accepts))
    && (forall i :: 0 <= i < |at| - 2 ==> script[i].status.Ok?)
    && (GoesOn(script, |at| - 1) ==> |at| == |script| + 1 || at[|at| - 1] == |Concat(segments)|)
  }

  /** The last of these writes was taken without complaint. */
  predicate GoesOn(script: seq<Write>, writes: nat)
    requires writes <= |script|
  {
    writes == 0 || script[writes - 1].status.Ok?
  }

  /** A text that begins there starts once all before it is taken, if the socket has not complained by then. */
  predicate Starts(at: seq<nat>, script: seq<Write>, begins: nat)
    requires |at| <= |script| + 1
  {
    exists i :: 0 <= i < |at| && at[i] >= begins && GoesOn(script, i)
  }

  function StartOf(segments: seq<bytes>, k: nat): nat
    requires k <= |segments|
  {
    |Concat(segments[..k])|
  }

  /** What a flush leaves: the bytes reached are taken, and the texts started are no longer queued. */
  ghost predicate Leaves(o: Options, x: Outbox, open: bool, x': Outbox, script: seq<Write>, at: seq<nat>, started: nat)
    requires 0 < |at| <= |script| + 1
  {
    var segments, reached := Segments(o, x, open), at[|at| - 1];
    && started < |segments| && started <= |x.queue|
    && reached <= StartOf(segments, started + 1) <= |Concat(segments)|
    && x'.taken == x.taken + Concat(segments)[..reached]
    && x'.outbound == Concat(segments)[reached..StartOf(segments, started + 1)]
    && x'.queue == x.queue[started..] && x'.started == x.started + x.queue[..started]
    && (started > 0 ==> Starts(at, script, StartOf(segments, started)))
    && (started + 1 < |segments| ==> !Starts(at, script, StartOf(segments, started + 1)))
  }

  lemma StartOfNext(segments: seq<bytes>, k: nat)
    requires k < |segments|
    ensures StartOf(segments, k + 1) == |segments[0]| + StartOf(segments[1..], k)
    ensures Concat(segments) == segments[0] + Concat(segments[1..])
  {
    assert segments[..k + 1][1..] == segments[1..][..k];
  }

  /** A text moves from the queue to what is owed: what could be written stays as it was. */
  lemma StartedStays(o: Options, x: Outbox)
    requires x.queue != [] && x.outbound == []
    ensures Segments(o, x, true) == [[]] + Segments(o, Started(o, x), true)
    ensures Started(o, x).taken == x.taken
  {
    hide Printed, Draws;
    assert [] + Printed(o, [FrameReply(Text, x.queue[0])], x.drawn) == Printed(o, [FrameReply(Text, x.queue[0])], x.drawn);
  }

  /** A first segment with nothing in it changes neither where writes come nor where texts begin. */
  lemma EmptyFirst(segments: seq<bytes>, script: seq<Write>, at: seq<nat>)
    requires Reaches(segments, script, at)
    ensures Reaches([[]] + segments, script, at) && Concat([[]] + segments) == Concat(segments)
  {
    var all := [[]] + segments;
    assert all[1..] == segments;
    StartOfNext(all, 0);
    assert [] + Concat(segments) == Concat(segments);
    hide Concat;
    forall n: nat
      ensures EndOf(all, n) == EndOf(segments, n)
    {
    }
  }

  lemma EmptyBefore(segments: seq<bytes>, k: nat)
    requires k <= |segments|
    ensures StartOf([[]] + segments, k + 1) == StartOf(segments, k)
  {
    assert ([[]] + segments)[1..] == segments;
    StartOfNext([[]] + segments, k);
  }

  lemma StartLeaves(o: Options, x: Outbox, x': Outbox, script: seq<Write>, at: seq<nat>, started: nat)
    requires x.queue != [] && x.outbound == [] && 0 < |at| <= |script| + 1
    requires Leaves(o, Started(o, x), true, x', script, at, started)
    ensures Leaves(o, x, true, x', script, at, started + 1)
  {
    hide Printed, Draws, Concat, Texts, Started, StartOf, Segments;
    var segments, after := Segments(o, x, true), Segments(o, Started(o, x), true);
    StartedStays(o, x);
    StartOfNext(segments, 0);
    assert segments[1..] == after;
    assert [] + Concat(after) == Concat(after);
    EmptyBefore(after, started);
    EmptyBefore(after, started + 1);
    StartedQueue(o, x, started);
    NothingBefore(after);
    assert started == 0 ==> at[0] >= 0 && GoesOn(script, 0);
  }

  lemma SomeReached(segments: seq<bytes>, script: seq<Write>, at: seq<nat>)
    requires Reaches(segments, script, at)
    ensures 0 < |at| <= |script| + 1
  {
    hide Next, Concat;
  }

  lemma NothingBefore(segments: seq<bytes>)
    ensures StartOf(segments, 0) == 0
  {
  }

  lemma StartedQueue(o: Options, x: Outbox, started: nat)
    requires x.queue != [] && started <= |x.queue| - 1
    ensures var y := Started(o, x);
            |y.queue| == |x.queue| - 1 && y.queue[started..] == x.queue[started + 1..]
            && y.started + y.queue[..started] == x.started + x.queue[..started + 1]
  {
    hide Printed, Draws;
  }

  lemma {:induction false} EndMoves(segments: seq<bytes>, k: nat, at: nat)
    requires segments != [] && k <= |segments[0]|
    ensures EndOf(segments, at + k) == k + EndOf([segments[0][k..]] + segments[1..], at)
  {
    assert ([segments[0][k..]] + segments[1..])[1..] == segments[1..];
  }

  function Shifted(at: seq<nat>, k: nat): (r: seq<nat>)
    ensures |r| == |at|
  {
    seq(|at|, i requires 0 <= i < |at| => at[i] + k)
  }

  lemma TakingSegments(o: Options, x: Outbox, open: bool, accepts: nat)
    ensures var k := if accepts <= |x.outbound| then accepts else |x.outbound|;
            Segments(o, Taking(x, accepts), open) == [x.outbound[k..]] + Segments(o, x, open)[1..]
  {
    hide Texts;
  }

  lemma StartOfTaken(segments: seq<bytes>, k: nat, j: nat)
    requires segments != [] && k <= |segments[0]| && 0 < j <= |segments|
    ensures var after := [segments[0][k..]] + segments[1..];
            && StartOf(segments, j) == k + StartOf(after, j) >= |segments[0]|
            && Concat(segments) == segments[0][..k] + Concat(after)
  {
    var after := [segments[0][k..]] + segments[1..];
    assert after[1..] == segments[1..];
    StartOfNext(segments, j - 1);
    StartOfNext(after, j - 1);
    assert segments[0] == segments[0][..k] + segments[0][k..];
  }

  lemma FirstWrite(segments: seq<bytes>, accepts: nat)
    requires segments != [] && segments[0] != []
    ensures var k := if accepts <= |segments[0]| then accepts else |segments[0]|;
            && 0 < |Concat(segments)| == k + |Concat([segments[0][k..]] + segments[1..])| && Next(segments, 0, accepts) == k
  {
    hide Concat;
    StartOfNext(segments, 0);
    FirstEnds(segments);
    StartOfTaken(segments, if accepts <= |segments[0]| then accepts else |segments[0]|, 1);
  }

  lemma LaterWrite(segments: seq<bytes>, k: nat, at: nat, accepts: nat)
    requires segments != [] && k <= |segments[0]|
    ensures var after := [segments[0][k..]] + segments[1..];
            && Next(segments, at + k, accepts) == Next(after, at, accepts) + k
            && (at < |Concat(after)| ==> at + k < |Concat(segments)|)
  {
    hide Concat, EndOf;
    EndMoves(segments, k, at);
    StartOfTaken(segments, k, 1);
  }

  lemma ShiftedAt(at: seq<nat>, k: nat)
    ensures var all := [0] + Shifted(at, k);
            |all| == |at| + 1 && all[0] == 0 && forall i :: 0 < i < |all| ==> all[i] == at[i - 1] + k
  {
  }

  /** A script goes on past its first write as the rest of it does. */
  lemma GoesOnLater(script: seq<Write>, writes: nat)
    requires script != [] && script[0].status.Ok? && writes < |script|
    ensures GoesOn(script, writes + 1) <==> GoesOn(script[1..], writes)
  {
  }

  /** A later write of the whole comes as far as the same write of what the first write left. */
  lemma LaterReaches(segments: seq<bytes>, script: seq<Write>, at: seq<nat>, k: nat, i: nat)
    requires segments != [] && k <= |segments[0]| && script != []
    requires Reaches([segments[0][k..]] + segments[1..], script[1..], at) && 0 < i < |at|
    ensures var all := [0] + Shifted(at, k);
            && all[i] < |Concat(segments)|
            && all[i + 1] == Next(segments, all[i], script[i].accepts)
            && (i < |at| - 1 ==> script[i].status.Ok?)
  {
    hide Concat, EndOf, Next;
    var rest := script[1..];
    assert script[i] == rest[i - 1];
    LaterWrite(segments, k, at[i - 1], script[i].accepts);
  }

  lemma WriteReaches(segments: seq<bytes>, script: seq<Write>, at: seq<nat>)
    requires segments != [] && segments[0] != [] && script != [] && script[0].status.Ok?
    requires var k := if script[0].accepts <= |segments[0]| then script[0].accepts else |segments[0]|;
             Reaches([segments[0][k..]] + segments[1..], script[1..], at)
    ensures var k := if script[0].accepts <= |segments[0]| then script[0].accepts else |segments[0]|;
            Reaches(segments, script, [0] + Shifted(at, k))
  {
    hide Concat, EndOf, Next, Shifted, GoesOn;
    var k := if script[0].accepts <= |segments[0]| then script[0].accepts else |segments[0]|;
    var all := [0] + Shifted(at, k);
    ShiftedAt(at, k);
    FirstWrite(segments, script[0].accepts);
    forall i | 0 <= i < |all| - 1
      ensures all[i] < |Concat(segments)| && all[i + 1] == Next(segments, all[i], script[i].accepts)
      ensures i < |all| - 2 ==> script[i].status.Ok?
    {
      if i > 0 {
        LaterReaches(segments, script, at, k, i);
      }
    }
    GoesOnLater(script, |at| - 1);
  }

  lemma FirstEnds(segments: seq<bytes>)
    requires segments != [] && segments[0] != []
    ensures EndOf(segments, 0) == |segments[0]|
  {
  }

  /** What starts after a write is what starts with what that write left. */
  lemma StartsLater(script: seq<Write>, at: seq<nat>, k: nat, begins: nat)
    requires script != [] && script[0].status.Ok? && |at| <= |script| && begins + k > 0
    ensures Starts([0] + Shifted(at, k), script, begins + k) <==> Starts(at, script[1..], begins)
  {
    var all, rest := [0] + Shifted(at, k), script[1..];
    if i :| 0 <= i < |all| && all[i] >= begins + k && GoesOn(script, i) {
      assert i > 0 && all[i] == at[i - 1] + k;
      assert i > 1 ==> script[i - 1] == rest[i - 2];
      assert GoesOn(rest, i - 1);
    }
    if i :| 0 <= i < |at| && at[i] >= begins && GoesOn(rest, i) {
      assert all[i + 1] == at[i] + k;
      assert i > 0 ==> script[i] == rest[i - 1];
      assert GoesOn(script, i + 1);
    }
  }

  /** Whether a text starts is the same asked of the whole and of what the first write left. */
  lemma WriteStarts(segments: seq<bytes>, script: seq<Write>, at: seq<nat>, k: nat, j: nat)
    requires segments != [] && segments[0] != [] && k <= |segments[0]| && 0 < j <= |segments|
    requires script != [] && script[0].status.Ok? && 0 < |at| <= |script|
    ensures var after := [segments[0][k..]] + segments[1..];
            && StartOf(segments, j) == k + StartOf(after, j)
            && (Starts([0] + Shifted(at, k), script, StartOf(segments, j)) <==> Starts(at, script[1..], StartOf(after, j)))
  {
    hide Concat, StartOf, Starts;
    var after := [segments[0][k..]] + segments[1..];
    StartOfTaken(segments, k, j);
    StartsLater(script, at, k, StartOf(after, j));
  }

  lemma WriteLeaves(o: Options, x: Outbox, open: bool, x': Outbox, script: seq<Write>, at: seq<nat>, started: nat)
    requires x.outbound != [] && script != [] && script[0].status.Ok? && 0 < |at| <= |script|
    requires Leaves(o, Taking(x, script[0].accepts), open, x', script[1..], at, started)
    ensures var k := if script[0].accepts <= |x.outbound| then script[0].accepts else |x.outbound|;
            Leaves(o, x, open, x', script, [0] + Shifted(at, k), started)
  {
    hide Printed, Draws, Concat, Texts, StartOf, Starts, Shifted;
    ShiftedAt(at, if script[0].accepts <= |x.outbound| then script[0].accepts else |x.outbound|);
    var k := if script[0].accepts <= |x.outbound| then script[0].accepts else |x.outbound|;
    var segments, y := Segments(o, x, open), Taking(x, script[0].accepts);
    TakingSegments(o, x, open, script[0].accepts);
    var after := Segments(o, y, open);
    StartOfTaken(segments, k, started + 1);
    if started + 1 < |segments| {
      WriteStarts(segments, script, at, k, started + 1);
    }
    if started > 0 {
      WriteStarts(segments, script, at, k, started);
    }
    TakenBytes(x, k, Concat(after), at[|at| - 1], StartOf(after, started + 1));
    assert ([0] + Shifted(at, k))[|at|] == at[|at| - 1] + k;
  }

  lemma TakenBytes(x: Outbox, k: nat, after: bytes, reached: nat, end: nat)
    requires k <= |x.outbound| && reached <= end <= |after|
    ensures var all := x.outbound[..k] + after;
            && x.taken + all[..reached + k] == x.taken + x.outbound[..k] + after[..reached]
            && all[reached + k..end + k] == after[reached..end]
  {
    var all := x.outbound[..k] + after;
    assert all[..reached + k] == x.outbound[..k] + after[..reached];
  }

  /** A flush that ends before any text starts. */
  lemma FlushStops(o: Options, x: Outbox, open: bool, script: seq<Write>)
    ensures x.outbound == [] && (!open || x.queue == []) ==>
              Reaches(Segments(o, x, open), script, [0]) && Leaves(o, x, open, x, script, [0], 0)
    ensures x.outbound != [] && script == [] ==>
              Reaches(Segments(o, x, open), script, [0]) && Leaves(o, x, open, x, script, [0], 0)
  {
    hide Printed, Draws, Texts;
    var segments := Segments(o, x, open);
    StartOfNext(segments, 0);
    NothingBefore(segments[1..]);
    assert Concat(segments)[..0] == [];
    assert Concat(segments)[0..|x.outbound|] == x.outbound;
  }

  lemma FlushComplains(o: Options, x: Outbox, open: bool, script: seq<Write>)
    requires x.outbound != [] && script != [] && !script[0].status.Ok?
    ensures var k := if script[0].accepts <= |x.outbound| then script[0].accepts else |x.outbound|;
            Reaches(Segments(o, x, open), script, [0, k]) && Leaves(o, x, open, Taking(x, script[0].accepts), script, [0, k], 0)
  {
    hide Printed, Draws, Texts;
    var segments := Segments(o, x, open);
    var k := if script[0].accepts <= |x.outbound| then script[0].accepts else |x.outbound|;
    StartOfNext(segments, 0);
    NothingBefore(segments[1..]);
    FirstEnds(segments);
    assert Concat(segments)[..k] == x.outbound[..k];
    assert Concat(segments)[k..|x.outbound|] == x.outbound[k..];
  }

  /**
   How far a flush comes, under any script of writes: each write takes as much as the socket allows of one
   message at a time, nothing is left undone while the socket goes on, and a waiting text starts exactly
   when all before it has been taken and the socket has not complained.
   */
  lemma {:induction false} FlushReaches(o: Options, x: Outbox, open: bool, script: seq<Write>) returns (at: seq<nat>, started: nat)
    ensures Reaches(Segments(o, x, open), script, at)
    ensures Leaves(o, x, open, Flushed(o, x, open, script), script, at, started)
    decreases |script| + |x.queue|, 1
  {
    hide Reaches, Leaves, Segments, Started, Taking;
    FlushStops(o, x, open, script);
    at, started := [0], 0;
    if x.outbound == [] {
      if open && x.queue != [] {
        StartedQueue(o, x, 0);
        at, started := FlushReaches(o, Started(o, x), open, script);
        StartedStays(o, x);
        EmptyFirst(Segments(o, Started(o, x), true), script, at);
        SomeReached(Segments(o, x, true), script, at);
        StartLeaves(o, x, Flushed(o, x, open, script), script, at, started);
        started := started + 1;
      }
    } else if script != [] {
      if script[0].status.Ok? {
        at, started := OneWrite(o, x, open, script);
      } else {
        FlushComplains(o, x, open, script);
        at := [0, if script[0].accepts <= |x.outbound| then script[0].accepts else |x.outbound|];
      }
    }
  }

  lemma {:induction false} OneWrite(o: Options, x: Outbox, open: bool, script: seq<Write>) returns (at: seq<nat>, started: nat)
    requires x.outbound != [] && script != [] && script[0].status.Ok?
    ensures Reaches(Segments(o, x, open), script, at)
    ensures Leaves(o, x, open, Flushed(o, x, open, script), script, at, started)
    decreases |script| + |x.queue|, 0
  {
    hide Texts, Concat, Leaves, Next;
    var k := if script[0].accepts <= |x.outbound| then script[0].accepts else |x.outbound|;
    var rest;
    rest, started := FlushReaches(o, Taking(x, script[0].accepts), open, script[1..]);
    TakingSegments(o, x, open, script[0].accepts);
    WriteReaches(Segments(o, x, open), script, rest);
    WriteLeaves(o, x, open, Flushed(o, x, open, script), script, rest, started);
    at := [0] + Shifted(rest, k);
  }
}
