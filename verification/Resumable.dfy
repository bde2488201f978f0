/**
 Machines that are fed a byte stream in pieces and drained of events after each piece, as the frame
 reader and the session are. One theorem covers both: how the stream was cut does not matter.
 */
module Resumable {
  import opened Bytes

  /** What one call of `Next` leaves and gives. */
  datatype Step<+S, +E> = Step(state: S, event: Option<E>)

  /** A machine that has given every event due, and those events in order. */
  datatype Run<+S, +E> = Run(state: S, events: seq<E>)

  datatype Machine<!S(!new), !E> = Machine(next: S -> Step<S, E>, feed: (S, bytes) -> S, size: S -> nat)

  ghost predicate Shrinks<S(!new), E>(m: Machine<S, E>) {
    forall s :: m.next(s).event.Some? ==> m.size(m.next(s).state) < m.size(s)
  }

  /** More bytes change neither an event already due nor the state reached while waiting. */
  ghost predicate Stable<S(!new), E>(m: Machine<S, E>) {
    forall s, more: bytes :: StableAt(m, s, more)
  }

  ghost predicate StableAt<S(!new), E>(m: Machine<S, E>, s: S, more: bytes) {
    var step := m.next(s);
    m.next(m.feed(s, more)) ==
    if step.event.Some? then Step(m.feed(step.state, more), step.event)
    else m.next(m.feed(step.state, more))
  }

  ghost predicate Appends<S(!new), E>(m: Machine<S, E>) {
    && (forall s :: m.feed(s, []) == s)
    && (forall s, a: bytes, b: bytes :: m.feed(m.feed(s, a), b) == m.feed(s, a + b))
  }

  ghost predicate IsResumable<S(!new), E>(m: Machine<S, E>) {
    Shrinks(m) && Stable(m) && Appends(m)
  }

  ghost function Drain<S(!new), E>(m: Machine<S, E>, s: S): Run<S, E>
    requires Shrinks(m)
    decreases m.size(s)
  {
    var step := m.next(s);
    if step.event.None? then Run(step.state, [])
    else
      var rest := Drain(m, step.state);
      Run(rest.state, [step.event.value] + rest.events)
  }

  /** Pieces received one after the other, the machine drained after each. */
  ghost function FeedAll<S(!new), E>(m: Machine<S, E>, s: S, pieces: seq<bytes>): Run<S, E>
    requires Shrinks(m)
  {
    if pieces == [] then Run(s, [])
    else
      var first := Drain(m, m.feed(s, pieces[0]));
      var rest := FeedAll(m, first.state, pieces[1..]);
      Run(rest.state, first.events + rest.events)
  }

  lemma {:induction false} DrainIsStable<S(!new), E>(m: Machine<S, E>, s: S, more: bytes)
    requires Shrinks(m) && Stable(m)
    ensures var first := Drain(m, s);
            var second := Drain(m, m.feed(first.state, more));
            Drain(m, m.feed(s, more)) == Run(second.state, first.events + second.events)
    decreases m.size(s)
  {
    assert StableAt(m, s, more);
    var step := m.next(s);
    if step.event.Some? {
      DrainIsStable(m, step.state, more);
      var rest := Drain(m, step.state);
      var second := Drain(m, m.feed(rest.state, more));
      assert [step.event.value] + (rest.events + second.events)
          == ([step.event.value] + rest.events) + second.events;
    } else {
      var second := Drain(m, m.feed(step.state, more));
      assert [] + second.events == second.events;
    }
  }

  /** Every cut of a stream into pieces gives the events, and leaves the state, of the whole stream. */
  lemma {:induction false} ChunkingIsInvisible<S(!new), E>(m: Machine<S, E>, s: S, pieces: seq<bytes>)
    requires IsResumable(m) && Drain(m, s) == Run(s, [])
    ensures FeedAll(m, s, pieces) == Drain(m, m.feed(s, Concat(pieces)))
  {
    if pieces != [] {
      var head, rest := pieces[0], Concat(pieces[1..]);
      DrainIsStable(m, m.feed(s, head), rest);
      assert m.feed(m.feed(s, head), rest) == m.feed(s, head + rest);
      var first := Drain(m, m.feed(s, head));
      DrainedIsDrained(m, m.feed(s, head));
      ChunkingIsInvisible(m, first.state, pieces[1..]);
    }
  }

  /** Draining twice gives nothing the second time. */
  lemma {:induction false} DrainedIsDrained<S(!new), E>(m: Machine<S, E>, s: S)
    requires IsResumable(m)
    ensures Drain(m, Drain(m, s).state) == Run(Drain(m, s).state, [])
    decreases m.size(s)
  {
    var step := m.next(s);
    if step.event.Some? {
      DrainedIsDrained(m, step.state);
    } else {
      assert StableAt(m, s, []);
      assert m.feed(s, []) == s && m.feed(step.state, []) == step.state;
    }
  }

  /** What a cut stream has given so far is a prefix of what the whole stream gives. */
  lemma PrefixOfStream<S(!new), E>(m: Machine<S, E>, s: S, seen: bytes, more: bytes)
    requires IsResumable(m)
    ensures Drain(m, m.feed(s, seen)).events <= Drain(m, m.feed(s, seen + more)).events
  {
    DrainIsStable(m, m.feed(s, seen), more);
    assert m.feed(m.feed(s, seen), more) == m.feed(s, seen + more);
  }

  lemma FeedOne<S(!new), E>(m: Machine<S, E>, s: S, piece: bytes)
    requires Shrinks(m)
    ensures FeedAll(m, s, [piece]) == Drain(m, m.feed(s, piece))
  {
    var first := Drain(m, m.feed(s, piece));
    assert FeedAll(m, first.state, [piece][1..]) == Run(first.state, []);
    assert first.events + [] == first.events;
  }

  lemma DrainOne<S(!new), E>(m: Machine<S, E>, s: S, last: S, event: E)
    requires Shrinks(m) && m.next(s) == Step(last, Some(event)) && m.next(last) == Step(last, None)
    ensures Drain(m, s) == Run(last, [event])
  {
    assert Drain(m, last) == Run(last, []);
  }
}
