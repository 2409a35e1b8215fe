/**
  The single use of the throttle in script.js: `handleMouseMove` is wrapped
  once, with a 30 ms window, and every card's `mousemove` listener calls that
  same instance with the event and the card. The suppression flag is therefore
  shared by all cards. What the wrapped handler draws (the glow position from
  `getBoundingClientRect` and a style write) is not part of this model.
*/
module MouseGlow {
  import opened ThrottleSpec
  import opened Throttle

  /** The window passed to `throttle` for the glow handler, in milliseconds. */
  const GlowLimit: int := 30

  /** The two arguments `(e, card)` of `handleMouseMove`: the pointer event and the card it moved over. */
  datatype Arg = Pointer(clientX: int, clientY: int) | Card(id: nat)

  /** The listener calls `handleMouseMove(e, card)` as a plain function, so no receiver is bound. */
  datatype Receiver = Unbound

  /** What `handleMouseMove` is applied to for a move at (clientX, clientY) over card `card`. */
  function MoveInvocation(clientX: int, clientY: int, card: nat): Invocation<Receiver, Arg>
  {
    Invocation(Unbound, [Pointer(clientX, clientY), Card(card)])
  }

  /** Two moves give the handler the same invocation only if they are at the same point over the same card. */
  lemma MoveInvocationInjective(x1: int, y1: int, a: nat, x2: int, y2: int, b: nat)
    ensures MoveInvocation(x1, y1, a) == MoveInvocation(x2, y2, b) <==> x1 == x2 && y1 == y2 && a == b
  {
    if MoveInvocation(x1, y1, a) == MoveInvocation(x2, y2, b) {
      assert MoveInvocation(x1, y1, a).args[0] == MoveInvocation(x2, y2, b).args[0];
      assert MoveInvocation(x1, y1, a).args[1] == MoveInvocation(x2, y2, b).args[1];
    }
  }

  /** The `mousemove` listener registered on card `card`; `handle` is the one shared `handleMouseMove`. */
  method OnMouseMove(handle: Throttled<Receiver, Arg>, clientX: int, clientY: int, card: nat, throws: bool)
    returns (outcome: Outcome)
    requires handle.Valid()
    modifies handle
    ensures handle.Valid()
    ensures (handle.Snapshot(), outcome)
      == Step(old(handle.Snapshot()), Invoke(MoveInvocation(clientX, clientY, card), throws))
  {
    outcome := handle.Call(Unbound, [Pointer(clientX, clientY), Card(card)], throws);
  }

  /**
    Suppression is global across cards: once a move over card `a` has run a
    handler that returns, a move over any card `b`, `a` or another, is dropped
    until the timer fires, and the handler has seen only the move over `a`; in
    particular it has not seen the move over `b` unless that move is the same
    point over the same card.
  */
  lemma CardsShareOneWindow(s: State<Receiver, Arg>, x1: int, y1: int, a: nat, x2: int, y2: int, b: nat, throwsB: bool)
    requires Valid(s) && !s.suppressed
    ensures var evs := [Invoke(MoveInvocation(x1, y1, a), false), Invoke(MoveInvocation(x2, y2, b), throwsB)];
      && Feasible(s, evs)
      && Run(s, evs).outcomes == [Completed, Dropped]
      && Run(s, evs).final == State(true, 1, s.log + [MoveInvocation(x1, y1, a)])
    ensures var evs := [Invoke(MoveInvocation(x1, y1, a), false), Invoke(MoveInvocation(x2, y2, b), throwsB)];
      Feasible(s, evs) &&
      (MoveInvocation(x2, y2, b) in Run(s, evs).final.log[|s.log|..] <==> x1 == x2 && y1 == y2 && a == b)
  {
    var evs := [Invoke(MoveInvocation(x1, y1, a), false), Invoke(MoveInvocation(x2, y2, b), throwsB)];
    WindowFiresOnlyFirst(s, [evs[0], Invoke(MoveInvocation(x2, y2, b), false)]);
    var s1 := Step(s, evs[0]).0;
    SuppressedCallsAreNoOps(s1, [evs[1]]);
    RunCons(s, evs[0], [evs[1]]);
    assert [evs[0]] + [evs[1]] == evs;
    var t := Run(s, evs);
    assert t.outcomes == [t.outcomes[0], t.outcomes[1]];
    assert t.final.log[|s.log|..] == [MoveInvocation(x1, y1, a)];
    MoveInvocationInjective(x1, y1, a, x2, y2, b);
  }

  /**
    The page right after load: the shared wrapper is created once, a move over
    card `a` draws, and an immediate move over card `b` is dropped whatever card
    it is, because both listeners call the same instance.
  */
  method TwoCardsInOneWindow(a: nat, b: nat) returns (first: Outcome, second: Outcome, ghost seen: seq<Invocation<Receiver, Arg>>)
    ensures first == Completed && second == Dropped
    ensures seen == [MoveInvocation(10, 20, a)]
  {
    var handleMouseMove := new Throttled<Receiver, Arg>(GlowLimit);
    first := OnMouseMove(handleMouseMove, 10, 20, a, false);
    second := OnMouseMove(handleMouseMove, 15, 25, b, false);
    seen := handleMouseMove.log;
  }
}
