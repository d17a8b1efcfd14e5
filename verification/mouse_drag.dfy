/**
 * The one-off drag session that `registerMouseEvent` installs on mousedown
 * (src/registerMouseEvent.ts).
 *
 * The closure variables `isDone`, `moveEvent` and `movementSum`, the three
 * window listeners, the pending `setTimeout` and the pending animation frame
 * become one immutable state record. Browser events, animation frames and the
 * timer become an explicit input sequence; the `move` and `up` callbacks
 * become an output sequence.
 */
module MouseDrag {

  /** A mouse movement, `{ x, y }` in CSS pixels. */
  datatype Delta = Delta(x: real, y: real)
  {
    function Plus(d: Delta): Delta { Delta(x + d.x, y + d.y) }
  }

  const Zero := Delta(0.0, 0.0)

  /** What the browser delivers to the session. */
  datatype Input =
    | Frame                 // an animation frame runs `update`
    | MouseMove(d: Delta)   // a `mousemove` with `movementX/Y`
    | MouseUp               // a `mouseup`
    | MouseDown             // a `mousedown`
    | Timer                  // the zero-delay `setTimeout` fires

  /** A call of one of the session's callbacks. */
  datatype Output =
    | Moved(sum: Delta)     // `move(moveEvent, movementSum)`
    | Released              // `up(event)`

  /**
   * The session: whether an `up` callback was given, `isDone`, whether a
   * `moveEvent` is pending, `movementSum`, which of the three listeners are
   * attached, whether the timer that attaches the mousedown listener is still
   * pending, and whether an animation frame is scheduled.
   */
  datatype Session = Session(
    hasUp: bool,
    isDone: bool,
    pending: bool,
    sum: Delta,
    moveListening: bool,
    upListening: bool,
    downListening: bool,
    timerPending: bool,
    frameScheduled: bool)

  /**
   * `registerMouseEvent(move, up?)`: the first `update()` runs synchronously
   * (no move is pending, so it only schedules a frame); the move and up
   * listeners are attached and the mousedown listener waits for the timer.
   * `hasUp` says whether the optional `up` callback was passed.
   */
  function Register(hasUp: bool): (s: Session)
    ensures s.hasUp == hasUp
    ensures !s.isDone && !s.pending && s.sum == Zero
    ensures s.moveListening && s.upListening && !s.downListening
    ensures s.timerPending && s.frameScheduled
    ensures Inv(s)
  {
    Session(hasUp, false, false, Zero, true, true, false, true, true)
  }

  /**
   * `upt`: calls `up`, when one was given, only the first time; marks the
   * session done; and detaches all three listeners whatever the state.
   */
  function Release(s: Session): (r: (Session, seq<Output>))
    ensures r.0.isDone && !r.0.moveListening && !r.0.upListening && !r.0.downListening
    ensures r.1 == (if s.isDone || !s.hasUp then [] else [Released])
    ensures r.0.pending == s.pending && r.0.sum == s.sum && r.0.hasUp == s.hasUp
    ensures r.0.timerPending == s.timerPending && r.0.frameScheduled == s.frameScheduled
  {
    (s.(isDone := true, moveListening := false, upListening := false, downListening := false),
     if !s.isDone && s.hasUp then [Released] else [])
  }

  /** One input: the new state and the callbacks it triggered, in order. */
  function Step(s: Session, i: Input): (r: (Session, seq<Output>))
    ensures |r.1| <= 1
    ensures r.0.isDone <== s.isDone
    ensures r.0.hasUp == s.hasUp
  {
    match i
    case Frame =>
      if !s.frameScheduled then (s, [])
      else if s.isDone then (s.(frameScheduled := false), [])
      else if s.pending then (s.(pending := false, sum := Zero), [Moved(s.sum)])
      else (s, [])
    case MouseMove(d) =>
      if s.moveListening then (s.(pending := true, sum := s.sum.Plus(d)), []) else (s, [])
    case MouseUp =>
      if s.upListening then Release(s) else (s, [])
    case MouseDown =>
      if s.downListening then Release(s) else (s, [])
    case Timer =>
      if s.timerPending then (s.(timerPending := false, downListening := true), []) else (s, [])
  }

  /** A sequence of inputs, outputs concatenated in order. */
  function Run(s: Session, ins: seq<Input>): (r: (Session, seq<Output>))
    decreases |ins|
  {
    if ins == [] then (s, [])
    else
      var first := Step(s, ins[0]);
      var rest := Run(first.0, ins[1..]);
      (rest.0, first.1 + rest.1)
  }

  // ------------------------------------------------------- reference notions

  /** The session's reachable shape: listening and framing exactly while not done. */
  predicate Inv(s: Session) {
    (!s.isDone ==> s.moveListening && s.upListening && s.frameScheduled) &&
    (s.isDone ==> !s.moveListening && !s.upListening) &&
    (!s.pending ==> s.sum == Zero)
  }

  /** The sum of all movements in an input sequence. */
  function Moves(ins: seq<Input>): (d: Delta)
    decreases |ins|
  {
    if ins == [] then Zero
    else if ins[0].MouseMove? then ins[0].d.Plus(Moves(ins[1..]))
    else Moves(ins[1..])
  }

  /** The sum of all movement sums handed to `move`. */
  function Delivered(os: seq<Output>): (d: Delta)
    decreases |os|
  {
    if os == [] then Zero
    else if os[0].Moved? then os[0].sum.Plus(Delivered(os[1..]))
    else Delivered(os[1..])
  }

  /** How many times `up` was called. */
  function Releases(os: seq<Output>): (n: nat)
    decreases |os|
  {
    if os == [] then 0
    else (if os[0].Released? then 1 else 0) + Releases(os[1..])
  }

  lemma {:induction false} DeliveredAppend(a: seq<Output>, b: seq<Output>)
    ensures Delivered(a + b) == Delivered(a).Plus(Delivered(b))
    ensures Releases(a + b) == Releases(a) + Releases(b)
    decreases |a|
  {
    if a != [] {
      assert (a + b)[1..] == a[1..] + b;
      DeliveredAppend(a[1..], b);
    } else {
      assert a + b == b;
    }
  }

  // ------------------------------------------------------------------ lemmas

  /** The movement an input carries. */
  function MoveOf(i: Input): (d: Delta)
  {
    if i.MouseMove? then i.d else Zero
  }

  /** Once done, always done; whether `up` was given never changes. */
  lemma {:induction false} RunKeepsDone(s: Session, ins: seq<Input>)
    ensures s.isDone ==> Run(s, ins).0.isDone
    ensures Run(s, ins).0.hasUp == s.hasUp
    decreases |ins|
  {
    if ins != [] {
      RunKeepsDone(Step(s, ins[0]).0, ins[1..]);
    }
  }

  /** One input conserves movement: delivered plus pending grows by exactly what the input moved. */
  lemma StepConserves(s: Session, i: Input)
    requires Inv(s) && !Step(s, i).0.isDone
    ensures Delivered(Step(s, i).1).Plus(Step(s, i).0.sum) == s.sum.Plus(MoveOf(i))
  {
    var r := Step(s, i);
    if r.1 != [] {
      assert r.1[1..] == [];
    }
  }

  /** Each input keeps the session in its reachable shape. */
  lemma StepKeepsInv(s: Session, i: Input)
    requires Inv(s)
    ensures Inv(Step(s, i).0)
  {
  }

  /** While the session runs, every movement is added to `movementSum` and marks a move pending. */
  lemma MoveAccumulates(s: Session, d: Delta)
    requires Inv(s) && !s.isDone
    ensures Step(s, MouseMove(d)).0.sum == s.sum.Plus(d)
    ensures Step(s, MouseMove(d)).0.pending
    ensures Step(s, MouseMove(d)).1 == []
  {
  }

  /** A frame with a pending move calls `move` once with the accumulated sum, then resets it. */
  lemma FrameFlushes(s: Session)
    requires Inv(s) && !s.isDone && s.pending
    ensures Step(s, Frame).1 == [Moved(s.sum)]
    ensures Step(s, Frame).0.sum == Zero && !Step(s, Frame).0.pending
    ensures Step(s, Frame).0.frameScheduled
  {
  }

  /** A frame with no pending move calls nothing and changes nothing. */
  lemma FrameIdle(s: Session)
    requires !s.pending
    ensures Step(s, Frame).1 == []
    ensures Step(s, Frame).0.pending == s.pending && Step(s, Frame).0.sum == s.sum
  {
  }

  /**
   * Conservation: as long as the session has not finished, the movements
   * handed to `move` plus the current `movementSum` add up to the sum it
   * started with plus every movement received.
   */
  lemma {:induction false} Conservation(s: Session, ins: seq<Input>)
    requires Inv(s)
    ensures var r := Run(s, ins);
            !r.0.isDone ==> Delivered(r.1).Plus(r.0.sum) == s.sum.Plus(Moves(ins))
    decreases |ins|
  {
    if ins != [] {
      var first := Step(s, ins[0]);
      var rest := Run(first.0, ins[1..]);
      assert Run(s, ins) == (rest.0, first.1 + rest.1);
      if !rest.0.isDone {
        StepKeepsInv(s, ins[0]);
        RunKeepsDone(first.0, ins[1..]);
        Conservation(first.0, ins[1..]);
        ConservationGlue(s, ins[0], rest, Moves(ins[1..]));
      }
    }
  }

  /** One input followed by a run that conserved movement conserves movement. */
  lemma ConservationGlue(s: Session, i: Input, rest: (Session, seq<Output>), later: Delta)
    requires Inv(s) && !Step(s, i).0.isDone
    requires Delivered(rest.1).Plus(rest.0.sum) == Step(s, i).0.sum.Plus(later)
    ensures Delivered(Step(s, i).1 + rest.1).Plus(rest.0.sum) == s.sum.Plus(MoveOf(i).Plus(later))
  {
    var first := Step(s, i);
    StepConserves(s, i);
    DeliveredAppend(first.1, rest.1);
    PlusRegroup(Delivered(first.1), Delivered(rest.1), rest.0.sum, first.0.sum, s.sum, MoveOf(i), later);
  }

  /** The regrouping step of `Conservation`, on its own. */
  lemma PlusRegroup(d1: Delta, d2: Delta, p2: Delta, p1: Delta, p0: Delta, m1: Delta, m2: Delta)
    requires d1.Plus(p1) == p0.Plus(m1) && d2.Plus(p2) == p1.Plus(m2)
    ensures d1.Plus(d2).Plus(p2) == p0.Plus(m1.Plus(m2))
  {
  }

  /** From registration on: what was delivered plus what is still pending is all the movement. */
  lemma SessionConservation(hasUp: bool, ins: seq<Input>)
    ensures var r := Run(Register(hasUp), ins);
            !r.0.isDone ==> Delivered(r.1).Plus(r.0.sum) == Moves(ins)
  {
    Conservation(Register(hasUp), ins);
  }

  /**
   * `up` is called exactly once if one was given and the session finished
   * during the run, and never otherwise.
   */
  lemma {:induction false} ReleasedOnce(s: Session, ins: seq<Input>)
    ensures var r := Run(s, ins);
            Releases(r.1) == (if r.0.isDone && !s.isDone && s.hasUp then 1 else 0)
    decreases |ins|
  {
    if ins != [] {
      var first := Step(s, ins[0]);
      var rest := Run(first.0, ins[1..]);
      assert Run(s, ins) == (rest.0, first.1 + rest.1);
      ReleasedOnce(first.0, ins[1..]);
      RunKeepsDone(first.0, ins[1..]);
      DeliveredAppend(first.1, rest.1);
      StepReleases(s, ins[0]);
    }
  }

  /** One input calls `up` exactly when it finishes the session and `up` was given. */
  lemma StepReleases(s: Session, i: Input)
    ensures Releases(Step(s, i).1) == (if Step(s, i).0.isDone && !s.isDone && s.hasUp then 1 else 0)
  {
    var r := Step(s, i);
    if r.1 != [] {
      assert r.1[1..] == [];
    }
  }

  /** Once done, nothing reaches the callbacks again and the session stays done. */
  lemma {:induction false} DoneIsInert(s: Session, ins: seq<Input>)
    requires Inv(s) && s.isDone
    ensures Run(s, ins).1 == [] && Run(s, ins).0.isDone
    ensures !Run(s, ins).0.moveListening && !Run(s, ins).0.upListening
    decreases |ins|
  {
    if ins != [] {
      StepKeepsInv(s, ins[0]);
      DoneIsInert(Step(s, ins[0]).0, ins[1..]);
    }
  }

  /** Nothing follows `up` in the callback sequence: after `Released` no `move` call can come. */
  lemma {:induction false} NothingAfterRelease(s: Session, ins: seq<Input>, k: nat)
    requires Inv(s)
    requires k < |Run(s, ins).1| && Run(s, ins).1[k] == Released
    ensures k == |Run(s, ins).1| - 1
    decreases |ins|
  {
    if ins != [] {
      var first := Step(s, ins[0]);
      var rest := Run(first.0, ins[1..]);
      StepKeepsInv(s, ins[0]);
      if k < |first.1| {
        assert first.1 == [Released] && first.0.isDone;
        DoneIsInert(first.0, ins[1..]);
      } else {
        assert rest.1[k - |first.1|] == Run(s, ins).1[k];
        NothingAfterRelease(first.0, ins[1..], k - |first.1|);
      }
    }
  }

  /** A movement still pending when the button is released is never delivered. */
  lemma PendingDroppedOnRelease(s: Session, d: Delta)
    requires Inv(s) && !s.isDone
    ensures var r := Run(s, [MouseMove(d), MouseUp, Frame]);
            r.1 == (if s.hasUp then [Released] else []) && r.0.pending && !r.0.frameScheduled
  {
    var s1 := Step(s, MouseMove(d)).0;
    var s2 := Step(s1, MouseUp).0;
    assert Run(s2, [Frame]) == (s2.(frameScheduled := false), []);
    assert [MouseMove(d), MouseUp, Frame][1..] == [MouseUp, Frame];
    assert [MouseUp, Frame][1..] == [Frame];
  }

  /**
   * If the button is released before the timer fires, the mousedown listener
   * is attached anyway; the next mousedown calls nothing and detaches it.
   */
  lemma LateDownListenerHarmless(s: Session)
    requires Inv(s) && s.isDone && s.timerPending
    ensures var r := Run(s, [Timer, MouseDown]);
            r.1 == [] && !r.0.downListening && !r.0.timerPending
  {
    assert [Timer, MouseDown][1..] == [MouseDown];
  }

  /** A session registered without `up` never calls it, whatever the inputs. */
  lemma NoUpNeverReleases(ins: seq<Input>)
    ensures Releases(Run(Register(false), ins).1) == 0
  {
    ReleasedOnce(Register(false), ins);
  }
}
