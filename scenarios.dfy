/**
 * Concrete runs of the coordinator: a few passes of the main loop of
 * pngpet.py with fixed inputs, and what the active index does.
 */
module Scenarios {
  import opened Wrappers
  import opened Pet
  import Command
  import opened App

  /** The drawing and cycle-boundary steps of two passes with no reads,
      called directly: the library finishes the idle animation, then the
      change animation, and the coordinator switches states as `Advance`
      says. */
  method PlayCycle(c: Coordinator) returns (fault: Option<Fault>)
    requires c.Valid() && c.active.Phase() == Idle
    modifies c.Repr
    ensures (c.i, c.pending) == Playlist.Advance(old(c.i), old(c.pending), |c.states|)
    ensures fault.None? || fault == Some(IndexError)
    ensures fault.None? <==> Playlist.PyIndex(c.i, |c.states|).Some?
    ensures fault.None? ==> c.Valid() && c.active.Phase() == Idle
    ensures fresh(c.Repr - old(c.Repr))
  {
    c.ActiveImageInRepr();
    c.Draw(true);
    fault := c.Tick();
    c.ActiveImageInRepr();
    c.Draw(true);
    fault := c.Tick();
  }

  /** Two states and no commands: each state plays its idle animation to
      the end, then its change animation, and the other state takes over,
      so the active index goes 0, 1, 0. */
  method TwoStatesTakeTurns(c: Coordinator) returns (order: seq<int>)
    requires c.Valid() && |c.states| == 2 && c.i == 0 && c.pending == None && c.active.Phase() == Idle
    modifies c.Repr
    ensures order == [0, 1, 0]
  {
    var first := c.i;
    var fault := PlayCycle(c);
    var second := c.i;
    fault := PlayCycle(c);
    order := [first, second, c.i];
  }

  /** A read that decodes to `state:2` while state 0 of three plays: the request is
      accepted, the active animation is cut short, and at the end of the
      cycle state 2 takes over with no jump left pending. */
  method JumpOnRequest(c: Coordinator, request: seq<Command.byte>) returns (order: seq<int>, cut: bool)
    requires Command.Decode(request) == Command.SetState(2)
    requires c.Valid() && |c.states| == 3 && c.i == 0 && c.pending == None && c.active.Phase() == Idle
    modifies c.Repr
    ensures cut && order == [0, 2]
  {
    var first := c.i;
    c.ActiveImageInRepr();
    var fault := c.Receive(request);
    cut := c.active.image.loopCount == c.active.image.loopLimit;
    fault := PlayCycle(c);
    order := [first, c.i];
  }

  /** A read that decodes to `state:-2` while state 0 of two plays passes the range
      check, since it is not the active index, yet names the same state:
      the active state is cut short and then played again. */
  method NegativeAliasReplays(c: Coordinator, request: seq<Command.byte>) returns (order: seq<int>, same: bool)
    requires Command.Decode(request) == Command.SetState(-2)
    requires c.Valid() && |c.states| == 2 && c.i == 0 && c.pending == None && c.active.Phase() == Idle
    modifies c.Repr
    ensures order == [0, -2] && same
  {
    var first, before := c.i, c.active;
    c.ActiveImageInRepr();
    var fault := c.Receive(request);
    fault := PlayCycle(c);
    order := [first, c.i];
    same := c.active == before;
  }

  /** A read that decodes to `state:-3` with two states passes the range check, but at
      the end of the cycle `states[-3]` raises `IndexError`. */
  method TooNegativeCrashes(c: Coordinator, request: seq<Command.byte>) returns (fault: Option<Fault>)
    requires Command.Decode(request) == Command.SetState(-3)
    requires c.Valid() && |c.states| == 2 && c.i == 0 && c.pending == None && c.active.Phase() == Idle
    modifies c.Repr
    ensures fault == Some(IndexError)
  {
    c.ActiveImageInRepr();
    fault := c.Receive(request);
    fault := PlayCycle(c);
  }
}
