/**
 * The playlist coordinator embedded in the main loop of `App.loop`
 * (pngpet.py): the list of pet states, the active index `i`, the pending
 * jump `new_state_index`, and the active state `png_pet_state`.  Sockets,
 * the window and the frame clock are replaced by explicit inputs: the bytes
 * of each read, the new viewport size of a resize event, and whether the
 * drawing library finished the active animation while drawing it.
 */
module App {
  import opened Wrappers
  import opened Pet
  import Command
  import opened Playlist

  /** An exception the main loop does not catch, ending the program:
      `ValueError` from decoding a malformed command, `IndexError` from
      subscripting the state list with a target below `-len(states)`. */
  datatype Fault = ValueError | IndexError

  /** What one pass of the main loop sees from the outside world. */
  datatype FrameInput = FrameInput(
    received: seq<seq<Command.byte>>, // the bytes of each socket read, in order
    resized: Option<(int, int)>,    // the viewport size of a resize event
    finished: bool,                 // the library ends the active animation while drawing it
    quit: bool)                     // a quit event

  /** The states are distinct, each keeps its own invariant, and they and
      their scaled images lie in `repr`. */
  ghost predicate WellFormed(states: seq<PetState>, repr: set<object>)
    reads states
  {
    |states| >= 1 &&
    (forall j, k :: 0 <= j < k < |states| ==> states[j] != states[k]) &&
    OwnImages(states) &&
    (forall k :: 0 <= k < |states| ==>
      states[k].Valid() && states[k] in repr && states[k].scaledIdle in repr && states[k].scaledChange in repr)
  }

  /** No two states share a scaled image. */
  ghost predicate OwnImages(states: seq<PetState>)
    reads states
  {
    forall j, k :: 0 <= j < |states| && 0 <= k < |states| && j != k ==>
      states[j].scaledIdle != states[k].scaledIdle &&
      states[j].scaledIdle != states[k].scaledChange &&
      states[j].scaledChange != states[k].scaledChange
  }

  /** The states and their scaled images. */
  ghost function Footprint(states: seq<PetState>): (r: set<object>)
    reads states
    ensures forall k :: 0 <= k < |states| ==>
      states[k] in r && states[k].scaledIdle in r && states[k].scaledChange in r
  {
    (set k | 0 <= k < |states| :: states[k]) +
    (set k | 0 <= k < |states| :: states[k].scaledIdle) +
    (set k | 0 <= k < |states| :: states[k].scaledChange)
  }

  /** The commands the reads `received` decode to, in order. */
  function Decoded(received: seq<seq<Command.byte>>): (cmds: seq<Command.Command>)
    ensures |cmds| == |received|
  {
    if received == [] then []
    else Decoded(received[..|received| - 1]) + [Command.Decode(received[|received| - 1])]
  }

  /** Each command of `Decoded` is the decoding of the read at its position,
      and decoding a prefix of the reads gives a prefix of the commands. */
  lemma {:induction false} DecodedPrefix(received: seq<seq<Command.byte>>, m: nat)
    requires m <= |received|
    ensures Decoded(received[..m]) == Decoded(received)[..m]
    ensures m < |received| ==> Decoded(received)[m] == Command.Decode(received[m])
    decreases |received|
  {
    if m < |received| {
      var front := received[..|received| - 1];
      assert received[..m] == front[..m] && received[..m + 1][..m] == received[..m];
      if m < |front| {
        DecodedPrefix(front, m);
        assert front[m] == received[m];
      }
    } else {
      assert received[..m] == received;
    }
  }

  /** A request that passes the range check, so it becomes the pending jump
      and cuts the active animation short. */
  predicate Accepted(cmd: Command.Command, i: int, n: nat)
  {
    cmd.SetState? && Accepts(cmd.target, i, n)
  }

  /** The pending jump after the commands `cmds`, in order, starting from
      `pending`: each `state:<t>` request replaces it as `AfterRequest`
      says, and every other command leaves it alone. */
  function PendingAfter(cmds: seq<Command.Command>, i: int, n: nat, pending: Option<int>): Option<int>
  {
    if cmds == [] then pending
    else
      match cmds[|cmds| - 1]
      case SetState(t) => AfterRequest(t, i, n)
      case _ => PendingAfter(cmds[..|cmds| - 1], i, n, pending)
  }

  /** Whether one of the commands `cmds` is an accepted request, so that the
      active animation has been cut short. */
  function CutShort(cmds: seq<Command.Command>, i: int, n: nat): bool
  {
    if cmds == [] then false
    else CutShort(cmds[..|cmds| - 1], i, n) || Accepted(cmds[|cmds| - 1], i, n)
  }

  /** Commands without any `state:<t>` request leave the pending jump as it was. */
  lemma {:induction false} NoRequestKeepsPending(cmds: seq<Command.Command>, i: int, n: nat, pending: Option<int>)
    requires forall k :: 0 <= k < |cmds| ==> !cmds[k].SetState?
    ensures PendingAfter(cmds, i, n, pending) == pending
    decreases |cmds|
  {
    if cmds != [] {
      var front := cmds[..|cmds| - 1];
      assert forall k :: 0 <= k < |front| ==> front[k] == cmds[k];
      NoRequestKeepsPending(front, i, n, pending);
    }
  }

  /** A pending jump that differs from the initial one was set by one of the
      requests, as `AfterRequest` decides for that request's target. */
  lemma {:induction false} PendingFromRequest(cmds: seq<Command.Command>, i: int, n: nat, pending: Option<int>)
    requires PendingAfter(cmds, i, n, pending) != pending
    ensures exists k :: 0 <= k < |cmds| && cmds[k].SetState? &&
                        PendingAfter(cmds, i, n, pending) == AfterRequest(cmds[k].target, i, n)
    decreases |cmds|
  {
    var last := |cmds| - 1;
    var front := cmds[..last];
    if !cmds[last].SetState? {
      PendingFromRequest(front, i, n, pending);
      var k :| 0 <= k < |front| && front[k].SetState? &&
               PendingAfter(front, i, n, pending) == AfterRequest(front[k].target, i, n);
      assert front[k] == cmds[k];
    }
  }

  /** The active animation is cut short exactly when one of the commands is
      an accepted request. */
  lemma {:induction false} CutShortExactly(cmds: seq<Command.Command>, i: int, n: nat)
    ensures CutShort(cmds, i, n) <==> exists k :: 0 <= k < |cmds| && Accepted(cmds[k], i, n)
    decreases |cmds|
  {
    if cmds != [] {
      var front := cmds[..|cmds| - 1];
      CutShortExactly(front, i, n);
      assert forall k :: 0 <= k < |front| ==> front[k] == cmds[k];
    }
  }

  /** Extending the commands by one: the fold takes one more step. */
  lemma FoldStep(cmds: seq<Command.Command>, m: nat, i: int, n: nat, pending: Option<int>)
    requires m < |cmds|
    ensures PendingAfter(cmds[..m + 1], i, n, pending) ==
      if cmds[m].SetState? then AfterRequest(cmds[m].target, i, n) else PendingAfter(cmds[..m], i, n, pending)
    ensures CutShort(cmds[..m + 1], i, n) == (CutShort(cmds[..m], i, n) || Accepted(cmds[m], i, n))
  {
    assert cmds[..m + 1][..m] == cmds[..m];
  }

  /** Once some prefix of the commands has cut the animation short, all of
      them have. */
  lemma CutShortPrefix(cmds: seq<Command.Command>, m: nat, i: int, n: nat)
    requires m <= |cmds|
    ensures CutShort(cmds[..m], i, n) ==> CutShort(cmds, i, n)
  {
    CutShortExactly(cmds[..m], i, n);
    CutShortExactly(cmds, i, n);
    if CutShort(cmds[..m], i, n) {
      var k :| 0 <= k < m && Accepted(cmds[..m][k], i, n);
      assert Accepted(cmds[k], i, n);
    }
  }

  /** Every state other than `active` rests on its idle animation. */
  ghost predicate RestIdle(states: seq<PetState>, active: PetState)
    reads states
  {
    forall k :: 0 <= k < |states| && states[k] != active ==> states[k].image == states[k].scaledIdle
  }

  /** The index of the first pass that sees a quit event, or the number of
      passes when none does. */
  function QuitAt(frames: seq<FrameInput>): (q: nat)
    ensures q <= |frames|
    ensures forall k :: 0 <= k < q ==> !frames[k].quit
    ensures q < |frames| ==> frames[q].quit
  {
    if frames == [] || frames[0].quit then 0 else 1 + QuitAt(frames[1..])
  }

  class Coordinator {
    const states: seq<PetState>
    var i: int
    var pending: Option<int>
    var active: PetState
    var width: int
    var height: int

    /** Every object the main loop may change: this coordinator, the states
        and their scaled images. */
    ghost var Repr: set<object>

    /** `i` is a valid Python index, the active state is the one it
        denotes, and a pending jump is never the active index and passed the
        range check. */
    ghost predicate Indexed()
      reads this
    {
      PyIndex(i, |states|).Some? && active == states[PyIndex(i, |states|).value] &&
      (pending.None? || (pending.value != i && pending.value < |states|))
    }

    /** The loop invariant of the main loop: the states are well formed and
        indexed as above; the active state has not finished its cycle (so
        `update` cannot raise); every other state rests on its idle
        animation. */
    ghost predicate Valid()
      reads this, states
    {
      this in Repr && WellFormed(states, Repr) && RestIdle(states, active) && Indexed() &&
      !active.ended
    }

    /** Between cycles: as `Valid`, except that the active state may be
        finished, and every state, the active one included, rests on its
        idle animation. */
    ghost predicate Resting()
      reads this, states
    {
      this in Repr && WellFormed(states, Repr) && RestIdle(states, active) && Indexed() &&
      active.image == active.scaledIdle
    }

    /** The active image lies in the footprint. */
    lemma ActiveImageInRepr()
      requires Valid()
      ensures active.image in Repr
    {
      var k := PyIndex(i, |states|).value;
      assert states[k].scaledIdle in Repr && states[k].scaledChange in Repr;
    }

    /** Whether the next `update` finishes the active state's cycle: its
        change animation is playing and has ended. */
    ghost predicate CycleEnds()
      requires Valid()
      reads this, states, active.image
    {
      Next(active.Phase(), active.image.ended) == Some(Done)
    }

    /** The start of the main loop: state 0 active, no jump pending, the
        viewport as the window reports it. */
    constructor (states: seq<PetState>, width: int, height: int)
      requires |states| >= 1
      requires forall j, k :: 0 <= j < k < |states| ==> states[j] != states[k]
      requires OwnImages(states)
      requires forall k :: 0 <= k < |states| ==> states[k].Valid() && states[k].image == states[k].scaledIdle
      requires !states[0].ended
      ensures Valid()
      ensures this.states == states && i == 0 && pending == None && active == states[0]
      ensures this.width == width && this.height == height
      ensures Repr == {this} + Footprint(states)
    {
      this.states := states;
      i := 0;
      pending := None;
      active := states[0];
      this.width := width;
      this.height := height;
      Repr := {this} + Footprint(states);
    }

    /** One socket read (pngpet.py:263-275): decode it, then act on it as
        `Request` says.  A read without a colon or with a non-integer body
        raises `ValueError`. */
    method Receive(data: seq<Command.byte>) returns (fault: Option<Fault>)
      requires Valid()
      modifies this, active.image
      ensures fault.None? ==> Valid()
      ensures fault == Some(ValueError) <==> Command.Decode(data).Malformed?
      ensures fault.None? || fault == Some(ValueError)
      ensures i == old(i) && active == old(active) && width == old(width) && height == old(height)
      ensures Repr == old(Repr)
      ensures Command.Decode(data).SetState? ==> pending == AfterRequest(Command.Decode(data).target, i, |states|)
      ensures !Command.Decode(data).SetState? ==> pending == old(pending)
      ensures Command.Decode(data).SetState? && pending.Some? ==>
        active.image.loopCount == active.image.loopLimit && active.image.ended == old(active.image.ended)
      ensures !(Command.Decode(data).SetState? && pending.Some?) ==> unchanged(active.image)
    {
      var cmd := Command.Decode(data);
      fault := Request(cmd);
    }

    /** Acting on one decoded read (pngpet.py:267-275).  A `state:<t>`
        request whose target passes the range check becomes the pending jump
        and cuts the active animation short; a rejected one clears the
        pending jump and leaves the animation alone.  An unknown keyword and
        a closed connection change nothing. */
    method Request(cmd: Command.Command) returns (fault: Option<Fault>)
      requires Valid()
      modifies this, active.image
      ensures fault.None? ==> Valid()
      ensures fault == Some(ValueError) <==> cmd.Malformed?
      ensures fault.None? || fault == Some(ValueError)
      ensures i == old(i) && active == old(active) && width == old(width) && height == old(height)
      ensures Repr == old(Repr)
      ensures cmd.SetState? ==> pending == AfterRequest(cmd.target, i, |states|)
      ensures !cmd.SetState? ==> pending == old(pending)
      ensures cmd.SetState? && pending.Some? ==>
        active.image.loopCount == active.image.loopLimit && active.image.ended == old(active.image.ended)
      ensures !(cmd.SetState? && pending.Some?) ==> unchanged(active.image)
    {
      match cmd
      case SetState(t) =>
        pending := AfterRequest(t, i, |states|);
        if pending.Some? {
          active.EndLoop();
        }
        fault := None;
      case Malformed =>
        fault := Some(ValueError);
      case Unknown =>
        fault := None;
      case Closed =>
        fault := None;
    }

    /** The cycle boundary (pngpet.py:284-297): `update` the active state;
        if that finishes its cycle, switch states as `Switch` does.
        `update` itself never raises here. */
    method Tick() returns (fault: Option<Fault>)
      requires Valid()
      modifies Repr
      ensures fault.None? || fault == Some(IndexError)
      ensures width == old(width) && height == old(height)
      ensures !old(CycleEnds()) ==>
        fault.None? && Valid() &&
        i == old(i) && pending == old(pending) && active == old(active) &&
        active.Phase() == Next(old(active.Phase()), old(active.image.ended)).value &&
        active.lastResizeReq == old(active.lastResizeReq) &&
        active.scaledIdle == old(active.scaledIdle) && active.scaledChange == old(active.scaledChange) &&
        unchanged(active.scaledIdle, active.scaledChange)
      ensures forall k :: 0 <= k < |states| && states[k] != old(active) && states[k] != active ==>
        unchanged(states[k]) && unchanged(states[k].scaledIdle, states[k].scaledChange)
      ensures old(CycleEnds()) ==>
        (i, pending) == Advance(old(i), old(pending), |states|) &&
        (fault.Some? <==> PyIndex(i, |states|).None?)
      ensures old(CycleEnds()) && active != old(active) ==> old(active).ended
      ensures old(CycleEnds()) && fault.None? ==>
        Valid() && active == states[PyIndex(i, |states|).value] &&
        active.Phase() == Idle && active.lastResizeReq == (width, height) &&
        active.ScaledTo(width, height) &&
        active.scaledIdle.loopCount == 0 && !active.scaledIdle.ended &&
        active.scaledChange.loopCount == 0 && !active.scaledChange.ended
      ensures fresh(Repr - old(Repr))
    {
      var raised := active.Update();
      assert !raised;
      if active.ended {
        fault := Switch();
      } else {
        fault := None;
      }
    }

    /** The switch after a finished cycle (pngpet.py:285-297): move to the
        pending target, or else to the next index, wrapping to 0; forget the
        pending jump; resize the new active state to the viewport and restart
        it.  Subscripting with a target below `-len(states)` raises
        `IndexError`.  The state that finished keeps its `ended` flag. */
    method Switch() returns (fault: Option<Fault>)
      requires Resting() && active.ended
      modifies Repr
      ensures fault.None? || fault == Some(IndexError)
      ensures width == old(width) && height == old(height)
      ensures (i, pending) == Advance(old(i), old(pending), |states|)
      ensures fault.Some? <==> PyIndex(i, |states|).None?
      ensures active != old(active) ==> old(active).ended
      ensures fault.None? ==>
        Valid() && active == states[PyIndex(i, |states|).value] &&
        active.Phase() == Idle && active.lastResizeReq == (width, height) &&
        active.ScaledTo(width, height) &&
        active.scaledIdle.loopCount == 0 && !active.scaledIdle.ended &&
        active.scaledChange.loopCount == 0 && !active.scaledChange.ended
      ensures forall k :: 0 <= k < |states| && states[k] != active ==>
        unchanged(states[k]) && unchanged(states[k].scaledIdle, states[k].scaledChange)
      ensures fresh(Repr - old(Repr))
    {
      var next := Advance(i, pending, |states|);
      i, pending := next.0, next.1;
      var k := PyIndex(i, |states|);
      if k.None? {
        return Some(IndexError);
      }
      active := states[k.value];
      Restart();
      fault := None;
    }

    /** Restarting the new active state (pngpet.py:294-297): resize it to the
        viewport, then clear its `ended` flag, which also rewinds both its
        scaled animations. */
    method Restart()
      requires Resting()
      modifies Repr
      ensures Valid()
      ensures i == old(i) && pending == old(pending) && active == old(active)
      ensures width == old(width) && height == old(height)
      ensures active.Phase() == Idle && active.lastResizeReq == (width, height)
      ensures active.ScaledTo(width, height)
      ensures active.scaledIdle.loopCount == 0 && !active.scaledIdle.ended
      ensures active.scaledChange.loopCount == 0 && !active.scaledChange.ended
      ensures forall k :: 0 <= k < |states| && states[k] != active ==>
        unchanged(states[k]) && unchanged(states[k].scaledIdle, states[k].scaledChange)
      ensures fresh(Repr - old(Repr))
    {
      Rescale();
      Rewind();
    }

    /** `png_pet_state.resize(s_width, s_height)` for the active state: it
        is rescaled to the recorded viewport, and no other state changes. */
    method Rescale()
      requires this in Repr && WellFormed(states, Repr) && RestIdle(states, active) && Indexed()
      modifies this, active
      ensures this in Repr && WellFormed(states, Repr) && RestIdle(states, active) && Indexed()
      ensures i == old(i) && pending == old(pending) && active == old(active)
      ensures width == old(width) && height == old(height)
      ensures active.ended == old(active.ended) && active.Phase() == old(active.Phase())
      ensures (active.image == active.scaledIdle) == old(active.image == active.scaledIdle)
      ensures active.lastResizeReq == (width, height) && active.ScaledTo(width, height)
      ensures old(active.lastResizeReq) != (width, height) ==>
        IsScaledCopy(active.scaledIdle, active.origIdle, width, height) &&
        IsScaledCopy(active.scaledChange, active.origChange, width, height)
      ensures old(active.lastResizeReq) == (width, height) ==>
        active.scaledIdle == old(active.scaledIdle) && active.scaledChange == old(active.scaledChange) &&
        unchanged(active.scaledIdle, active.scaledChange)
      ensures fresh(Repr - old(Repr))
    {
      active.Resize(width, height);
      Repr := Repr + {active.scaledIdle, active.scaledChange};
    }

    /** `png_pet_state.ended = False` for the active state: the flag is
        cleared and both its scaled animations are rewound; no other state
        and no other state's image changes. */
    method Rewind()
      requires Resting()
      modifies active, active.scaledIdle, active.scaledChange
      ensures Valid()
      ensures active.Phase() == Idle && active.lastResizeReq == old(active.lastResizeReq)
      ensures active.scaledIdle == old(active.scaledIdle) && active.scaledChange == old(active.scaledChange)
      ensures active.scaledIdle.loopCount == 0 && !active.scaledIdle.ended
      ensures active.scaledChange.loopCount == 0 && !active.scaledChange.ended
      ensures forall k :: 0 <= k < |states| && states[k] != active ==>
        unchanged(states[k]) && unchanged(states[k].scaledIdle, states[k].scaledChange)
    {
      active.SetEnded(false);
    }

    /** A resize event (pngpet.py:304-307): the viewport size is recorded and
        only the active state is rescaled; the others catch up when they
        next become active. */
    method ViewportResized(w: int, h: int)
      requires Valid()
      modifies this, active
      ensures Valid()
      ensures width == w && height == h
      ensures i == old(i) && pending == old(pending) && active == old(active)
      ensures active.Phase() == old(active.Phase()) && active.lastResizeReq == (w, h)
      ensures active.ScaledTo(w, h)
      ensures old(active.lastResizeReq) != (w, h) ==>
        IsScaledCopy(active.scaledIdle, active.origIdle, w, h) &&
        IsScaledCopy(active.scaledChange, active.origChange, w, h)
      ensures old(active.lastResizeReq) == (w, h) ==>
        active.scaledIdle == old(active.scaledIdle) && active.scaledChange == old(active.scaledChange) &&
        unchanged(active.scaledIdle, active.scaledChange)
      ensures fresh(Repr - old(Repr))
    {
      width, height := w, h;
      Rescale();
    }

    /** Drawing the active state: the library may finish its animation. */
    method Draw(finished: bool)
      requires Valid()
      modifies active.image
      ensures Valid()
      ensures active.image.ended == (old(active.image.ended) || finished)
      ensures active.image.loopCount == old(active.image.loopCount)
    {
      if finished {
        active.image.ended := true;
      }
    }

    /** Read `n` of a pass, handled as `Receive` does, with the pending
        jump after the reads before it, from `start`, moved on by this one. */
    method ReceiveNext(received: seq<seq<Command.byte>>, n: nat, ghost start: Option<int>) returns (fault: Option<Fault>)
      requires Valid() && n < |received|
      requires pending == PendingAfter(Decoded(received)[..n], i, |states|, start)
      modifies this, active.image
      ensures fault == Some(ValueError) <==> Decoded(received)[n].Malformed?
      ensures fault.None? || fault == Some(ValueError)
      ensures fault.None? ==> Valid()
      ensures i == old(i) && active == old(active) && width == old(width) && height == old(height)
      ensures Repr == old(Repr)
      ensures fault.None? ==> pending == PendingAfter(Decoded(received)[..n + 1], i, |states|, start)
      ensures fault.Some? ==> pending == old(pending)
      ensures active.image.ended == old(active.image.ended)
      ensures Accepted(Decoded(received)[n], i, |states|) ==> active.image.loopCount == active.image.loopLimit
      ensures !Accepted(Decoded(received)[n], i, |states|) ==> unchanged(active.image)
    {
      DecodedPrefix(received, n);
      FoldStep(Decoded(received), n, i, |states|, start);
      ActiveImageInRepr();
      fault := Receive(received[n]);
    }

    /** The reads of one pass, in order; the first malformed one raises
        `ValueError` and the rest are not looked at. */
    method ReceiveAll(received: seq<seq<Command.byte>>) returns (fault: Option<Fault>)
      requires Valid()
      modifies this, active.image
      ensures fault.None? ==> Valid()
      ensures fault.None? || fault == Some(ValueError)
      ensures fault == Some(ValueError) <==>
        exists k :: 0 <= k < |received| && Decoded(received)[k].Malformed?
      ensures i == old(i) && active == old(active) && width == old(width) && height == old(height)
      ensures Repr == old(Repr)
      ensures fault.None? ==> pending == PendingAfter(Decoded(received), i, |states|, old(pending))
      ensures fault.Some? ==>
        exists m :: 0 <= m < |received| && Decoded(received)[m].Malformed? &&
                    pending == PendingAfter(Decoded(received)[..m], i, |states|, old(pending))
      ensures active.image.ended == old(active.image.ended)
      ensures fault.None? && CutShort(Decoded(received), i, |states|) ==>
        active.image.loopCount == active.image.loopLimit
      ensures !CutShort(Decoded(received), i, |states|) ==> unchanged(active.image)
    {
      ghost var cmds := Decoded(received);
      fault := None;
      for n := 0 to |received|
        invariant Valid()
        invariant fault.None? && Repr == old(Repr)
        invariant i == old(i) && active == old(active) && width == old(width) && height == old(height)
        invariant pending == PendingAfter(cmds[..n], i, |states|, old(pending))
        invariant forall k :: 0 <= k < n ==> !cmds[k].Malformed?
        invariant active.image.ended == old(active.image.ended)
        invariant CutShort(cmds[..n], i, |states|) ==> active.image.loopCount == active.image.loopLimit
        invariant !CutShort(cmds[..n], i, |states|) ==> unchanged(active.image)
      {
        FoldStep(cmds, n, i, |states|, old(pending));
        fault := ReceiveNext(received, n, old(pending));
        if fault.Some? {
          CutShortPrefix(cmds, n + 1, i, |states|);
          return;
        }
      }
      assert cmds[..|received|] == cmds;
    }

    /** One pass of the main loop: the reads, the cycle boundary, a resize
        event, then drawing.  Without a fault the loop invariant holds
        again. */
    method Frame(input: FrameInput) returns (fault: Option<Fault>)
      requires Valid()
      modifies Repr
      ensures fault.None? ==> Valid()
      ensures fault == Some(ValueError) <==>
        exists k :: 0 <= k < |input.received| && Decoded(input.received)[k].Malformed?
      ensures fresh(Repr - old(Repr))
    {
      ActiveImageInRepr();
      fault := ReceiveAll(input.received);
      if fault.Some? {
        return;
      }
      fault := Tick();
      if fault.Some? {
        return;
      }
      Present(input.resized, input.finished);
    }

    /** The rest of a pass (pngpet.py:299-315): a resize event, if any, then
        drawing the active state. */
    method Present(resized: Option<(int, int)>, finished: bool)
      requires Valid()
      modifies Repr
      ensures Valid()
      ensures fresh(Repr - old(Repr))
    {
      if resized.Some? {
        ViewportResized(resized.value.0, resized.value.1);
      }
      ActiveImageInRepr();
      Draw(finished);
    }

    /** The main loop, `while running`, over a finite run of passes: it stops
        after a pass that saw a quit event, or at the first fault.  At the top
        of every pass the loop invariant `Valid` holds, so the active state
        has not finished (the `update` call cannot raise) and a pending jump
        is never the active index. */
    method Run(frames: seq<FrameInput>) returns (fault: Option<Fault>, passes: nat)
      requires Valid()
      modifies Repr
      ensures passes <= |frames|
      ensures forall k :: 0 <= k < passes - 1 ==> !frames[k].quit
      ensures fault.Some? ==> passes >= 1
      ensures fault.None? ==> Valid() && (passes == |frames| || (passes >= 1 && frames[passes - 1].quit))
      ensures fresh(Repr - old(Repr))
    {
      fault, passes := None, 0;
      var running := true;
      while running && passes < |frames|
        invariant passes <= |frames|
        invariant fault.None? && Valid()
        invariant running <==> passes <= QuitAt(frames)
        invariant passes <= QuitAt(frames) + 1
        invariant fresh(Repr - old(Repr))
        decreases |frames| - passes
      {
        fault := Frame(frames[passes]);
        passes := passes + 1;
        if fault.Some? {
          return;
        }
        running := !frames[passes - 1].quit;
      }
    }
  }
}
