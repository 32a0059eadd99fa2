/**
 * One pet state (`PNGPetState` in pngpet.py, wrapped one-to-one by its
 * `StateGroup`): an idle animation that loops until it ends, then a one-shot
 * change animation, then the cycle is over.
 *
 * The animated images come from a foreign library; here each is an abstract
 * record (`Image`) with a size, a loop counter and limit, an `ended` flag that
 * the library's frame clock sets, and a reset operation.
 */
module Pet {
  import opened Wrappers
  import Scaling

  /** The window size every state is first scaled to (`SCREEN_WIDTH`, `SCREEN_HEIGHT`). */
  const ScreenWidth: int := 800
  const ScreenHeight: int := 600

  /** The loop count the idle animation is loaded with. */
  const IdleLoops: int := 40

  /** The loop count the change animation is loaded with (the library default). */
  const ChangeLoops: int := 0

  // ---------------------------------------------------------------------------
  // The cycle, as a pure specification

  /** Where a state is in its cycle: playing idle, playing change, or finished. */
  datatype Phase = Idle | Change | Done

  function Rank(p: Phase): nat
  {
    match p
    case Idle => 0
    case Change => 1
    case Done => 2
  }

  /** The phase after one call of `update`, when the active image reports
      `activeEnded`; `None` when `update` raises `EndedException`. */
  function Next(p: Phase, activeEnded: bool): (r: Option<Phase>)
    ensures r.None? <==> p == Done
    ensures r.Some? ==> Rank(p) <= Rank(r.value) <= Rank(p) + 1
    ensures r.Some? && r.value != p ==> activeEnded
    ensures r.Some? && activeEnded ==> Rank(r.value) == Rank(p) + 1
  {
    match p
    case Done => None
    case Idle => Some(if activeEnded then Change else Idle)
    case Change => Some(if activeEnded then Done else Change)
  }

  /** The phases seen after each of a run of `update` calls, where `ends[k]`
      is what the active image reports at the k-th call; the run stops once
      the cycle is finished, since a further call would raise. */
  function Trace(p: Phase, ends: seq<bool>): seq<Phase>
    decreases |ends|
  {
    if ends == [] || p == Done then []
    else
      var q := Next(p, ends[0]).value;
      [q] + Trace(q, ends[1..])
  }

  /** A run never goes back: ranks along the trace never decrease, start no
      lower than the starting phase, and every step moves at most one phase. */
  lemma {:induction false} TraceMonotone(p: Phase, ends: seq<bool>)
    ensures |Trace(p, ends)| <= |ends|
    ensures forall k :: 0 <= k < |Trace(p, ends)| ==> Rank(p) <= Rank(Trace(p, ends)[k])
    ensures |Trace(p, ends)| > 0 ==> Rank(Trace(p, ends)[0]) <= Rank(p) + 1
    ensures forall j, k :: 0 <= j < k < |Trace(p, ends)| ==> Rank(Trace(p, ends)[j]) <= Rank(Trace(p, ends)[k])
    ensures forall k :: 0 < k < |Trace(p, ends)| ==> Rank(Trace(p, ends)[k]) <= Rank(Trace(p, ends)[k - 1]) + 1
    decreases |ends|
  {
    if ends != [] && p != Done {
      var q := Next(p, ends[0]).value;
      TraceMonotone(q, ends[1..]);
      var t := Trace(p, ends);
      assert t == [q] + Trace(q, ends[1..]);
    }
  }

  /** A state that is in its change animation finishes its cycle within a run
      exactly when the change image reports ended at some call of the run. */
  lemma {:induction false} ChangeFinishes(ends: seq<bool>)
    ensures Done in Trace(Change, ends) <==> true in ends
    decreases |ends|
  {
    if ends != [] {
      ChangeFinishes(ends[1..]);
      assert ends == [ends[0]] + ends[1..];
      if ends[0] {
        assert Trace(Change, ends) == [Done];
      }
    }
  }

  /** A state that starts idle finishes its cycle within a run exactly when
      the run reports ended twice: once for the idle image (switching to the
      change image), then again, at a later call, for the change image. */
  lemma {:induction false} IdleFinishes(ends: seq<bool>)
    ensures Done in Trace(Idle, ends) <==> exists a, b :: 0 <= a < b < |ends| && ends[a] && ends[b]
    decreases |ends|
  {
    if ends != [] {
      var rest := ends[1..];
      IdleFinishes(rest);
      if ends[0] {
        ChangeFinishes(rest);
        if true in rest {
          var b :| 0 <= b < |rest| && rest[b];
          assert ends[0] && ends[b + 1];
        }
        if exists a, b :: 0 <= a < b < |ends| && ends[a] && ends[b] {
          var a, b :| 0 <= a < b < |ends| && ends[a] && ends[b];
          assert rest[b - 1];
        }
      } else {
        assert Trace(Idle, ends) == [Idle] + Trace(Idle, rest);
        if exists a, b :: 0 <= a < b < |ends| && ends[a] && ends[b] {
          var a, b :| 0 <= a < b < |ends| && ends[a] && ends[b];
          assert rest[a - 1] && rest[b - 1];
        }
        if exists a, b :: 0 <= a < b < |rest| && rest[a] && rest[b] {
          var a, b :| 0 <= a < b < |rest| && rest[a] && rest[b];
          assert ends[a + 1] && ends[b + 1];
        }
      }
    }
  }

  // ---------------------------------------------------------------------------
  // The foreign image resource

  /** An image or animation as the library hands it out.  Its size and loop
      limit (`loops[1]`) are fixed; its loop counter (`loops[0]`) and its
      `ended` flag belong to its playback.  `ended` is set by the library's
      frame clock while the image is drawn, so the model treats it as input. */
  class Image {
    const width: int
    const height: int
    const loopLimit: int
    var loopCount: int
    var ended: bool

    /** A freshly decoded image, at its first frame. */
    constructor Load(width: int, height: int, loops: int)
      ensures this.width == width && this.height == height
      ensures loopLimit == loops && loopCount == 0 && !ended
    {
      this.width := width;
      this.height := height;
      loopLimit := loops;
      loopCount := 0;
      ended := false;
    }

    /** A copy of `src` scaled to `width`x`height`; playback state travels with the copy. */
    constructor Copy(src: Image, width: int, height: int)
      ensures this.width == width && this.height == height
      ensures loopLimit == src.loopLimit && loopCount == src.loopCount && ended == src.ended
    {
      this.width := width;
      this.height := height;
      loopLimit := src.loopLimit;
      loopCount := src.loopCount;
      ended := src.ended;
    }

    /** Back to the first frame: the loop counter restarts and `ended` clears. */
    method Reset()
      modifies this
      ensures loopCount == 0 && !ended
    {
      loopCount := 0;
      ended := false;
    }
  }

  /** `scaled` is `src` scaled to fit a `sw`x`sh` viewport. */
  ghost predicate IsScaledCopy(scaled: Image, src: Image, sw: int, sh: int)
    requires src.width > 0 && src.height > 0
    reads scaled, src
  {
    (scaled.width, scaled.height) == Scaling.ScaledSize(src.width, src.height, sw, sh) &&
    scaled.loopLimit == src.loopLimit &&
    scaled.loopCount == src.loopCount &&
    scaled.ended == src.ended
  }

  /** The size computation of `scale_image` and the copy made by `scale`. */
  method ScaleTo(src: Image, sw: int, sh: int) returns (scaled: Image)
    requires src.width > 0 && src.height > 0
    ensures fresh(scaled) && IsScaledCopy(scaled, src, sw, sh)
  {
    var size := Scaling.ScaledSize(src.width, src.height, sw, sh);
    scaled := new Image.Copy(src, size.0, size.1);
  }

  // ---------------------------------------------------------------------------
  // The pet state

  class PetState {
    const origIdle: Image
    const origChange: Image
    var ended: bool
    var image: Image
    var origImage: Image
    var scaledIdle: Image
    var scaledChange: Image
    var lastResizeReq: (int, int)

    /** The object invariant.  The two originals and the two scaled copies are
        four distinct images, the originals have a positive size, the scaled
        copies have the size the last requested viewport gives them (so the
        memo key `lastResizeReq` describes the cache), and the active image is
        aliased consistently: either the idle original and its scaled copy are
        active, or the change original and its scaled copy. */
    ghost predicate Valid()
      reads this
    {
      ScaledTo(lastResizeReq.0, lastResizeReq.1) &&
      origIdle != origChange && scaledIdle != scaledChange &&
      scaledIdle != origIdle && scaledIdle != origChange &&
      scaledChange != origIdle && scaledChange != origChange &&
      ((origImage == origIdle && image == scaledIdle) ||
       (origImage == origChange && image == scaledChange))
    }

    /** The originals have a positive size and both scaled copies have the
        size `scale_image` computes for a `sw`x`sh` viewport. */
    ghost predicate ScaledTo(sw: int, sh: int)
      reads this
    {
      origIdle.width > 0 && origIdle.height > 0 &&
      origChange.width > 0 && origChange.height > 0 &&
      (scaledIdle.width, scaledIdle.height) == Scaling.ScaledSize(origIdle.width, origIdle.height, sw, sh) &&
      (scaledChange.width, scaledChange.height) == Scaling.ScaledSize(origChange.width, origChange.height, sw, sh)
    }

    /** Where this state is in its cycle. */
    ghost function Phase(): Phase
      reads this
    {
      if ended then Done
      else if image == scaledIdle then Idle
      else Change
    }

    /** Loads both animations (the idle one with 40 loops) and scales them to
        the default window; the idle animation is active. */
    constructor (idleWidth: int, idleHeight: int, changeWidth: int, changeHeight: int)
      requires idleWidth > 0 && idleHeight > 0 && changeWidth > 0 && changeHeight > 0
      ensures Valid() && Phase() == Idle
      ensures lastResizeReq == (ScreenWidth, ScreenHeight)
      ensures origIdle.width == idleWidth && origIdle.height == idleHeight && origIdle.loopLimit == IdleLoops
      ensures origChange.width == changeWidth && origChange.height == changeHeight && origChange.loopLimit == ChangeLoops
      ensures fresh(origIdle) && fresh(origChange) && fresh(scaledIdle) && fresh(scaledChange)
      ensures IsScaledCopy(scaledIdle, origIdle, ScreenWidth, ScreenHeight)
      ensures IsScaledCopy(scaledChange, origChange, ScreenWidth, ScreenHeight)
    {
      lastResizeReq := (ScreenWidth, ScreenHeight);
      var idle := new Image.Load(idleWidth, idleHeight, IdleLoops);
      var change := new Image.Load(changeWidth, changeHeight, ChangeLoops);
      origIdle, origChange := idle, change;
      origImage := idle;
      // scaling the current original re-points the active image to the copy
      var si := ScaleTo(idle, ScreenWidth, ScreenHeight);
      image := si;
      scaledIdle := si;
      var sc := ScaleTo(change, ScreenWidth, ScreenHeight);
      scaledChange := sc;
      image := scaledIdle;
      ended := false;
    }

    /** `scale_image`: a scaled copy of `src`; when `src` is the active
        original, the active image becomes that copy. */
    method ScaleImage(src: Image, sw: int, sh: int) returns (scaled: Image)
      requires src.width > 0 && src.height > 0
      modifies this
      ensures fresh(scaled) && IsScaledCopy(scaled, src, sw, sh)
      ensures image == (if src == old(origImage) then scaled else old(image))
      ensures ended == old(ended) && origImage == old(origImage)
      ensures scaledIdle == old(scaledIdle) && scaledChange == old(scaledChange)
      ensures lastResizeReq == old(lastResizeReq)
    {
      scaled := ScaleTo(src, sw, sh);
      if src == origImage {
        image := scaled;
      }
    }

    /** `resize`, memoised on the last requested size: a repeated size changes
        nothing; a new one is recorded and both scaled copies are rebuilt from
        the unscaled originals, keeping the same animation active. */
    method Resize(w: int, h: int)
      requires Valid()
      modifies this
      ensures Valid()
      ensures old(lastResizeReq) == (w, h) ==> unchanged(this)
      ensures old(lastResizeReq) != (w, h) ==>
        lastResizeReq == (w, h) &&
        fresh(scaledIdle) && fresh(scaledChange) &&
        IsScaledCopy(scaledIdle, origIdle, w, h) &&
        IsScaledCopy(scaledChange, origChange, w, h)
      ensures lastResizeReq == (w, h)
      ensures ended == old(ended) && origImage == old(origImage) && Phase() == old(Phase())
    {
      if lastResizeReq == (w, h) {
        return;
      }
      lastResizeReq := (w, h);
      scaledIdle := ScaleImage(origIdle, w, h);
      scaledChange := ScaleImage(origChange, w, h);
    }

    /** `end_loop`: the active image's loop counter jumps to its limit, so its
        library ends it at its next loop boundary.  Whichever image is active
        is affected, not necessarily the idle one. */
    method EndLoop()
      requires Valid()
      modifies image
      ensures image.loopCount == image.loopLimit
      ensures image.ended == old(image.ended)
    {
      image.loopCount := image.loopLimit;
    }

    /** `reset`: both scaled copies go back to their first frame.  It does not
        touch `ended`. */
    method Reset()
      modifies scaledIdle, scaledChange
      ensures scaledIdle.loopCount == 0 && !scaledIdle.ended
      ensures scaledChange.loopCount == 0 && !scaledChange.ended
    {
      scaledIdle.Reset();
      scaledChange.Reset();
    }

    /** The `StateGroup.ended` setter: sets the flag, then resets the state. */
    method SetEnded(value: bool)
      requires Valid()
      modifies this, scaledIdle, scaledChange
      ensures Valid()
      ensures ended == value
      ensures image == old(image) && origImage == old(origImage)
      ensures scaledIdle == old(scaledIdle) && scaledChange == old(scaledChange)
      ensures lastResizeReq == old(lastResizeReq)
      ensures scaledIdle.loopCount == 0 && !scaledIdle.ended
      ensures scaledChange.loopCount == 0 && !scaledChange.ended
    {
      ended := value;
      Reset();
    }

    /** `update`: raises (`raised`) on a finished state and changes nothing;
        otherwise moves one step along the idle -> change -> finished cycle
        when the active image reports ended, and stays put when it does not. */
    method Update() returns (raised: bool)
      requires Valid()
      modifies this
      ensures Valid()
      ensures raised == (old(Phase()) == Done)
      ensures raised ==> unchanged(this)
      ensures !raised ==> Phase() == Next(old(Phase()), old(image.ended)).value
      ensures !raised && ended ==> image == scaledIdle && origImage == origIdle
      ensures scaledIdle == old(scaledIdle) && scaledChange == old(scaledChange)
      ensures lastResizeReq == old(lastResizeReq)
    {
      if ended {
        return true;
      }
      raised := false;
      if image == scaledIdle {
        if image.ended {
          image := scaledChange;
          origImage := origChange;
        }
      } else if image == scaledChange {
        if image.ended {
          image := scaledIdle;
          origImage := origIdle;
          ended := true;
        }
      }
    }
  }
}
