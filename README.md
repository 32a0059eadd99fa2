# pngpet core, modelled in Dafny

pngpet is a desktop pet. A window shows one of several *pet states* at a time.
Each state owns two animations: an *idle* animation, loaded to loop 40 times,
and a *change* animation. A state plays its idle animation until it ends, then
its change animation, and then its cycle is over. The main loop then switches
to the next state, or to the state a client asked for over a TCP socket with a
message `state:<index>`. The window can be resized, and each state's images
are scaled to fit it with their aspect ratio kept.

The model covers four pieces of that program.

- `Scaling` (scaling.dfy) covers `get_ratio` and the scaled size computed in
  `scale_image`. Python floats become exact reals, and `int()` of a float
  truncates toward zero. `ScaledSize` computes the same size on integers
  alone, and `ScaledSizeTruncates` proves it equal to the truncated
  products.
- `Pet` (pet.dfy) covers one pet state, `PNGPetState` together with the
  `StateGroup` that wraps it.
  - The state is a class, `PetState`, whose fields the methods update in place.
  - The foreign animated images are a small class, `Image`. Each has a fixed
    size and loop limit, a loop counter, an `ended` flag, and a reset.
  - The idle → change → finished cycle is also given as a pure function,
    `Next`, with lemmas about runs of it. `PetState.Update` is proved against
    `Next`.
- `Command` (command.dfy) covers the decoding of one socket read.
  - The read is split at the first `:` and the body is stripped of ASCII
    whitespace.
  - The keyword must be exactly `state`.
  - The body is parsed the way Python's `int()` parses bytes: an optional
    sign, then digits with single underscores between them.
  - A client-side encoder is included so that the round trip can be stated.
- `Playlist` (playlist.dfy) and `App` (app.dfy) cover the coordinator that
  `App.loop` embeds.
  - `Playlist` holds the index arithmetic as pure functions. Python's list
    indexing is kept: negative indices count from the end, and an index below
    `-len` raises `IndexError`.
  - `App.Coordinator` is a class holding the state list, the active index
    `i`, the pending jump and the active state.
  - Its methods are the steps of one pass of the main loop: the reads, the
    cycle boundary, a resize event and drawing. Its `Valid` predicate is the
    loop invariant.
- `Scenarios` (scenarios.dfy) drives the coordinator through a few concrete
  runs.

Behaviour the model keeps as the code has it:

- `PNGPetState.reset` rewinds both scaled animations but does not clear
  `ended`. The `StateGroup.ended` setter clears `ended` and then resets.
- After its cycle ends, a state rests on its idle animation with `ended` still
  set, until it becomes active again.
- A resize event rescales only the active state. The others are rescaled when
  they next become active.
- The range check on a requested index has only an upper bound, so:
  - a negative target is accepted;
  - a target that names the active state through a negative index cuts that
    state short and replays it;
  - a target below `-len(states)` raises `IndexError` at the next cycle
    boundary.
- A rejected request clears a jump that was already pending.
- A read without `:`, or whose `state` body is not an integer, raises
  `ValueError`. Only socket errors are caught, so that ends the program. The
  model reports it as a fault of its own, distinct from an ignored message.
- `end_loop` cuts short whichever animation is active, idle or change.

## Model

| member | source | states |
|---|---|---|
| `Scaling.Ratio` | pngpet.py:119-123 | the factor is one of the two axis ratios `sw/w`, `sh/h` and is no larger than either, i.e. their minimum |
| `Scaling.Trunc` | pngpet.py:99-100 | `int()` of a float: the integer within one of `x` on the side of zero |
| `Scaling.ScaleSide` | pngpet.py:99-100 | one scaled side is the exact product truncated toward zero: within one below it when non-negative, within one above it when negative |
| `Scaling.TruncDivIsTrunc` | pngpet.py:99-100 | the integer quotient truncated toward zero equals `int()` of the exact quotient, for negative dividends too |
| `Scaling.ScaledSize` | pngpet.py:96-100 | the scaled width is at most the viewport width and the scaled height at most the viewport height |
| `Scaling.ScaledSizeTruncates` | pngpet.py:96-100 | the integer size is exactly `(int(w*ratio), int(h*ratio))` for the ratio `get_ratio` picks |
| `Scaling.FillsLimitingSide` | pngpet.py:96-100 | on the axis that determined the ratio the scaled side equals the viewport side exactly |
| `Scaling.KeepsAspect` | pngpet.py:96-100 | for a non-negative viewport the scaled size is non-negative and keeps the aspect ratio up to one pixel of rounding per side |
| `Pet.Next` | pngpet.py:138-149 | one `update` step of the cycle: a finished state raises; otherwise the phase moves forward exactly when the active image has ended, and by exactly one phase |
| `Pet.TraceMonotone` | pngpet.py:138-149 | along any run of `update` calls the phase never moves back and moves at most one phase per call |
| `Pet.ChangeFinishes` | pngpet.py:145-149 | a state playing its change animation finishes within a run exactly when the change image reports ended at some call |
| `Pet.IdleFinishes` | pngpet.py:141-149 | a state starting idle finishes within a run exactly when the run reports ended at two distinct calls: idle, then change |
| `Pet.Image.Load` | pngpet.py:84-94 | a freshly loaded animation has the given size and loop limit, a zero loop counter, and has not ended |
| `Pet.Image.Copy` | pngpet.py:62-69 | a scaled copy has the new size and carries the source's loop limit, loop counter and ended flag |
| `Pet.Image.Reset` | pngpet.py:135-136 | rewinding an animation zeroes its loop counter and clears ended |
| `Pet.ScaleTo` | pngpet.py:96-101 | the copy is new and has exactly the size `int(w*ratio)` x `int(h*ratio)` for the viewport |
| `Pet.PetState.constructor` | pngpet.py:106-117 | both animations are loaded (idle with 40 loops) and scaled to 800x600, the last requested size is 800x600, the idle animation is active, and the aliasing invariant holds |
| `Pet.PetState.ScaleImage` | pngpet.py:96-104 | returns a new scaled copy; the active image is re-pointed to it exactly when the image scaled is the active original |
| `Pet.PetState.Resize` | pngpet.py:125-132 | the same size as last time changes nothing; a new size is recorded and both scaled copies are rebuilt from the originals; the phase and the invariant are kept, including that the scaled copies have the size the memo key `lastResizeReq` gives them |
| `Pet.PetState.EndLoop` | pngpet.py:81-82 | the active image, whichever it is, has its loop counter set to its limit; its ended flag is untouched |
| `Pet.PetState.Reset` | pngpet.py:134-136 | both scaled animations are rewound |
| `Pet.PetState.SetEnded` | pngpet.py:53-56 | the flag takes the value given and both scaled animations are rewound; the active image and invariant are kept |
| `Pet.PetState.Update` | pngpet.py:138-149 | raises exactly on a finished state and then changes nothing; otherwise the new phase is `Next` of the old phase and the active image's ended flag; a state that finishes rests on its idle animation |
| `Command.FirstColon` | pngpet.py:265 | the position of the first `:`, or none when the read has no `:` |
| `Command.Strip` | pngpet.py:266 | the result begins and ends with a non-whitespace byte |
| `Command.StripAround` | pngpet.py:266 | stripping removes exactly the surrounding ASCII whitespace |
| `Command.Decode` | pngpet.py:263-268 | an empty read is a closed connection; a keyword other than `state` before the first `:` is unknown; a set-state request carries the integer its stripped body parses to; a read with no `:`, or with `state` and an unparsable body, is malformed |
| `Command.ParseInt` | pngpet.py:268 | `int()` of a stripped body succeeds exactly on a numeral with an optional `+` or `-` in front, and gives the numeral's value with that sign |
| `Command.DecodeBody` | pngpet.py:265-268 | for a read starting `state:`, the outcome is decided by parsing the stripped body alone |
| `Command.DecimalRoundTrip` | pngpet.py:268 | the decimal digits of a natural number parse back to that number |
| `Command.IntegerRoundTrip` | pngpet.py:268 | the decimal form of any integer, with `-` when negative, parses back to it |
| `Command.RoundTrip` | pngpet.py:265-268 | `state:` followed by an integer padded with any whitespace decodes to a request for that integer |
| `Command.EncodeRoundTrip` | pngpet.py:265-268 | what a client sends for index `t` decodes to a request for `t` |
| `Command.OtherKeyword` | pngpet.py:274-275 | a read whose text before the first `:` is not exactly `state` is an unknown command |
| `Command.KeywordIsExact` | pngpet.py:267 | `State:1` and ` state:1` are unknown commands, and `state` without a colon is malformed |
| `Command.NotNumeral` | pngpet.py:268 | a body that does not start with a digit or sign (a leading `_` included) does not parse as an integer |
| `Command.NonIntegerBodyIsMalformed` | pngpet.py:268 | `state:abc` and `state:` raise `ValueError` |
| `Playlist.PyIndex` | pngpet.py:294 | `states[i]` denotes a position exactly when `-n <= i < n`, and that position is `i` modulo `n` |
| `Playlist.Accepts` | pngpet.py:269 | every index from 0 up other than the active one passes the range check; a target that passes is not the active index and is either a valid subscript or below `-len(states)` |
| `Playlist.AfterRequest` | pngpet.py:268-273 | a request leaves a pending jump exactly when its target is below `len(states)` and differs from the active index, and that jump is the target |
| `Playlist.Advance` | pngpet.py:286-292 | a pending jump other than the active index is taken and cleared; otherwise the index moves on by one, or wraps to 0 at `len(states)`, and the pending jump is left as it was |
| `Playlist.NaturalAdvance` | pngpet.py:286-289 | with no jump pending the next active position is the current one plus one, modulo the number of states |
| `Playlist.JumpTaken` | pngpet.py:290-292 | an accepted jump is taken at the next cycle boundary and then forgotten |
| `Playlist.PendingNeverActive` | pngpet.py:286-292 | while a pending jump never equals the active index, the `new_state_index == i` test never decides the advance, and no jump is left pending after it |
| `Playlist.PlaysInOrder` | pngpet.py:286-289 | with no requests, after `k` cycles from state 0, state `k mod n` is active |
| `Playlist.TwoStatesAlternate` | pngpet.py:286-289 | with two states and no requests the active index goes 0, 1, 0 |
| `Playlist.ActiveIndexRejected` | pngpet.py:269-273 | a request for the active index is rejected and clears any pending jump |
| `Playlist.NegativeAliasAccepted` | pngpet.py:269-294 | the negative alias `i - n` of the active index passes the range check and denotes the same state |
| `Playlist.TooNegativeTargetFails` | pngpet.py:269-294 | a target below `-n` passes the range check but its subscript fails at the next cycle boundary |
| `Playlist.AcceptedTargetInRange` | pngpet.py:269-294 | an accepted target of at least `-n` is a valid subscript at the next cycle boundary |
| `App.Coordinator.constructor` | pngpet.py:230-234 | the loop starts at index 0 with no jump pending and the loop invariant holding |
| `App.Coordinator.Receive` | pngpet.py:263-275 | a malformed read is exactly the `ValueError` outcome; a set-state request sets the pending jump as `AfterRequest` says and cuts the active animation short when accepted; anything else leaves the pending jump and the animation alone |
| `App.Coordinator.Request` | pngpet.py:267-275 | the same, for an already decoded read |
| `App.NoRequestKeepsPending` | pngpet.py:263-275 | reads with no `state:<t>` request leave the pending jump as it was |
| `App.PendingFromRequest` | pngpet.py:268-273 | a pending jump that differs from the one before the reads was set by one of the requests, as `AfterRequest` decides for its target |
| `App.CutShortExactly` | pngpet.py:268-270 | the active animation is cut short by a run of reads exactly when one of them is an accepted request |
| `App.Coordinator.ReceiveNext` | pngpet.py:263-275 | one read of a pass: `ValueError` exactly when it decodes as malformed; otherwise the pending jump after it is the fold over the reads so far; the animation is cut short exactly when the read is an accepted request |
| `App.Coordinator.ReceiveAll` | pngpet.py:249-282 | the reads of a pass end in `ValueError` exactly when one of them is malformed; the index, active state and viewport stay; the pending jump is the fold of `AfterRequest` over the requests read (up to the malformed read on a fault); the active animation's counter reaches its limit if a request was accepted and is untouched otherwise; otherwise the loop invariant holds |
| `App.Coordinator.Tick` | pngpet.py:284-297 | `update` never raises; states other than the old and new active one, and their images, are unchanged; if the cycle goes on, index, jump and active state stay, the phase follows `Next`, and the active state's last size and scaled images are untouched; if it ends, index and jump become `Advance` of the old ones, and either the subscript fails with `IndexError` or the denoted state becomes active, idle, resized to the viewport (its scaled images have the size `ScaledSize` gives for it) and rewound |
| `App.Coordinator.Switch` | pngpet.py:285-297 | the switch at a cycle boundary, as in `Tick`; every state other than the new active one, the one that finished included, is unchanged with its images, so it keeps `ended` |
| `App.Coordinator.Restart` | pngpet.py:294-297 | the new active state is resized to the viewport, so its scaled images have the size `ScaledSize` gives for it, made idle and unfinished, and rewound; no other state and no other state's image changes |
| `App.Coordinator.Rescale` | pngpet.py:295-296 | the active state is resized to the recorded viewport: its scaled images have the viewport's size, are rebuilt from its originals when the size is new, and stay the same objects, untouched, when it is not; its phase and `ended` are kept |
| `App.Coordinator.Rewind` | pngpet.py:297 | the active state's `ended` is cleared and both its scaled animations are rewound, leaving it idle; no other state and no other state's image changes |
| `App.Coordinator.ViewportResized` | pngpet.py:304-307 | the viewport size is recorded and only the active state is rescaled to it, keeping its phase; its scaled images then have the viewport's size, and a resize to the size it already has keeps them untouched |
| `App.Coordinator.Draw` | pngpet.py:312-315 | drawing can only end the active animation, never restart it, and leaves its loop counter alone |
| `App.Coordinator.Present` | pngpet.py:299-315 | a resize event and drawing keep the loop invariant |
| `App.Coordinator.Frame` | pngpet.py:240-315 | one pass ends in `ValueError` exactly when one of its reads is malformed; without a fault the loop invariant holds again |
| `App.QuitAt` | pngpet.py:302-303 | no pass before it sees a quit event, and the pass at it, if there is one, does |
| `App.Coordinator.Run` | pngpet.py:238-315 | the loop stops after the first pass with a quit event or at the first fault; at the top of every pass the active state is unfinished and a pending jump is not the active index |
| `Scenarios.PlayCycle` | pngpet.py:284-297 | with no reads, drawing that ends the idle animation then `update`, then drawing that ends the change animation then `update`, moves the coordinator as `Advance` says |
| `Scenarios.TwoStatesTakeTurns` | pngpet.py:286-294 | two states, no commands: the active index goes 0, 1, 0 |
| `Scenarios.JumpOnRequest` | pngpet.py:268-292 | `state:2` while state 0 of three plays cuts it short, and state 2 follows it |
| `Scenarios.NegativeAliasReplays` | pngpet.py:269-294 | `state:-2` while state 0 of two plays is accepted and replays state 0 |
| `Scenarios.TooNegativeCrashes` | pngpet.py:269-294 | `state:-3` with two states ends in `IndexError` at the next cycle boundary |

## Left out

- Sockets are not modelled: `select`, `accept`, `recv`, `close`, the
  connection list and the caught socket errors (pngpet.py:169-174, 242-282).
  They are network I/O. Each read reaches the model as its bytes. An empty
  read decodes to a closed connection and changes no state.
- Standard input is not modelled (pngpet.py:255-258).
- pygame is not modelled: initialisation, the window, event polling,
  `VIDEOEXPOSE`, the fill and the flip, and the frame clock. A quit event and
  a resize event are inputs of a pass.
- Configuration and `load_states` are not modelled (pngpet.py:176-208). They
  are file I/O and a foreign library.
  - The coordinator is given its state list.
  - The code always loads two states; the model allows any number of at least
    one.
  - The initial resize of each loaded state to the window size is not
    modelled.
- The internals of `gif_pygame` and pygame are not modelled, and some of
  their behaviour is assumed instead:
  - what `load`, `copy`, `transform.scale`, `reset` and `blit_ready` do;
  - that a copy keeps the playback state and that `reset` clears the counter
    and `ended`;
  - how the loop counter drives `ended`. Here the library's decision to end
    an animation while drawing it is an input of the pass.
- Static images are not modelled. Every image is treated as animated: a
  pygame surface has no `ended` or `loops`.
- Floating-point rounding in `get_ratio` is not modelled. The arithmetic is
  exact on reals.
- Images of zero width or height are excluded, since `get_ratio` would raise
  `ZeroDivisionError`.
- Logging is not modelled, nor the sprite's `rect` and `time` fields.
- `App.Coordinator.Draw`: the model assumes that `blit_ready` leaves the loop
  counter alone. Counting loops is internal to the library, and the model
  makes the library's decision to end an animation an input instead.
- `Pet.PetState.Resize`: the copies take the playback state of the
  originals, but the model does not state that the originals are never
  played. So it does not prove that a resize to a new size restarts the
  active animation or discards a pending `end_loop`.
- `Pet.PetState.Update` reports `EndedException` as its `raised` result. It
  does not throw.
- `App.Coordinator.Frame` states the loop invariant and the `ValueError`
  outcome of a pass, not the detailed effect of each step. The contracts of
  `ReceiveAll` and `Tick` state those effects; those of `Present` are stated
  by `ViewportResized` and `Draw`.
- `App.Coordinator.Present` states only that the loop invariant is kept. The
  effects are stated by `ViewportResized` and `Draw`.
- `App.Coordinator.Run` states the stopping rule and the loop invariant, not
  the sequence of active indices. `Scenarios` and `Playlist` state that.
