# Throttle and copy guard of script.js

This project models the two pieces of logic in the landing page's `script.js`.

The first is the `throttle(func, limit)` wrapper. Each wrapped instance owns a captured flag, `inThrottle`. A call made while the flag is falsy applies `func` to the call's own receiver and arguments, sets the flag, and schedules one timer whose callback clears the flag. A call made while the flag is set does nothing: it is not queued, and no error is raised. The page wraps one handler, `handleMouseMove`, once, with a 30 ms window. Every card's `mousemove` listener calls that same instance, so suppression is shared by all cards.

The second is the copy guard. The page cancels every context menu and every text selection. It cancels a key press exactly when Ctrl is held and the key is `c`, `C`, `u` or `U`.

Modules:

- `ThrottleSpec` (`throttle_spec.dfy`) describes the wrapper as a pure state machine. The state is the flag, the number of pending timers, and the log of every application of `func`. The events are a call and a timer expiry. `Run` processes a sequence of events in arrival order. The lemmas cover single steps and whole runs: the invariant, argument fidelity, the rate limit, and the exception path.
- `Throttle` (`throttle.dfy`) has the class `Throttled`. Its fields are the closure's state, and the two methods `Call` and `TimerExpires` update them in place. Each method's postcondition ties the new state to `ThrottleSpec.Step`.
- `MouseGlow` (`mouse_glow.dfy`) models the single shared `handleMouseMove` instance and the per-card listener.
- `CopyGuard` (`copy_guard.dfy`) models the decision `preventCopy` makes for each kind of event.

How the model matches the code:

- Time is not modelled. A timer expiry is an explicit event, enabled only while a timer is pending. `limit` is kept only as a label.
- `func` is code the model cannot see. Whether it throws on a call is a parameter of that call. Its effect is recorded as the receiver and argument list it was applied to.
- If `func` throws at line 7, lines 8 and 9 never run. A failing handler does not start a window: the flag stays clear, no timer is scheduled, and the next call applies `func` again (`ThrowKeepsOpen`, `ThrowingCallsAllFire`, `ThrowingScenario`).
- `throttle` does not validate `limit`, so the constructor accepts any `limit`.
- The log of handler applications is ghost state in the class: it stands for the effect of `func`, not for anything the closure stores.
- The flag starts as `undefined`. Only its falsiness matters, so it is `false` in the model.

## Model

| member | source | states |
|---|---|---|
| ThrottleSpec.Init | script.js:4 | the state right after wrapping: valid, open, no timer pending, and no handler applied yet |
| ThrottleSpec.Step | script.js:5-10 | each event's outcome fits its kind: a call completes only if `func` did not throw, is raised only if it threw, and is the only kind that can be dropped; an expiry only clears |
| ThrottleSpec.Run | script.js:5-10 | a run yields one outcome per event, and each outcome fits its event |
| ThrottleSpec.StepPreservesValid | script.js:6-9 | every step keeps the invariant: one timer is pending exactly while the flag is set |
| ThrottleSpec.ExpiryEnabledIffSuppressed | script.js:8-9 | under the invariant, a timer can expire exactly while the flag is set |
| ThrottleSpec.FirstCallFires | script.js:4-8 | from the initial state, the first call applies `func` exactly once, to its own invocation, and is not dropped |
| ThrottleSpec.DroppedCallIsNoOp | script.js:6-10 | a call is dropped if and only if the flag is set; a dropped call leaves the flag, the timers and the log unchanged |
| ThrottleSpec.CompletedCallArmsOneTimer | script.js:6-9 | an accepted call that returns logs its invocation, sets the flag and leaves exactly one timer pending |
| ThrottleSpec.ThrowKeepsOpen | script.js:7-9 | an accepted call whose handler throws logs its invocation, does not set the flag and schedules no timer; the next call is applied too |
| ThrottleSpec.ExpiryReopens | script.js:6-9 | after the timer fires the flag is clear, no timer is pending, the log is unchanged, and the next call applies `func` |
| ThrottleSpec.RunPreservesValid | script.js:6-9 | every feasible run from a valid state ends valid: at most one un-suppress timer is ever pending, and one is pending exactly while the flag is set |
| ThrottleSpec.LogRecordsFiredCalls | script.js:5-7 | after any run, the log is the old log followed by the invocations of exactly the calls that were not dropped, in arrival order |
| ThrottleSpec.FiredIsSubsequenceOfCalls | script.js:5-7 | the calls picked out as fired, by any outcomes, are a subsequence of all calls of the run |
| ThrottleSpec.HandlerSeesOnlyCalls | script.js:5-7 | after any run the log only grows, and what it gained is a subsequence of the run's calls: the handler only ever receives invocations of actual calls of the wrapper, in their order |
| ThrottleSpec.ClearedCountsExpiries | script.js:9 | the cleared outcomes of a run are exactly its timer expiries |
| ThrottleSpec.CompletionsAlternateWithExpiries | script.js:6-9 | over any run, completed calls equal timer expiries plus the change of the flag from start to end |
| ThrottleSpec.AtMostOneCompletionPerWindow | script.js:3-12 | the rate limit: the completed handler runs are at most the timer expiries, plus one if the wrapper started open |
| ThrottleSpec.SuppressedCallsAreNoOps | script.js:6-10 | while suppressed, any number of calls are all dropped and the state stays exactly as it was |
| ThrottleSpec.WindowFiresOnlyFirst | script.js:5-10 | of N non-throwing calls in one window from an open wrapper, only the first applies `func`, with its own invocation; the rest are dropped and one timer is pending |
| ThrottleSpec.ThrowingCallsAllFire | script.js:6-9 | from an open wrapper, every throwing call applies `func`; the flag stays clear and no timer is scheduled |
| ThrottleSpec.WindowScenario | script.js:3-12 | call A, a dropped call X, an expiry, then call B: outcomes are Completed, Dropped, Cleared, Completed, and the handler saw exactly A then B |
| ThrottleSpec.ThrowingScenario | script.js:7-9 | with a handler that always throws, three calls all raise, all are logged, and no timer is pending at the end |
| Throttle.Throttled.constructor | script.js:3-4 | a fresh wrapper is open, has no timer, has an empty log, and keeps `limit` |
| Throttle.Throttled.Call | script.js:5-10 | the object's new state and outcome are one `Step` of its old state; dropped if and only if it was suppressed, and then unchanged; otherwise this call's receiver and arguments are logged, with flag and timer depending on whether `func` threw |
| Throttle.Throttled.TimerExpires | script.js:9 | the timer callback clears the flag, removes one pending timer and keeps the log; the invariant is preserved |
| MouseGlow.MoveInvocationInjective | script.js:63 | the invocation the listener builds for `handleMouseMove(e, card)` (defined by `MoveInvocation`: no receiver, the event then the card) determines the point and the card: two moves give equal invocations if and only if they are at the same point over the same card |
| MouseGlow.OnMouseMove | script.js:62-63 | a card's listener is one `Step` of the shared wrapper, applied to the event and that card |
| MouseGlow.CardsShareOneWindow | script.js:51-63 | after a move over card A whose handler returns, a move over any card B is dropped, and the handler saw only A's move; it saw B's move if and only if that move is the same point over the same card |
| MouseGlow.TwoCardsInOneWindow | script.js:51-63 | on a fresh page, a move over card A draws and an immediate move over card B is dropped, whichever card B is |
| CopyGuard.Includes | script.js:19 | `includes` is true exactly when the key is in the array |
| CopyGuard.KeyDownCancelled | script.js:18-21 | the keydown condition: never cancelled without Ctrl, and only a single-character key can be cancelled |
| CopyGuard.Cancelled | script.js:15-21 | whether `preventDefault` is called: context menus and selections always, key presses never without Ctrl |
| CopyGuard.KeyDownCancelledIff | script.js:18-21 | a key press is cancelled if and only if Ctrl is held and the key is one of `c`, `C`, `u`, `U` |
| CopyGuard.KeyDownCancelledIsCtrlCOrU | script.js:18-21 | a key press is cancelled if and only if Ctrl is held and the key is the single letter C or U, in either case |
| CopyGuard.CancelledEvents | script.js:15-21 | context menus and selections are always cancelled; among key presses, only Ctrl+C and Ctrl+U are |

## Left out

- Real time and the event loop (script.js:9, 60): the 30 ms window is a label. Timer expiry is an abstract event that can occur only while a timer is pending.
- Re-entrancy: a `func` that calls its own wrapper synchronously is not modelled. Such an inner call would also be accepted, because the flag is set only after `func` returns, and two timers could then be pending.
- What the glow handler computes and draws (script.js:52-58): floating-point pixel arithmetic over `getBoundingClientRect`, `requestAnimationFrame` and a style write. It is represented only by the invocation it receives.
- The receiver of `handleMouseMove`: the listener calls it as a plain function. The model uses one constant `Unbound` and does not model sloppy-mode `this` binding.
- DOM wiring: `addEventListener`, `querySelectorAll`, `IntersectionObserver`, the fade-in styles, the `mouseleave` reset and the touch handlers (script.js:25-47, 64-81). These write styles through foreign APIs and have no logic of their own. The listener registrations at script.js:16-17 and 62-63 are modelled only for what they call: `Cancelled` and `OnMouseMove`.
- Service worker registration and the console banner (script.js:84-94): these are I/O.
- The preloader reveal with its two nested timeouts (script.js:221-237): pure timing and CSS class toggling.
- The `CaptchaManager` class (script.js:97-217): commented-out dead code that depends on canvas drawing, `Math.random`, `localStorage` and `navigator` probes.
- CopyGuard.KeyDownCancelledIsCtrlCOrU: `LowerAscii` folds only ASCII letters. That is enough for the four listed keys, but it is not JavaScript's full Unicode case mapping.
