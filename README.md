# Metronom, modelled in Dafny

Metronom is a web component, `<metronom-bpm>`, compiled by Svelte into a
single bundle, `dist/build/metronom.mjs`. Each instance holds two variables:

- `bpm` is the tempo, initially 100. A range slider from 40 to 256 sets it.
- `mute` is initially true. Clicking an icon flips it.

Unmuting arms a `setTimeout` for `Math.round(1000 * 60 / bpm)` milliseconds.
When that timer fires, it plays a short sample if the instance is still
unmuted. It then calls `startSounddevice` again, which re-arms a timer only
while the instance is unmuted.

The bundle also carries the Svelte runtime that keeps the DOM in step with
the two variables:

- `$$invalidate` assigns a slot of the component's context. Only when
  `safe_not_equal` reports a change does it call `make_dirty`.
- `make_dirty` sets the slot's bit in the component's dirty mask. When the
  mask was clean, it first queues the component and schedules one flush.
- `flush` updates every queued component through the fragment's patch
  function `p`, runs the binding, render and flush callbacks, and resets
  its bookkeeping.

The model has six modules:

- `JsValues`: primitive JavaScript values, `safe_not_equal`, `to_number`
  and the conversion of a value to a string.
- `DirtyMask`: the dirty mask. Slots are packed 31 to a 32-bit word. The
  sentinel `[-1]` means "nothing is dirty".
- `Ticker`: the tick loop as a state machine over values. Its state is
  `bpm`, `mute`, the multiset of armed timer delays and the number of ticks
  played. It has three events: a click, a slider change and a timer firing.
- `Fragment`: the compiled component (class `Component`). It holds the
  context, the mask, the lifecycle callback lists, the parts of the DOM
  that `p` rewrites, and the patch itself.
- `Runtime`: the runtime's module-level queues and flags (class
  `Scheduler`), with `schedule_update`, `make_dirty`, the `$$invalidate`
  closure, `update` and `flush`.
- `Widget`: one instance (class `Metronome`). Its event handlers follow
  `Ticker.Step` and drive the runtime.

The main results:

- Every event handler of the instance performs exactly one step of the
  tick machine.
- A component's stale DOM is always marked in its mask.
- After a flush every component is clean and shows its context. For the
  widget this means the label and slider show `bpm`, and the icon shows
  "play" exactly while muted.
- Within one flush no render callback runs twice.
- Muting stops the ticks. While unmuted, every firing plays one tick and
  re-arms one timer.
- Every timer delay over the slider's range lies between 234 ms and
  1500 ms, and a faster tempo never waits longer.

One might expect at most one timer chain per instance. The code does not
guarantee this. Unmute, mute and unmute again before the first
timer fires: the first timer finds the instance unmuted and re-arms, so two
chains run side by side. The model follows the code.
`Ticker.TwoChainsAfterQuickClicks` exhibits this case, and
`Ticker.ChainsBoundedByClicks` bounds the number of chains by the number of
clicks.

## Model

| member | source | states |
|---|---|---|
| JsValues.SafeNotEqualIsChange | dist/build/metronom.mjs:17-19 | On primitives, safe_not_equal (`SafeNotEqual`) reports a change exactly when the new value differs from the old one, counting NaN as equal to NaN. Re-assigning a value never reports a change. |
| JsValues.SafeNotEqualVersusStrict | dist/build/metronom.mjs:17-19 | safe_not_equal agrees with `!==` except on the pair (NaN, NaN). |
| JsValues.ToNumber | dist/build/metronom.mjs:51-53 | to_number gives null exactly for the empty string. Otherwise it gives a non-negative number or NaN. |
| JsValues.DecimalString | dist/build/metronom.mjs:57-58 | `'' + n` for a natural n is a non-empty string of digits without a leading zero. |
| JsValues.ParseDecimal | dist/build/metronom.mjs:51-53 | Reading back the decimal string of n with `+` gives n. |
| JsValues.ToJsString | dist/build/metronom.mjs:57-58 | A non-negative number converts to a non-empty string of digits. |
| JsValues.NumberStringRoundTrip | dist/build/metronom.mjs:51-53 | A tempo written into the slider or label and read back with to_number is unchanged. |
| DirtyMask.Zeros | dist/build/metronom.mjs:201 | `dirty.fill(0)` keeps the length and zeroes every word. |
| DirtyMask.OrBit | dist/build/metronom.mjs:203 | `w \|= 1 << a` sets bit a, leaves every other bit below 31 unchanged, and never touches the sign bit. |
| DirtyMask.SetBit | dist/build/metronom.mjs:203 | Setting one bit of one word keeps the mask's length. |
| DirtyMask.SetBitOnly | dist/build/metronom.mjs:203 | After setting bit b of word w, a bit is set exactly when it is (w, b) or was set before. |
| DirtyMask.MarkDirty | dist/build/metronom.mjs:197-204 | make_dirty's effect on the mask: same length, well formed, and never the sentinel afterwards. |
| DirtyMask.MarkDirtyMarks | dist/build/metronom.mjs:197-204 | After make_dirty(c, i), slot j is marked exactly when j == i or it was marked before. A clean mask starts from nothing marked. |
| DirtyMask.CleanMarksNothing | dist/build/metronom.mjs:198 | A mask whose first word is -1 marks no slot. |
| Ticker.DelayRounds | dist/build/metronom.mjs:412 | The delay `Delay(bpm)`, written without floats, is the integer nearest to 60000 / bpm, with halves rounded up. |
| Ticker.DelayInSliderRange | dist/build/metronom.mjs:412 | For every slider tempo from 40 to 256, the delay lies between 234 and 1500 ms. |
| Ticker.DelayAntitone | dist/build/metronom.mjs:412 | A faster tempo never gives a longer delay. |
| Ticker.TimerDelay | dist/build/metronom.mjs:401-413 | The timeout of the armed timer is the rounded delay for a positive tempo. It is 0 for NaN, null, undefined and a non-positive tempo. |
| Ticker.Start | dist/build/metronom.mjs:399-415 | startSounddevice arms exactly one timer, at the current tempo's delay, when unmuted. When muted it arms nothing. Variables and ticks are untouched. |
| Ticker.Step | dist/build/metronom.mjs:399-428 | A click flips mute. When now unmuted it adds exactly one timer, at the current tempo's delay; otherwise the pending timers are unchanged. A slider change stores to_number of its value. A firing retires its timer; it plays and re-arms at the current tempo only when unmuted. |
| Ticker.MutedPlaysNothing | dist/build/metronom.mjs:405-410 | While muted and not clicked, no tick plays and no timer is armed. Every firing retires one timer that was pending, so the chains die out. |
| Ticker.UnmutedTicksOncePerFiring | dist/build/metronom.mjs:402-411 | While unmuted and not clicked, each firing plays exactly one tick and the number of armed timers stays the same. |
| Ticker.ChainsBoundedByClicks | dist/build/metronom.mjs:417-423 | The armed timers never outnumber those armed before plus the number of clicks. |
| Ticker.ReachableAlive | dist/build/metronom.mjs:399-423 | Along any feasible run, an unmuted instance always has a timer armed, so the loop never stalls. |
| Ticker.MutedBeforeFiring | dist/build/metronom.mjs:405-410 | Unmuting and muting again before the timer fires: the firing plays nothing and arms nothing. |
| Ticker.TwoChainsAfterQuickClicks | dist/build/metronom.mjs:417-423 | Three clicks from the initial state before any firing leave the instance unmuted with two timers of 600 ms armed. |
| Ticker.TempoChangeTakesEffectAtNextTick | dist/build/metronom.mjs:410-412 | The timer already armed keeps the old delay. The timer it re-arms uses the tempo current when it fires (600 ms, then 300 ms after moving to 200). |
| Fragment.IconFor | dist/build/metronom.mjs:328 | For a boolean mute, the icon is "play" exactly when muted. |
| Fragment.SliderText | dist/build/metronom.mjs:62-64 | set_input_value writes the empty string for null and undefined. |
| Fragment.Component.constructor | dist/build/metronom.mjs:333-365 | Creating and mounting the fragment renders the context, and the mask is the sentinel `[-1]`. |
| Fragment.Component.Patch | dist/build/metronom.mjs:377-384 | Bit 0 of the mask rewrites the label and slider from bpm; otherwise they are untouched. Bit 1 recomputes the icon, and innerHTML changes only when the icon changes; otherwise both are untouched. |
| Runtime.Dedup | dist/build/metronom.mjs:132-139 | The render phase runs each queued callback not seen before, once. |
| Runtime.Reverse | dist/build/metronom.mjs:142-144 | Draining a queue with `pop()` runs every element, last pushed first. |
| Runtime.RenderPhaseRunsEachOnce | dist/build/metronom.mjs:132-139 | A render phase after a log of distinct callbacks, all already seen, keeps the log free of repeats. Every logged callback is in the new seen set. |
| Runtime.Scheduler.constructor | dist/build/metronom.mjs:78-83 | The runtime starts with empty queues, no flush scheduled and no current component. |
| Runtime.Scheduler.Register | dist/build/metronom.mjs:225 | A component mounted with the clean mask `[-1]` joins the runtime without breaking its invariant. |
| Runtime.Scheduler.ScheduleUpdate | dist/build/metronom.mjs:84-89 | Afterwards a flush is scheduled. A new one is queued exactly when none was. |
| Runtime.Scheduler.MakeDirty | dist/build/metronom.mjs:197-204 | The mask becomes MarkDirty of the old one. The component is queued, and a flush scheduled, exactly when it was clean. Exactly slot i is newly marked. The queue invariant holds. |
| Runtime.Scheduler.Invalidate | dist/build/metronom.mjs:232-241 | The slot is assigned in any case. Mask, queue and schedule change exactly as in make_dirty when safe_not_equal reports a change, and are untouched otherwise. Every component's stale DOM stays marked. |
| Runtime.Scheduler.Update | dist/build/metronom.mjs:149-158 | before_update runs and after_update is queued as render callbacks. The mask becomes `[-1]`. A component whose stale slots were marked shows its whole context afterwards. |
| Runtime.Scheduler.UpdateNext | dist/build/metronom.mjs:118-123 | The component at flushidx becomes current and is updated, and flushidx advances. Its before_update callbacks run and its after_update callbacks are queued. Only that component changes, and the queue invariant holds. |
| Runtime.Scheduler.UpdateQueued | dist/build/metronom.mjs:118-123 | The update loop updates every component from flushidx on, in queue order. Their before_update callbacks run and their after_update callbacks are queued, component after component. No context changes. |
| Runtime.Scheduler.UpdateDirtyComponents | dist/build/metronom.mjs:118-126 | After the update loop every component's mask is `[-1]` and it shows its context. The queue is empty, flushidx is 0 and no component is current. The callbacks run and queued are those of the waiting components, in order. |
| Runtime.Scheduler.RunBindingCallbacks | dist/build/metronom.mjs:127-128 | The binding callbacks run in reverse order of queueing, and the queue is empty afterwards. |
| Runtime.Scheduler.RunRenderCallbacks | dist/build/metronom.mjs:132-140 | Exactly the render callbacks not seen before run, each once, in queue order. All of them become seen, and the queue is emptied. |
| Runtime.Scheduler.RenderPhase | dist/build/metronom.mjs:127-140 | The binding callbacks run in reverse order, then the render callbacks not seen before, once each. Both queues are emptied, and the log of this flush's render callbacks stays free of repeats. |
| Runtime.Scheduler.RunFlushCallbacks | dist/build/metronom.mjs:142-144 | The flush callbacks run in reverse order of queueing, and the queue is empty afterwards. |
| Runtime.Scheduler.Round | dist/build/metronom.mjs:115-140 | One round runs the waiting components' before_update callbacks, the binding callbacks in reverse, then the queued and newly queued render callbacks not seen before, once each. These render callbacks are exactly what the round adds to the flush's log, which stays free of repeats. Every component ends clean and rendered, and every queue empty. |
| Runtime.Scheduler.Rounds | dist/build/metronom.mjs:115-141 | The do-while loop ends with no component waiting and every component rendered. The callbacks it ran are those of one round, and the render callbacks among them, which the log records, are free of repeats. |
| Runtime.Scheduler.Flush | dist/build/metronom.mjs:113-148 | The callbacks run are, in order: the waiting components' before_update callbacks, the binding callbacks in reverse, the render callbacks (queued ones first, then the components' after_update ones) not seen before, once each, and the flush callbacks in reverse. Afterwards every queue is empty, flushidx is 0, no flush is scheduled, the seen set is cleared and the saved component is current again. Every component's mask is `[-1]` and it shows its unchanged context. |
| Runtime.Scheduler.Reset | dist/build/metronom.mjs:145-147 | The end of a flush clears the schedule flag and the seen set, and restores the saved component. |
| Widget.Metronome.Mount | dist/build/metronom.mjs:438-449 | A new instance starts at 100 bpm, muted, with nothing armed. Its fresh component is rendered, clean and registered with the runtime. |
| Widget.Metronome.StartSounddevice | dist/build/metronom.mjs:399-415 | The instance takes the Start step: a timer of the current delay is armed exactly when unmuted. The instance's invariant is kept. |
| Widget.Metronome.SetMute | dist/build/metronom.mjs:418 | `$$invalidate(1, mute = v)` sets mute. When v differs from the old mute, it marks slot 1 and schedules a flush, and the component is appended to the dirty queue if its mask was clean. Otherwise mask, queue and schedule are untouched. |
| Widget.Metronome.ToggleMute | dist/build/metronom.mjs:417-423 | A click takes the ToggleMute step, always marks slot 1 and schedules a flush. The component is appended to the end of the dirty queue exactly when its mask was clean. |
| Widget.Metronome.InputChange | dist/build/metronom.mjs:425-428 | A slider event takes the SetBpm step. When the stored tempo changed, it marks slot 0 and schedules a flush, and the component is appended to the dirty queue if its mask was clean. Otherwise mask, queue and schedule are untouched. |
| Widget.Metronome.Fire | dist/build/metronom.mjs:402-411 | A firing timer takes the Fire step, and the instance's invariant is kept. |
| Widget.Metronome.Flush | dist/build/metronom.mjs:113-148 | After the scheduled flush the label and slider show bpm and the icon shows "play" exactly while muted, and the instance's variables and timers are unchanged. As in Runtime.Scheduler.Flush: every queue is empty, nothing is scheduled, the current component is restored, every component sharing the runtime has mask `[-1]`, shows its unchanged context, and the callbacks run in the stated order. |

## Left out

- Time is abstract. Any armed timer may fire next, and a timer's delay is recorded but not compared with the others.
- The audio sample and `new Audio(...)` are reduced to a counter of `audio.play()` calls. The embedded MP3 and SVG data are not modelled; the icons are two constants.
- DOM helpers (`element`, `attr`, `insert`, `append`, `listen`, `detach`) and the custom-element wrapper (`SvelteElement`, shadow root, attributes as props, `customElements.define`) are not modelled. The DOM is reduced to the label text, the slider value and the icon's HTML.
- Callbacks are opaque identities. They do not run code, so they never mark a component dirty during a flush. In the model the flush loop therefore finishes after its first round, and re-entrant flushes do not arise.
- `$$.update()` is `noop` for this component and is not modelled. The `ready` flag is left out because it is always true when the handlers run. So are `$$.bound` and `skip_bound`, since nothing binds to this component.
- `destroy_component`, hydration, transitions, `on_mount`, `on_destroy` and `on_disconnect` are not modelled.
- JsValues.SafeNotEqual: the object and function disjuncts of safe_not_equal are not modelled, because only primitives reach it here.
- JsValues.ToNumber: of the string-to-number grammar of unary `+`, only unsigned decimal digit strings are modelled. Every other non-empty string reads as NaN, whereas JavaScript would also accept signs, whitespace, fractions, exponents and hexadecimal. Numbers are integers plus NaN; fractions and infinities are not represented.
- Ticker.TimerDelay: the conversion of a fractional or huge timeout is not modelled. The slider only yields whole tempos.
- The dirty mask is a value (`seq` of words) that make_dirty and update reassign. JavaScript fills and updates the array in place; nothing else holds a reference to it, so no aliasing is lost.
- Runtime.Scheduler.MakeDirty: requires the slot's word to exist (`i / 31 < |dirty|`). JavaScript would instead grow the array. Only slots 0 and 1 of the context are ever invalidated, so the one-word mask always suffices.
- Runtime.Scheduler.Register: the bookkeeping of which components the runtime serves is a proof device, not part of `init`.
- JsValues.DecimalString: numbers are exact unbounded integers, whereas JavaScript numbers are doubles. From 1e21 on `'' + n` switches to exponent notation, and above 2^53 integers are not exact. The contract holds for JavaScript only below that range. The slider's 40 to 256 never reaches it.
- JsValues.ToJsString: the same limit applies. It is exact only for integers below 2^53.
- Widget.Metronome.Mount: does not run the synchronous `flush()` that ends `init` (dist/build/metronom.mjs:262). That flush would also update any other component waiting in the runtime; Mount leaves the runtime's queues as they were.
- The context returned by `instance` has four slots: `bpm`, `mute`, `toggleMute` and `input_change_input_handler` (dist/build/metronom.mjs:430). The model's `ctx` keeps only slots 0 and 1. The two handlers are never invalidated and `p` does not read them.
- `rollup.config.js`, the build configuration, is not part of this model.
