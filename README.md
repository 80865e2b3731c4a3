# Battery notifier: a verified model of its core

The notifier samples the laptop battery through two sysfs counters,
`energy_now` and `energy_full`. When the charge leaves a safe band, it shows a
small popup with the percentage. It comes in two variants:

- `src/SDL-notify.c` keeps an SDL popup. Its state machine hides the popup
  while the charge is strictly between 14.9 % and 85.1 %. When the popup is
  shown, it renders frames at about 60 Hz. It resamples every 120 frames and
  rebuilds the text only when the reading moved by more than 0.05.
- `src/X11-notify.c` runs a two-second cycle. It opens an X11 window only when
  the level is below 10 or above 85, and it keeps that window until the user
  clicks it.

Both variants share the battery reader `get_battery_level`. The reader keeps a
memo of the full capacity. It returns `-1` when a counter file cannot be
opened. Otherwise it returns `100 * now / full`.

The project has five modules:

- `Battery` (battery.dfy) holds the reader. `Percent` and `Sample` are pure
  functions, and `BatteryReader` is a class whose `energyFull` field is the C
  `static`. File reads come from a sysfs snapshot, a map from path to integer;
  a path that is absent is a file that does not open.
- `FramePacing` (pacing.dfy) holds the frame-budget arithmetic of the visible
  loop.
- `PopupSpec` (popup_spec.dfy) describes the SDL `loop` as functions on a
  `Machine` value: `Start`, `Step`, `Run` and `Finish`. It also holds the
  invariant `Valid` and the lemmas about them. SDL calls are not performed;
  they are appended to a call log.
- `SdlNotify` (sdl_notify.dfy) is the class `Popup`. Its fields are the
  loop's `__interrupt`, `frame`, `oldv`, `newv`, texture pointer and message.
  The window's visibility and the call log are ghost fields. `Loop` keeps the
  source's two nested `while` loops. Each method is proved to produce exactly
  the state the matching `PopupSpec` function describes.
- `X11Notify` (x11_notify.dfy) is the X11 `main` loop, `NotifyLoop`. It is
  proved to equal the run function `Cycles`, and its notification decision is
  `NeedsNotice`.

The environment of a run is a finite sequence of ticks. Each tick holds the
sysfs snapshot that a reading would see, the queued SDL events, and the two
clock readings around a frame. SIGUSR1 arrives right after the last tick.

The float percentage is `Level = Finite(real) | Infinite(negative) | NaN`.
This makes a zero `energy_full` an explicit case. The band test, the 0.05
comparison and the X11 thresholds give the answers IEEE arithmetic gives for
the non-finite values.

Observed behaviour of the code, which the model follows:

- A missing `energy_full` is retried on every call, because the memo stays 0.
  A value of 0 read from the file is also retried. A missing `energy_now`
  affects that call only.
- A mouse press hides the window, sleeps two seconds and shows the window
  again without checking the band. There is no cooldown after which the band
  is checked again.
- When `__interrupt` ends the inner loop, the window is not hidden.
  `Finish` only frees the texture.
- The SDL band treats a reading on a boundary (14.9 or 85.1) as outside the
  band, so the popup is shown. The X11 variant uses strict comparisons
  against 10 and 85, so a level of exactly 10 or 85 is not notified. A level
  of 12 shows the SDL popup but does not make the X11 variant notify.
- A NaN reading (both counters 0) never counts as a change, whichever side
  of the 0.05 test it is on. If the first reading of `loop` is NaN, `oldv`
  stays NaN for good and the text keeps showing it. A later NaN reading
  leaves `oldv` and the text at the previous level.

## Model

| member | source | states |
|---|---|---|
| `Battery.Percent` | src/SDL-notify.c:53 | The result is finite exactly when `energy_full` is non-zero. A finite result `p` satisfies `p * full == 100 * now`. For a zero capacity, the result is an infinity with the sign of `now`, or NaN when `now` is 0. |
| `Battery.Sample` | src/SDL-notify.c:33-54 | The memo is taken from `energy_full` only while it is 0. The level is the -1 sentinel when a needed file does not open. Otherwise it is `Percent` of `energy_now` over the memo the call leaves. |
| `Battery.BatteryReader.GetBatteryLevel` | src/SDL-notify.c:33-54 | The returned level and the new `energy_full` memo are those of `Sample` on the old memo: `energy_full` is read only while the memo is 0, and the sentinel is returned when a file does not open. |
| `Battery.MissingFullIsRetried` | src/SDL-notify.c:34-41 | When `energy_full` does not open, the result is -1 and the memo stays 0. A later call opens the file again and uses its value. |
| `Battery.FullReadWhileUnset` | src/SDL-notify.c:37-44 | While the memo is 0, a call that opens `energy_full` stores its value as the memo. |
| `Battery.FullReadOnlyWhileUnset` | src/X11-notify.c:78-85 | Once the memo is non-zero, `energy_full` is never consulted and the memo never changes. Two snapshots that agree on `energy_now` give the same result. |
| `Battery.MissingNowKeepsMemo` | src/X11-notify.c:87-90 | When `energy_now` does not open, the result is -1 and the memo is left as the `energy_full` step set it. |
| `Battery.ReadingIsPercentOfFull` | src/X11-notify.c:94 | With both counters available, the result `p` satisfies `p * full == 100 * now`. It is finite exactly when the capacity is non-zero. It lies in [0, 100] when `0 <= now <= full`. |
| `Battery.PercentBounds` | src/SDL-notify.c:53 | A charge between empty and full is a finite percentage in [0, 100]. |
| `FramePacing.NsToMsec` | src/SDL-notify.c:147 | C's division by 1 000 000, truncating toward zero. For a non-negative input, the result times a million is the largest multiple of a million not above the input. For a negative input, it is the smallest multiple not below the input. |
| `FramePacing.FrameSleep` | src/SDL-notify.c:145-151 | Corrected pacing. For normalized clock readings with non-negative elapsed time, the request is a valid `tv_nsec`. A sleep is requested exactly when the frame took under 16 ms. The frame plus the sleep then lasts at least 16 ms and under 17 ms. |
| `FramePacing.AsWrittenAgreesWithinSecond` | src/SDL-notify.c:147-151 | When both clock readings fall in the same second, the source's computation equals the corrected one. |
| `FramePacing.SecondRolloverMisPaces` | src/SDL-notify.c:147-151 | Across a second boundary the source's computation goes wrong. A 20 ms frame gets a 996 ms sleep. An 8 ms frame asks for 1 008 000 000 ns, which `nanosleep` rejects. |
| `PopupSpec.InBandDecisions` | src/SDL-notify.c:92 | `InBand`, the test at lines 92 and 103, holds exactly for a finite reading strictly between 14.9 and 85.1. The limits, the -1 sentinel, both infinities and NaN are all outside the band. |
| `PopupSpec.ChangedDecisions` | src/SDL-notify.c:123 | `Changed`, the `fabsf(newv - oldv) > 0.05f` test, is symmetric and false for equal levels. It is false whenever either side is NaN. Two finite levels count as changed when they are more than 0.05 apart. An infinity differs from every finite level and from the opposite infinity, but not from itself. |
| `PopupSpec.PollEventsEffect` | src/SDL-notify.c:108-119 | Draining the event queue sets `__interrupt` exactly when a QUIT is queued. The window ends shown if it was shown or if a press was queued. No texture is created or destroyed, and nothing else changes. |
| `PopupSpec.DismissHidesThenShows` | src/SDL-notify.c:113-117 | A mouse press logs hide, a 2 s sleep and show, in that order. It leaves the window shown and `newv`, `oldv`, `frame` and the text unchanged. |
| `PopupSpec.QuitEndsLoop` | src/SDL-notify.c:91-112 | A QUIT in a frame sets `__interrupt`. That frame completes, and the run ends there without consuming another tick. |
| `PopupSpec.RetextKeepsOneTexture` | src/SDL-notify.c:123-137 | Rebuilding the text destroys the old texture before creating the new one. Exactly one of each happens, and a single texture stays live. |
| `PopupSpec.FrameEffect` | src/SDL-notify.c:107-152 | One shown frame: the window stays shown. It resamples only when `frame >= 120`, and then `frame` ends at 1. `oldv` takes the new reading only if it moved by more than 0.05. Creates and destroys match that rebuild, and the invariant on the text and texture is kept. |
| `PopupSpec.StartValid` | src/SDL-notify.c:72-90 | The prologue creates exactly one texture from the first reading and establishes the loop invariant. |
| `PopupSpec.HiddenIterationOnlyResamples` | src/SDL-notify.c:92-98 | With the window hidden and the reading in the band, an iteration only resamples `newv` (and the memo) and sleeps 2 s. Visibility, `oldv`, the text, the texture and `frame` are unchanged. |
| `PopupSpec.ShownExactlyOutsideBand` | src/SDL-notify.c:92-106 | After every iteration the window is shown exactly when the reading it started from was outside (14.9, 85.1). The -1 sentinel always shows it. |
| `PopupSpec.HiddenOnReentry` | src/SDL-notify.c:103-106 | When a shown reading is back in the band, the window is hidden and the inner loop exits with no frame work. Only the hide and the hidden branch's sleep are logged. `frame`, `oldv`, the text and the texture are unchanged. |
| `PopupSpec.ResampleCadence` | src/SDL-notify.c:121-152 | While shown, a reading is taken only when `frame >= 120`, and `frame` is then reset (to 1 after `frame++`). Other frames leave the reading and the memo alone and increment `frame`. |
| `PopupSpec.TextFollowsReading` | src/SDL-notify.c:121-140 | The text is rebuilt only on a resample whose reading moved by more than 0.05 from `oldv`. `oldv` then equals `newv`, and the message always shows `oldv`. |
| `PopupSpec.ReentryLeavesFrameAtOne` | src/SDL-notify.c:90-152 | A shown reading can re-enter the band only on a resampling frame. So `frame` is 1 whenever the band test will next hide the window, and the hidden branch does not reset it. |
| `PopupSpec.StaleTextOnReappearance` | src/SDL-notify.c:92-101 | The hidden branch does not update `oldv`. When an out-of-band reading makes the window reappear, the message still shows the level from before the hide. |
| `PopupSpec.StepPreservesValid` | src/SDL-notify.c:91-153 | Every iteration keeps `0 <= frame <= 120` and keeps the message showing `oldv`. It keeps exactly one live texture, with never more than one after any call. `frame` stays at most 1 while hidden or in band. |
| `PopupSpec.RunPreservesValid` | src/SDL-notify.c:91-154 | A whole run ends with `__interrupt` set and the invariant intact. |
| `PopupSpec.LoopReleasesTexture` | src/SDL-notify.c:72-157 | When `loop` returns, no texture is live and at no point was more than one live. `frame` is within 0..120, and the message shows `oldv`. |
| `SdlNotify.Popup.Start` | src/SDL-notify.c:72-90 | The prologue sets `oldv`, `newv` and the message from one reading and creates the first texture, as `PopupSpec.Start` describes. |
| `SdlNotify.Popup.HiddenIteration` | src/SDL-notify.c:93-97 | Resamples `newv` and sleeps 2 s, as `PopupSpec.HiddenIteration` describes. |
| `SdlNotify.Popup.ShowWindow` | src/SDL-notify.c:101 | Marks the window shown and logs the show, as `PopupSpec.Show` describes. |
| `SdlNotify.Popup.HideWindow` | src/SDL-notify.c:104 | Marks the window hidden and logs the hide, as `PopupSpec.Hide` describes. |
| `SdlNotify.Popup.HandleEvent` | src/SDL-notify.c:109-118 | QUIT sets `__interrupt`. A mouse press hides the window, sleeps, then shows it. Other events do nothing. |
| `SdlNotify.Popup.PollEvents` | src/SDL-notify.c:108-119 | The event loop's effect equals `PopupSpec.PollEvents`, with events handled first to last. |
| `SdlNotify.Popup.Resample` | src/SDL-notify.c:121-140 | The `frame >= 120` block's effect equals `PopupSpec.Resample`: read, rebuild on change (destroying the old texture first), reset `frame`. |
| `SdlNotify.Popup.Pace` | src/SDL-notify.c:147-151 | Logs a sleep of the remaining frame budget, computed as `FramePacing.FrameSleep` computes it. |
| `SdlNotify.Popup.Frame` | src/SDL-notify.c:107-152 | One frame's effect equals `PopupSpec.Frame`: events, resample, render the current texture, pace, `frame++`. |
| `SdlNotify.Popup.Signal` | src/SDL-notify.c:29-31 | SIGUSR1 sets `__interrupt` once the environment is exhausted, and does not change where the run ends. |
| `SdlNotify.Popup.ShownLoop` | src/SDL-notify.c:101-153 | The inner loop runs at least one frame. When it exits, either the window is hidden again or `__interrupt` is set. It stays on the run `PopupSpec.Run` describes. |
| `SdlNotify.Popup.HiddenPass` | src/SDL-notify.c:92-98 | One pass of the hidden branch consumes one tick, keeps the window hidden and stays on the run `PopupSpec.Run` describes. |
| `SdlNotify.Popup.ShownFrame` | src/SDL-notify.c:107-152 | One frame of the inner loop consumes one tick, leaves the window shown and stays on the run `PopupSpec.Run` describes. |
| `SdlNotify.Popup.Loop` | src/SDL-notify.c:56-158 | The final state of the nested loops and the epilogue equals `PopupSpec.LoopSpec`. The properties of `LoopReleasesTexture` and `RunPreservesValid` therefore hold of it. |
| `X11Notify.NotifyLoop` | src/X11-notify.c:102-111 | The notifications and sleeps of the `for (;;)` loop, and the memo it leaves, equal `Cycles` over the same snapshots. |
| `X11Notify.NoticeDecisions` | src/X11-notify.c:104 | `NeedsNotice`, the test of the level against `LOW_BATTERY` and `HIGH_BATTERY`, holds for a finite level below 10 or above 85 and for either infinity. It fails for exactly 10, for exactly 85 and for NaN, and it holds for the -1 sentinel. |
| `X11Notify.NotifiesExactlyOutsideBand` | src/X11-notify.c:98-104 | A cycle notifies exactly when the level is below 10 or above 85. A level in [10, 85], ends included, only sleeps. |
| `X11Notify.UnreadableAlwaysNotifies` | src/X11-notify.c:79-104 | When a counter file does not open, the cycle notifies with -1, because the sentinel is below 10. |
| `X11Notify.RunNotifiesOnlyOutsideBand` | src/X11-notify.c:102-111 | Over any run, every notification shows a level outside [10, 85]. There is exactly one sleep per cycle, and the run ends with a sleep. |

## Findings

| source | as written | input that shows it | evidently intended | confidence | as-written member | corrected member |
|---|---|---|---|---|---|---|
| src/SDL-notify.c:147-151 | The frame time is `(end.tv_nsec - start.tv_nsec) / 1000000`, which ignores `tv_sec`. | A frame from (0 s, 990 000 000 ns) to (1 s, 10 000 000 ns) takes 20 ms but is followed by a 996 ms sleep. A frame from (0 s, 995 000 000 ns) to (1 s, 3 000 000 ns) takes 8 ms and asks for 1 008 000 000 ns, a `tv_nsec` that `nanosleep` rejects. | Sleep for 16 ms minus the whole elapsed time, and not at all for a frame over budget. | high; not executed | `FramePacing.FrameSleepAsWritten`, shown by `FramePacing.SecondRolloverMisPaces` | `FramePacing.FrameSleep` |

The SDL model (`PopupSpec.Pace`, `SdlNotify.Popup.Pace`) paces frames with
the corrected `FrameSleep`.

## Left out

- SDL, SDL_ttf and Xlib are not called. Window creation, rendering, text
  rasterisation and event delivery are foreign libraries. Show, hide, texture
  creation and destruction, render copies and sleeps become entries of a ghost
  call log. Events and clock readings come from the environment.
- Texture creation is assumed to succeed. A NULL texture from
  `SDL_CreateTextureFromSurface` is not modelled: runtime windowing failures
  have no handling in the source.
- Sysfs reads and `fscanf` become a snapshot of the counter files for each
  call. A file that opens but does not parse is not modelled, and neither is
  the uninitialised `energy_now` that would follow.
- Single-precision rounding is not modelled. Percentages are reals, and the
  constants 14.9f, 85.1f and 0.05f are taken as the decimals they spell.
  Non-finite results are kept as explicit cases.
- `sprintf`'s `%.1f` formatting is not modelled. A message is identified by
  the level it was formatted from (`msgValue`, and the level a texture
  carries).
- Real time is not modelled. `sleep`, `nanosleep` and `clock_gettime` become
  logged durations and clock readings from the environment.
- Asynchronous signals are not modelled. SIGUSR1 is delivered only between
  iterations, and it comes after the last tick of a finite environment. Both
  source loops are otherwise infinite, so a run is a finite prefix of them.
- `main` in src/SDL-notify.c is not part of this model. Its initialisation,
  its failure exits and its `goto` cleanup chain are plumbing over unseen
  libraries. Only its effect that the window starts hidden is kept
  (`PopupSpec.Initial`).
- `create_client` and `notify`'s event loop in src/X11-notify.c are not part
  of this model. A notification is one `Notified(level)` action that ends
  when the user clicks.
- `XCloseDisplay` on every X11 cycle is not modelled. In a quiet cycle before
  the first notification, it is called on the uninitialised `cl`, whose
  display was never opened. In a quiet cycle after a notification, it closes
  again the display that an earlier cycle's `XCloseDisplay` already closed.
- `SdlNotify.Popup.Pace`: paces with the corrected frame time, not the
  `tv_nsec`-only computation of the source (see Findings).
