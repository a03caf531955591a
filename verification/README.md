# Keyboard bindings, interaction sounds, island notification and pressed keys

A Dafny model of four front-end components:

- the keyboard-binding registry (`useKeyboardBindings`): combo normalisation for the
  string shorthand and the structured descriptor, the combo read off a key-down event,
  the table `setBindings` installs, the window key-down dispatcher, and the registry's
  life cycle (mount, replace, unmount);
- the interaction-to-sound router (`SonicInteract`): which of the six sounds an event
  on the wrapped element plays, the `disabled` and per-sound gating, swipe detection,
  and the touch-start coordinate kept between listener attachments;
- the island notification's stage machine (bell, expanded title, full message with a
  Close button) with its delayed expansion timer;
- the on-screen list of pressed keys.

Files:

| file | module | contents |
|---|---|---|
| `options.dfy` | `Options` | `Option` |
| `strings.dfy` | `Strings` | ASCII lowercasing, `split`/`join` on one character, code-unit order, sorting |
| `tables.dfy` | `Tables` | installing key/value pairs into a map, later pairs overwriting earlier ones |
| `keybindings.dfy` | `KeyBindings` | normalisation, event combos, binding table, dispatcher, registry |
| `sound_router.dfy` | `SoundRouter` | gating, classification, swipe, listener state |
| `notification.dfy` | `Notification` | stage machine with timers |
| `pressed_keys.dfy` | `PressedKeys` | key-down and key-up on the pressed list |

Everything is functional. A React state variable becomes a field of a state datatype. An
event listener becomes a `Step` function from state and input to a new state plus
emitted effects. These effects are preventing default, invoking a handler, playing a
sound and calling `closeNotification`. A `Run` function folds `Step` over a sequence of
inputs. Handlers are values of a type parameter, and sounds are trigger names.

Some consequences of the code that the proofs make precise:

- In the string shorthand, the last `+`-separated piece is the key wherever it is
  written. So `"s+ctrl"` normalises to `"s+ctrl"`, not `"ctrl+s"`
  (`KeyBindings.ExampleKeyStaysLast`).
- An empty modifier token, as in `"+s"`, joins to the empty string. JavaScript treats
  that as false, so the result is the key alone.
- No string binding can ever fire for a key-down whose key is `+`. The split turns the
  key into empty pieces, so `"ctrl++"` normalises to `"+ctrl+"`, while pressing ctrl
  and `+` yields `"ctrl++"` (`KeyBindings.PlusKeyNeverMatchesStringCombo`).
- The key-down listener reads `bindingsRef.current` at each event, so the function
  returned to the caller replaces the bindings for every later key-down
  (`KeyBindings.ReplaceSupersedes`).
- The binding table is typed `Record<string, Handler>`, so `setBindings` only ever
  normalises strings. The structured-descriptor branch of `normalizeCombo` is modelled
  and related to the string branch, but no table reaches it.
- The `touchstart` case of the sound router's classification switch is never reached.
  The `touchstart` listener only records the coordinate, so the press sound comes only
  from `mousedown` (`SoundRouter.ClickDownOnlyFromMouse`).

## Model

| member | source | states |
|---|---|---|
| Strings.Lower | src/components/useKyeBindings.ts:47 | `toLowerCase`, restricted to ASCII: same length, and each character is mapped to its lower-case letter or left alone |
| Strings.Split | src/components/useKyeBindings.ts:47 | `split("+")` yields at least one piece, and no piece contains the separator |
| Strings.JoinSplit | src/components/useKyeBindings.ts:47-49 | joining the pieces of a split gives back the original string |
| Strings.SplitJoin | src/components/useKyeBindings.ts:47-49 | splitting a join of separator-free tokens gives back exactly those tokens |
| Strings.JoinEmpty | src/components/useKyeBindings.ts:49-50 | a join is the empty (falsy) string iff there are no tokens or a single empty token |
| Strings.JoinAppend | src/components/useKyeBindings.ts:49 | `join("+")` of a non-empty list with one more token appended is the old join, a `+` and that token |
| Strings.SplitLower | src/components/useKyeBindings.ts:47 | lowercasing before splitting equals lowercasing every piece after |
| Strings.LexTransitive | src/components/useKyeBindings.ts:49 | the code-unit order used by `sort()` is transitive |
| Strings.LexConnected | src/components/useKyeBindings.ts:49 | any two distinct strings are ordered one way or the other |
| Strings.Sort | src/components/useKyeBindings.ts:49 | `sort()` returns a sorted permutation of its input |
| Strings.SortedUnique | src/components/useKyeBindings.ts:49 | two sorted lists with the same elements are equal, so the sort result depends only on the multiset |
| Strings.SortPermutationInvariant | src/components/useKyeBindings.ts:49 | reordering the modifiers does not change the sorted list |
| Strings.SortSorted | src/components/useKyeBindings.ts:49 | sorting an already sorted list leaves it unchanged |
| Strings.SortJoinEmpty | src/components/useKyeBindings.ts:49-50 | sorting does not change whether the joined modifiers are falsy |
| Tables.Install | src/components/useKyeBindings.ts:16-21 | a table built from an empty object holds exactly the keys of the entries |
| Tables.InstallLastWins | src/components/useKyeBindings.ts:17-21 | where entries share a key, the value of the last one is kept |
| KeyBindings.Parts | src/components/useKyeBindings.ts:47 | the pieces of the lowercased combo: at least one, each lowercase and free of `+` |
| KeyBindings.KeyToken | src/components/useKyeBindings.ts:48 | the popped key is lowercase and contains no `+` |
| KeyBindings.NormalizeString | src/components/useKyeBindings.ts:46-50 | the normal form is lowercase; a combo with no modifier tokens normalises to its key |
| KeyBindings.NormalizeStringTokens | src/components/useKyeBindings.ts:46-50 | read back through `split`, the normal form is the modifier tokens in sorted order, then the key; it is the key alone when the modifiers join to the empty string |
| KeyBindings.AssembleTokens | src/components/useKyeBindings.ts:49-50 | the template `${modifiers}+${key}` splits back into the sorted modifiers and the key |
| KeyBindings.AssembleSplit | src/components/useKyeBindings.ts:49-50 | the pieces of the combo built at line 50 are the key alone when the sorted modifiers join to the empty string, and otherwise the sorted modifiers followed by the key |
| KeyBindings.ModTokensOfJoin | src/components/useKyeBindings.ts:47-50 | a combo written as modifiers and key splits back into the lowercased modifiers and key |
| KeyBindings.NormalizePermutationInvariant | src/components/useKyeBindings.ts:46-50 | combos that differ only in modifier order and letter case normalise to the same string |
| KeyBindings.NormalizeCaseInsensitive | src/components/useKyeBindings.ts:47 | lowercasing a combo first does not change its normal form |
| KeyBindings.NormalizeIdempotent | src/components/useKyeBindings.ts:46-50 | normalising a normal form gives it back unchanged |
| KeyBindings.CanonicalModifiers | src/components/useKyeBindings.ts:53-61 | the set flags in alphabetical order form a sorted list |
| KeyBindings.FlagModifiers | src/components/useKyeBindings.ts:52-59 | the filtered flag names: at most four modifier names, each present iff its flag is true |
| KeyBindings.NormalizeRecord | src/components/useKyeBindings.ts:51-63 | the descriptor's normal form is lowercase, and is the lowercased key alone when no flag is set |
| KeyBindings.NormalizeRecordCanonical | src/components/useKyeBindings.ts:52-62 | a descriptor normalises to its set flags in the order alt, ctrl, meta, shift, each followed by `+`, then the lowercased key |
| KeyBindings.NormalizeRecordMatchesString | src/components/useKyeBindings.ts:45-63 | a string and a descriptor with the same modifiers (up to order and case) and the same key (up to case) normalise alike |
| KeyBindings.EventModifiers | src/components/useKyeBindings.ts:67-71 | at most four distinct modifier names, empty iff no modifier key is held |
| KeyBindings.ComboFromEvent | src/components/useKyeBindings.ts:66-74 | the combo read off an event is lowercase, and is the lowercased key alone when no modifier key is held |
| KeyBindings.ComboFromEventAssembles | src/components/useKyeBindings.ts:66-74 | `getComboFromEvent` uses the same template as `normalizeCombo`: its `modifiers.length > 0` test agrees with the falsy-join test, because modifier names are never empty |
| KeyBindings.ComboFromEventIsNormalizeRecord | src/components/useKyeBindings.ts:66-74 | the combo read off an event is the normal form of the descriptor built from its flags and key |
| KeyBindings.ExampleCtrlS | src/components/useKyeBindings.ts:45-74 | `"Ctrl+S"`, `{ctrl: true, key: "S"}` and a ctrl-s key-down all give `"ctrl+s"` |
| KeyBindings.ExampleKeyStaysLast | src/components/useKyeBindings.ts:47-50 | `"s+ctrl"` keeps `ctrl` as its key and does not match ctrl-s |
| KeyBindings.PlusEventTokens | src/components/useKyeBindings.ts:66-74 | the combo of a key-down with key `+` splits into pieces ending in two empty strings, preceded by a modifier name if any |
| KeyBindings.SortedPiecesNeverEndInPlus | src/components/useKyeBindings.ts:47-50 | the pieces of a normal form never end the way such an event combo does |
| KeyBindings.PlusKeyNeverMatchesStringCombo | src/components/useKyeBindings.ts:45-74 | no string combo normalises to the combo of a key-down with key `+` |
| KeyBindings.SetBindings | src/components/useKyeBindings.ts:15-22 | the new table's keys are exactly the normal forms of the entries; nothing of the old table survives |
| KeyBindings.SetBindingsLastWins | src/components/useKyeBindings.ts:17-21 | of entries normalising to the same combo, the last one's handler is installed |
| KeyBindings.Dispatch | src/components/useKyeBindings.ts:29-36 | on a table hit, prevent the default action and then invoke that handler with the event; on a miss, do nothing |
| KeyBindings.Mount | src/components/useKyeBindings.ts:24-39 | after mounting, the listener is attached and the table holds exactly the initial entries' normal forms |
| KeyBindings.Step | src/components/useKyeBindings.ts:29-42 | a key-down leaves the registry alone and acts, while listening, iff its combo is bound; only a key-down while listening has effects; a replace keeps the listener and installs exactly the new entries' normal forms; an unmount detaches the listener |
| KeyBindings.Run | src/components/useKyeBindings.ts:29-42 | over a run, a detached listener is never re-attached, and each event has at most two effects |
| KeyBindings.ReplaceSupersedes | src/components/useKyeBindings.ts:40-42 | after a replace, a key-down acts iff a new entry matches it, whatever the old table held |
| KeyBindings.ReplaceDispatchesLast | src/components/useKyeBindings.ts:29-42 | after a replace, a matching key-down prevents the default action and invokes the last matching new entry's handler |
| KeyBindings.NothingAfterUnmount | src/components/useKyeBindings.ts:37-38 | once the listener is removed, no later event has any effect |
| KeyBindings.StepInvokesOnlyBound | src/components/useKyeBindings.ts:29-36 | a handler invoked by one step is bound under the event's combo, with the listener attached |
| KeyBindings.RunInvokesOnlyBound | src/components/useKyeBindings.ts:29-42 | every handler a run invokes was bound under its event's combo in the table current at that key-down |
| SoundRouter.Play | src/components/soundInteraction.tsx:35-73 | a request plays at most one sound: the requested one, and only when the router is enabled and its resource is non-empty |
| SoundRouter.Classify | src/components/soundInteraction.tsx:81-101 | only events of a handled type on `BUTTON`, `A` or `INPUT` are classified, and never as a swipe |
| SoundRouter.ClassificationTable | src/components/soundInteraction.tsx:82-101 | on an interactive tag, `click` gives the click sound, `mousedown` and `touchstart` the press sound, `mouseenter` the hover sound, and any other type nothing |
| SoundRouter.ClassifyTotalOnInteractive | src/components/soundInteraction.tsx:81-101 | every handled event type on an interactive tag is classified |
| SoundRouter.ReleaseReportsChecked | src/components/soundInteraction.tsx:90-97 | `mouseup` and `touchend` give the same sound: the "on" sound iff the target is checked |
| SoundRouter.HandleInteraction | src/components/soundInteraction.tsx:75-105 | nothing when disabled; otherwise at most one sound, played iff it is the classified one and it is enabled |
| SoundRouter.HandleSwipe | src/components/soundInteraction.tsx:107-113 | the swipe sound plays, once, iff a start was recorded, the distance exceeds 50 and the swipe sound is enabled |
| SoundRouter.SwipeDirectionIndependent | src/components/soundInteraction.tsx:110 | left and right swipes are detected alike |
| SoundRouter.SwipeThresholdExamples | src/components/soundInteraction.tsx:110 | 51 units plays the swipe sound in either direction; exactly 50 does not |
| SoundRouter.Attach | src/components/soundInteraction.tsx:115-119 | freshly attached listeners have no recorded start |
| SoundRouter.Step | src/components/soundInteraction.tsx:119-134 | one event plays at most two sounds, all enabled; `click`, `mousedown`, `mouseup`, `mouseenter` and `touchend` play exactly the classified sound when it is enabled; `touchstart` only records its coordinate and other types play nothing; other events keep the coordinate; the press sound needs `mousedown`; the swipe sound needs `touchend` |
| SoundRouter.TouchEndOrder | src/components/soundInteraction.tsx:124-127 | on `touchend` the swipe sound, if any, comes first; besides it exactly the classified release sound plays, when enabled; the swipe plays iff a start was recorded, the distance exceeds 50 and the swipe sound is enabled |
| SoundRouter.TouchEndSwipeAndRelease | src/components/soundInteraction.tsx:124-127 | a 100-unit swipe ending on an unchecked button plays the swipe sound and then the "off" sound |
| SoundRouter.TouchEndWithoutStartNeverSwipes | src/components/soundInteraction.tsx:119-126 | a `touchend` with no recorded start never plays the swipe sound |
| SoundRouter.Run | src/components/soundInteraction.tsx:115-144 | a run plays at most two sounds per input, and without re-attachment the configuration is unchanged |
| SoundRouter.RunPlaysOnlyEnabled | src/components/soundInteraction.tsx:35-58 | every sound a run plays was enabled by a configuration in force during the run |
| SoundRouter.DisabledRunIsSilent | src/components/soundInteraction.tsx:77-110 | while every configuration is disabled, a run plays nothing |
| SoundRouter.StartPersists | src/components/soundInteraction.tsx:119-127 | without `touchstart` or re-attachment, the recorded start and configuration never change |
| SoundRouter.ClickDownOnlyFromMouse | src/components/soundInteraction.tsx:129-134 | a run plays the press sound only if it contains a `mousedown` |
| Notification.Init | src/components/island-notification.tsx:21-32 | the first render is at the bell, with one pending timer iff shown |
| Notification.Reshow | src/components/island-notification.tsx:24-32 | re-running the effect resets to the bell and schedules a fresh timer iff shown |
| Notification.Step | src/components/island-notification.tsx:24-87 | every step preserves the stage invariant and closes at most once; it closes iff a click or the Close button arrives at stage 2, after which the stage is 0 |
| Notification.ClickTransitions | src/components/island-notification.tsx:34-40 | a click moves stage 1 to 2, moves stage 2 to 0 and closes, and leaves stage 0 alone |
| Notification.CloseButtonClosesOnce | src/components/island-notification.tsx:83-87 | the Close button acts like the closing click and closes exactly once |
| Notification.HiddenIgnoresClicks | src/components/island-notification.tsx:29-40 | clicks on a hidden notification change nothing |
| Notification.ShowThenTimerExpands | src/components/island-notification.tsx:24-27 | showing starts at the bell with a fresh timer, and that timer expands the notification |
| Notification.StaleTimerIgnored | src/components/island-notification.tsx:27-28 | a timer cleared by the effect's cleanup never changes the stage |
| Notification.RunValid | src/components/island-notification.tsx:21-40 | on any run the stage stays 0, 1 or 2, and a hidden notification is at stage 0 |
| Notification.Run | src/components/island-notification.tsx:34-87 | a run closes at most once per event, and never without a click or a Close-button press |
| Notification.Expansions | src/components/island-notification.tsx:27-28 | the timer events that actually expand the notification are at most all its timer events |
| Notification.ClosesNeedTimers | src/components/island-notification.tsx:27-39 | the closes of a run, plus one if it ends expanded, are at most the timer events that find their timer still pending, plus one if it starts expanded; hence also at most its timer events plus one |
| Notification.StaleTimerNotExpansion | src/components/island-notification.tsx:27-28 | a cleared timer firing is a timer event but expands nothing and leaves the state unchanged |
| PressedKeys.Dedup | src/components/KeyPressDisplay.tsx:8 | `[...new Set(xs)]` has no repeats, holds the same keys, and is no longer than `xs` |
| PressedKeys.DedupFixesUnique | src/components/KeyPressDisplay.tsx:8 | a list without repeats passes through the set unchanged |
| PressedKeys.KeyDown | src/components/KeyPressDisplay.tsx:8 | after a key-down the list has no repeats and holds exactly the old keys plus the new one |
| PressedKeys.KeyDownAppendsOnce | src/components/KeyPressDisplay.tsx:8 | a new key is appended at the end, and a key already held leaves the list unchanged |
| PressedKeys.KeyUp | src/components/KeyPressDisplay.tsx:12 | after a key-up the key is gone, every other key keeps its count, and the order is kept |
| PressedKeys.KeyUpKeeps | src/components/KeyPressDisplay.tsx:12 | a key-up keeps the list free of repeats and changes nothing when the key is not held |
| PressedKeys.DownThenUp | src/components/KeyPressDisplay.tsx:8-12 | pressing and then releasing a key that was not held restores the list |
| PressedKeys.RunNoDuplicates | src/components/KeyPressDisplay.tsx:7-16 | on any run the list never holds a key twice |
| PressedKeys.Run | src/components/KeyPressDisplay.tsx:7-16 | after a run, every key shown was shown before or was pressed during the run |
| PressedKeys.ReleasedKeyAbsent | src/components/KeyPressDisplay.tsx:11-12 | a key just released is not shown, whatever came before |

## Left out

- React rendering, hooks and JSX. A state variable is a state field, and a listener is a
  `Step` function. Markup, CSS classes and animations are not modelled.
- Attaching and removing listeners. The registry carries a `listening` flag that
  unmount clears. The sound router's re-attachment is an explicit `Reattach` input:
  React re-runs the effect whenever a callback identity changes, which depends on
  memoisation details outside the model.
- Sound playback and volume. The `use-sound` library is a foreign call, so a played sound
  is an emitted trigger. Volume only reaches the player.
- The 2000 ms notification delay. Time is not modelled; the delay is a `TimerFired`
  event carrying the id of the timer it belongs to.
- Notification.HiddenIgnoresClicks: holds only because the model has no exit animation.
  `AnimatePresence` keeps the last shown element mounted for its 0.2 s exit, and its
  click handlers still see the old stage. A click then can move a hidden notification to
  stage 2, or call `closeNotification` a second time.
- Notification.RunValid: "hidden implies stage 0" likewise ignores the exit-animation
  window described above.
- What the parent does with `closeNotification`. It is an emitted effect, and a later
  `showNotification` change is a separate input.
- Letters outside ASCII. `toLowerCase` is modelled on `A`–`Z` only.
- Characters outside the Basic Multilingual Plane. `sort()` compares UTF-16 code units,
  modelled as character order.
- The order `Object.entries` returns integer-like keys in. A bindings object is a
  sequence of entries, in the order `Object.entries` would yield them.
- Inherited properties of the plain object used as the table, such as a combo equal to
  `constructor`. The table is a map that holds only installed combos.
- The truthiness test on a handler. Handlers are functions, which are always truthy.
- Several touches at once. `clientX` is that of the first touch.
- Floating-point arithmetic. Coordinates are reals. A `touchend` before any `touchstart`
  compares against `undefined`, whose `NaN` distance is never above 50; it is modelled
  as an absent start.
- Calling a handler with its event is an `Invoke` effect. What the handler then does
  runs in code outside the model.
