# Colour picker: a verified model

This project models in Dafny the core of a small browser colour picker. The
picker has three parts:

- **The converter** (`src/lib/converter.js`).
  - RGB to HSV and back with the hexcone formulas.
  - The `#RRGGBB` / `#RRGGBBAA` codec of section 5.2 of CSS Color Module
    Level 4.
- **A reactive store** (`src/lib/pubsub.js`, `src/lib/store.js`,
  `src/lib/state.js`).
  - A publish/subscribe registry.
  - A store whose state object sits behind a write trap.
  - A `status` flag that `dispatch`, `commit` and the trap drive.
  - The picker's own tables of four actions and four mutations.
- **The controller** (`src/index.js`).
  - Input validation and the slider mapping.
  - The ordered dispatch sequences of the slider, input and mouse handlers.

All non-integer values are exact `real`s:

- JavaScript's `Math.round` is `(x + 0.5).Floor`.
- `%` on numbers truncates towards zero (`JsRem`).

Under exact arithmetic the RGB → HSV → RGB round trip holds for every byte
triple. So does the hex round trip, both ways. With the corrected input
validations (see Findings), the controller keeps the stored RGB equal to the
conversion of the stored HSV after every handler. The validations as written
do not keep it.

Files, one module each:

| file | module | models |
|---|---|---|
| `wrappers.dfy` | `Wrappers` | the optional value |
| `color_space.dfy` | `ColorSpace` | `rgb_to_hsv`, `hsv_to_rgb` |
| `hex_codec.dfy` | `HexCodec` | `rgba_to_hex`, `hex_to_rgba` |
| `pubsub.dfy` | `Events` | class `PubSub` |
| `store.dfy` | `StateStore` | class `Store`, its trap and status machine |
| `app_state.dfy` | `AppState` | the action and mutation tables, `defaultState`, the `store` instance |
| `picker.dfy` | `Picker` | the functions and listeners of `src/index.js` |
| `findings.dfy` | `Findings` | two defects of `src/index.js`, as written |

The store is a class whose methods change its fields in place. Each method
is proved against a function on a `Snapshot` value (`Trap`, `CommitStep`,
`DispatchStep`). The lemmas about the store are stated on those functions.
The console diagnostics and each `publish` are recorded as `Effect`s in the
store's `trace`. Subscriber callbacks are identifiers.

## Model

| member | source | states |
|---|---|---|
| `ColorSpace.Round` | src/lib/converter.js:56-58 | `Math.round`: the integer within half of x, with halves going up |
| `ColorSpace.RgbToHsv` | src/lib/converter.js:5-25 | the value is the largest channel divided by 255; the hue and saturation are stated by `RgbToHsvInRange`, `HueIndependentOfTieBreak`, `SaturationAndValue` and `RoundTrip` |
| `ColorSpace.AchromaticHsv` | src/lib/converter.js:10-24 | equal channels give hue 0, saturation 0 and value r/255 |
| `ColorSpace.WhiteAndBlackHsv` | src/test/converter.test.js:11-20 | white is (0, 0, 1) and black is (0, 0, 0) |
| `ColorSpace.JsRemSixSmall` | src/lib/converter.js:13 | `% 6` leaves a quotient in [-1, 1] unchanged |
| `ColorSpace.BranchHueRange` | src/lib/converter.js:12-24 | each branch taken for a maximal channel gives, once normalised, a hue in [0, 360) |
| `ColorSpace.LastMaximal` | src/lib/converter.js:12-20 | the channel whose branch is the last one taken is a maximal channel |
| `ColorSpace.HueFromLastMaximal` | src/lib/converter.js:12-24 | the hue is the normalised hue of the last branch taken |
| `ColorSpace.TiedBranchesAgree` | src/lib/converter.js:12-20 | two channels that tie for the maximum give the same normalised hue |
| `ColorSpace.HueIndependentOfTieBreak` | src/lib/converter.js:12-24 | the hue equals the normalised hue of any maximal channel, so the overwriting `if`s are harmless |
| `ColorSpace.SaturationAndValue` | src/lib/converter.js:21-22 | s is chroma/max (0 when max is 0) and v is max/255, both in [0, 1] |
| `ColorSpace.RgbToHsvInRange` | src/lib/converter.js:5-25 | for byte channels: h in [0, 360), s and v in [0, 1] |
| `ColorSpace.JsRemTwoSector` | src/lib/converter.js:32 | `interval % 2` is `interval - 2j` in the sector pair of `interval` |
| `ColorSpace.XInSector` | src/lib/converter.js:32 | in sector k, x is chroma times a rise in [0, 1] that is linear in the interval |
| `ColorSpace.ComponentsInSector` | src/lib/converter.js:34-53 | sector k picks one fixed arrangement of (chroma, x, 0); sector 5 includes 6 |
| `ColorSpace.HsvToRgbInSector` | src/lib/converter.js:27-60 | in sector k the result is that arrangement shifted by m and rounded ×255 |
| `ColorSpace.FullTurn` | src/lib/converter.js:51-53 | h = 360 falls in the closed last sector and gives the red-side arrangement |
| `ColorSpace.HsvToRgbBytes` | src/lib/converter.js:27-60 | an HSV in range converts to three bytes |
| `ColorSpace.RoundTrip` | src/lib/converter.js:5-60 | `hsv_to_rgb(rgb_to_hsv(c)) == c` for every byte triple |
| `ColorSpace.HsvToRgbGrey` | src/test/converter.test.js:42-50 | a grey of value v gives three equal channels 255 v |
| `ColorSpace.HsvToRgbVectorGreen` | src/test/converter.test.js:52-55 | (129, .86, .81) gives (29, 207, 56) |
| `ColorSpace.HsvToRgbVectorBlue` | src/test/converter.test.js:57-60 | (226, .44, .55) gives (79, 93, 140) |
| `ColorSpace.RgbToHsvVectors` | src/test/converter.test.js:22-38 | after rounding, the two RGB vectors give (129, 86, 81) and (226, 44, 55) |
| `HexCodec.HexValue` | src/lib/converter.js:113-116 | `parseInt` of one hexadecimal digit, in either case, is in 0..15 |
| `HexCodec.DigitRoundTrip` | src/lib/converter.js:87 | writing a read digit back gives its lower-case form |
| `HexCodec.NatToHex` | src/lib/converter.js:87 | `toString(16)` writes at least one digit |
| `HexCodec.PaddedByte` | src/lib/converter.js:87-88 | a byte is written as exactly two lower-case digits, zero-padded |
| `HexCodec.RgbaToHexBytes` | src/lib/converter.js:79-90 | `#`, two digits per channel, then the alpha pair unless removed; length 9, or 7 with `remove_alpha` |
| `HexCodec.RemoveAlphaIgnoresAlpha` | src/lib/converter.js:84 | with `remove_alpha` the alpha value makes no difference |
| `HexCodec.HexToRgba` | src/lib/converter.js:103-118 | decodes exactly `#` plus 6 or 8 hex digits; another length gives NaN channels; a failed match throws; decoded channels are bytes; alpha is in [0, 1], and is 1 for 6 digits |
| `HexCodec.EncodeDecode` | src/lib/converter.js:79-118 | decoding an encoded colour with alpha k/255 gives it back; with the alpha removed, alpha 1 |
| `HexCodec.EncodeDecodeRounded` | src/lib/converter.js:79-118 | for any alpha in [0, 1], decoding an encoded colour gives the colour back, with the alpha rounded to the nearest multiple of 1/255; with the alpha removed, alpha 1 |
| `HexCodec.DecodeEncode` | src/lib/converter.js:79-118 | re-encoding a decoded 7- or 9-character string gives it back in lower case |
| `HexCodec.RgbaToHexVectorsClear` | src/test/converter.test.js:64-92 | the white and black vectors with alpha 0, kept and removed |
| `HexCodec.RgbaToHexVectorsHalf` | src/test/converter.test.js:74-97 | (28, 206, 55) with alpha .5 gives `#1cce3780`, or `#1cce37` when removed |
| `HexCodec.RgbaToHexVectorOpaque` | src/test/converter.test.js:79-102 | (78, 92, 140) with alpha 1 gives `#4e5c8cff`, or `#4e5c8c` when removed |
| `HexCodec.HexToRgbaVectors` | src/test/converter.test.js:105-129 | the five decoding vectors, the last with alpha 128/255 |
| `Events.SubscribedKeys` | src/lib/pubsub.js:49-53 | after subscribing, a name has a list exactly when it had one before or is listed |
| `Events.SubscribedLists` | src/lib/pubsub.js:44-56 | after subscribing, each name's list is its old list (or none) plus one copy of the callback per listing; other lists are unchanged |
| `Events.SubscribeNothing` | src/lib/pubsub.js:47 | an empty name list leaves the registry as it was |
| `Events.DuplicatesKept` | src/lib/pubsub.js:49-54 | a name listed twice, or a second subscription, adds the callback twice |
| `Events.PubSub.constructor` | src/lib/pubsub.js:25-27 | the registry starts empty |
| `Events.PubSub.Subscribe` | src/lib/pubsub.js:44-56 | the registry becomes `Subscribed(old registry, names, callback)` |
| `Events.PubSub.Publish` | src/lib/pubsub.js:66-73 | undefined for an unknown name; otherwise each callback called once, in order, on the same data, with the results in that order |
| `StateStore.TrapStores` | src/lib/store.js:45-59 | the trap always stores the value and ends resting; it warns exactly when no mutation is in progress |
| `StateStore.WriteAllStores` | src/lib/store.js:45-58 | a mutation's writes store the payload under its keys and keep every other key |
| `StateStore.SecondWriteFlagged` | src/lib/store.js:54-57 | a mutation that writes two keys gets a warning for the second write |
| `StateStore.SingleWriteQuiet` | src/lib/store.js:54-57 | a mutation that writes one key ends resting without a warning |
| `StateStore.UnknownAction` | src/lib/store.js:71-78 | an unknown action returns false and changes neither state nor status |
| `StateStore.KnownActionSucceeds` | src/lib/store.js:82-88 | a known action returns true; if its mutation is missing, the state is unchanged and the status stays `'action'` |
| `StateStore.UnknownMutation` | src/lib/store.js:103-106 | an unknown mutation returns false, publishes nothing, and leaves state and status alone |
| `StateStore.CommitPublishesAfter` | src/lib/store.js:108-118 | a known mutation returns true and publishes its name once, after all its writes |
| `StateStore.Store.constructor` | src/lib/store.js:24-61 | resting, empty registry, and the supplied tables and state, or empty ones |
| `StateStore.Store.Set` | src/lib/store.js:45-59 | a top-level write is `Trap` on the store's snapshot |
| `StateStore.Store.Commit` | src/lib/store.js:99-119 | the new snapshot and result are `CommitStep` of the old snapshot |
| `StateStore.Store.Dispatch` | src/lib/store.js:71-89 | the new snapshot and result are `DispatchStep` of the old snapshot |
| `AppState.Tables` | src/lib/state.js:30-42 | exactly four names; `set_X` commits `set_X`, which assigns the one field X |
| `AppState.AppDispatch` | src/lib/state.js:30-42 | any of the four actions returns true, replaces only its field, ends resting without a warning, and publishes once to subscribers that see the new value |
| `AppState.CreateStore` | src/lib/state.js:44-55 | the instance has the two tables and the default state |
| `Picker.DefaultConsistent` | src/lib/state.js:44-49 | the default state is consistent: black in RGB is black in HSV |
| `Picker.Drag` | src/index.js:45-53 | NaN (`None`) exactly when the element has zero length |
| `Picker.DragClamped` | src/index.js:45-53 | for a positive length: a percentage, 0 before the origin, 100 past the end, proportional between |
| `Picker.NumInputValidation` | src/index.js:160-173 | a number in 0..bound, 0 for anything but a digit string |
| `Picker.NumInputRoundTrip` | src/index.js:160-173 | a number written into an input validates back to itself, or to the bound |
| `Picker.ZerosAhead` | src/index.js:160-173 | zeros written ahead of a digit string do not change the number it reads as |
| `Picker.LeadingZerosInput` | src/index.js:160-173 | a number with any count of leading zeros validates as the number, or as the bound |
| `Picker.LeadingZerosExamples` | src/index.js:160-173 | "0300" validates as a channel to 255, and "007" to 7 |
| `Picker.HexInputValidation` | src/index.js:184-188 | returns the input exactly when it is `#` plus 6 or 8 hex digits |
| `Picker.ValidatedHexDecodes` | src/index.js:113-117 | a hex input passes validation exactly when `hex_to_rgba` decodes it |
| `Picker.ShownHexAccepted` | src/index.js:213 | for any alpha in [0, 1], the hex the picker shows passes validation and decodes to the shown RGB, with the alpha rounded to the nearest multiple of 1/255: within 1/510 of the shown alpha, and equal to it when it is such a multiple (alpha 1 included). The picker's own percentages, such as 0.5, come back rounded (128/255) |
| `Picker.WithChannel` | src/index.js:135-136 | only the edited channel changes |
| `Picker.InitConsistent` | src/index.js:98-107 | `init_state` with percentages leaves the state consistent |
| `Picker.SliderConsistent` | src/index.js:65-88 | every slider change keeps the state consistent; the hue slider keeps s and v, the pad keeps h |
| `Picker.InputConsistent` | src/index.js:111-142 | every input change keeps the state consistent; after an RGB change the HSV is its conversion, and other channels are kept |
| `Picker.InitOnLoad` | src/index.js:10 | the on-load sliders give HSV (180, .5, 1), RGB (128, 255, 255) and alpha 1 |
| `Picker.PublishedEntries` | src/lib/store.js:99-118 | the k-th notification of a dispatch sequence goes to the callbacks subscribed to the k-th action and carries the state after the first k + 1 writes; the last carries the final state |
| `Picker.PublishedAppend` | src/lib/store.js:99-118 | two dispatch sequences run one after the other publish and write what their concatenation does |
| `Picker.WrittenAhead` | src/index.js:133-139 | writing the first dispatch's payload ahead of it, as the channel input does through the stored object, changes no notification |
| `Picker.InitUpdatesWrite` | src/index.js:98-107 | the dispatches of `init_state` together write `InitState` |
| `Picker.InitPublished` | src/index.js:104-106 | `init_state` notifies the subscribers of `set_rgb`, `set_hsv`, `set_alpha`, in that order; the last see the final state |
| `Picker.SliderUpdates` | src/index.js:68-87 | the dispatches of `slider_change` are exactly its events: `set_hsv` then `set_rgb` for hue and sat, `set_alpha` for alpha, none otherwise |
| `Picker.SliderUpdatesWrite` | src/index.js:68-87 | the dispatches of `slider_change` together write `SliderState` |
| `Picker.SliderPublished` | src/index.js:68-87 | `slider_change` notifies the subscribers of its events, in order; the last see the final state |
| `Picker.Percentages` | src/index.js:66-80 | the horizontal percentage always and the vertical one only for sat, both in [0, 100] |
| `Picker.InputUpdates` | src/index.js:111-142 | the dispatches of `input_change` are exactly its events, in order |
| `Picker.InputUpdatesWrite` | src/index.js:111-142 | the dispatches of `input_change` together write `InputState` |
| `Picker.InputPublished` | src/index.js:111-142 | `input_change` notifies the subscribers of its events, in order; the last see the final state |
| `Picker.InitialiseState` | src/index.js:98-107 | the state becomes `InitState`; the store ends resting; the trace gains exactly the notifications `Published` gives for `set_rgb`, `set_hsv`, `set_alpha`: each to its subscribers, seeing the state as far as it has got |
| `Picker.SliderChange` | src/index.js:65-88 | the state becomes `SliderState` of the dragged percentages, the vertical one read only for sat; the trace gains exactly the notifications `Published` gives for the slider's dispatches, each to its subscribers, seeing the state as far as it has got; the store ends resting if anything was dispatched, and its status is unchanged otherwise |
| `Picker.SlideTo` | src/index.js:68-87 | from percentages: hue sends `set_hsv` then `set_rgb` of its conversion; alpha sends `set_alpha`; sat does the same as hue; any other code sends nothing; each dispatch is published to its subscribers with the state as far as it has got, so `set_hsv`'s subscribers see the new HSV beside the old RGB; the state stays consistent; the store ends resting if anything was dispatched, and its status is unchanged otherwise |
| `Picker.InputChange` | src/index.js:111-142 | the state becomes `InputState`; the trace gains exactly the notifications `Published` gives for the input's dispatches, each to its subscribers, seeing the state as far as it has got; nothing is dispatched for an invalid hex; the store ends resting if anything was dispatched, and its status is unchanged otherwise |
| `Picker.MouseDown` | src/index.js:16-23 | with a code: `set_dragging` of the code, then the slider change, both published to their subscribers with the state as far as it has got, and the store ends resting; without one, nothing changes, status included |
| `Picker.MouseMove` | src/index.js:25-31 | only while a code is dragged: that slider's change, with its notifications and status as in `SliderChange`; otherwise nothing changes, status included |
| `Picker.MouseUp` | src/index.js:33 | `dragging` becomes empty, whatever was dragged; the store ends resting; one `set_dragging` notification to its subscribers, who see the new state |
| `Findings.NumInputValidationAsWritten` | src/index.js:160-173 | as written, the input is kept unchanged, as the string itself, exactly when it is a non-negative integer within the bound; an input that is not one is replaced by 0 |
| `Findings.AsWrittenCoercesToCorrected` | src/index.js:160-173 | read as a number, the as-written result equals the corrected one |
| `Findings.RgbToHsvAsWritten` | src/lib/converter.js:5-25 | with no textual channel, it is `rgb_to_hsv` |
| `Findings.TypedRedLosesHue` | src/index.js:133-139 | for any (r, g, 0) with r > g > 0 whose red was typed: hue 0 instead of 60 g / r, and the stored HSV converts to (r, 0, 0), not the stored RGB |
| `Findings.TypedRedExample` | src/index.js:160-173 | `200` typed into red is kept as a string; on (200, 100, 0) the hue should be 30 but comes out 0 |
| `Findings.HexInputValidationAsWritten` | src/index.js:184-188 | as written, an accepted input is returned unchanged |
| `Findings.AcceptedButNotDecoded` | src/lib/converter.js:103-118 | of the accepted inputs, `hex_to_rgba` decodes exactly those starting with `#`; the others give NaN channels |
| `Findings.UnprefixedHexInput` | src/index.js:113-117 | `1cce37` is accepted as written but decodes to NaN; the corrected validation rejects it |

## Left out

- DOM rendering is not modelled:
  - the subscriptions at src/index.js:197-224, which write inputs and CSS;
  - element lookups and offset reads (these become the `Box` parameter);
  - listener registration (src/index.js:39-41).
- Subscriber callbacks are identifiers. Running them, and any dispatch nested in them, is not modelled.
- IEEE-754 is not modelled: arithmetic is exact.
  - `rgba_to_hex` turns its numbers into a string and parses them back. For numbers that is the identity, so the model skips the string step.
  - Float rounding artefacts are out of scope.
- JavaScript object mechanics are not modelled:
  - how the Proxy intercepts writes;
  - names inherited from `Object.prototype`, for which `typeof actions[name]` is also `'function'`.
- The actions and mutations tables hold arbitrary functions in the source. Here an action commits one mutation, and a mutation assigns the payload to a list of top-level keys. Those are the only shapes the picker uses.
- `console.warn` and `console.error` text is not kept. Only the fact of each diagnostic is recorded, as an `Effect`.
- `publish`'s `data` parameter defaults to `{}`. Here it is the unit value, because no callback reads it.
- `hex_to_rgba` does not return NaN channels or throw a TypeError here. Those outcomes are the `NotANumber` and `TypeError` values.
- Picker.SliderChange: requires a positive element width, and a positive height for sat, because `drag` of a zero size gives NaN and the state has no value for NaN.
- Picker.MouseDown: requires a positive element width when the code is non-empty, and a positive height for sat, for the same reason.
- Picker.MouseMove: requires a positive element width while a code is dragged, and a positive height while sat is dragged, for the same reason.
- HexCodec.HexToRgba: `hex.length` in JavaScript counts UTF-16 code units, but `|hex|` here counts Unicode scalar values. The two differ for characters outside the Basic Multilingual Plane. For example, `#abcde😀` has length 8 in JavaScript, which gives NaN channels, but length 7 here, which gives `TypeError`.
- Picker.InitialiseState: requires slider percentages in [0, 100]. Its only call passes 50, 0, 50 and 0.
- Picker.InputChange: uses the corrected validations (see Findings). Storing a channel as a digit string is modelled only in `Findings`.
- The legacy `clpk.js` is not part of this model. Neither are the build configuration or the test harness (only the vectors are used).
- The following dead code and module-linkage details are not part of this model:
  - `rgb_to_hex_2/3/4`, `hex_to_rgb_2` and `expect` (src/lib/converter.js:133-175);
  - the undeclared `converter` export;
  - the missing `PubSub` export.

## Findings

| source | as written | input that shows it | evidently intended | confidence | as-written member | corrected member |
|---|---|---|---|---|---|---|
| src/index.js:160-173 | a valid input is returned as the raw digit string. `rgb_to_hsv`'s `max === r` is then false for the edited channel, so that branch is skipped | typing `200` into red with green 100 and blue 0 gives hue 0 instead of 30, and the stored RGB and HSV disagree | return the number (the function's documentation says it returns the validated value) | high; not executed | `Findings.TypedRedLosesHue` | `Picker.NumInputValidation` |
| src/index.js:184-188 | the `#` is optional. `hex_to_rgba` only decodes 7- or 9-character strings, so an unprefixed 6- or 8-digit input gives NaN channels | `1cce37` | either require the `#` in the validation, as the documentation of both functions describes the input, or decode unprefixed input in `hex_to_rgba`, whose own pattern also has `#?`; the model takes the first | high; not executed | `Findings.UnprefixedHexInput` | `Picker.HexInputValidation` |
