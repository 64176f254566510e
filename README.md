# guacInputColor: contrast check and picker synchronisation

This project models the color input field of the Guacamole web console
(`guacInputColor`). The field shows a bound color value (`model`, a
`#RRGGBB` string). It lets the user change the value through the external
"Pickr" color picker. When Pickr cannot be built, as in Internet Explorer,
the field degrades to a read-only preview.

Two parts are modelled:

- **The contrast check** `$scope.isDark` (module `ColorContrast`). It is
  false for an undefined model and for any value that is not exactly `#`
  followed by six hexadecimal digits. Otherwise it parses three channels
  and is true when `0.2126·R + 0.7152·G + 0.0722·B <= 153`. The model
  computes this sum in exact `real` arithmetic and proves the
  exact-integer form `2126·R + 7152·G + 722·B <= 1530000`. The parse is
  proved to invert a lower-case `#rrggbb` rendering and to ignore case.
- **The controller** (modules `InputColorSync` and `InputColor`). The
  pure function `InputColorSync.Step` gives the effect of each event:
  - the translation strings resolve (`stringsRetrieved`, which tries
    `Pickr.create`) or are rejected (`angular.noop`);
  - Pickr fires `init`, `save` or `cancel`;
  - another part of the application assigns `model`;
  - Angular runs a digest. A digest first runs the `$evalAsync` queue in
    order, then evaluates the model watcher installed by `init`.

  The class `InputColor.ColorInput` holds the same state in mutable
  fields, with one method per event. Each method is proved to perform
  exactly the `Step` transition for its event and to keep the invariant
  `InputColorSync.Valid`. Lemmas about `Run` (a sequence of steps) state
  the behaviour over any later sequence of events:
  - a failed construction is terminal and emits exactly one event;
  - a rejected string lookup leaves the control inert;
  - an available picker stays available;
  - a `save` is written to the model only at the next digest;
  - `cancel` only hides the picker;
  - `setColor` is pushed only after `init`;
  - a digest leaves picker and model in step, and a second digest
    changes nothing.

The Pickr library is injected as a `PickerLibrary` value. It is either
`Supported`, or `Unsupported(cause)` with the value `Pickr.create`
throws. The picker's own behaviour appears only as the log of commands
(`Hide`, `SetColor`) that the controller issues to it. The scope event is
recorded in a log of emitted events. The saved color's hexadecimal
string (`color.toHEXA().toString()`) is an input to the `save` event.

When the string lookup is rejected, the control stays in its loading
state for good: no picker, no flag, no event. The model follows the code
here. `StringsRejectedIsInert` states this behaviour; it does not
replace it with a failure state.

## Model

| member | source | states |
|---|---|---|
| `ColorContrast.ParseColor` | guacamole/src/main/webapp/app/form/directives/guacInputColor.js:86-93 | the regular-expression match and the three `parseInt` calls: a color exactly when the string is `#` and six hexadecimal digits, each channel the value of its own two digits, most significant first |
| `ColorContrast.IsDark` | guacamole/src/main/webapp/app/form/directives/guacInputColor.js:83-103 | `$scope.isDark` on a model value: dark only for a model matching `#RRGGBB` (the full characterisation is `IsDarkScaled`) |
| `ColorContrast.ParseHex` | guacamole/src/main/webapp/app/form/directives/guacInputColor.js:91-93 | `parseInt(digits, 16)` of n hexadecimal digits is below 16^n, so each two-digit channel lies in 0..255 |
| `ColorContrast.ParseFormat` | guacamole/src/main/webapp/app/form/directives/guacInputColor.js:86-93 | every color's `#rrggbb` rendering matches the pattern and parses back to exactly that color |
| `ColorContrast.FormatParse` | guacamole/src/main/webapp/app/form/directives/guacInputColor.js:86-93 | every string matching `^#[0-9a-fA-F]{6}$` parses, and its lower-case form is the rendering of the parsed color (nothing but case is lost) |
| `ColorContrast.ParseColorIgnoresCase` | guacamole/src/main/webapp/app/form/directives/guacInputColor.js:86-93 | upper- and lower-case digits give the same channels; a string matches exactly when its lower-case form does |
| `ColorContrast.SameColorIffSameLower` | guacamole/src/main/webapp/app/form/directives/guacInputColor.js:86-93 | two matching strings parse to the same color if and only if they are equal up to case |
| `ColorContrast.IsDarkScaled` | guacamole/src/main/webapp/app/form/directives/guacInputColor.js:83-101 | `isDark` holds if and only if the model is a matching string whose channels satisfy 2126·R + 7152·G + 722·B <= 1530000 |
| `ColorContrast.MalformedIsNotDark` | guacamole/src/main/webapp/app/form/directives/guacInputColor.js:85-88 | an undefined model, or one that does not match the pattern, is not dark |
| `ColorContrast.IsDarkAntitone` | guacamole/src/main/webapp/app/form/directives/guacInputColor.js:97-101 | raising channels never turns a non-dark color dark |
| `ColorContrast.MalformedExamples` | guacamole/src/main/webapp/app/form/directives/guacInputColor.js:86-88 | undefined, `""`, `"red"`, `"#ZZZZZZ"`, `"#12345"` and `"#1234567"` are not dark |
| `ColorContrast.BlackAndWhite` | guacamole/src/main/webapp/app/form/directives/guacInputColor.js:97-101 | `#000000` is dark; `#FFFFFF` and `#ffffff` are not |
| `ColorContrast.GrayBoundary` | guacamole/src/main/webapp/app/form/directives/guacInputColor.js:101 | the threshold is inclusive: `#999999` (luminance exactly 153) is dark, `#9a9a9a` is not |
| `InputColor.ColorInput.IsDark` | guacamole/src/main/webapp/app/form/directives/guacInputColor.js:83-103 | `$scope.isDark()` on the current model, characterised by the integer threshold |
| `InputColorSync.Initial` | guacamole/src/main/webapp/app/form/directives/guacInputColor.js:72 | the controller as constructed: loading, flag false, not settled, nothing emitted, queued or pushed, the bound values as given |
| `InputColorSync.Swatches` | guacamole/src/main/webapp/app/form/directives/guacInputColor.js:145 | `$scope.palette || []`: the palette when there is one, otherwise no swatches |
| `InputColorSync.Flushed` | guacamole/src/main/webapp/app/form/directives/guacInputColor.js:175-177 | the deferred writes run in order, each assigning its color, so the model ends as the last queued color, or unchanged when nothing is queued |
| `InputColorSync.Step` | guacamole/src/main/webapp/app/form/directives/guacInputColor.js:105-196 | one event's effect; the library and palette never change; once the strings have settled, creation is never attempted again (picker, flag and emitted events stay fixed); the model changes only by an outside assignment or a digest flushing queued saves |
| `InputColorSync.InitialValid` | guacamole/src/main/webapp/app/form/directives/guacInputColor.js:72 | the controller starts loading, flag false, nothing emitted, and satisfies the invariant |
| `InputColorSync.StepPreservesValid` | guacamole/src/main/webapp/app/form/directives/guacInputColor.js:105-196 | every event keeps the invariant: never both available and flagged, at most the one event, no picker traffic without a picker, no `setColor` before the watcher, the watcher's last value is the color last pushed |
| `InputColorSync.RunPreservesValid` | guacamole/src/main/webapp/app/form/directives/guacInputColor.js:105-196 | any sequence of events keeps the invariant and never changes the palette or the library |
| `InputColorSync.AtMostOneUnavailableEvent` | guacamole/src/main/webapp/app/form/directives/guacInputColor.js:111-119 | from construction, whatever happens, at most one `guacInputColorUnavailable` event is emitted, exactly when the flag is set, carrying what `Pickr.create` threw |
| `InputColorSync.NoPickerIsInert` | guacamole/src/main/webapp/app/form/directives/guacInputColor.js:109-196 | once the strings have settled with no picker, no picker appears, nothing more is emitted, no command is issued, and the model holds only what outside actors assign |
| `InputColorSync.ConstructionFailure` | guacamole/src/main/webapp/app/form/directives/guacInputColor.js:111-119 | if `Pickr.create` throws, the flag becomes true, one event carries the thrown value, the model is unchanged, and afterwards the control never writes the model |
| `InputColorSync.StringsRejectedIsInert` | guacamole/src/main/webapp/app/form/directives/guacInputColor.js:106-109 | a rejected string lookup leaves the control loading for good: no picker, flag false, no event, model written only by others |
| `InputColorSync.ConstructionSuccess` | guacamole/src/main/webapp/app/form/directives/guacInputColor.js:119-166 | a successful `Pickr.create` makes the picker available with the palette (or no swatches) and the resolved strings, emitting nothing |
| `InputColorSync.AvailableIsTerminal` | guacamole/src/main/webapp/app/form/directives/guacInputColor.js:119-186 | an available picker stays available, the same picker, never flagged, nothing emitted |
| `InputColorSync.SaveIsDeferred` | guacamole/src/main/webapp/app/form/directives/guacInputColor.js:174-178 | `save` leaves the model as it is and queues exactly one write; after the next digest the model is the saved color, and the picker is told to show it once `init` has fired |
| `InputColorSync.CancelOnlyHides` | guacamole/src/main/webapp/app/form/directives/guacInputColor.js:169-171 | `cancel` with a picker appends `Hide` to the commands and changes nothing else; without a picker it changes nothing |
| `InputColorSync.SetColorOnlyAfterInit` | guacamole/src/main/webapp/app/form/directives/guacInputColor.js:181-185 | without the picker's `init` event, no sequence of events makes the controller push a color into the picker |
| `InputColorSync.DigestSynchronises` | guacamole/src/main/webapp/app/form/directives/guacInputColor.js:174-185 | after a digest with the watcher installed the picker was last told the model's value; a second digest changes nothing (no feedback loop) |
| `InputColorSync.OnlyFlushWritesModel` | guacamole/src/main/webapp/app/form/directives/guacInputColor.js:174-178 | apart from outside assignments, only a digest that flushes queued saves changes the model |
| `InputColorSync.SaveScenario` | guacamole/src/main/webapp/app/form/directives/guacInputColor.js:174-185 | model `#112233`, picker created and initialised, user saves `#AABBCC`: the model becomes `#AABBCC` only at the next digest, and both values are pushed to the picker in order |
| `InputColorSync.FailureScenario` | guacamole/src/main/webapp/app/form/directives/guacInputColor.js:191-194 | `Pickr.create` throws `e`: unavailable, model unchanged, one event carrying `e` |
| `InputColor.ColorInput.constructor` | guacamole/src/main/webapp/app/form/directives/guacInputColor.js:58-72 | the controller starts in the initial state with the flag false |
| `InputColor.ColorInput.StringsRetrieved` | guacamole/src/main/webapp/app/form/directives/guacInputColor.js:109-194 | performs the `Step` for resolved strings: create the picker, or set the flag and emit the thrown value |
| `InputColor.ColorInput.StringsRejected` | guacamole/src/main/webapp/app/form/directives/guacInputColor.js:196 | performs the `Step` for rejected strings: nothing but the promise settling |
| `InputColor.ColorInput.PickrReady` | guacamole/src/main/webapp/app/form/directives/guacInputColor.js:181-185 | performs the `Step` for `init`: installs the model watcher |
| `InputColor.ColorInput.ColorChanged` | guacamole/src/main/webapp/app/form/directives/guacInputColor.js:174-178 | performs the `Step` for `save`: queues the deferred write |
| `InputColor.ColorInput.ColorChangeCanceled` | guacamole/src/main/webapp/app/form/directives/guacInputColor.js:169-171 | performs the `Step` for `cancel`: issues `hide` |
| `InputColor.ColorInput.AssignModel` | guacamole/src/main/webapp/app/form/directives/guacInputColor.js:45 | performs the `Step` for an outside assignment to the two-way bound model |
| `InputColor.ColorInput.UpdateModel` | guacamole/src/main/webapp/app/form/directives/guacInputColor.js:175-177 | the deferred function sets the model to the saved hexadecimal string |
| `InputColor.ColorInput.ModelChanged` | guacamole/src/main/webapp/app/form/directives/guacInputColor.js:182-184 | the watch listener issues `setColor` with the model's value |
| `InputColor.ColorInput.Digest` | guacamole/src/main/webapp/app/form/directives/guacInputColor.js:175-184 | performs the `Step` for a digest: the queued writes run in order, then the watcher pushes the model if it changed |

## Left out

- Floating point: `isDark` is computed in exact `real` arithmetic rather than in IEEE-754 doubles.
- `$scope.model` holding a value that is not a string (a number, say) is not modelled; `undefined` and `null` are both `None`.
- Pickr itself is opaque. The model leaves out its rendering, the conversion `toHEXA().toString()` (its result is an input) and whether `setColor` re-fires events. The display configuration (theme, representation, components, `appClass`, `el`) is left out; only the swatches and the strings are kept.
- `InputColor.ColorInput.PickrReady`: a second `init` event is a no-op in the model, where the source would install a second watcher; Pickr fires `init` once.
- Angular promises, `$translate` and `$q.all` are a single "strings resolved" or "strings rejected" event. A promise settles once, so a second settlement is a no-op.
- A digest is one pass: the whole `$evalAsync` queue, then the one watcher. Digest re-runs are not modelled because no modelled step changes anything a second time. `$emit` is an entry appended to a log.
- Later changes to `$scope.palette` are not modelled; the source reads the palette only when it creates the picker.
- The template, transclusion and the DOM element are not modelled. The navigation module registration (`frontend/src/app/navigation/index.js`) has no behaviour and is not part of this model.
