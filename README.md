# Dialog — a verified model of the Dialog.js controller

`Dialog.js` defines a static class `Dialog` that shows one dialog box at a time on a web
page. Its parts:

- `show` checks its arguments and refuses to open a second dialog. It then builds the
  dialog's HTML: an optional header with a close affordance, the content, an optional row of
  buttons, an optional size style, and a blocker around everything when the dialog is modal.
  It appends that HTML to the page and registers a document click listener one tick later.
- `hide` removes the dialog and the listener.
- The click handler calls the caller's callback with the `data-value` of the activated
  button or close affordance. It closes the dialog unless the callback returns `false`. A
  click outside a non-modal dialog closes it.

The project has five files:

- `text.dfy` — module `Wrappers` (an `Option` type) and module `Text` (prefix and suffix
  stripping, search, `Array.prototype.join`, and decimal text of integers with its parser).
- `js_values.dfy` — module `JsValues`: the JavaScript values the arguments can be, with
  truthiness, `typeof`, and the string conversion of template literals.
- `markup.dfy` — module `Markup`: the constants of the class, a `View` of a dialog
  fragment, `Render` (the template strings), and `ViewOf` (which view a call of `show`
  produces). It also holds the step-by-step builders `ComposeButtons` (the `for…in` loop),
  `ComposeStyle` (the `styles` array and its join) and `ComposeHtml`. Each builder is proved
  to produce the rendered view.
- `markup_parse.dfy` — module `MarkupParse`: a reader for the markup. It is proved to invert
  `Render` when the texts cannot be confused with the markup around them (`Unambiguous`),
  so the structure of the text is established, not only its length.
- `dialog.dfy` — module `DialogController`:
  - argument validation and click routing;
  - a `State` of the three static fields, the page (top-level fragments of
    `document.body`), the listener flag and the count of pending `setTimeout` tasks;
  - the step functions `ShowStep`, `HideStep`, `ArmStep` and `ClickStep`, which preserve the
    invariant `Inv`;
  - the class `Dialog`, whose methods change its fields as the source does and are proved to
    follow the step functions.

Two behaviours of the code are kept as written:

- The callback check parses as `(!callback) instanceof Function` and never throws. A
  truthy non-function callback is accepted and fails only when a control is clicked.
- The checks use truthiness, so a `0` width or height, or an empty header, counts as absent.

## Model

| member | source | states |
|---|---|---|
| DialogController.Validate | Dialog.js:35-44 | show's argument checks. No error exactly when modal is a boolean and buttons, width and height are each falsy or an object or number. A non-boolean modal is always the error reported. A truthy non-object buttons is reported exactly when modal passes. The callback error never occurs. Passing the checks guarantees what the markup needs. |
| DialogController.ValidateOrder | Dialog.js:41-44 | the width error is reported exactly when modal and buttons pass and width is truthy but not a number; the height error exactly when those three checks pass and height is truthy but not a number |
| DialogController.CallbackNeverChecked | Dialog.js:39-40 | the verdict of the checks does not depend on the callback argument at all |
| DialogController.QuerySelector | Dialog.js:89 | the index found is the first top-level node with the class; no index means no node has it |
| DialogController.RouteClick | Dialog.js:96-106 | a click activates exactly when it is inside the dialog on a BUTTON or the close-button element, with its data-value. It dismisses exactly when it is outside a non-modal dialog. Otherwise it is ignored. |
| DialogController.ShowStep | Dialog.js:34-84 | rejected exactly when validation fails, with that error. Already open exactly when valid and active. In both cases nothing changes. Otherwise the dialog is active with the given modal flag and callback, the fragment is appended at the end of the page, the listener registration is pending, and the invariant is preserved. |
| DialogController.OpenStep | Dialog.js:51-83 | the state change of an opening show: active, the given modal flag and callback, the fragment appended at the end of the page, one more pending timer task; the invariant holds when the fragment carries the class hide looks for |
| DialogController.HideStep | Dialog.js:87-92 | inactive: no change. Active: inactive afterwards and the listener removed. The page loses exactly its first node with the blocker class when modal, or the dialog class otherwise, and keeps the other nodes in order. The modal flag, the callback and the pending timer tasks are untouched, and the invariant is preserved. |
| DialogController.ArmStep | Dialog.js:82 | the delayed task registers the listener and is consumed; the active flag, the modal flag, the callback and the page stay as they were; the invariant is preserved |
| DialogController.ClickStep | Dialog.js:94-107 | handling a click preserves the invariant (its routing is stated by the lemmas below) |
| DialogController.HideIdempotent | Dialog.js:87-88 | hide twice equals hide once |
| DialogController.SecondShowIsNoOp | Dialog.js:46-49 | a show while a dialog is open changes nothing and does not open |
| DialogController.ShowThenHide | Dialog.js:81-92 | hide right after show restores the page when no earlier node had the class; the listener is off and the timer task is still pending |
| DialogController.OpenThenHide | Dialog.js:81-92 | opening on a page with no node of the class, then hiding, removes exactly the appended node and leaves the listener off |
| DialogController.ArmThenHide | Dialog.js:82-92 | opening, registering the listener and hiding leaves the page and the pending tasks as before, with the listener off |
| DialogController.OpenKeepsFirstMatch | Dialog.js:89 | opening on a page that already has a node of the class, then hiding, removes that earlier node and keeps the appended one last |
| DialogController.HideTakesFirstMatch | Dialog.js:89 | if the page already had a node with the class, hide removes that node and leaves the new dialog on the page |
| DialogController.ModalIgnoresOutside | Dialog.js:105 | a click outside a modal dialog changes nothing |
| DialogController.OutsideClosesNonModal | Dialog.js:105-106 | a click outside a non-modal dialog hides it and calls no callback |
| DialogController.ActivationClosesUnlessFalse | Dialog.js:97-102 | activating a control calls the function callback with the control's data-value; the dialog stays open exactly when the callback returns `false` and did not hide it itself. The new state is then the old one; otherwise it is exactly one hide of the old one. |
| DialogController.ThrowingCallbackStopsHandler | Dialog.js:99-102 | a function callback that throws ends the handler with no further hide: the state is one hide if the callback hid the dialog before throwing, and unchanged otherwise |
| DialogController.UncallableCallbackThrows | Dialog.js:99-100 | in any state with the listener registered, activating a control with a truthy non-function callback throws a TypeError and changes nothing |
| DialogController.UnarmedIgnoresClicks | Dialog.js:82-90 | before the listener is registered, or after hide removed it, a click changes nothing |
| DialogController.InsideElsewhereIgnored | Dialog.js:96-104 | a click inside the dialog on anything but a button or the close element changes nothing |
| DialogController.NoCallbackCloses | Dialog.js:98-102 | with a falsy callback, activating a control closes the dialog and calls nothing |
| DialogController.UncallableCallbackThrowsOnClick | Dialog.js:99-100 | a truthy non-function callback passes show; activating a control then throws a TypeError and the dialog stays open |
| DialogController.ReentrantHide | Dialog.js:99-102 | a callback that calls hide leaves the same state as a single hide, whether it returns `false`, returns anything else or throws |
| DialogController.StaleListener | Dialog.js:82 | a hide before the timer task runs still lets the task register the listener with no dialog open; a button click inside a dialog-classed element then still calls the old callback |
| DialogController.ButtonClickRestoresPage | Dialog.js:94-102 | show, listener registered, a button clicked and the callback returns anything but `false`: the callback sees the button's data-value, the page is back as before, and the listener is off |
| DialogController.Dialog.constructor | Dialog.js:7-9 | the initial fields: inactive, not modal, callback null, listener off |
| DialogController.Dialog.IsActive | Dialog.js:17-19 | when the getter returns true, a node with the class hide removes is on the page and the listener is registered or about to be |
| DialogController.Dialog.Show | Dialog.js:34-84 | the object's new state and the outcome are those of ShowStep; the markup comes from ComposeHtml and the state change from Open |
| DialogController.Dialog.Open | Dialog.js:51-83 | the fields set, the fragment appended and the timer task scheduled: the object's new state is OpenStep of the old one, and the invariant is kept |
| DialogController.Dialog.Hide | Dialog.js:87-92 | the object's new state is HideStep of the old one |
| DialogController.Dialog.ArmListener | Dialog.js:82 | the object's new state is ArmStep of the old one |
| DialogController.Dialog.HandleClick | Dialog.js:94-107 | the object's new state and the result are those of ClickStep, through the handler's local `hide` variable and its nested calls of hide |
| Markup.ComposeButtons | Dialog.js:60-65 | the loop yields the container holding one `<button data-value="key">label</button>` per key in for-in order, and nothing else |
| Markup.ButtonTagsSnoc | Dialog.js:62-63 | appending one entry to the buttons appends exactly its tag to the row |
| Markup.ComposeStyle | Dialog.js:67-74 | the pushes and the join yield the style attribute of the truthy sizes |
| Markup.StyleOnlyWithSize | Dialog.js:67-74 | the style attribute is empty exactly when neither size is truthy. It holds `--width: Npx;`, `--height: Npx;` or both, width first and joined by one space, for the truthy ones only. |
| Markup.ComposeHtml | Dialog.js:54-79 | the composed fragment is the rendering of the view the arguments determine |
| Markup.BlockerIffModal | Dialog.js:78-79 | the fragment starts with the blocker exactly when the dialog is modal |
| MarkupParse.ButtonTagsRoundTrip | Dialog.js:62-63 | the button tags read back as the same keys and labels in the same order |
| MarkupParse.StyleAttrRoundTrip | Dialog.js:67-74 | the style attribute reads back as the same optional width and height |
| MarkupParse.HeaderRoundTrip | Dialog.js:56-58 | the header block reads back as the same header text, followed by the close affordance with data-value `#close` |
| MarkupParse.ParseRender | Dialog.js:76-79 | reading a rendered fragment gives back its whole view: blocker, id, sizes, header, content and buttons |
| MarkupParse.ShowMarkup | Dialog.js:54-79 | in what show appends: a blocker exactly when modal; a header exactly when the header is truthy; the button row exactly when buttons is truthy, with the labels in for-in order; each size only when truthy; the content verbatim |
| Text.IntTextRoundTrip | Dialog.js:70-72 | the decimal text of a size reads back as the same integer |

## Left out

- MessageBox.js is not part of this model. It is a wrapper that passes an options object
  where `show` expects the header. The options it implies (maximum sizes, auto-sizing on
  resize, a minimum content height) have no code in Dialog.js and are not modelled.
- Two more behaviours of the code are kept as written:
  - a click outside a non-modal dialog hides it without calling the callback;
  - a pending listener registration survives an early hide (`StaleListener`).
- The page is modelled as its top-level nodes. `insertAdjacentHTML` appends one node, and
  `querySelector` looks only at the class of each top-level root. HTML is not parsed into a
  tree, and the content's own nodes are not searched.
- `closest` and `matches` are abstracted into the `Click` record. So is the target being an
  inner element of the close affordance.
- The `setTimeout` delay is the separate step `ArmListener`, and the time is not modelled.
  The listener is a flag, so registering the same handler twice is registering it once.
- console.log is left out: its message has no effect on the state.
- The SVG path data of the close icon is abbreviated, and no escaping is modelled. The texts
  go into the markup verbatim. The round-trip lemmas therefore require texts that cannot be
  confused with the markup around them.
- Numbers are integers: fractional sizes, NaN and Infinity are not modelled. Objects are
  lists of enumerable own properties in for-in order; inherited properties and arrays
  passed as buttons are not modelled. Functions are known by their source text for template
  conversion.
- JsValues.ToStr: an object always prints as `[object Object]`. A `toString` of its own or an
  inherited one is not run, so arrays, Dates, Errors, class instances and objects with their
  own `toString` print differently in JavaScript. The conversion also never fails, while a
  template literal throws a TypeError on a Symbol, or on an object with no primitive value
  such as `Object.create(null)`. In show that would happen after `#isModal` and `#callback` were
  already overwritten, and the model cannot express that partial update. Numbers are printed
  as full decimal integers, so exponent notation from 10^21 up and the loss of precision
  above 2^53 are not modelled.
- DialogController.ClickStep: the callback is modelled only by whether it calls hide and how
  it ends. A callback that calls show, or does other work on the page, is not modelled.
- DialogController.HideStep: when the page has no node with the class, the source throws a
  TypeError from `.remove()` before changing anything. The model leaves the state unchanged,
  and the invariant rules this case out.
- DialogController.Dialog.HandleClick: a callback that throws is a `CallbackThrew` result. The
  exception does not propagate further, and the listener stays registered as in the source.
