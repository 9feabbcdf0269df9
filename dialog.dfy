/**
  The Dialog class of Dialog.js: a single dialog at a time, kept in three static fields
  (#isActive, #isModal, #callback), shown with validated arguments, hidden idempotently, and
  closed through a document-wide click listener.

  The page is the sequence of top-level nodes of document.body (`Fragment`s); the click
  listener is a flag, and the setTimeout that registers it a count of pending tasks. The pure
  step functions over `State` say what each operation does; the class `Dialog` performs the
  operations field by field as the source does and is proved to follow those functions.
 */
module DialogController {
  import opened Wrappers
  import opened JsValues
  import opened Markup

  // ---------------------------------------------------------------- validation

  /** The TypeError each argument check of show throws. */
  datatype ArgError = ModalNotBoolean | ButtonsNotObject | CallbackNotFunction | WidthNotNumber | HeightNotNumber

  /** `x instanceof Function` */
  predicate InstanceOfFunction(v: Value) {
    v.Func?
  }

  /** The logical not operator `!x`. */
  function Not(v: Value): Value {
    Bool(!Truthy(v))
  }

  /**
    The argument checks of show, in source order; the first that fails names the error.
    The callback check is written `callback && !callback instanceof Function`, which parses
    as `(!callback) instanceof Function`: a boolean is never a Function, so it never fails.
   */
  function Validate(modal: Value, buttons: Value, callback: Value, width: Value, height: Value): (r: Option<ArgError>)
    ensures r == None <==>
      && modal.Bool?
      && (Truthy(buttons) ==> buttons.Obj?)
      && (Truthy(width) ==> width.Num?)
      && (Truthy(height) ==> height.Num?)
    ensures r == Some(ModalNotBoolean) <==> !modal.Bool?
    ensures r == Some(ButtonsNotObject) <==> modal.Bool? && Truthy(buttons) && !buttons.Obj?
    ensures r != Some(CallbackNotFunction)
    ensures r == None ==> Renderable(buttons, width, height)
  {
    if TypeOf(modal) != "boolean" then Some(ModalNotBoolean)
    else if Truthy(buttons) && TypeOf(buttons) != "object" then Some(ButtonsNotObject)
    else if Truthy(callback) && InstanceOfFunction(Not(callback)) then Some(CallbackNotFunction)
    else if Truthy(width) && TypeOf(width) != "number" then Some(WidthNotNumber)
    else if Truthy(height) && TypeOf(height) != "number" then Some(HeightNotNumber)
    else None
  }

  /**
    The size checks come last and in order: width is reported when modal and buttons pass,
    height only when width passes too.
   */
  lemma ValidateOrder(modal: Value, buttons: Value, callback: Value, width: Value, height: Value)
    ensures Validate(modal, buttons, callback, width, height) == Some(WidthNotNumber) <==>
      modal.Bool? && (Truthy(buttons) ==> buttons.Obj?) && Truthy(width) && !width.Num?
    ensures Validate(modal, buttons, callback, width, height) == Some(HeightNotNumber) <==>
      modal.Bool? && (Truthy(buttons) ==> buttons.Obj?) && (Truthy(width) ==> width.Num?) && Truthy(height) && !height.Num?
  {
  }

  /** Whatever the callback argument is, it does not change the verdict. */
  lemma CallbackNeverChecked(modal: Value, buttons: Value, c1: Value, c2: Value, width: Value, height: Value)
    ensures Validate(modal, buttons, c1, width, height) == Validate(modal, buttons, c2, width, height)
  {
  }

  // ---------------------------------------------------------------- the page

  /** A top-level node of document.body: the class of its root element, and its markup. */
  datatype Fragment = Fragment(rootClass: string, html: string)

  /** The class hide looks for: the blocker of a modal dialog, the dialog node otherwise. */
  function RootClass(modal: bool): string {
    if modal then ModalBlockerClass else DialogClass
  }

  /** document.querySelector("." + cls) over the top-level nodes: the first with that class. */
  function QuerySelector(body: seq<Fragment>, cls: string): (r: Option<nat>)
    ensures r.Some? ==> r.value < |body| && body[r.value].rootClass == cls
    ensures r.Some? ==> forall j :: 0 <= j < r.value ==> body[j].rootClass != cls
    ensures r.None? ==> forall j :: 0 <= j < |body| ==> body[j].rootClass != cls
  {
    if body == [] then None
    else if body[0].rootClass == cls then Some(0)
    else match QuerySelector(body[1..], cls)
      case None => None
      case Some(i) => Some(i + 1)
  }

  // ---------------------------------------------------------------- clicks

  /** A click as the handler sees its target. */
  datatype Click = Click(
    insideDialog: bool,         // target.closest(".myDialog") finds an element
    tagName: string,            // target.tagName
    hasCloseClass: bool,        // target.matches(".closeButton")
    dataValue: Option<string>)  // target.dataset.value

  /** target.dataset.value: the attribute's text, or undefined without one. */
  function DataValue(ev: Click): Value {
    if ev.dataValue.Some? then Str(ev.dataValue.value) else Undefined
  }

  /** What the handler does with a click: nothing, hide the dialog, or activate a control. */
  datatype Route = Ignore | Dismiss | Activate(value: Value)

  function RouteClick(ev: Click, modal: bool): (r: Route)
    ensures r.Activate? <==> ev.insideDialog && (ev.tagName == "BUTTON" || ev.hasCloseClass)
    ensures r.Activate? ==> r.value == DataValue(ev)
    ensures r == Dismiss <==> !ev.insideDialog && !modal
  {
    if ev.insideDialog then
      if ev.tagName == "BUTTON" || ev.hasCloseClass then Activate(DataValue(ev)) else Ignore
    else if !modal then Dismiss
    else Ignore
  }

  /** How a call of the caller's callback ends. */
  datatype Completion = Returned(result: Value) | Threw

  /** What the callback does when it is called: whether it calls Dialog.hide() itself, and how it ends. */
  datatype CallbackRun = CallbackRun(callsHide: bool, completion: Completion)

  datatype ClickResult =
    | NotDelivered                                      // no click listener is registered
    | Ignored
    | Dismissed                                         // outside a non-modal dialog: hide()
    | Activated(value: Value, invoked: bool, hid: bool) // invoked: the callback ran; hid: the handler called hide()
    | NotCallable(value: Value)                         // a truthy callback that is not a function: TypeError
    | CallbackThrew(value: Value)

  // ---------------------------------------------------------------- the state machine

  /** The static fields, the page body, the listener and the pending setTimeout tasks. */
  datatype State = State(
    active: bool,
    modal: bool,
    callback: Value,
    body: seq<Fragment>,
    armed: bool,
    pendingArms: nat)

  /** While a dialog is active its root is on the page and its listener is registered or about to be. */
  predicate Inv(s: State) {
    s.active ==> QuerySelector(s.body, RootClass(s.modal)).Some? && (s.armed || s.pendingArms > 0)
  }

  datatype ShowArgs = ShowArgs(
    id: Value, modal: Value, content: Value, header: Value,
    buttons: Value, callback: Value, width: Value, height: Value)

  function ArgCheck(a: ShowArgs): Option<ArgError> {
    Validate(a.modal, a.buttons, a.callback, a.width, a.height)
  }

  function ShowView(a: ShowArgs): View
    requires ArgCheck(a) == None
  {
    ViewOf(a.id, a.modal.b, a.content, a.header, a.buttons, a.width, a.height)
  }

  /** The node show appends to the page. */
  function ShowFragment(a: ShowArgs): Fragment
    requires ArgCheck(a) == None
  {
    Fragment(RootClass(a.modal.b), Render(ShowView(a)))
  }

  datatype ShowOutcome = Rejected(error: ArgError) | AlreadyOpen | Opened

  /**
    The state change of a show that opens: the fields set, the fragment appended at the end
    of the page, one more pending setTimeout task.
   */
  function OpenStep(s: State, modal: bool, callback: Value, f: Fragment): (r: State)
    ensures r.active && r.modal == modal && r.callback == callback
    ensures r.body == s.body + [f] && r.armed == s.armed && r.pendingArms == s.pendingArms + 1
    ensures f.rootClass == RootClass(modal) ==> Inv(r)
  {
    assert (s.body + [f])[|s.body|] == f;
    State(true, modal, callback, s.body + [f], s.armed, s.pendingArms + 1)
  }

  /** Dialog.show. */
  function ShowStep(s: State, a: ShowArgs): (r: (State, ShowOutcome))
    ensures r.1.Rejected? <==> ArgCheck(a).Some?
    ensures r.1.Rejected? ==> ArgCheck(a) == Some(r.1.error)
    ensures r.1 == AlreadyOpen <==> ArgCheck(a) == None && s.active
    ensures !r.1.Opened? ==> r.0 == s
    ensures r.1.Opened? ==>
      && r.0.active && r.0.modal == a.modal.b && r.0.callback == a.callback
      && r.0.body == s.body + [ShowFragment(a)]
      && r.0.armed == s.armed && r.0.pendingArms == s.pendingArms + 1
    ensures Inv(s) ==> Inv(r.0)
  {
    match ArgCheck(a)
    case Some(e) => (s, Rejected(e))
    case None =>
      if s.active then (s, AlreadyOpen)
      else (OpenStep(s, a.modal.b, a.callback, ShowFragment(a)), Opened)
  }

  /**
    Dialog.hide. If querySelector found nothing, `.remove()` would throw before anything
    changed; Inv rules that out.
   */
  function HideStep(s: State): (r: State)
    ensures !s.active ==> r == s
    ensures Inv(s) && s.active ==>
      && !r.active && !r.armed
      && r.modal == s.modal && r.callback == s.callback && r.pendingArms == s.pendingArms
      && |r.body| == |s.body| - 1
    ensures Inv(s) && s.active ==>
      var i := QuerySelector(s.body, RootClass(s.modal)).value;
      r.body == s.body[..i] + s.body[i + 1..]
    ensures Inv(s) ==> Inv(r)
  {
    if !s.active then s
    else match QuerySelector(s.body, RootClass(s.modal))
      case None => s
      case Some(i) => s.(active := false, body := s.body[..i] + s.body[i + 1..], armed := false)
  }

  /** The setTimeout task of show: document.addEventListener, which registers the handler once. */
  function ArmStep(s: State): (r: State)
    requires s.pendingArms > 0
    ensures r.armed && r.pendingArms == s.pendingArms - 1
    ensures r.active == s.active && r.modal == s.modal && r.callback == s.callback && r.body == s.body
    ensures Inv(s) ==> Inv(r)
  {
    s.(armed := true, pendingArms := s.pendingArms - 1)
  }

  /** The document click handler, when a click reaches the document. */
  function ClickStep(s: State, ev: Click, run: CallbackRun): (r: (State, ClickResult))
    ensures Inv(s) ==> Inv(r.0)
  {
    if !s.armed then (s, NotDelivered)
    else match RouteClick(ev, s.modal)
      case Ignore => (s, Ignored)
      case Dismiss => (HideStep(s), Dismissed)
      case Activate(value) =>
        if !Truthy(s.callback) then (HideStep(s), Activated(value, false, true))
        else if !s.callback.Func? then (s, NotCallable(value))
        else
          var during := if run.callsHide then HideStep(s) else s;
          match run.completion
          case Threw => (during, CallbackThrew(value))
          case Returned(v) =>
            if v == Bool(false) then (during, Activated(value, true, false))
            else (HideStep(during), Activated(value, true, true))
  }

  // ---------------------------------------------------------------- lifecycle properties

  /** A first match stays the first match when nodes are appended after it. */
  lemma {:induction false} QueryExtends(body: seq<Fragment>, extra: seq<Fragment>, cls: string)
    requires QuerySelector(body, cls).Some?
    ensures QuerySelector(body + extra, cls) == QuerySelector(body, cls)
  {
    if body[0].rootClass != cls {
      assert (body + extra)[1..] == body[1..] + extra;
      QueryExtends(body[1..], extra, cls);
    }
  }

  /** With no earlier match, an appended node with the class is the first match. */
  lemma {:induction false} QueryLast(body: seq<Fragment>, f: Fragment, cls: string)
    requires QuerySelector(body, cls).None? && f.rootClass == cls
    ensures QuerySelector(body + [f], cls) == Some(|body|)
  {
    if body != [] {
      assert (body + [f])[1..] == body[1..] + [f];
      QueryLast(body[1..], f, cls);
    }
  }

  /** Hiding twice is hiding once. */
  lemma HideIdempotent(s: State)
    ensures HideStep(HideStep(s)) == HideStep(s)
  {
  }

  /** Of two shows without a hide between them, only the first changes anything. */
  lemma SecondShowIsNoOp(s: State, a: ShowArgs, b: ShowArgs)
    requires ShowStep(s, a).1 == Opened
    ensures ShowStep(ShowStep(s, a).0, b).0 == ShowStep(s, a).0
    ensures ShowStep(ShowStep(s, a).0, b).1 != Opened
  {
  }

  /**
    Hiding what was just shown restores the page, provided no earlier node of the page has
    the class hide looks for. The setTimeout task stays pending.
   */
  lemma ShowThenHide(s: State, a: ShowArgs)
    requires !s.active && ArgCheck(a) == None
    requires QuerySelector(s.body, RootClass(a.modal.b)).None?
    ensures HideStep(ShowStep(s, a).0) == s.(modal := a.modal.b, callback := a.callback, armed := false, pendingArms := s.pendingArms + 1)
  {
    OpenThenHide(s, a.modal.b, a.callback, ShowFragment(a));
  }

  /** Opening with no earlier match, then hiding, takes away exactly the appended node. */
  lemma OpenThenHide(s: State, modal: bool, callback: Value, f: Fragment)
    requires !s.active && f.rootClass == RootClass(modal)
    requires QuerySelector(s.body, RootClass(modal)).None?
    ensures HideStep(OpenStep(s, modal, callback, f)) == s.(modal := modal, callback := callback, armed := false, pendingArms := s.pendingArms + 1)
  {
    var t := OpenStep(s, modal, callback, f);
    QueryLast(s.body, f, RootClass(modal));
    assert t.body[..|s.body|] == s.body;
  }

  /** Opening after an existing match: hide takes that match and leaves the appended node. */
  lemma OpenKeepsFirstMatch(s: State, modal: bool, callback: Value, f: Fragment, i: nat)
    requires !s.active && f.rootClass == RootClass(modal)
    requires QuerySelector(s.body, RootClass(modal)) == Some(i)
    ensures HideStep(OpenStep(s, modal, callback, f)).body == s.body[..i] + s.body[i + 1..] + [f]
  {
    var t := OpenStep(s, modal, callback, f);
    QueryExtends(s.body, [f], RootClass(modal));
    assert t.body[..i] == s.body[..i];
    assert t.body[i + 1..] == s.body[i + 1..] + [f];
  }

  /**
    hide removes the first node with the class it looks for: when the page already held
    one, that node goes and the dialog stays on the page.
   */
  lemma HideTakesFirstMatch(s: State, a: ShowArgs, i: nat)
    requires !s.active && ArgCheck(a) == None
    requires QuerySelector(s.body, RootClass(a.modal.b)) == Some(i)
    ensures HideStep(ShowStep(s, a).0).body == s.body[..i] + s.body[i + 1..] + [ShowFragment(a)]
  {
    OpenKeepsFirstMatch(s, a.modal.b, a.callback, ShowFragment(a), i);
  }

  /** A modal dialog ignores clicks outside it. */
  lemma ModalIgnoresOutside(s: State, ev: Click, run: CallbackRun)
    requires s.modal && !ev.insideDialog
    ensures ClickStep(s, ev, run).0 == s
    ensures ClickStep(s, ev, run).1 in {NotDelivered, Ignored}
  {
  }

  /** A click outside a non-modal dialog hides it without calling the callback. */
  lemma OutsideClosesNonModal(s: State, ev: Click, run: CallbackRun)
    requires Inv(s) && s.active && s.armed && !s.modal && !ev.insideDialog
    ensures ClickStep(s, ev, run) == (HideStep(s), Dismissed)
    ensures !ClickStep(s, ev, run).0.active
  {
  }

  /**
    Activating a control calls a function callback with the control's data-value; the
    dialog then closes unless the callback returned exactly `false` (and did not hide it).
   */
  lemma ActivationClosesUnlessFalse(s: State, ev: Click, run: CallbackRun, v: Value)
    requires Inv(s) && s.active && s.armed && s.callback.Func?
    requires ev.insideDialog && (ev.tagName == "BUTTON" || ev.hasCloseClass)
    requires run.completion == Returned(v)
    ensures ClickStep(s, ev, run).1 == Activated(DataValue(ev), true, v != Bool(false))
    ensures ClickStep(s, ev, run).0.active <==> v == Bool(false) && !run.callsHide
    ensures ClickStep(s, ev, run).0 == (if v == Bool(false) && !run.callsHide then s else HideStep(s))
  {
    HideIdempotent(s);
  }

  /**
    A function callback that throws stops the handler: the dialog is hidden only if the
    callback hid it before throwing, and the listener stays as it was otherwise.
   */
  lemma ThrowingCallbackStopsHandler(s: State, ev: Click, run: CallbackRun)
    requires s.armed && s.callback.Func? && RouteClick(ev, s.modal).Activate?
    requires run.completion == Threw
    ensures ClickStep(s, ev, run) == (if run.callsHide then HideStep(s) else s, CallbackThrew(DataValue(ev)))
  {
  }

  /**
    With the listener registered, activating a control while the callback is truthy but not
    a function throws a TypeError before anything changes.
   */
  lemma UncallableCallbackThrows(s: State, ev: Click, run: CallbackRun)
    requires s.armed && Truthy(s.callback) && !s.callback.Func?
    requires RouteClick(ev, s.modal).Activate?
    ensures ClickStep(s, ev, run) == (s, NotCallable(DataValue(ev)))
  {
  }

  /** Until the setTimeout task has run (or after hide), clicks reach no handler. */
  lemma UnarmedIgnoresClicks(s: State, ev: Click, run: CallbackRun)
    requires !s.armed
    ensures ClickStep(s, ev, run) == (s, NotDelivered)
  {
  }

  /** A click inside the dialog on anything but a button or the close affordance does nothing. */
  lemma InsideElsewhereIgnored(s: State, ev: Click, run: CallbackRun)
    requires ev.insideDialog && ev.tagName != "BUTTON" && !ev.hasCloseClass
    ensures ClickStep(s, ev, run).0 == s
    ensures ClickStep(s, ev, run).1 in {NotDelivered, Ignored}
  {
  }

  /** Without a callback (null, or any falsy value) activating a control closes the dialog. */
  lemma NoCallbackCloses(s: State, ev: Click, run: CallbackRun)
    requires Inv(s) && s.active && s.armed && !Truthy(s.callback)
    requires RouteClick(ev, s.modal).Activate?
    ensures ClickStep(s, ev, run) == (HideStep(s), Activated(DataValue(ev), false, true))
    ensures !ClickStep(s, ev, run).0.active
  {
  }

  /**
    show lets any truthy callback through; one that is not a function throws a TypeError
    when a control is activated, and the dialog stays open.
   */
  lemma UncallableCallbackThrowsOnClick(s: State, a: ShowArgs, ev: Click, run: CallbackRun)
    requires Inv(s) && !s.active && ArgCheck(a) == None
    requires Truthy(a.callback) && !a.callback.Func?
    requires RouteClick(ev, a.modal.b).Activate?
    ensures var t := ArmStep(ShowStep(s, a).0);
      ClickStep(t, ev, run) == (t, NotCallable(DataValue(ev))) && t.active
  {
  }

  /**
    A full round: show on a page without a dialog, the listener registered, a button
    clicked whose callback returns anything but `false`. The callback sees the button's
    data-value, and the page is as it was before show.
   */
  lemma ButtonClickRestoresPage(s: State, a: ShowArgs, ev: Click, v: Value)
    requires !s.active && ArgCheck(a) == None
    requires QuerySelector(s.body, RootClass(a.modal.b)).None?
    requires a.callback.Func? && ev.insideDialog && ev.tagName == "BUTTON" && v != Bool(false)
    ensures var t := ArmStep(ShowStep(s, a).0);
      var u := ClickStep(t, ev, CallbackRun(false, Returned(v)));
      && u.1 == Activated(DataValue(ev), true, true)
      && u.0.body == s.body && !u.0.active && !u.0.armed && u.0.pendingArms == s.pendingArms
  {
    var f := ShowFragment(a);
    assert ShowStep(s, a).0 == OpenStep(s, a.modal.b, a.callback, f);
    ArmThenHide(s, a.modal.b, a.callback, f);
  }

  /** Opening, registering the listener, then hiding, leaves the page and the pending tasks as before. */
  lemma ArmThenHide(s: State, modal: bool, callback: Value, f: Fragment)
    requires !s.active && f.rootClass == RootClass(modal)
    requires QuerySelector(s.body, RootClass(modal)).None?
    ensures HideStep(ArmStep(OpenStep(s, modal, callback, f))) == s.(modal := modal, callback := callback, armed := false)
  {
    var t := ArmStep(OpenStep(s, modal, callback, f));
    OpenThenHide(s, modal, callback, f);
    assert HideStep(t) == HideStep(OpenStep(s, modal, callback, f)).(pendingArms := s.pendingArms);
  }

  /** A callback that calls hide itself leaves the same state as one hide, however it ends. */
  lemma ReentrantHide(s: State, ev: Click, run: CallbackRun)
    requires s.armed && s.callback.Func? && RouteClick(ev, s.modal).Activate?
    requires run.callsHide
    ensures ClickStep(s, ev, run).0 == HideStep(s)
  {
    HideIdempotent(s);
  }

  /**
    A hide before the setTimeout task runs leaves that task pending; when it runs, the
    listener is registered with no dialog open, and a click on a button inside any element
    of class myDialog still calls the last callback.
   */
  lemma StaleListener(s: State, a: ShowArgs, ev: Click, v: Value)
    requires !s.active && !s.armed && ArgCheck(a) == None
    requires QuerySelector(s.body, RootClass(a.modal.b)).None?
    requires a.callback.Func?
    requires ev.insideDialog && ev.tagName == "BUTTON"
    ensures var t := ArmStep(HideStep(ShowStep(s, a).0));
      && t.armed && !t.active
      && ClickStep(t, ev, CallbackRun(false, Returned(v))) == (t, Activated(DataValue(ev), true, v != Bool(false)))
  {
    ShowThenHide(s, a);
  }

  // ---------------------------------------------------------------- the class

  /** The static side of Dialog.js's class: one object holds its fields and the page. */
  class Dialog {
    var isActive: bool
    var isModal: bool
    var callback: Value
    var body: seq<Fragment>
    var listenerArmed: bool
    var pendingArms: nat

    function Snapshot(): State
      reads this
    {
      State(isActive, isModal, callback, body, listenerArmed, pendingArms)
    }

    ghost predicate Valid()
      reads this
    {
      Inv(Snapshot())
    }

    /** The class as loaded on a page whose body holds `page`: #isActive and #isModal false, #callback null. */
    constructor (page: seq<Fragment>)
      ensures Valid()
      ensures Snapshot() == State(false, false, Null, page, false, 0)
    {
      isActive, isModal, callback := false, false, Null;
      body, listenerArmed, pendingArms := page, false, 0;
    }

    /** The isActive getter: true only while the dialog's root is on the page. */
    function IsActive(): (r: bool)
      reads this
      requires Valid()
      ensures r ==> QuerySelector(body, RootClass(isModal)).Some?
      ensures r ==> listenerArmed || pendingArms > 0
    {
      isActive
    }

    method Show(id: Value, modal: Value, content: Value, header: Value, buttons: Value, callback: Value, width: Value, height: Value)
      returns (outcome: ShowOutcome)
      requires Valid()
      modifies this
      ensures Valid()
      ensures (Snapshot(), outcome) == ShowStep(old(Snapshot()), ShowArgs(id, modal, content, header, buttons, callback, width, height))
    {
      var error := Validate(modal, buttons, callback, width, height);
      if error.Some? {
        return Rejected(error.value);
      }
      if isActive {
        return AlreadyOpen;
      }
      var html := ComposeHtml(id, modal.b, content, header, buttons, width, height);
      var f := Fragment(RootClass(modal.b), html);
      assert f == ShowFragment(ShowArgs(id, modal, content, header, buttons, callback, width, height));
      Open(modal.b, callback, f);
      outcome := Opened;
    }

    /**
      The second half of show once the checks pass: the fields set, the fragment appended
      to the page, the listener registration scheduled, the dialog marked active.
     */
    method Open(modal: bool, callback: Value, f: Fragment)
      requires Valid() && !isActive && f.rootClass == RootClass(modal)
      modifies this
      ensures Valid()
      ensures Snapshot() == OpenStep(old(Snapshot()), modal, callback, f)
    {
      isModal := modal;
      this.callback := callback;
      body := body + [f];
      pendingArms := pendingArms + 1;
      isActive := true;
      assert Snapshot() == OpenStep(old(Snapshot()), modal, callback, f);
    }

    method Hide()
      requires Valid()
      modifies this
      ensures Valid()
      ensures Snapshot() == HideStep(old(Snapshot()))
    {
      if !isActive {
        return;
      }
      var i := QuerySelector(body, RootClass(isModal)).value;
      body := body[..i] + body[i + 1..];
      listenerArmed := false;
      isActive := false;
    }

    /** The setTimeout task show schedules. */
    method ArmListener()
      requires Valid() && pendingArms > 0
      modifies this
      ensures Valid()
      ensures Snapshot() == ArmStep(old(Snapshot()))
    {
      listenerArmed := true;
      pendingArms := pendingArms - 1;
    }

    /** A click reaching the document; `run` is what the callback does if it is called. */
    method HandleClick(ev: Click, run: CallbackRun) returns (result: ClickResult)
      requires Valid()
      modifies this
      ensures Valid()
      ensures (Snapshot(), result) == ClickStep(old(Snapshot()), ev, run)
    {
      if !listenerArmed {
        return NotDelivered;
      }
      if ev.insideDialog {
        if ev.tagName == "BUTTON" || ev.hasCloseClass {
          var value := DataValue(ev);
          var proceed := Bool(true);
          var invoked := false;
          if Truthy(callback) {
            if !(callback.Func?) {
              return NotCallable(value);
            }
            invoked := true;
            if run.callsHide {
              Hide();
            }
            if run.completion == Threw {
              return CallbackThrew(value);
            }
            proceed := run.completion.result;
          }
          if proceed != Bool(false) {
            Hide();
          }
          result := Activated(value, invoked, proceed != Bool(false));
        } else {
          result := Ignored;
        }
      } else if !isModal {
        Hide();
        result := Dismissed;
      } else {
        result := Ignored;
      }
    }
  }
}
