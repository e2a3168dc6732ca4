/** A form control as the contact form's code sees it, the `validateField`
    step that marks it, and the blur/input re-validation policy wired to every
    input, textarea and select of the form. */
module Fields {
  import opened Validator

  /** One form control. `id` is its `id` attribute (empty when it has none),
      `value`/`checked` its current state and `defaultValue`/`defaultChecked`
      what `form.reset()` restores; `error` is the `error` class that
      `validateField` sets and clears (the red border colour is set and cleared
      with it and is not modelled separately). */
  datatype Control = Control(
    id: string,
    kind: FieldKind,
    required: bool,
    value: string,
    defaultValue: string,
    checked: bool,
    defaultChecked: bool,
    error: bool)

  /** What the validator makes of the control's current value. */
  function VerdictOf(c: Control): Verdict {
    Validate(c.value, c.required, c.kind)
  }

  /** `validateField(c)`: the control marked or cleared according to the
      verdict, and the verdict's `valid` as the return value. */
  function ValidateField(c: Control): (r: (Control, bool))
    ensures r.1 == VerdictOf(c).valid
    ensures r.0.error == !r.1
    ensures r.0 == c.(error := r.0.error)
  {
    var ok := VerdictOf(c).valid;
    (c.(error := !ok), ok)
  }

  /** The two events the form listens to on each control. An input event
      carries the value the control holds once the user's edit has landed. */
  datatype FieldEvent = Blur | Input(newValue: string)

  /** The listeners: blur always re-validates; input re-validates only a
      control that already carries the `error` class. */
  function OnEvent(c: Control, e: FieldEvent): Control {
    match e
    case Blur => ValidateField(c).0
    case Input(v) =>
      var edited := c.(value := v);
      if edited.error then ValidateField(edited).0 else edited
  }

  /** A run of events on one control, in order. */
  function Run(c: Control, events: seq<FieldEvent>): Control
    decreases |events|
  {
    if events == [] then c else Run(OnEvent(c, events[0]), events[1..])
  }

  /** The flag is never stale: a marked control does hold a value that fails
      validation. (An unmarked one may hold a failing value; it has not been
      checked yet.) */
  ghost predicate FlagIsCurrent(c: Control) {
    c.error ==> !VerdictOf(c).valid
  }

  /** Validating twice marks the control as validating once does, and returns
      the same answer: the verdict depends only on value, marker and type. */
  lemma ValidateFieldIdempotent(c: Control)
    ensures ValidateField(ValidateField(c).0) == ValidateField(c)
  {
  }

  /** After a blur the flag is exactly "the current value fails". */
  lemma BlurSyncsFlag(c: Control)
    ensures OnEvent(c, Blur).error <==> !VerdictOf(c).valid
    ensures OnEvent(c, Blur).value == c.value
  {
  }

  /** An input event on an unmarked control only stores the new value: it never
      marks the control, however invalid the value. */
  lemma InputNeverMarksUnflagged(c: Control, v: string)
    requires !c.error
    ensures OnEvent(c, Input(v)) == c.(value := v)
  {
  }

  /** An input event on a marked control re-validates the new value at once, so
      the mark goes as soon as the value passes. */
  lemma InputRevalidatesFlagged(c: Control, v: string)
    requires c.error
    ensures OnEvent(c, Input(v)).value == v
    ensures OnEvent(c, Input(v)).error <==> !Validate(v, c.required, c.kind).valid
  {
  }

  /** Every event keeps the flag current. */
  lemma EventKeepsFlagCurrent(c: Control, e: FieldEvent)
    requires FlagIsCurrent(c)
    ensures FlagIsCurrent(OnEvent(c, e))
  {
  }

  /** Events change only the value and the flag. */
  lemma {:induction false} RunChangesOnlyValueAndFlag(c: Control, events: seq<FieldEvent>)
    ensures Run(c, events) == c.(value := Run(c, events).value, error := Run(c, events).error)
    decreases |events|
  {
    if events != [] {
      RunChangesOnlyValueAndFlag(OnEvent(c, events[0]), events[1..]);
    }
  }

  /** Starting from a current flag (an untouched control is unmarked), any
      sequence of blur and input events leaves the flag current. */
  lemma {:induction false} RunKeepsFlagCurrent(c: Control, events: seq<FieldEvent>)
    requires FlagIsCurrent(c)
    ensures FlagIsCurrent(Run(c, events))
    decreases |events|
  {
    if events != [] {
      EventKeepsFlagCurrent(c, events[0]);
      RunKeepsFlagCurrent(OnEvent(c, events[0]), events[1..]);
    }
  }

  /** Typing into an unmarked control never marks it: only a blur can. */
  lemma {:induction false} TypingNeverMarks(c: Control, events: seq<FieldEvent>)
    requires !c.error
    requires forall k :: 0 <= k < |events| ==> events[k].Input?
    ensures !Run(c, events).error
    decreases |events|
  {
    if events != [] {
      RunTailInputs(events);
      TypingNeverMarks(OnEvent(c, events[0]), events[1..]);
    }
  }

  lemma RunTailInputs(events: seq<FieldEvent>)
    requires events != []
    requires forall k :: 0 <= k < |events| ==> events[k].Input?
    ensures events[0].Input?
    ensures forall k :: 0 <= k < |events[1..]| ==> events[1..][k].Input?
  {
  }
}
