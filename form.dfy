/**
 * The inquiry form: its controls, the per-field error display that
 * `clearError`/`setError` write, live validation on `input`/`blur`, the
 * submit handler and the status line with its self-clearing timer.
 */
module InquiryForm {
  import opened Wrappers
  import opened Validation

  /** The controls validated on submit and wired for live validation. */
  const RequiredFieldNames: seq<string> :=
    ["name", "email", "destination_interest", "travel_month", "group_size"]

  const ReviewMessage: string := "Please review the highlighted fields."
  const ThanksMessage: string := "Thank you. AURA Travel will contact you within one business day."
  /** Delay of the status clear; the model fires it as an explicit event. */
  const StatusClearDelayMs: nat := 5000

  /** `HTMLInputElement`, `HTMLSelectElement`, or any other listed control
      (textarea, button, fieldset, output, object). */
  datatype Kind = InputElement | SelectElement | OtherElement

  /** What the script reads of a control and never changes: its `name` and
      `id`, its kind, the `required` attribute, the value `reset()` restores,
      whether `closest(".field")` finds a container, and whether that
      container holds a `.field-error` node. */
  datatype Control = Control(
    name: string,
    id: string,
    kind: Kind,
    required: bool,
    defaultValue: string,
    hasContainer: bool,
    hasErrorNode: bool)

  /** What the error display shows for one control: the container's
      `is-invalid` class, the control's `aria-invalid` attribute and the
      error node's text. */
  datatype Display = Display(containerInvalid: bool, ariaInvalid: Option<string>, errorText: string)

  const Pristine: Display := Display(false, None, "")

  /** The answer of `form.elements.namedItem(n)`: nothing, one element, or a
      `RadioNodeList` when several controls carry that name or id. */
  datatype Lookup = NoMatch | Single(index: nat) | Several

  predicate Answers(c: Control, n: string) {
    c.name == n || c.id == n
  }

  function NamedItem(cs: seq<Control>, n: string): (r: Lookup)
    ensures r == NoMatch <==> forall j | 0 <= j < |cs| :: !Answers(cs[j], n)
    ensures r.Single? ==>
      && r.index < |cs| && Answers(cs[r.index], n)
      && forall j | 0 <= j < |cs| && j != r.index :: !Answers(cs[j], n)
    ensures r == Several ==>
      exists j, k | 0 <= j < k < |cs| :: Answers(cs[j], n) && Answers(cs[k], n)
    decreases |cs|
  {
    if cs == [] then NoMatch
    else
      var last := |cs| - 1;
      var earlier := NamedItem(cs[..last], n);
      if !Answers(cs[last], n) then
        earlier
      else if earlier == NoMatch then
        Single(last)
      else
        assert earlier.Single? ==> cs[..last][earlier.index] == cs[earlier.index];
        assert earlier == Several ==>
          exists j, k | 0 <= j < k < last :: Answers(cs[..last][j], n) && Answers(cs[..last][k], n);
        Several
  }

  /** The control `getField(n)` yields when it passes the
      `HTMLInputElement || HTMLSelectElement` test. */
  function Selected(cs: seq<Control>, n: string): (r: Option<nat>)
    ensures r.Some? ==> r.value < |cs| && cs[r.value].kind != OtherElement
    ensures r.Some? ==>
      && Answers(cs[r.value], n)
      && forall j | 0 <= j < |cs| && j != r.value :: !Answers(cs[j], n)
    ensures (exists i | 0 <= i < |cs| ::
        && cs[i].kind != OtherElement && Answers(cs[i], n)
        && forall j | 0 <= j < |cs| && j != i :: !Answers(cs[j], n))
      ==> r.Some?
  {
    match NamedItem(cs, n)
    case Single(i) => if cs[i].kind != OtherElement then Some(i) else None
    case _ => None
  }

  /** What `getField` and the instanceof test yield for each of `names`. */
  function Lookups(cs: seq<Control>, names: seq<string>): seq<Option<nat>> {
    seq(|names|, k requires 0 <= k < |names| => Selected(cs, names[k]))
  }

  /** Every looked-up field is an input or select of `cs`. */
  predicate FieldsIn(cs: seq<Control>, fields: seq<Option<nat>>) {
    forall k | 0 <= k < |fields| && fields[k].Some? ::
      fields[k].value < |cs| && cs[fields[k].value].kind != OtherElement
  }

  lemma LookupsIn(cs: seq<Control>, names: seq<string>)
    ensures FieldsIn(cs, Lookups(cs, names))
  {
  }

  /** `clearError`: nothing without a container; otherwise the class goes,
      `aria-invalid` becomes "false" and an error node is emptied. */
  function ClearError(c: Control, d: Display): (e: Display)
    ensures !c.hasContainer ==> e == d
    ensures c.hasContainer ==> !e.containerInvalid && e.ariaInvalid == Some("false")
    ensures e.errorText == (if c.hasContainer && c.hasErrorNode then "" else d.errorText)
  {
    if !c.hasContainer then d
    else Display(false, Some("false"), if c.hasErrorNode then "" else d.errorText)
  }

  /** `setError`: nothing without a container; otherwise the class is set,
      `aria-invalid` becomes "true" and an error node shows the message. */
  function SetError(c: Control, d: Display, message: string): (e: Display)
    ensures !c.hasContainer ==> e == d
    ensures c.hasContainer ==> e.containerInvalid && e.ariaInvalid == Some("true")
    ensures e.errorText == (if c.hasContainer && c.hasErrorNode then message else d.errorText)
  {
    if !c.hasContainer then d
    else Display(true, Some("true"), if c.hasErrorNode then message else d.errorText)
  }

  /** The display after `validateField`: cleared first, then set when the
      verdict is Invalid. No earlier error survives: a control with a
      container is marked invalid exactly when the verdict says so. */
  function Show(c: Control, d: Display, v: Verdict): (e: Display)
    ensures !c.hasContainer ==> e == d
    ensures c.hasContainer ==>
      && e.containerInvalid == v.Invalid?
      && e.ariaInvalid == Some(if v.Invalid? then "true" else "false")
      && e.errorText == (if !c.hasErrorNode then d.errorText else if v.Invalid? then v.message else "")
  {
    var cleared := ClearError(c, d);
    match v
    case Valid => cleared
    case Invalid(message) => SetError(c, cleared, message)
  }

  /** The verdict of every control on its current value. */
  function Verdicts(cs: seq<Control>, values: seq<string>): (vs: seq<Verdict>)
    requires |values| == |cs|
    ensures |vs| == |cs|
    decreases |cs|
  {
    if cs == [] then []
    else
      var last := |cs| - 1;
      Verdicts(cs[..last], values[..last]) + [ValidateValue(cs[last].required, cs[last].name, values[last])]
  }

  lemma {:induction false} VerdictAt(cs: seq<Control>, values: seq<string>, i: nat)
    requires |values| == |cs| && i < |cs|
    ensures Verdicts(cs, values)[i] == ValidateValue(cs[i].required, cs[i].name, values[i])
    decreases |cs|
  {
    var last := |cs| - 1;
    if i < last {
      VerdictAt(cs[..last], values[..last], i);
    }
  }

  /** The display of every control after validating the looked-up
      `fields`; `vs` holds each control's verdict. */
  function Refresh(cs: seq<Control>, vs: seq<Verdict>, ds: seq<Display>, fields: seq<Option<nat>>): (r: seq<Display>)
    requires |vs| == |cs| && |ds| == |cs|
  {
    seq(|ds|, i requires 0 <= i < |ds| =>
      if Some(i) in fields then Show(cs[i], ds[i], vs[i]) else ds[i])
  }

  /** Every looked-up field passes. */
  predicate AllPass(vs: seq<Verdict>, fields: seq<Option<nat>>) {
    forall i | 0 <= i < |vs| && Some(i) in fields :: vs[i].Valid?
  }

  predicate Focusable(cs: seq<Control>, ds: seq<Display>, j: nat)
    requires |ds| == |cs|
  {
    j < |cs| && cs[j].kind != OtherElement && cs[j].hasContainer && ds[j].containerInvalid
  }

  /** `querySelector(".field.is-invalid input, .field.is-invalid select")`:
      the first input or select, in document order, whose container is
      marked invalid. */
  function FirstInvalid(cs: seq<Control>, ds: seq<Display>, from: nat): (r: Option<nat>)
    requires |ds| == |cs| && from <= |cs|
    ensures r.Some? ==> from <= r.value && Focusable(cs, ds, r.value)
    ensures r.Some? ==> forall j | from <= j < r.value :: !Focusable(cs, ds, j)
    ensures r.None? ==> forall j | from <= j < |cs| :: !Focusable(cs, ds, j)
    decreases |cs| - from
  {
    if from == |cs| then None
    else if Focusable(cs, ds, from) then Some(from)
    else FirstInvalid(cs, ds, from + 1)
  }

  function Defaults(cs: seq<Control>): seq<string> {
    seq(|cs|, i requires 0 <= i < |cs| => cs[i].defaultValue)
  }

  /** Before any field is validated, no display has changed. */
  lemma RefreshNone(cs: seq<Control>, vs: seq<Verdict>, ds: seq<Display>)
    requires |vs| == |cs| && |ds| == |cs|
    ensures Refresh(cs, vs, ds, []) == ds
  {
  }

  /** Validating one more looked-up field refreshes that control's display
      only, and folds its verdict into the form's. */
  lemma {:induction false} RefreshStep(cs: seq<Control>, vs: seq<Verdict>, ds: seq<Display>, fields: seq<Option<nat>>, f: Option<nat>)
    requires |vs| == |cs| && |ds| == |cs|
    requires f.Some? ==> f.value < |cs|
    ensures var before := Refresh(cs, vs, ds, fields);
      Refresh(cs, vs, ds, fields + [f]) ==
        if f.Some? then before[f.value := Show(cs[f.value], before[f.value], vs[f.value])] else before
    ensures AllPass(vs, fields + [f]) <==> AllPass(vs, fields) && (f.Some? ==> vs[f.value].Valid?)
  {
    forall i | 0 <= i < |cs|
      ensures Some(i) in fields + [f] <==> Some(i) in fields || f == Some(i)
    {
    }
    if f.Some? {
      var before := Refresh(cs, vs, ds, fields);
      var i := f.value;
      if Some(i) in fields {
        assert Show(cs[i], before[i], vs[i]) == before[i];
      }
    }
  }

  /** After submit-time validation a control's container is marked invalid
      exactly when the control was looked up, has a container and fails. */
  lemma {:induction false} SubmitMarksExactlyFailures(cs: seq<Control>, vs: seq<Verdict>, ds: seq<Display>, fields: seq<Option<nat>>)
    requires |vs| == |cs| && |ds| == |cs|
    requires forall i | 0 <= i < |cs| && ds[i].containerInvalid :: Some(i) in fields && cs[i].hasContainer
    ensures var after := Refresh(cs, vs, ds, fields);
      forall i | 0 <= i < |cs| ::
        after[i].containerInvalid <==> Some(i) in fields && cs[i].hasContainer && vs[i].Invalid?
  {
  }

  /** Where submit moves focus: to a failing looked-up field; nowhere when
      the form passes; and never past a failing field that has a container. */
  lemma {:induction false} SubmitFocus(cs: seq<Control>, vs: seq<Verdict>, ds: seq<Display>, fields: seq<Option<nat>>)
    requires |vs| == |cs| && |ds| == |cs| && FieldsIn(cs, fields)
    requires forall i | 0 <= i < |cs| && ds[i].containerInvalid :: Some(i) in fields && cs[i].hasContainer
    ensures var after := Refresh(cs, vs, ds, fields);
      var focus := FirstInvalid(cs, after, 0);
      && (focus.Some? ==> Some(focus.value) in fields && vs[focus.value].Invalid?)
      && (AllPass(vs, fields) ==> focus == None)
      && (forall i | 0 <= i < |cs| && Some(i) in fields && cs[i].hasContainer && vs[i].Invalid? ::
            focus.Some? && focus.value <= i)
  {
    var after := Refresh(cs, vs, ds, fields);
    SubmitMarksExactlyFailures(cs, vs, ds, fields);
    forall i | 0 <= i < |cs| && Some(i) in fields && cs[i].hasContainer && vs[i].Invalid?
      ensures Focusable(cs, after, i)
    {
      var k :| 0 <= k < |fields| && fields[k] == Some(i);
    }
  }

  class Form {
    const controls: seq<Control>
    /** The control each of `RequiredFieldNames` resolves to; the page's
        controls do not change, so every lookup gives the same answer. */
    const fields: seq<Option<nat>>
    /** Whether the form holds a `.form-status` element. */
    const hasStatus: bool
    var values: seq<string>
    var views: seq<Display>
    var statusText: string
    var statusError: bool
    var statusSuccess: bool
    /** Clear timers scheduled by successful submits and not yet fired. */
    var pendingClears: nat

    /** Control `i` has the `input`/`blur` listeners and is validated on submit. */
    predicate Wired(i: nat) {
      Some(i) in fields
    }

    /** Only wired controls with a container are ever marked invalid. */
    ghost predicate Valid()
      reads this
    {
      && |values| == |controls| && |views| == |controls|
      && FieldsIn(controls, fields)
      && forall i | 0 <= i < |controls| && views[i].containerInvalid :: Wired(i) && controls[i].hasContainer
    }

    /** The page as loaded: `values` holds what each control shows, which
        the browser may have restored from an earlier visit. */
    constructor (controls: seq<Control>, values: seq<string>, hasStatus: bool)
      requires |values| == |controls|
      ensures Valid()
      ensures this.controls == controls && this.hasStatus == hasStatus
      ensures fields == Lookups(controls, RequiredFieldNames)
      ensures this.values == values
      ensures views == seq(|controls|, _ => Pristine)
      ensures statusText == "" && !statusError && !statusSuccess && pendingClears == 0
    {
      this.controls := controls;
      this.hasStatus := hasStatus;
      fields := Lookups(controls, RequiredFieldNames);
      this.values := values;
      views := seq(|controls|, _ => Pristine);
      statusText := "";
      statusError, statusSuccess := false, false;
      pendingClears := 0;
      LookupsIn(controls, RequiredFieldNames);
    }

    /** `validateField` on control `i`: only the display of `i` changes. */
    method ValidateField(i: nat) returns (ok: bool)
      requires Valid() && i < |controls| && Wired(i)
      modifies this`views
      ensures Valid()
      ensures ok == Verdicts(controls, values)[i].Valid?
      ensures views == old(views)[i := Show(controls[i], old(views[i]), Verdicts(controls, values)[i])]
    {
      VerdictAt(controls, values, i);
      var verdict := ValidateValue(controls[i].required, controls[i].name, values[i]);
      views := views[i := Show(controls[i], views[i], verdict)];
      ok := verdict.Valid?;
    }

    /** An `input` event: the value changes, and a wired control is
        validated against it. */
    method Input(i: nat, value: string)
      requires Valid() && i < |controls|
      modifies this`values, this`views
      ensures Valid()
      ensures values == old(values)[i := value]
      ensures views == if Wired(i)
        then old(views)[i := Show(controls[i], old(views[i]), ValidateValue(controls[i].required, controls[i].name, value))]
        else old(views)
    {
      values := values[i := value];
      VerdictAt(controls, values, i);
      if Wired(i) {
        var _ := ValidateField(i);
      }
    }

    /** A `blur` event: a wired control is validated again. */
    method Blur(i: nat)
      requires Valid() && i < |controls|
      modifies this`views
      ensures Valid()
      ensures views == if Wired(i)
        then old(views)[i := Show(controls[i], old(views[i]), ValidateValue(controls[i].required, controls[i].name, values[i]))]
        else old(views)
    {
      VerdictAt(controls, values, i);
      if Wired(i) {
        var _ := ValidateField(i);
      }
    }

    /** The `forEach` of the submit handler: every wired control is
        validated, with no short-circuit, and the results are ANDed. */
    method ValidateAll() returns (isFormValid: bool)
      requires Valid()
      modifies this`views
      ensures Valid()
      ensures views == Refresh(controls, Verdicts(controls, values), old(views), fields)
      ensures isFormValid == AllPass(Verdicts(controls, values), fields)
    {
      ghost var vs := Verdicts(controls, values);
      ghost var start := views;
      RefreshNone(controls, vs, start);
      assert fields[..0] == [];
      isFormValid := true;
      for k := 0 to |fields|
        invariant Valid() && vs == Verdicts(controls, values)
        invariant views == Refresh(controls, vs, start, fields[..k])
        invariant isFormValid == AllPass(vs, fields[..k])
      {
        isFormValid := ValidateNext(k, isFormValid, vs, start);
      }
      assert fields[..|fields|] == fields;
    }

    /** The callback of that `forEach` for the `k`th name: its field, when
        the lookup found one, is validated and a failure clears
        `isFormValid`. */
    method ValidateNext(k: nat, isFormValid: bool, ghost vs: seq<Verdict>, ghost start: seq<Display>)
      returns (result: bool)
      requires Valid() && k < |fields| && |start| == |controls|
      requires vs == Verdicts(controls, values)
      requires views == Refresh(controls, vs, start, fields[..k])
      requires isFormValid == AllPass(vs, fields[..k])
      modifies this`views
      ensures Valid()
      ensures views == Refresh(controls, vs, start, fields[..k + 1])
      ensures result == AllPass(vs, fields[..k + 1])
    {
      var field := fields[k];
      assert fields[..k + 1] == fields[..k] + [field];
      RefreshStep(controls, vs, start, fields[..k], field);
      result := isFormValid;
      if field.Some? {
        var ok := ValidateField(field.value);
        if !ok {
          result := false;
        }
      }
    }

    /** The submit handler. Every wired control is validated. Without a
        status element nothing else happens. A failing form keeps its values,
        shows the review message in the error style and focuses the first
        invalid control; a passing form is reset, shows the thank-you message
        in the success style and schedules one more status clear. */
    method Submit() returns (formValid: bool, focus: Option<nat>)
      requires Valid()
      modifies this
      ensures Valid()
      ensures views == Refresh(controls, Verdicts(controls, old(values)), old(views), fields)
      ensures formValid == AllPass(Verdicts(controls, old(values)), fields)
      ensures !hasStatus ==>
        && values == old(values) && focus == None
        && statusText == old(statusText) && statusError == old(statusError)
        && statusSuccess == old(statusSuccess) && pendingClears == old(pendingClears)
      ensures hasStatus && !formValid ==>
        && values == old(values) && focus == FirstInvalid(controls, views, 0)
        && statusText == ReviewMessage && statusError && !statusSuccess
        && pendingClears == old(pendingClears)
      ensures hasStatus && formValid ==>
        && values == Defaults(controls) && focus == None
        && statusText == ThanksMessage && statusSuccess && !statusError
        && pendingClears == old(pendingClears) + 1
    {
      formValid := ValidateAll();
      focus := Report(formValid);
    }

    /** The rest of the submit handler, once validation has given
        `formValid`: the status line, focus, the reset and the clear timer. */
    method Report(formValid: bool) returns (focus: Option<nat>)
      requires Valid()
      modifies this`values, this`statusText, this`statusError, this`statusSuccess, this`pendingClears
      ensures Valid()
      ensures !hasStatus ==>
        && values == old(values) && focus == None
        && statusText == old(statusText) && statusError == old(statusError)
        && statusSuccess == old(statusSuccess) && pendingClears == old(pendingClears)
      ensures hasStatus && !formValid ==>
        && values == old(values) && focus == FirstInvalid(controls, views, 0)
        && statusText == ReviewMessage && statusError && !statusSuccess
        && pendingClears == old(pendingClears)
      ensures hasStatus && formValid ==>
        && values == Defaults(controls) && focus == None
        && statusText == ThanksMessage && statusSuccess && !statusError
        && pendingClears == old(pendingClears) + 1
    {
      focus := None;
      if !hasStatus {
        return;
      }
      if !formValid {
        statusText := ReviewMessage;
        statusError, statusSuccess := true, false;
        focus := FirstInvalid(controls, views, 0);
        return;
      }
      values := Defaults(controls);
      statusText := ThanksMessage;
      statusSuccess, statusError := true, false;
      pendingClears := pendingClears + 1;
    }

    /** One scheduled clear fires: it empties the status and drops both
        styles, whatever a later submit has put there since. */
    method ClearStatus()
      requires Valid() && pendingClears > 0
      modifies this`statusText, this`statusError, this`statusSuccess, this`pendingClears
      ensures Valid()
      ensures statusText == "" && !statusError && !statusSuccess
      ensures pendingClears == old(pendingClears) - 1
    {
      statusText := "";
      statusError, statusSuccess := false, false;
      pendingClears := pendingClears - 1;
    }
  }

  /** The visitor types `refill` into the controls, one `input` event per
      control in document order. */
  method TypeIn(f: Form, refill: seq<string>)
    requires f.Valid() && |refill| == |f.controls|
    modifies f`values, f`views
    ensures f.Valid() && f.values == refill
  {
    ghost var start := f.values;
    for i := 0 to |refill|
      invariant f.Valid()
      invariant f.values == refill[..i] + start[i..]
    {
      f.Input(i, refill[i]);
      assert f.values == refill[..i + 1] + start[i + 1..];
    }
    assert f.values == refill;
  }

  /** The uncancelled timer: after a passing submit, the visitor types
      `refill` into the reset form and submits again; when that passes too,
      the first clear already blanks the second thank-you message while the
      second clear is still pending. */
  method ClearRace(f: Form, refill: seq<string>)
    requires f.Valid() && f.hasStatus
    requires AllPass(Verdicts(f.controls, f.values), f.fields)
    requires |refill| == |f.controls| && AllPass(Verdicts(f.controls, refill), f.fields)
    modifies f
    ensures f.values == Defaults(f.controls)
    ensures f.statusText == "" && !f.statusSuccess && !f.statusError
    ensures f.pendingClears == old(f.pendingClears) + 1
  {
    var ok1, _ := f.Submit();
    TypeIn(f, refill);
    var ok2, _ := f.Submit();
    f.ClearStatus();
  }
}
