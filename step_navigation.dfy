/**
  The multi-step form of form.js: the per-field side effects of
  `validateField`, the `next` and `back` moves between steps
  (`goToNextStep` and the back button handler) and `submitForm`.
  The steps are consecutive sibling elements in document order, so the
  step before the first and the step after the last do not exist.
 */
module StepNavigation {
  import opened FieldValidation

  /** The `allValid` fold: every field passes `validateField`. */
  predicate AllValid(fs: seq<Field>) {
    forall i | 0 <= i < |fs| :: Verdict(fs[i])
  }

  /** The `allValid` flag after the `forEach` has reached control k,
      starting from control lo. */
  predicate RangeValid(fs: seq<Field>, lo: nat, k: nat)
    requires lo <= k <= |fs|
    decreases k - lo
  {
    k == lo || (RangeValid(fs, lo, k - 1) && Verdict(fs[k - 1]))
  }

  /** The flag is true exactly when every control of the range passes. */
  lemma {:induction false} RangeValidIffAll(fs: seq<Field>, lo: nat, k: nat)
    requires lo <= k <= |fs|
    ensures RangeValid(fs, lo, k) <==> forall m | lo <= m < k :: Verdict(fs[m])
    decreases k - lo
  {
    if k > lo {
      RangeValidIffAll(fs, lo, k - 1);
      assert RangeValid(fs, lo, k) == (RangeValid(fs, lo, k - 1) && Verdict(fs[k - 1]));
    }
  }

  /** What the `forEach` over lo..hi-1 has done once it reaches control k:
      the flag folds the verdicts so far, the controls so far show their
      rendering, the others are as before. */
  ghost predicate RangeInvariant(fs: seq<Field>, before: seq<FieldView>, views: seq<FieldView>,
                                 lo: nat, k: nat, allValid: bool)
  {
    && lo <= k <= |fs| && |views| == |before| == |fs|
    && allValid == RangeValid(fs, lo, k)
    && (forall m | lo <= m < k :: views[m] == Render(fs[m]))
    && (forall m | 0 <= m < |views| && !(lo <= m < k) :: views[m] == before[m])
  }

  /** One turn of the `forEach`: `validateField` on control k renders it and
      its verdict joins the flag. */
  lemma RangeStep(fs: seq<Field>, before: seq<FieldView>, views: seq<FieldView>,
                  lo: nat, k: nat, allValid: bool, ok: bool)
    requires RangeInvariant(fs, before, views, lo, k, allValid) && k < |fs|
    requires ok == Verdict(fs[k])
    ensures RangeInvariant(fs, before, views[k := Render(fs[k])], lo, k + 1, allValid && ok)
  {
  }

  /** At the end of the range the loop has done what `ValidateRange` promises. */
  lemma RangeDone(fs: seq<Field>, before: seq<FieldView>, views: seq<FieldView>,
                  lo: nat, hi: nat, allValid: bool)
    requires RangeInvariant(fs, before, views, lo, hi, allValid)
    ensures allValid <==> forall m | lo <= m < hi :: Verdict(fs[m])
    ensures forall m | lo <= m < hi :: views[m] == Render(fs[m])
    ensures forall m | 0 <= m < |views| && !(lo <= m < hi) :: views[m] == before[m]
  {
    RangeValidIffAll(fs, lo, hi);
  }

  /** The number of controls in the first steps. */
  function Sum(sizes: seq<nat>): nat {
    if sizes == [] then 0 else Sum(sizes[..|sizes| - 1]) + sizes[|sizes| - 1]
  }

  /** The controls of step s sit right after those of the steps before it. */
  lemma {:induction false} SumPrefix(sizes: seq<nat>, s: nat)
    requires s < |sizes|
    ensures Sum(sizes[..s]) + sizes[s] <= Sum(sizes)
    decreases |sizes|
  {
    if s < |sizes| - 1 {
      var init := sizes[..|sizes| - 1];
      assert init[..s] == sizes[..s];
      SumPrefix(init, s);
    } else {
      assert sizes[..s] == sizes[..|sizes| - 1];
    }
  }

  /** The step that holds control m, when the steps hold sizes[0],
      sizes[1], ... controls in document order. */
  function StepIndex(sizes: seq<nat>, m: nat): (s: nat)
    requires m < Sum(sizes)
    ensures s < |sizes| && Sum(sizes[..s]) <= m < Sum(sizes[..s]) + sizes[s]
    decreases |sizes|
  {
    var init := sizes[..|sizes| - 1];
    if m < Sum(init) then
      var s := StepIndex(init, m);
      assert init[..s] == sizes[..s];
      s
    else
      assert sizes[..|sizes| - 1] == init;
      |sizes| - 1
  }

  // ---------------------------------------------------------------------
  // The active-step index as a state machine
  // ---------------------------------------------------------------------

  /** The active step after `next` on step `active` of `count` steps,
      when the validation of the active step's fields came out `allValid`. */
  function NextStep(active: nat, count: nat, allValid: bool): nat {
    if allValid && active + 1 < count then active + 1 else active
  }

  /** The active step after `back`: ungated, and a no-op on the first step. */
  function PreviousStep(active: nat): nat {
    if active > 0 then active - 1 else active
  }

  /** A user action on the step buttons: `next` (with the outcome of the
      active step's validation) or `back`. */
  datatype NavEvent = Advance(allValid: bool) | GoBack

  /** The active step after a sequence of button presses. */
  function Run(active: nat, count: nat, events: seq<NavEvent>): nat
    decreases |events|
  {
    if events == [] then active
    else
      var a := match events[0]
        case Advance(ok) => NextStep(active, count, ok)
        case GoBack => PreviousStep(active);
      Run(a, count, events[1..])
  }

  /** `next` moves by exactly one step, forward, only when every field is
      valid and a next step exists; otherwise it stays put. */
  lemma NextMovesOneOrStays(active: nat, count: nat, allValid: bool)
    requires active < count
    ensures NextStep(active, count, allValid) < count
    ensures NextStep(active, count, allValid) == active + 1 <==> allValid && active + 1 < count
    ensures NextStep(active, count, allValid) != active + 1 ==> NextStep(active, count, allValid) == active
  {
  }

  /** `back` right after a successful `next` returns to the same step. */
  lemma BackUndoesNext(active: nat, count: nat)
    requires active + 1 < count
    ensures PreviousStep(NextStep(active, count, true)) == active
  {
  }

  /** Exactly one step stays active whatever the user presses. */
  lemma {:induction false} RunStaysInRange(active: nat, count: nat, events: seq<NavEvent>)
    requires active < count
    ensures Run(active, count, events) < count
    decreases |events|
  {
    if events != [] {
      var a := match events[0]
        case Advance(ok) => NextStep(active, count, ok)
        case GoBack => PreviousStep(active);
      RunStaysInRange(a, count, events[1..]);
    }
  }

  /** The step reached by pressing `next` k times on valid steps. */
  function Advances(k: nat): (r: seq<NavEvent>)
    ensures |r| == k && forall i | 0 <= i < k :: r[i] == Advance(true)
  {
    if k == 0 then [] else [Advance(true)] + Advances(k - 1)
  }

  /** Pressing `next` k times with every field valid reaches step
      active + k, stopping at the last step. */
  lemma {:induction false} RepeatedNextClampsAtLast(active: nat, count: nat, k: nat)
    requires active < count
    ensures Run(active, count, Advances(k)) == if active + k < count then active + k else count - 1
    decreases k
  {
    if k > 0 {
      assert Advances(k)[1..] == Advances(k - 1);
      RepeatedNextClampsAtLast(NextStep(active, count, true), count, k - 1);
    }
  }

  /** The form: the contents of all its controls in document order, the
      page state `validateField` writes for each of them, how many of the
      controls each step holds, the active step, and the visibility of the
      form and of the success message. */
  class MultiStepForm {
    const stepSizes: seq<nat>
    var fields: seq<Field>
    var views: seq<FieldView>
    var active: nat
    var formVisible: bool
    var successVisible: bool

    ghost predicate Valid()
      reads this
    {
      && 0 < |stepSizes| && active < |stepSizes|
      && |fields| == Sum(stepSizes) && |views| == |fields|
    }

    /** Index of the first control of step s. */
    function StepStart(s: nat): nat
      requires s < |stepSizes|
    {
      Sum(stepSizes[..s])
    }

    /** One past the index of the last control of step s. */
    function StepEnd(s: nat): (e: nat)
      requires s < |stepSizes|
      ensures StepStart(s) <= e <= Sum(stepSizes)
    {
      SumPrefix(stepSizes, s);
      StepStart(s) + stepSizes[s]
    }

    constructor (stepSizes: seq<nat>, fields: seq<Field>)
      requires |stepSizes| > 0 && |fields| == Sum(stepSizes)
      ensures Valid() && this.stepSizes == stepSizes && this.fields == fields
      ensures forall k | 0 <= k < |fields| :: views[k] == FieldView("", "", false, false)
      ensures active == 0 && formVisible && !successVisible
    {
      this.stepSizes := stepSizes;
      this.fields := fields;
      views := seq(|fields|, k => FieldView("", "", false, false));
      active := 0;
      formVisible := true;
      successVisible := false;
    }

    /** The user edits control k between two handled events. */
    method Input(k: nat, f: Field)
      requires Valid() && k < |fields|
      modifies this`fields
      ensures Valid()
      ensures fields == old(fields)[k := f]
    {
      fields := fields[k := f];
    }

    /** `validateField` on control k: installs the custom message, asks the
        browser's verdict, and writes the error text and the field's and
        group's "error" classes. */
    method ValidateField(k: nat) returns (ok: bool)
      requires Valid() && k < |fields|
      modifies this`views
      ensures Valid()
      ensures ok == Verdict(fields[k])
      ensures views == old(views)[k := Render(fields[k])]
    {
      var f := fields[k];
      var view := views[k];
      var message := CustomMessage(f);
      view := view.(customValidity := Text(message));
      ok := message == NoMessage && f.nativeValid;
      if !ok {
        view := view.(errorText := if message != NoMessage then Text(message) else f.nativeMessage,
                      groupError := true, fieldError := true);
      } else {
        view := view.(errorText := "", groupError := false, fieldError := false);
      }
      views := views[k := view];
    }

    /** The `forEach` with an `allValid` flag of `goToNextStep` and
        `submitForm`, over the controls lo..hi-1: every one of them is
        validated, none is skipped, and nothing else changes. */
    method ValidateRange(lo: nat, hi: nat) returns (allValid: bool)
      requires Valid() && lo <= hi <= |fields|
      modifies this`views
      ensures Valid()
      ensures allValid <==> forall m | lo <= m < hi :: Verdict(fields[m])
      ensures forall m | lo <= m < hi :: views[m] == Render(fields[m])
      ensures forall m | 0 <= m < |views| && !(lo <= m < hi) :: views[m] == old(views)[m]
    {
      ghost var before := views;
      allValid := true;
      var k := lo;
      while k < hi
        invariant Valid() && lo <= k <= hi && fields == old(fields)
        invariant RangeInvariant(fields, before, views, lo, k, allValid)
      {
        ghost var prev := views;
        var ok := ValidateField(k);
        RangeStep(fields, before, prev, lo, k, allValid, ok);
        allValid := allValid && ok;
        k := k + 1;
      }
      RangeDone(fields, before, views, lo, hi, allValid);
    }

    /** Every control of step s passes `validateField`. */
    ghost predicate StepValid(s: nat)
      requires s < |stepSizes| && |fields| == Sum(stepSizes)
      reads this
    {
      forall m | StepStart(s) <= m < StepEnd(s) :: Verdict(fields[m])
    }

    /** Validating all controls of the form is validating every step:
        `submitForm` succeeds exactly when each step would let `next` pass. */
    lemma AllValidIffEveryStepValid()
      requires Valid()
      ensures AllValid(fields) <==> forall s | 0 <= s < |stepSizes| :: StepValid(s)
    {
      if forall s | 0 <= s < |stepSizes| :: StepValid(s) {
        forall m | 0 <= m < |fields|
          ensures Verdict(fields[m])
        {
          var s := StepIndex(stepSizes, m);
          assert StepValid(s);
        }
      }
    }

    /** `goToNextStep`: validates every control of the active step and
        moves on only if all of them are valid and a next step exists. */
    method Next()
      requires Valid()
      modifies this`active, this`views
      ensures Valid()
      ensures active == NextStep(old(active), |stepSizes|, StepValid(old(active)))
      ensures forall m | StepStart(old(active)) <= m < StepEnd(old(active)) :: views[m] == Render(fields[m])
      ensures forall m | 0 <= m < |views| && !(StepStart(old(active)) <= m < StepEnd(old(active))) ::
        views[m] == old(views)[m]
    {
      var allValid := ValidateRange(StepStart(active), StepEnd(active));
      if allValid && active + 1 < |stepSizes| {
        active := active + 1;
      }
    }

    /** The back button: moves to the previous step without validating. */
    method Back()
      requires Valid()
      modifies this`active
      ensures Valid()
      ensures active == PreviousStep(old(active))
    {
      if active > 0 {
        active := active - 1;
      }
    }

    /** `submitForm`: validates every control of every step and, if all
        are valid, hides the form and shows the success message. */
    method Submit()
      requires Valid()
      modifies this`views, this`formVisible, this`successVisible
      ensures Valid()
      ensures forall m | 0 <= m < |views| :: views[m] == Render(fields[m])
      ensures AllValid(fields) ==> !formVisible && successVisible
      ensures !AllValid(fields) ==> formVisible == old(formVisible) && successVisible == old(successVisible)
    {
      var allValid := ValidateRange(0, |fields|);
      assert fields[0..|fields|] == fields;
      if allValid {
        formVisible := false;
        successVisible := true;
      }
    }
  }
}
