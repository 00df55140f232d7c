/**
 * `PassengerInfoDialog.java`: one form per seat, checked and saved in order
 * when Confirm is pressed; the dialog is confirmed only when every form
 * was saved.
 */
module PassengerDialog {
  import opened Wrappers
  import opened JavaText
  import opened People
  import opened Store
  import PassengerService

  /** The four text fields of one passenger's panel, as typed. */
  datatype PassengerForm = PassengerForm(name: string, passport: string, dateOfBirth: string, requests: string)

  /** `\d{4}-\d{2}-\d{2}` matched against the whole string: the shape of a date, not its calendar validity. */
  predicate IsDateShape(s: string) {
    && |s| == 10
    && IsDigit(s[0]) && IsDigit(s[1]) && IsDigit(s[2]) && IsDigit(s[3])
    && s[4] == '-'
    && IsDigit(s[5]) && IsDigit(s[6])
    && s[7] == '-'
    && IsDigit(s[8]) && IsDigit(s[9])
  }

  /** A date shape is a four-digit, a two-digit and a two-digit group joined by hyphens. */
  lemma DateShapeMeans(s: string)
    ensures IsDateShape(s) <==>
              |s| == 10 && s == s[..4] + "-" + s[5..7] + "-" + s[8..]
              && AllDigits(s[..4]) && AllDigits(s[5..7]) && AllDigits(s[8..])
  {
    if |s| == 10 && s == s[..4] + "-" + s[5..7] + "-" + s[8..] && AllDigits(s[..4]) && AllDigits(s[5..7]) && AllDigits(s[8..]) {
      assert s[4] == (s[..4] + "-" + s[5..7] + "-" + s[8..])[4];
      assert s[7] == (s[..4] + "-" + s[5..7] + "-" + s[8..])[7];
      assert forall i :: 0 <= i < 4 ==> s[i] == s[..4][i];
      assert forall i :: 5 <= i < 7 ==> s[i] == s[5..7][i - 5];
      assert forall i :: 8 <= i < 10 ==> s[i] == s[8..][i - 8];
    }
    if IsDateShape(s) {
      assert s == s[..4] + "-" + s[5..7] + "-" + s[8..];
    }
  }

  /** Why a form stops the confirmation. */
  datatype FormError = MissingField | BadDate | NotSaved

  datatype Failure = Failure(index: nat, error: FormError)

  /** The checks on one trimmed form before anything is saved: required fields, then the date shape. */
  function CheckForm(f: PassengerForm): Option<FormError> {
    var name := Trim(f.name);
    var passport := Trim(f.passport);
    var dob := Trim(f.dateOfBirth);
    if |name| == 0 || |passport| == 0 || |dob| == 0 then Some(MissingField)
    else if !IsDateShape(dob) then Some(BadDate)
    else None
  }

  /** A form is refused for a missing field when one of the three required fields is blank, and passes when none is and the date has the right shape. */
  lemma CheckFormMeans(f: PassengerForm)
    ensures CheckForm(f) == Some(MissingField) <==> IsBlank(f.name) || IsBlank(f.passport) || IsBlank(f.dateOfBirth)
    ensures CheckForm(f).None? <==> !IsBlank(f.name) && !IsBlank(f.passport) && IsDateShape(Trim(f.dateOfBirth))
  {
  }

  /** `e` is why the loop stops at form `f`: the check's own error, or a save that failed after the checks passed. */
  predicate StoppedBy(f: PassengerForm, e: FormError) {
    if e == NotSaved then CheckForm(f).None? else CheckForm(f) == Some(e)
  }

  /** The passenger a form that passed its checks should become, up to the generated id. */
  predicate FromForm(p: Passenger, f: PassengerForm) {
    && p.name == Trim(f.name) && p.passportNumber == Trim(f.passport) && p.dateOfBirth == Trim(f.dateOfBirth)
    && p.specialRequests == ""
  }

  /** A passenger made from a form that passed its checks. */
  predicate Accepted(p: Passenger, f: PassengerForm) {
    FromForm(p, f) && CheckForm(f).None?
  }

  /** Each passenger of the list was made from the form at the same position, which passed its checks. */
  predicate SavedFromForms(ps: seq<Passenger>, fs: seq<PassengerForm>) {
    |ps| == |fs| && forall k :: 0 <= k < |ps| ==> Accepted(ps[k], fs[k])
  }

  /** A passenger accepted from form `i`, followed by passengers saved from the forms after it, were saved from the forms from `i` on. */
  lemma SavedFromFormsCons(p: Passenger, rest: seq<Passenger>, forms: seq<PassengerForm>, i: nat)
    requires i + 1 + |rest| <= |forms|
    requires Accepted(p, forms[i]) && SavedFromForms(rest, forms[i + 1..i + 1 + |rest|])
    ensures SavedFromForms([p] + rest, forms[i..i + 1 + |rest|])
  {
    forall k | 0 <= k < 1 + |rest|
      ensures Accepted(([p] + rest)[k], forms[i..i + 1 + |rest|][k])
    {
      if k > 0 {
        assert ([p] + rest)[k] == rest[k - 1];
        assert forms[i..i + 1 + |rest|][k] == forms[i + 1..i + 1 + |rest|][k - 1];
      }
    }
  }

  /** The row `createPassenger` stores for a form that passed its checks: every field trimmed, the requests kept. */
  function FormRow(f: PassengerForm): (row: PassengerRow)
  {
    PassengerRow(Trim(f.name), Trim(f.passport), Trim(f.dateOfBirth), Some(Trim(f.requests)))
  }

  /**
   * One turn of the loop: check the form, then save it through the
   * passenger service with its fields trimmed. Either a passenger or the
   * reason to stop.
   */
  function SaveForm(s: Store, f: PassengerForm, ok: bool): (r: (Store, Option<Passenger>, Option<FormError>))
    ensures r.1.Some? <==> r.2.None?
    ensures r.1.Some? ==> Accepted(r.1.value, f)
    ensures r.2.Some? ==> StoppedBy(f, r.2.value)
    ensures r.2.Some? && r.2.value != NotSaved ==> r.0 == s
    ensures r.0 == s.(passengers := r.0.passengers, nextPassengerId := r.0.nextPassengerId)
  {
    match CheckForm(f)
    case Some(e) => (s, None, Some(e))
    case None =>
      var (t, p) := PassengerService.CreatePassenger(s, Some(Trim(f.name)), Some(Trim(f.passport)),
                                                     Some(Trim(f.dateOfBirth)), Some(Trim(f.requests)), ok);
      if p.None? then (t, None, Some(NotSaved)) else (t, p, None)
  }

  /**
   * Which row one turn writes: a saved passenger has the next passenger id
   * and the store gains exactly the form's trimmed row under it; a turn that
   * saves nothing leaves the store as it was.
   */
  lemma SaveFormStores(s: Store, f: PassengerForm, ok: bool)
    ensures var r := SaveForm(s, f, ok);
            && (r.1.None? && s.nextPassengerId != -1 ==> r.0 == s)
            && (r.1.Some? ==> r.1.value.passengerId == s.nextPassengerId && r.0.nextPassengerId == s.nextPassengerId + 1)
            && (r.1.Some? ==> r.0.passengers == s.passengers[s.nextPassengerId := FormRow(f)])
  {
  }

  /**
   * The loop of `validateAndSavePassengers` from form `i` on, stopping at
   * the first failure. Rows saved before a failure stay in the store, and
   * the passengers saved so far stay in the list.
   */
  function SaveFrom(s: Store, forms: seq<PassengerForm>, oks: seq<bool>, i: nat)
    : (r: (Store, seq<Passenger>, Option<Failure>))
    requires |oks| == |forms| && i <= |forms|
    ensures r.2.None? ==> |r.1| == |forms| - i
    ensures r.2.Some? ==> i <= r.2.value.index < |forms| && |r.1| == r.2.value.index - i
    ensures r.0 == s.(passengers := r.0.passengers, nextPassengerId := r.0.nextPassengerId)
    decreases |forms| - i
  {
    if i == |forms| then (s, [], None)
    else
      var step := SaveForm(s, forms[i], oks[i]);
      if step.2.Some? then (step.0, [], Some(Failure(i, step.2.value)))
      else
        var rest := SaveFrom(step.0, forms, oks, i + 1);
        (rest.0, [step.1.value] + rest.1, rest.2)
  }

  /** One turn of the loop: the form's outcome, then either the stop or the rest of the loop on the new store. */
  lemma {:induction false} SaveFromStep(s: Store, forms: seq<PassengerForm>, oks: seq<bool>, i: nat)
    requires |oks| == |forms| && i < |forms|
    ensures var step := SaveForm(s, forms[i], oks[i]);
            var r := SaveFrom(s, forms, oks, i);
            && (step.2.Some? ==> r == (step.0, [], Some(Failure(i, step.2.value))))
            && (step.2.None? ==> step.1.Some? && r == (SaveFrom(step.0, forms, oks, i + 1).0,
                                                       [step.1.value] + SaveFrom(step.0, forms, oks, i + 1).1,
                                                       SaveFrom(step.0, forms, oks, i + 1).2))
  {
  }

  /** Every passenger the loop returns came, in order, from the form at its position, and that form passed its checks. */
  lemma {:induction false} SaveFromSaved(s: Store, forms: seq<PassengerForm>, oks: seq<bool>, i: nat)
    requires |oks| == |forms| && i <= |forms|
    ensures var r := SaveFrom(s, forms, oks, i);
            SavedFromForms(r.1, forms[i..i + |r.1|])
    decreases |forms| - i
  {
    if i < |forms| {
      SaveFromStep(s, forms, oks, i);
      var step := SaveForm(s, forms[i], oks[i]);
      if step.2.None? {
        var rest := SaveFrom(step.0, forms, oks, i + 1).1;
        SaveFromSaved(step.0, forms, oks, i + 1);
        SavedFromFormsCons(step.1.value, rest, forms, i);
      }
    }
  }

  /** The passenger part of `WellFormed`: the next passenger id is positive and above every stored one. */
  predicate FreshPassengerIds(s: Store)
  {
    1 <= s.nextPassengerId && forall id :: id in s.passengers ==> id < s.nextPassengerId
  }

  /** Every row of `s` is still in `u`, unchanged. */
  predicate KeepsRows(s: Store, u: Store)
  {
    forall id :: id in s.passengers ==> id in u.passengers && u.passengers[id] == s.passengers[id]
  }

  /** Every row of `u` that `s` lacks has an id `s` had not handed out yet, and `u` has not handed out more. */
  predicate OnlyNewRows(s: Store, u: Store)
  {
    forall id :: id in u.passengers ==> id in s.passengers || s.nextPassengerId <= id < u.nextPassengerId
  }

  /** Passenger `k` of `ps` has id `base + k`, and `u` stores the row of form `k` of `fs` under it. */
  predicate RowsFor(u: Store, ps: seq<Passenger>, fs: seq<PassengerForm>, base: int)
  {
    forall k :: 0 <= k < |ps| && k < |fs| ==>
      && ps[k].passengerId == base + k
      && ps[k].passengerId in u.passengers
      && u.passengers[ps[k].passengerId] == FormRow(fs[k])
  }

  /**
   * The loop keeps passenger ids fresh, hands out one id
   * per saved passenger, keeps the rows that were there, and adds no row
   * under an id it did not hand out.
   */
  lemma {:induction false} SaveFromGrows(s: Store, forms: seq<PassengerForm>, oks: seq<bool>, i: nat)
    requires FreshPassengerIds(s)
    requires |oks| == |forms| && i <= |forms|
    ensures var r := SaveFrom(s, forms, oks, i);
            && FreshPassengerIds(r.0)
            && r.0.nextPassengerId == s.nextPassengerId + |r.1|
            && KeepsRows(s, r.0)
            && OnlyNewRows(s, r.0)
    decreases |forms| - i
  {
    if i < |forms| {
      SaveFromStep(s, forms, oks, i);
      SaveFormStores(s, forms[i], oks[i]);
      var step := SaveForm(s, forms[i], oks[i]);
      if step.2.None? {
        var t := step.0;
        assert s.nextPassengerId !in s.passengers;
        assert FreshPassengerIds(t);
        SaveFromGrows(t, forms, oks, i + 1);
        var u := SaveFrom(t, forms, oks, i + 1).0;
        assert KeepsRows(s, t);
        assert KeepsRows(s, u);
        assert OnlyNewRows(s, u);
      }
    }
  }

  /**
   * What the loop leaves in a well-formed store: the passenger at position
   * `k` got the id `nextPassengerId + k`, and the store holds the trimmed
   * fields of form `i + k` under that id.
   */
  lemma {:induction false} SaveFromStored(s: Store, forms: seq<PassengerForm>, oks: seq<bool>, i: nat)
    requires FreshPassengerIds(s)
    requires |oks| == |forms| && i <= |forms|
    ensures var r := SaveFrom(s, forms, oks, i);
            RowsFor(r.0, r.1, forms[i..], s.nextPassengerId)
    decreases |forms| - i
  {
    if i < |forms| {
      SaveFromStep(s, forms, oks, i);
      SaveFormStores(s, forms[i], oks[i]);
      var step := SaveForm(s, forms[i], oks[i]);
      if step.2.None? {
        var t := step.0;
        assert s.nextPassengerId !in s.passengers;
        assert FreshPassengerIds(t);
        SaveFromStored(t, forms, oks, i + 1);
        SaveFromGrows(t, forms, oks, i + 1);
        var rest := SaveFrom(t, forms, oks, i + 1);
        var r := SaveFrom(s, forms, oks, i);
        assert KeepsRows(t, rest.0);
        assert s.nextPassengerId in t.passengers;
        forall k | 0 <= k < |r.1| && k < |forms[i..]|
          ensures r.1[k].passengerId == s.nextPassengerId + k
          ensures r.1[k].passengerId in r.0.passengers && r.0.passengers[r.1[k].passengerId] == FormRow(forms[i..][k])
        {
          if k > 0 {
            assert r.1[k] == rest.1[k - 1];
            assert forms[i..][k] == forms[i + 1..][k - 1];
          }
        }
      }
    }
  }

  /** The loop stops at a form that failed its checks, or that passed them and could not be saved. */
  lemma {:induction false} SaveFromStopsAt(s: Store, forms: seq<PassengerForm>, oks: seq<bool>, i: nat)
    requires |oks| == |forms| && i <= |forms|
    ensures var r := SaveFrom(s, forms, oks, i);
            r.2.Some? ==> StoppedBy(forms[r.2.value.index], r.2.value.error)
    decreases |forms| - i
  {
    if i < |forms| {
      SaveFromStep(s, forms, oks, i);
      var step := SaveForm(s, forms[i], oks[i]);
      if step.2.None? {
        SaveFromStopsAt(step.0, forms, oks, i + 1);
      }
    }
  }

  /**
   * `validateAndSavePassengers` over the `numSeats` panels the dialog built
   * (none when `numSeats` is not positive): the store after the saves, the
   * passenger list, and the first failure if any. The list starts empty.
   */
  function ValidateAndSavePassengers(s: Store, numSeats: int, forms: seq<PassengerForm>, oks: seq<bool>)
    : (r: (Store, seq<Passenger>, Option<Failure>))
    requires |forms| == (if numSeats > 0 then numSeats else 0) && |oks| == |forms|
    ensures numSeats <= 0 ==> r == (s, [], None)
    ensures r.2.None? ==> SavedFromForms(r.1, forms)
    ensures r.2.Some? ==> r.2.value.index <= |forms| && SavedFromForms(r.1, forms[..r.2.value.index])
  {
    var r := SaveFrom(s, forms, oks, 0);
    SaveFromSaved(s, forms, oks, 0);
    assert forms[0..|r.1|] == forms[..|r.1|];
    assert r.2.None? ==> forms[..|r.1|] == forms;
    r
  }

  /** The dialog's state: the list `getPassengers` returns and the `confirmed` flag. */
  datatype Dialog = Dialog(passengers: seq<Passenger>, confirmed: bool)

  const NewDialog: Dialog := Dialog([], false)

  /** The Confirm button: validate and save; the flag is raised only when that succeeded. */
  function PressConfirm(d: Dialog, s: Store, numSeats: int, forms: seq<PassengerForm>, oks: seq<bool>)
    : (r: (Store, Dialog))
    requires |forms| == (if numSeats > 0 then numSeats else 0) && |oks| == |forms|
    ensures r.1.confirmed <==> d.confirmed || ValidateAndSavePassengers(s, numSeats, forms, oks).2.None?
    ensures !d.confirmed && r.1.confirmed ==> |r.1.passengers| == |forms|
  {
    var (t, passengers, failure) := ValidateAndSavePassengers(s, numSeats, forms, oks);
    (t, Dialog(passengers, d.confirmed || failure.None?))
  }

  /** What Confirm leaves in the list does not depend on what was there before. */
  lemma ConfirmStartsFromEmptyList(d1: Dialog, d2: Dialog, s: Store, numSeats: int, forms: seq<PassengerForm>, oks: seq<bool>)
    requires |forms| == (if numSeats > 0 then numSeats else 0) && |oks| == |forms|
    ensures PressConfirm(d1, s, numSeats, forms, oks).1.passengers == PressConfirm(d2, s, numSeats, forms, oks).1.passengers
    ensures PressConfirm(d1, s, numSeats, forms, oks).0 == PressConfirm(d2, s, numSeats, forms, oks).0
  {
  }

  /**
   * A confirmed fresh dialog on a well-formed store left one stored row per
   * passenger in its list, holding the trimmed fields of that seat's form,
   * under consecutive new ids; rows that were there before are untouched.
   */
  lemma ConfirmedLeavesOneRowPerPassenger(s: Store, numSeats: int, forms: seq<PassengerForm>, oks: seq<bool>)
    requires WellFormed(s)
    requires |forms| == (if numSeats > 0 then numSeats else 0) && |oks| == |forms|
    ensures var (t, d) := PressConfirm(NewDialog, s, numSeats, forms, oks);
            d.confirmed ==>
              && |d.passengers| == |forms|
              && t.nextPassengerId == s.nextPassengerId + |forms|
              && RowsFor(t, d.passengers, forms, s.nextPassengerId)
              && KeepsRows(s, t)
              && OnlyNewRows(s, t)
  {
    assert FreshPassengerIds(s);
    SaveFromGrows(s, forms, oks, 0);
    SaveFromStored(s, forms, oks, 0);
    var r := SaveFrom(s, forms, oks, 0);
    assert forms[0..] == forms;
    assert PressConfirm(NewDialog, s, numSeats, forms, oks) == (r.0, Dialog(r.1, r.2.None?));
  }

  /** A fresh dialog is confirmed exactly when every form passed its checks and was saved, one passenger per seat. */
  lemma ConfirmedMeansAllSaved(s: Store, numSeats: int, forms: seq<PassengerForm>, oks: seq<bool>)
    requires |forms| == (if numSeats > 0 then numSeats else 0) && |oks| == |forms|
    ensures var d := PressConfirm(NewDialog, s, numSeats, forms, oks).1;
            d.confirmed ==> SavedFromForms(d.passengers, forms)
    ensures numSeats <= 0 ==> PressConfirm(NewDialog, s, numSeats, forms, oks).1 == Dialog([], true)
  {
  }
}
