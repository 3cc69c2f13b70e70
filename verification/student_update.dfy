/** The update-student request: a read-modify-write of one enquiry that may
    append a history entry (a snapshot of the status and attender BEFORE the
    update), may append a payment and recompute the derived balance and
    payment status, and then applies the new status and attender.

    Request fields follow JavaScript truthiness: a string counts as given when
    present and non-empty, a number when present and non-zero. A date field is
    given when present; whether it parses is part of the value. */
module StudentUpdate {
  import opened Wrappers
  import Text
  import opened EnquiryModel

  datatype UpdateRequest = UpdateRequest(
    status: Option<string>,
    attender: Option<string>,
    note: Option<string>,
    followUpDate: Option<DateInput>,
    courseFee: Option<int>,
    amount: Option<int>,
    paymentMode: Option<string>)

  /** A request that supplies nothing. */
  const EmptyRequest: UpdateRequest := UpdateRequest(None, None, None, None, None, None, None)

  /** `NotFound` answers 404, `ValidationError` 400, and `SaveRejected` is the
      500 answer when the schema refuses the modified document on save. */
  datatype UpdateError = NotFound | ValidationError | SaveRejected

  /** A string field that is truthy: present and non-empty. */
  predicate Given(o: Option<string>) {
    o.Some? && o.value != ""
  }

  /** A number field that is truthy: present and non-zero. */
  predicate GivenNumber(o: Option<int>) {
    o.Some? && o.value != 0
  }

  predicate FollowUpRequested(req: UpdateRequest) {
    req.status == Some(StatusLabel(FollowUp))
  }

  /** A follow-up needs a note that is not blank and a date that parses. */
  predicate FollowUpComplete(req: UpdateRequest) {
    && req.note.Some? && Text.Trim(req.note.value) != ""
    && req.followUpDate.Some? && req.followUpDate.value.ValidDate?
  }

  predicate FollowUpRejected(req: UpdateRequest) {
    FollowUpRequested(req) && !FollowUpComplete(req)
  }

  predicate StatusChanges(r: Enquiry, req: UpdateRequest) {
    Given(req.status) && req.status.value != StatusLabel(r.status)
  }

  predicate AttenderChanges(r: Enquiry, req: UpdateRequest) {
    Given(req.attender) && Some(req.attender.value) != r.attender
  }

  /** The update is logged in the history: the status or the attender is
      given and differs from the stored one, or a note or a follow-up date is
      given. */
  predicate RecordsHistory(r: Enquiry, req: UpdateRequest) {
    StatusChanges(r, req) || AttenderChanges(r, req) || Given(req.note) || req.followUpDate.Some?
  }

  /** A payment is recorded only when both the amount and the mode are given. */
  predicate PaymentGiven(req: UpdateRequest) {
    GivenNumber(req.amount) && Given(req.paymentMode)
  }

  /** The note as the schema stores it (its `trim` setter applies). */
  function StoredNote(note: Option<string>): Option<string> {
    match note
    case None => None
    case Some(n) => Some(Text.Trim(n))
  }

  function FollowUpInstant(d: Option<DateInput>): Option<int> {
    match d
    case Some(ValidDate(t)) => Some(t)
    case _ => None
  }

  /** The fee the balance is computed against: the supplied one when given,
      the stored one otherwise. */
  function EffectiveFee(r: Enquiry, req: UpdateRequest): Option<int> {
    if GivenNumber(req.courseFee) then req.courseFee else r.courseFee
  }

  /** The schema accepts the modified document: a given date parses, a given
      status and payment mode are enum labels, and a payment has a fee to be
      balanced against (otherwise the balance is `NaN`, which the number cast
      refuses). */
  predicate SaveAccepted(r: Enquiry, req: UpdateRequest) {
    && req.followUpDate != Some(InvalidDate)
    && (Given(req.status) ==> ParseStatus(req.status.value).Some?)
    && (PaymentGiven(req) ==>
          ParsePaymentMode(req.paymentMode.value).Some? && EffectiveFee(r, req).Some?)
  }

  /** The sum of all paid amounts. */
  function TotalPaid(ps: seq<Payment>): int {
    if |ps| == 0 then 0 else TotalPaid(ps[..|ps| - 1]) + ps[|ps| - 1].paidAmount
  }

  /** What is left to pay on `fee` after `total`, never below zero. */
  function BalanceFor(fee: int, total: int): (b: int)
    ensures b >= 0
    ensures b == 0 <==> total >= fee
    ensures b > 0 ==> total + b == fee
  {
    if fee - total > 0 then fee - total else 0
  }

  /** The payment status: fully paid when nothing is left, partially paid
      when something is left and something was paid, unpaid otherwise. */
  function PaymentStatusFor(fee: int, total: int): (s: PaymentStatus)
    ensures s == FullyPaid <==> total >= fee
    ensures s == PartiallyPaid <==> 0 < total < fee
    ensures s == Unpaid <==> total <= 0 && total < fee
  {
    var balance := BalanceFor(fee, total);
    if balance == 0 then FullyPaid
    else if balance > 0 && total > 0 then PartiallyPaid
    else Unpaid
  }

  /** The derived payment fields agree with the payments: once a payment is
      recorded, the fee is known, and the balance and payment status are the
      ones computed from the fee and the total paid. */
  predicate PaymentsConsistent(r: Enquiry) {
    |r.payments| > 0 ==>
      && r.courseFee.Some?
      && r.balance == Some(BalanceFor(r.courseFee.value, TotalPaid(r.payments)))
      && r.paymentStatus == PaymentStatusFor(r.courseFee.value, TotalPaid(r.payments))
  }

  /** The history entry an update appends at time `now`. */
  function TransitionEntry(r: Enquiry, req: UpdateRequest, now: int): HistoryEntry {
    NewHistoryEntry(now, r.status, r.attender, StoredNote(req.note), FollowUpInstant(req.followUpDate))
  }

  /** Step 1: append the transition entry when the update is logged. */
  function AppendHistory(r: Enquiry, req: UpdateRequest, now: int): (r': Enquiry)
    ensures r'.history == r.history + (if RecordsHistory(r, req) then [TransitionEntry(r, req, now)] else [])
    ensures r' == r.(history := r'.history)
  {
    if RecordsHistory(r, req) then r.(history := r.history + [TransitionEntry(r, req, now)]) else r
  }

  /** Step 2: when a payment is given, append it and recompute the fee, the
      balance and the payment status from all payments; otherwise leave every
      payment field alone, even when a fee is supplied. */
  function AppendPayment(r: Enquiry, req: UpdateRequest, now: int): (r': Enquiry)
    requires SaveAccepted(r, req)
    ensures !PaymentGiven(req) ==> r' == r
    ensures PaymentGiven(req) ==>
      && |r'.payments| == |r.payments| + 1
      && r'.payments[..|r.payments|] == r.payments
      && r'.payments[|r.payments|].paidAmount == req.amount.value
      && PaymentModeLabel(r'.payments[|r.payments|].mode) == req.paymentMode.value
      && r'.payments[|r.payments|].paidAt == now
      && r'.courseFee == EffectiveFee(r, req)
      && TotalPaid(r'.payments) == TotalPaid(r.payments) + req.amount.value
    ensures PaymentGiven(req) ==> PaymentsConsistent(r')
    ensures r'.history == r.history && r'.status == r.status && r'.attender == r.attender
  {
    if PaymentGiven(req) then
      var p := Payment(req.amount.value, ParsePaymentMode(req.paymentMode.value).value, now);
      var ps := r.payments + [p];
      assert ps[..|ps| - 1] == r.payments;
      var fee := EffectiveFee(r, req).value;
      var total := TotalPaid(ps);
      r.(payments := ps, courseFee := Some(fee),
         balance := Some(BalanceFor(fee, total)), paymentStatus := PaymentStatusFor(fee, total))
    else
      r
  }

  /** Step 3: overwrite the status and the attender with the given values. */
  function ApplyOverrides(r: Enquiry, req: UpdateRequest): (r': Enquiry)
    requires Given(req.status) ==> ParseStatus(req.status.value).Some?
    ensures Given(req.status) ==> StatusLabel(r'.status) == req.status.value
    ensures !Given(req.status) ==> r'.status == r.status
    ensures Given(req.attender) ==> r'.attender == Some(req.attender.value)
    ensures !Given(req.attender) ==> r'.attender == r.attender
    ensures r' == r.(status := r'.status, attender := r'.attender)
  {
    r.(status := if Given(req.status) then ParseStatus(req.status.value).value else r.status,
       attender := if Given(req.attender) then Some(req.attender.value) else r.attender)
  }

  /** The save refreshes `updated_at` when the document was modified. */
  function Touch(before: Enquiry, after: Enquiry, now: int): Enquiry {
    if after == before then after else after.(updatedAt := now)
  }

  /** The update of one fetched enquiry at time `now`. */
  function ApplyUpdate(r: Enquiry, req: UpdateRequest, now: int): (res: Result<Enquiry, UpdateError>)
    ensures FollowUpRejected(req) ==> res == Err(ValidationError)
    ensures res == Err(SaveRejected) <==> !FollowUpRejected(req) && !SaveAccepted(r, req)
    ensures res.Ok? <==> !FollowUpRejected(req) && SaveAccepted(r, req)
  {
    if FollowUpRejected(req) then Err(ValidationError)
    else if !SaveAccepted(r, req) then Err(SaveRejected)
    else
      var r1 := AppendHistory(r, req, now);
      assert SaveAccepted(r1, req);
      var r2 := AppendPayment(r1, req, now);
      var r3 := ApplyOverrides(r2, req);
      Ok(Touch(r, r3, now))
  }

  /** The request handler over the whole collection: an unknown id is
      reported before anything is validated, and the collection changes only
      when the update succeeds, and then only at `id`. */
  function UpdateStudent(store: Store, id: Id, req: UpdateRequest, now: int): (out: (Store, Result<Enquiry, UpdateError>))
    ensures id !in store ==> out == (store, Err(NotFound))
    ensures out.1.Err? ==> out.0 == store
    ensures id in store ==> out.1 == ApplyUpdate(store[id], req, now)
    ensures out.1.Ok? ==> out.0 == store[id := out.1.value] && out.0.Keys == store.Keys
  {
    if id !in store then (store, Err(NotFound))
    else
      match ApplyUpdate(store[id], req, now)
      case Err(e) => (store, Err(e))
      case Ok(r') => (store[id := r'], Ok(r'))
  }

  /** History bookkeeping: a successful update appends exactly one entry when
      it is logged and none otherwise, never alters earlier entries, and the
      appended entry records the status and attender the enquiry had BEFORE
      the update, stamped `now`, with the reminder not yet sent. */
  lemma UpdateLogsPreviousState(r: Enquiry, req: UpdateRequest, now: int)
    requires ApplyUpdate(r, req, now).Ok?
    ensures var r' := ApplyUpdate(r, req, now).value;
      && |r.history| <= |r'.history| <= |r.history| + 1
      && r'.history[..|r.history|] == r.history
      && (|r'.history| == |r.history| + 1 <==> RecordsHistory(r, req))
    ensures var r' := ApplyUpdate(r, req, now).value;
      RecordsHistory(r, req) ==>
        var e := r'.history[|r.history|];
        && e.status == r.status && e.attender == r.attender
        && e.updatedAt == now && !e.reminderSent
        && e.note == StoredNote(req.note)
        && e.followUpDate == FollowUpInstant(req.followUpDate)
  {
    assert SaveAccepted(r, req);
    var r1 := AppendHistory(r, req, now);
    var r2 := AppendPayment(r1, req, now);
    var r3 := ApplyOverrides(r2, req);
    assert r3.history == r1.history;
    assert ApplyUpdate(r, req, now).value.history == r1.history;
  }

  /** Payment bookkeeping: a successful update appends a payment exactly when
      the amount and the mode are both given. Then the fee is the supplied one
      (or the stored one), the balance is what the fee leaves after all
      payments (never negative), and the payment status is `Fully Paid` iff
      the payments cover the fee and `Partially Paid` iff something but not
      all is paid. Otherwise no payment field changes, even when a fee is
      supplied. */
  lemma UpdateRecordsPayment(r: Enquiry, req: UpdateRequest, now: int)
    requires ApplyUpdate(r, req, now).Ok?
    ensures var r' := ApplyUpdate(r, req, now).value;
      && (|r'.payments| == |r.payments| + 1 <==> PaymentGiven(req))
      && (!PaymentGiven(req) ==>
            && r'.payments == r.payments && r'.courseFee == r.courseFee
            && r'.balance == r.balance && r'.paymentStatus == r.paymentStatus)
    ensures var r' := ApplyUpdate(r, req, now).value;
      PaymentGiven(req) ==>
        && r'.payments[..|r.payments|] == r.payments
        && r'.payments[|r.payments|].paidAmount == req.amount.value
        && PaymentModeLabel(r'.payments[|r.payments|].mode) == req.paymentMode.value
        && r'.payments[|r.payments|].paidAt == now
        && r'.courseFee == EffectiveFee(r, req)
        && var fee := r'.courseFee.value;
           var total := TotalPaid(r'.payments);
           && total == TotalPaid(r.payments) + req.amount.value
           && r'.balance == Some(if fee > total then fee - total else 0)
           && (r'.paymentStatus == FullyPaid <==> total >= fee)
           && (r'.paymentStatus == PartiallyPaid <==> 0 < total < fee)
  {
    assert SaveAccepted(r, req);
    var r1 := AppendHistory(r, req, now);
    var r2 := AppendPayment(r1, req, now);
    var r3 := ApplyOverrides(r2, req);
    assert r1.payments == r.payments && r1.courseFee == r.courseFee;
    assert r1.balance == r.balance && r1.paymentStatus == r.paymentStatus;
    assert EffectiveFee(r1, req) == EffectiveFee(r, req);
    assert r3.payments == r2.payments && r3.courseFee == r2.courseFee;
    assert r3.balance == r2.balance && r3.paymentStatus == r2.paymentStatus;
  }

  /** Status and attender are overwritten only when given, and then hold the
      given values; the fields the update never touches keep their values,
      and `updated_at` moves to `now` exactly when the document changed. */
  lemma UpdateOverwritesOnlyGiven(r: Enquiry, req: UpdateRequest, now: int)
    requires ApplyUpdate(r, req, now).Ok?
    ensures var r' := ApplyUpdate(r, req, now).value;
      && (Given(req.status) ==> StatusLabel(r'.status) == req.status.value)
      && (!Given(req.status) ==> r'.status == r.status)
      && (Given(req.attender) ==> r'.attender == Some(req.attender.value))
      && (!Given(req.attender) ==> r'.attender == r.attender)
    ensures var r' := ApplyUpdate(r, req, now).value;
      && r'.name == r.name && r'.phone == r.phone && r'.course == r.course
      && r'.areYou == r.areYou && r'.workingIn == r.workingIn
      && r'.learningMode == r.learningMode && r'.source == r.source
      && r'.createdAt == r.createdAt
      && (r' != r ==> r'.updatedAt == now)
      && (r'.updatedAt != now ==> r' == r)
  {
    assert SaveAccepted(r, req);
    var r1 := AppendHistory(r, req, now);
    var r2 := AppendPayment(r1, req, now);
    var r3 := ApplyOverrides(r2, req);
    assert r3.status == r2.status || Given(req.status);
    assert r2.status == r.status && r2.attender == r.attender;
  }

  /** A request that supplies nothing leaves the enquiry exactly as it was:
      no history entry, no payment, not even a new `updated_at`. */
  lemma EmptyUpdateChangesNothing(r: Enquiry, now: int)
    ensures ApplyUpdate(r, EmptyRequest, now) == Ok(r)
  {
    assert !RecordsHistory(r, EmptyRequest) && !PaymentGiven(EmptyRequest);
    var r1 := AppendHistory(r, EmptyRequest, now);
    assert r1 == r;
    assert ApplyOverrides(AppendPayment(r1, EmptyRequest, now), EmptyRequest) == r;
  }

  /** Every successful update keeps the derived payment fields in agreement
      with the payments. */
  lemma UpdatePreservesPaymentConsistency(r: Enquiry, req: UpdateRequest, now: int)
    requires PaymentsConsistent(r)
    requires ApplyUpdate(r, req, now).Ok?
    ensures PaymentsConsistent(ApplyUpdate(r, req, now).value)
  {
    assert SaveAccepted(r, req);
    var r1 := AppendHistory(r, req, now);
    var r2 := AppendPayment(r1, req, now);
    var r3 := ApplyOverrides(r2, req);
    assert PaymentsConsistent(r1);
    assert PaymentsConsistent(r2);
    assert r3.payments == r2.payments && r3.courseFee == r2.courseFee;
    assert r3.balance == r2.balance && r3.paymentStatus == r2.paymentStatus;
    var r' := ApplyUpdate(r, req, now).value;
    assert r'.payments == r3.payments && r'.courseFee == r3.courseFee;
    assert r'.balance == r3.balance && r'.paymentStatus == r3.paymentStatus;
  }

  /** A payment of the whole fee on an enquiry without payments settles it:
      one payment, nothing left to pay, fully paid. */
  lemma FullPaymentSettles(r: Enquiry, now: int)
    requires r.courseFee == Some(5000) && r.payments == []
    ensures var req := EmptyRequest.(amount := Some(5000), paymentMode := Some("Cash"));
      && ApplyUpdate(r, req, now).Ok?
      && |ApplyUpdate(r, req, now).value.payments| == 1
      && ApplyUpdate(r, req, now).value.balance == Some(0)
      && ApplyUpdate(r, req, now).value.paymentStatus == FullyPaid
  {
    var req := EmptyRequest.(amount := Some(5000), paymentMode := Some("Cash"));
    assert ParsePaymentMode("Cash") == Some(Cash);
    assert SaveAccepted(r, req);
    UpdateRecordsPayment(r, req, now);
    assert TotalPaid([]) == 0;
  }

  /** The update as the repository runs it: the enquiry schema does not
      declare `course_fee`, so a fetched document never carries a fee and the
      fee the handler assigns is not stored. A payment without a supplied fee
      therefore meets no fee, its balance is `NaN`, and the save is refused. */
  function ApplyUpdateAsWritten(r: Enquiry, req: UpdateRequest, now: int): (res: Result<Enquiry, UpdateError>)
    ensures !FollowUpRejected(req) && PaymentGiven(req) && !GivenNumber(req.courseFee) ==>
      res == Err(SaveRejected)
    ensures res.Ok? ==> res.value.courseFee == None
  {
    match ApplyUpdate(r.(courseFee := None), req, now)
    case Ok(r') => Ok(r'.(courseFee := None))
    case Err(e) => Err(e)
  }

  /** An enquiry created with a fee of 5000 receives a payment of 2000 in
      cash without the fee being repeated: as written the save is refused,
      while with the fee stored the balance is 3000 and the enquiry is
      partially paid. */
  lemma UndeclaredCourseFeeRefusesPayment(r: Enquiry, now: int)
    requires r.courseFee == Some(5000) && r.payments == []
    ensures var req := EmptyRequest.(amount := Some(2000), paymentMode := Some("Cash"));
      && ApplyUpdateAsWritten(r, req, now) == Err(SaveRejected)
      && ApplyUpdate(r, req, now).Ok?
      && ApplyUpdate(r, req, now).value.balance == Some(3000)
      && ApplyUpdate(r, req, now).value.paymentStatus == PartiallyPaid
  {
    var req := EmptyRequest.(amount := Some(2000), paymentMode := Some("Cash"));
    assert ParsePaymentMode("Cash") == Some(Cash);
    assert SaveAccepted(r, req);
    UpdateRecordsPayment(r, req, now);
    assert TotalPaid([]) == 0;
  }
}
