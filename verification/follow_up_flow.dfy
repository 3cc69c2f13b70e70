/** How the update request and the reminder job meet. The history entry an
    update appends records the status from BEFORE the update, and the job as
    written reminds only entries whose recorded status is `Follow up`. So the
    update that moves an enquiry into `Follow up` is never reminded, while a
    follow-up date set on an enquiry that is already in `Follow up` is. The
    corrected job, which recognises a follow-up by its date, reminds both. */
module FollowUpFlow {
  import opened Wrappers
  import Text
  import opened EnquiryModel
  import opened StudentUpdate
  import opened ReminderCron

  /** A follow-up request with a note and a date that parses. */
  function FollowUpRequest(statusText: string, note: string, d: int): UpdateRequest {
    EmptyRequest.(status := Some(statusText), note := Some(note), followUpDate := Some(ValidDate(d)))
  }

  /** A follow-up request with a non-blank note succeeds, leaves the enquiry
      in `Follow up` with its attender, and logs one entry holding the
      previous status and attender and the requested date, not yet reminded. */
  lemma {:induction false} FollowUpIsLogged(r: Enquiry, statusText: string, note: string, d: int, now: int)
    requires statusText == StatusLabel(FollowUp)
    requires Text.Trim(note) != ""
    ensures var res := ApplyUpdate(r, FollowUpRequest(statusText, note, d), now);
      && res.Ok?
      && res.value.status == FollowUp
      && res.value.attender == r.attender
      && |res.value.history| == |r.history| + 1
      && var e := res.value.history[|r.history|];
         && e.status == r.status && e.attender == r.attender
         && e.followUpDate == Some(d) && !e.reminderSent
  {
    var req := FollowUpRequest(statusText, note, d);
    assert ParseStatus(statusText) == Some(FollowUp);
    assert SaveAccepted(r, req);
    assert RecordsHistory(r, req);
    UpdateLogsPreviousState(r, req, now);
    UpdateOverwritesOnlyGiven(r, req, now);
  }

  /** As written: moving an enquiry into `Follow up` succeeds and logs one
      entry, but that entry carries the previous status, so no tick at any
      time and with any user directory ever reminds it. */
  lemma {:induction false} FreshFollowUpIsNeverReminded(r: Enquiry, statusText: string, note: string, d: int,
                                                        now: int, tick: int, dir: Directory)
    requires statusText == StatusLabel(FollowUp)
    requires r.status != FollowUp
    requires Text.Trim(note) != ""
    ensures var res := ApplyUpdate(r, FollowUpRequest(statusText, note, d), now);
      && res.Ok?
      && |res.value.history| == |r.history| + 1
      && res.value.status == FollowUp
      && res.value.history[|r.history|].followUpDate == Some(d)
      && !Notifies(res.value.history[|r.history|], res.value, TickWindow(tick), dir, ByRecordedStatus)
  {
    FollowUpIsLogged(r, statusText, note, d, now);
  }

  /** A follow-up request is reminded by the tick whose window covers its
      date, addressed to the enquiry's attender, and its entry is marked as
      reminded: always by the corrected job, and by the job as written when
      the enquiry was already in `Follow up`. */
  lemma {:induction false} FollowUpIsReminded(r: Enquiry, statusText: string, note: string, d: int,
                                              now: int, tick: int, dir: Directory, sel: Selection)
    requires statusText == StatusLabel(FollowUp)
    requires sel == ByFollowUpDate || r.status == FollowUp
    requires Text.Trim(note) != ""
    requires InWindow(d, TickWindow(tick))
    requires dir(r.attender).Some?
    ensures var res := ApplyUpdate(r, FollowUpRequest(statusText, note, d), now);
      && res.Ok?
      && var out := TickRecord(res.value, tick, dir, sel);
         && out.saved
         && out.record.history[|r.history|].reminderSent
         && exists m :: m in out.mails && m.to == dir(r.attender).value && m.followUpAt == d
  {
    FollowUpIsLogged(r, statusText, note, d, now);
    var r' := ApplyUpdate(r, FollowUpRequest(statusText, note, d), now).value;
    var w := TickWindow(tick);
    var e := r'.history[|r.history|];
    assert RecipientName(e, r') == r.attender;
    assert Notifies(e, r', w, dir, sel);
    RemindersCoverNotified(r'.history, r', w, dir, sel);
    var m := MailFor(e, r', dir);
    assert m in TickRecord(r', tick, dir, sel).mails;
  }
}
