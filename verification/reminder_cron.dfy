/** One tick of the follow-up reminder job. At time `now` the tick looks
    ahead to the one-minute window `[now + 10 min, now + 11 min)`, finds the
    history entries that are follow-ups, not yet reminded and due inside the
    window, mails the staff member responsible for each, marks each mailed
    entry as reminded, and saves an enquiry only when it marked something.

    The user directory and the mailer are outside the model: the directory is
    a lookup from a staff name to that user's e-mail address, and every mail
    handed to the mailer is taken as delivered. */
module ReminderCron {
  import opened Wrappers
  import opened EnquiryModel

  /** How far ahead a tick looks, and how wide its window is, in ms. */
  const LeadMs: int := 10 * 60 * 1000
  const SliceMs: int := 60 * 1000

  /** The half-open interval `[lower, upper)` of instants a tick covers. */
  datatype Window = Window(lower: int, upper: int)

  function TickWindow(now: int): (w: Window)
    ensures w.lower == now + 600000
    ensures w.upper == now + 660000
  {
    var lower := now + LeadMs;
    Window(lower, lower + SliceMs)
  }

  predicate InWindow(t: int, w: Window) {
    w.lower <= t < w.upper
  }

  /** How a tick recognises a follow-up entry. `ByRecordedStatus` is the job
      as written: the status the entry recorded must be `Follow up`. Since an
      entry records the status from BEFORE its update, this misses the entry
      logged when an enquiry first moves into `Follow up` (see
      `FollowUpFlow`). `ByFollowUpDate` is the corrected job: an entry is a
      follow-up when it carries a follow-up date, which the update handler
      demands exactly when `Follow up` is requested. */
  datatype Selection = ByRecordedStatus | ByFollowUpDate

  /** The selection shared by the database query and the loop over the
      history: a follow-up entry, not yet reminded, due inside the window. */
  predicate Due(e: HistoryEntry, w: Window, sel: Selection) {
    && (sel == ByRecordedStatus ==> e.status == FollowUp)
    && !e.reminderSent
    && e.followUpDate.Some?
    && InWindow(e.followUpDate.value, w)
  }

  /** The query's condition on an enquiry: some history entry is due. */
  predicate HasDue(r: Enquiry, w: Window, sel: Selection) {
    exists i :: 0 <= i < |r.history| && Due(r.history[i], w, sel)
  }

  /** The user directory: the e-mail address of the user with a given name,
      if there is one. */
  type Directory = Option<string> -> Option<string>

  /** The staff member to remind: the entry's attender when it names one,
      otherwise the enquiry's current attender. */
  function RecipientName(e: HistoryEntry, r: Enquiry): (n: Option<string>)
    ensures e.attender.Some? && e.attender.value != "" ==> n == e.attender
    ensures e.attender.None? || e.attender.value == "" ==> n == r.attender
  {
    if e.attender.Some? && e.attender.value != "" then e.attender else r.attender
  }

  /** The entry is due and its recipient is a known user, so it is mailed. */
  predicate Notifies(e: HistoryEntry, r: Enquiry, w: Window, dir: Directory, sel: Selection) {
    Due(e, w, sel) && dir(RecipientName(e, r)).Some?
  }

  /** A reminder: to whom, about which enquiry, for which follow-up. */
  datatype Mail = Mail(
    to: string,
    recipientName: Option<string>,
    studentName: string,
    phone: string,
    course: string,
    followUpAt: int,
    note: Option<string>)

  function MailFor(e: HistoryEntry, r: Enquiry, dir: Directory): (m: Mail)
    requires e.followUpDate.Some? && dir(RecipientName(e, r)).Some?
    ensures m.to == dir(RecipientName(e, r)).value
    ensures m.followUpAt == e.followUpDate.value && m.note == e.note
    ensures m.studentName == r.name && m.phone == r.phone && m.course == r.course
  {
    Mail(dir(RecipientName(e, r)).value, RecipientName(e, r), r.name, r.phone, r.course,
         e.followUpDate.value, e.note)
  }

  function Mark(e: HistoryEntry): HistoryEntry {
    e.(reminderSent := true)
  }

  /** How many entries of `hist` a tick mails. */
  function NotifyCount(hist: seq<HistoryEntry>, r: Enquiry, w: Window, dir: Directory, sel: Selection): (n: nat)
    ensures n <= |hist|
    ensures n > 0 <==> exists i :: 0 <= i < |hist| && Notifies(hist[i], r, w, dir, sel)
  {
    if |hist| == 0 then 0
    else
      var rest := NotifyCount(hist[1..], r, w, dir, sel);
      assert forall i :: 1 <= i < |hist| ==> hist[i] == hist[1..][i - 1];
      (if Notifies(hist[0], r, w, dir, sel) then 1 else 0) + rest
  }

  /** The history after the loop: each mailed entry marked as reminded,
      every other entry as it was. */
  function MarkNotified(hist: seq<HistoryEntry>, r: Enquiry, w: Window, dir: Directory, sel: Selection): (h: seq<HistoryEntry>)
    ensures |h| == |hist|
    ensures forall i :: 0 <= i < |hist| ==>
      h[i] == (if Notifies(hist[i], r, w, dir, sel) then Mark(hist[i]) else hist[i])
  {
    seq(|hist|, i requires 0 <= i < |hist| =>
      if Notifies(hist[i], r, w, dir, sel) then Mark(hist[i]) else hist[i])
  }

  /** The mails the loop sends, in history order: one per mailed entry. */
  function Reminders(hist: seq<HistoryEntry>, r: Enquiry, w: Window, dir: Directory, sel: Selection): (ms: seq<Mail>)
    ensures |ms| == NotifyCount(hist, r, w, dir, sel)
  {
    if |hist| == 0 then []
    else if Notifies(hist[0], r, w, dir, sel) then [MailFor(hist[0], r, dir)] + Reminders(hist[1..], r, w, dir, sel)
    else Reminders(hist[1..], r, w, dir, sel)
  }

  /** Every entry the loop mails gets its reminder among the mails sent. */
  lemma {:induction false} RemindersCoverNotified(hist: seq<HistoryEntry>, r: Enquiry, w: Window, dir: Directory, sel: Selection)
    ensures forall i :: 0 <= i < |hist| && Notifies(hist[i], r, w, dir, sel) ==>
      MailFor(hist[i], r, dir) in Reminders(hist, r, w, dir, sel)
  {
    if |hist| > 0 {
      RemindersCoverNotified(hist[1..], r, w, dir, sel);
      assert forall i :: 1 <= i < |hist| ==> hist[i] == hist[1..][i - 1];
    }
  }

  /** Every mail sent is the reminder for an entry the loop selected. */
  lemma {:induction false} RemindersOnlyNotified(hist: seq<HistoryEntry>, r: Enquiry, w: Window, dir: Directory, sel: Selection)
    ensures forall m :: m in Reminders(hist, r, w, dir, sel) ==>
      exists i :: 0 <= i < |hist| && Notifies(hist[i], r, w, dir, sel) && m == MailFor(hist[i], r, dir)
  {
    if |hist| > 0 {
      RemindersOnlyNotified(hist[1..], r, w, dir, sel);
      var rest := Reminders(hist[1..], r, w, dir, sel);
      var head := if Notifies(hist[0], r, w, dir, sel) then [MailFor(hist[0], r, dir)] else [];
      assert Reminders(hist, r, w, dir, sel) == head + rest;
      forall m | m in head + rest
        ensures exists i :: 0 <= i < |hist| && Notifies(hist[i], r, w, dir, sel) && m == MailFor(hist[i], r, dir)
      {
        if m in head {
          assert Notifies(hist[0], r, w, dir, sel) && m == MailFor(hist[0], r, dir);
        } else {
          var j :| 0 <= j < |hist[1..]| && Notifies(hist[1..][j], r, w, dir, sel) && m == MailFor(hist[1..][j], r, dir);
          assert hist[1..][j] == hist[j + 1];
        }
      }
    }
  }

  /** What one tick does to one enquiry. */
  datatype TickOutcome = TickOutcome(record: Enquiry, mails: seq<Mail>, saved: bool)

  /** One tick at `now` over one enquiry: the history with every mailed entry
      marked, the mails sent, and whether the enquiry was saved (which also
      refreshes its `updated_at`). */
  function TickRecord(r: Enquiry, now: int, dir: Directory, sel: Selection): (out: TickOutcome)
    ensures |out.record.history| == |r.history|
    ensures forall i :: 0 <= i < |r.history| ==>
      out.record.history[i] ==
        (if Notifies(r.history[i], r, TickWindow(now), dir, sel) then Mark(r.history[i]) else r.history[i])
    ensures out.saved <==> exists i :: 0 <= i < |r.history| && Notifies(r.history[i], r, TickWindow(now), dir, sel)
    ensures out.saved <==> |out.mails| > 0
    ensures out.mails == Reminders(r.history, r, TickWindow(now), dir, sel)
    ensures |out.mails| == NotifyCount(r.history, r, TickWindow(now), dir, sel)
    ensures !out.saved ==> out.record == r
    ensures out.saved ==> out.record == r.(history := out.record.history, updatedAt := now)
  {
    var w := TickWindow(now);
    var history := MarkNotified(r.history, r, w, dir, sel);
    var mails := Reminders(r.history, r, w, dir, sel);
    var updated := |mails| > 0;
    if updated then
      TickOutcome(r.(history := history, updatedAt := now), mails, true)
    else
      assert history == r.history;
      TickOutcome(r, mails, false)
  }

  /** One tick over the whole collection: the query picks the enquiries with
      a due entry, and each picked enquiry is scanned. */
  function TickStore(store: Store, now: int, dir: Directory, sel: Selection): (s': Store)
    ensures s'.Keys == store.Keys
    ensures forall id :: id in store && !HasDue(store[id], TickWindow(now), sel) ==> s'[id] == store[id]
  {
    map id | id in store ::
      if HasDue(store[id], TickWindow(now), sel) then TickRecord(store[id], now, dir, sel).record else store[id]
  }

  /** The window is one minute wide and starts ten minutes after the tick. */
  lemma WindowIsOneMinute(now: int)
    ensures TickWindow(now).upper - TickWindow(now).lower == SliceMs
    ensures TickWindow(now).lower - now == LeadMs
  {
  }

  /** A follow-up ten and a half minutes after `now` is picked by the tick at
      `now` and not by the tick two minutes later. */
  lemma FollowUpPickedOnlyInItsWindow(e: HistoryEntry, now: int, sel: Selection)
    requires e.status == FollowUp && !e.reminderSent
    requires e.followUpDate == Some(now + 630000)
    ensures Due(e, TickWindow(now), sel)
    ensures !Due(e, TickWindow(now + 120000), sel)
  {
  }

  /** With ticks exactly one minute apart, every instant falls in the window
      of exactly one tick: a follow-up is considered by one tick only, and is
      missed entirely if that tick does not run. */
  lemma {:induction false} WindowsTile(start: int, t: int)
    ensures exists k :: InWindow(t, TickWindow(start + k * SliceMs))
    ensures forall k, j ::
      (InWindow(t, TickWindow(start + k * SliceMs)) && InWindow(t, TickWindow(start + j * SliceMs))) ==> k == j
  {
    var k := (t - start - LeadMs) / SliceMs;
    assert InWindow(t, TickWindow(start + k * SliceMs));
    forall k1, j1 | InWindow(t, TickWindow(start + k1 * SliceMs))
                 && InWindow(t, TickWindow(start + j1 * SliceMs))
      ensures k1 == j1
    {
      assert k1 == k;
      assert j1 == k;
    }
  }

  /** The entries a tick leaves unmarked are not mailed by a second tick at
      the same time either: their recipient is still unknown. So the second
      tick sends nothing, marks nothing and saves nothing. */
  lemma TickIdempotent(r: Enquiry, now: int, dir: Directory, sel: Selection)
    ensures var once := TickRecord(r, now, dir, sel);
      TickRecord(once.record, now, dir, sel) == TickOutcome(once.record, [], false)
  {
    var w := TickWindow(now);
    var once := TickRecord(r, now, dir, sel);
    var r1 := once.record;
    assert r1.attender == r.attender;
    forall i | 0 <= i < |r1.history|
      ensures !Notifies(r1.history[i], r1, w, dir, sel)
    {
      if !Notifies(r.history[i], r, w, dir, sel) {
        assert r1.history[i] == r.history[i];
        assert RecipientName(r1.history[i], r1) == RecipientName(r.history[i], r);
      }
    }
    assert NotifyCount(r1.history, r1, w, dir, sel) == 0;
  }

  /** An entry mailed by one tick is never mailed again, by any later tick
      whatever its time, its selection and the directory it then consults. */
  lemma RemindedOnce(r: Enquiry, now: int, dir: Directory, sel: Selection,
                     later: int, dir': Directory, sel': Selection, i: int)
    requires 0 <= i < |r.history| && Notifies(r.history[i], r, TickWindow(now), dir, sel)
    ensures var r1 := TickRecord(r, now, dir, sel).record;
      && r1.history[i].reminderSent
      && !Notifies(r1.history[i], r1, TickWindow(later), dir', sel')
  {
  }

  /** The query that picks enquiries and the condition inside the loop agree:
      scanning an enquiry the query does not pick changes nothing, so the
      tick over the collection is the same as scanning every enquiry. */
  lemma QueryAgreesWithLoop(store: Store, now: int, dir: Directory, sel: Selection)
    ensures forall id :: id in store ==> TickStore(store, now, dir, sel)[id] == TickRecord(store[id], now, dir, sel).record
  {
    forall id | id in store
      ensures TickStore(store, now, dir, sel)[id] == TickRecord(store[id], now, dir, sel).record
    {
      var r := store[id];
      if !HasDue(r, TickWindow(now), sel) {
        assert forall i :: 0 <= i < |r.history| ==> !Notifies(r.history[i], r, TickWindow(now), dir, sel);
      }
    }
  }
}
