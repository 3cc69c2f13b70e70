/** The student enquiry document: its enumerations, embedded history and
    payment entries, and the defaults the schema supplies. Every enumeration
    has the label the database stores and a parser that plays the part of the
    schema's enum check on a label supplied by a client. */
module EnquiryModel {
  import opened Wrappers
  import Text

  /** Pipeline status; a new enquiry starts as `Pending`. */
  datatype Status = Pending | FollowUp | Loss | Success

  const DefaultStatus: Status := Pending

  function StatusLabel(s: Status): string {
    match s
    case Pending => "Pending"
    case FollowUp => "Follow up"
    case Loss => "Loss"
    case Success => "Success"
  }

  /** The schema's enum check on a client-supplied status: accepts exactly
      the four labels. */
  function ParseStatus(t: string): (r: Option<Status>)
    ensures r.Some? ==> StatusLabel(r.value) == t
    ensures forall s :: StatusLabel(s) == t ==> r == Some(s)
  {
    if t == "Pending" then Some(Pending)
    else if t == "Follow up" then Some(FollowUp)
    else if t == "Loss" then Some(Loss)
    else if t == "Success" then Some(Success)
    else None
  }

  datatype PaymentMode = Cash | UPI | Card | BankTransfer

  function PaymentModeLabel(m: PaymentMode): string {
    match m
    case Cash => "Cash"
    case UPI => "UPI"
    case Card => "Card"
    case BankTransfer => "Bank Transfer"
  }

  /** The schema's enum check on a client-supplied payment mode. */
  function ParsePaymentMode(t: string): (r: Option<PaymentMode>)
    ensures r.Some? ==> PaymentModeLabel(r.value) == t
    ensures forall m :: PaymentModeLabel(m) == t ==> r == Some(m)
  {
    if t == "Cash" then Some(Cash)
    else if t == "UPI" then Some(UPI)
    else if t == "Card" then Some(Card)
    else if t == "Bank Transfer" then Some(BankTransfer)
    else None
  }

  /** Derived payment state; a new enquiry starts as `Unpaid`. */
  datatype PaymentStatus = Unpaid | PartiallyPaid | FullyPaid

  const DefaultPaymentStatus: PaymentStatus := Unpaid

  datatype AreYou = Fresher | Experienced

  datatype WorkingIn = IT | NonIT

  function WorkingInLabel(w: WorkingIn): string {
    match w
    case IT => "IT"
    case NonIT => "Non IT"
  }

  /** The schema's enum check on `currently_working_in`. */
  function ParseWorkingIn(t: string): (r: Option<WorkingIn>)
    ensures r.Some? ==> WorkingInLabel(r.value) == t
    ensures forall w :: WorkingInLabel(w) == t ==> r == Some(w)
  {
    if t == "IT" then Some(IT)
    else if t == "Non IT" then Some(NonIT)
    else None
  }

  datatype LearningMode = Online | Offline

  function LearningModeLabel(m: LearningMode): string {
    match m
    case Online => "Online"
    case Offline => "Offline"
  }

  /** The schema's enum check on `learning_mode`. */
  function ParseLearningMode(t: string): (r: Option<LearningMode>)
    ensures r.Some? ==> LearningModeLabel(r.value) == t
    ensures forall m :: LearningModeLabel(m) == t ==> r == Some(m)
  {
    if t == "Online" then Some(Online)
    else if t == "Offline" then Some(Offline)
    else None
  }

  /** Where the enquiry came from; the schema defaults it to `Instagram`. */
  datatype Source = Meta | Instagram | Website | Referral | Direct

  const DefaultSource: Source := Instagram

  /** A date value as a client sends it: one that parses to an instant (in
      milliseconds) or one that does not. */
  datatype DateInput = ValidDate(ms: int) | InvalidDate

  /** One transition of the pipeline. `status` and `attender` hold the values
      the enquiry had BEFORE the transition; `reminderSent` is the only field
      ever changed after the entry is appended. */
  datatype HistoryEntry = HistoryEntry(
    updatedAt: int,
    status: Status,
    attender: Option<string>,
    note: Option<string>,
    followUpDate: Option<int>,
    reminderSent: bool)

  /** An entry as the schema creates it at time `now`: `updated_at` is `now`
      and `reminder_sent` is false. */
  function NewHistoryEntry(now: int, status: Status, attender: Option<string>,
                           note: Option<string>, followUpDate: Option<int>): (e: HistoryEntry)
    ensures e.updatedAt == now && !e.reminderSent
    ensures e.status == status && e.attender == attender
    ensures e.note == note && e.followUpDate == followUpDate
  {
    HistoryEntry(now, status, attender, note, followUpDate, false)
  }

  /** One payment; `paid_amount` and `payment_mode` are required. */
  datatype Payment = Payment(paidAmount: int, mode: PaymentMode, paidAt: int)

  /** The enquiry document. `courseFee` and `balance` are absent until a
      payment is recorded; `history` and `payments` are append-only. */
  datatype Enquiry = Enquiry(
    name: string,
    phone: string,
    course: string,
    areYou: AreYou,
    workingIn: Option<WorkingIn>,
    learningMode: LearningMode,
    source: Source,
    status: Status,
    attender: Option<string>,
    history: seq<HistoryEntry>,
    payments: seq<Payment>,
    courseFee: Option<int>,
    balance: Option<int>,
    paymentStatus: PaymentStatus,
    createdAt: int,
    updatedAt: int)

  /** Document identity assigned by the store. */
  type Id = nat

  /** The collection of enquiries, by identity. */
  type Store = map<Id, Enquiry>

  /** A required string field after the schema's `trim` setter: present,
      non-empty, and without surrounding white space. */
  predicate RequiredTrimmed(s: string) {
    s != "" && Text.Trim(s) == s
  }

  /** The schema's own constraints that the enumerations do not already
      express: `name`, `phone` and `course` are required and trimmed. */
  predicate ValidEnquiry(e: Enquiry) {
    RequiredTrimmed(e.name) && RequiredTrimmed(e.phone) && RequiredTrimmed(e.course)
  }
}
