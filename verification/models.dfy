/** The records the call and settlement views read and write: users and
    profiles, bookings, call requests, wallets and their ledger, and the
    channel-layer broadcasts the views publish. */
module Models {
  import opened Wrappers
  import opened Text

  /** Primary keys are auto-incremented, hence non-negative. */
  type UserId = nat
  type ProfileId = nat
  type BookingId = nat
  /** Seconds since the epoch; `int(now.timestamp())` in the views. */
  type Time = int

  /** A two-decimal `DecimalField` amount held as an integer number of
      hundredths (paise). */
  type Cents = int

  /** `max_digits=10, decimal_places=2`: at most ten digits in all, so the
      magnitude in hundredths stays below 10^10. */
  const MoneyDigitsLimit: int := 10_000_000_000

  predicate FitsMoneyField(c: Cents) {
    -MoneyDigitsLimit < c < MoneyDigitsLimit
  }

  // ---------------------------------------------------------------- users

  datatype Role = Normal | Counsellor | Admin

  /** What `set_password` / `set_unusable_password` leave behind. */
  datatype PasswordState = Usable(raw: string) | Unusable

  /** An account. `fullName` is `get_full_name()`, already stripped;
      `username` is nullable (the custom user model drops the column). */
  datatype User = User(
    id: UserId,
    phone: string,
    fullName: string,
    username: Option<string>,
    password: PasswordState,
    isStaff: bool,
    isSuperuser: bool,
    isAdmin: bool)

  /** A `UserProfile`: one per user, carrying the role and the columns the
      profile serializer checks for uniqueness. */
  datatype Profile = Profile(
    id: ProfileId,
    user: UserId,
    role: Role,
    isActive: bool,
    phone: string,
    name: Option<string>,
    email: Option<string>,
    age: Option<int>)

  // ------------------------------------------------------------- bookings

  datatype BookingStatus = Pending | WalletCredited | Completed | Failed

  /** The `status` column's stored values. */
  function BookingStatusName(s: BookingStatus): string {
    match s
    case Pending => "pending"
    case WalletCredited => "wallet_credited"
    case Completed => "completed"
    case Failed => "failed"
  }

  const DefaultBookingStatus: BookingStatus := Pending

  /** A purchased session. `counsellorUser` is `booking.counsellor.user`,
      the account behind the counsellor profile, kept beside the profile id
      because settlement credits that account's wallet. `sessionDuration`
      (minutes) is written at creation and read at settlement. */
  datatype Booking = Booking(
    id: BookingId,
    user: UserId,
    counsellor: ProfileId,
    counsellorUser: UserId,
    orderId: string,
    amount: Cents,
    status: BookingStatus,
    paymentId: Option<string>,
    createdAt: Time,
    scheduledAt: Option<Time>,
    sessionDuration: int)

  predicate WellFormedBooking(b: Booking) {
    FitsMoneyField(b.amount)
  }

  // -------------------------------------------------------- call requests

  /** Every value the views write into `CallRequest.status`. Only the first
      four are declared choices of the model field; `Waiting` is matched by
      the accept view and `CallCompleted` is written by settlement. */
  datatype CallStatus = CallPending | Accepted | Rejected | Ended | Waiting | CallCompleted

  predicate IsDeclaredCallStatus(s: CallStatus) {
    s.CallPending? || s.Accepted? || s.Rejected? || s.Ended?
  }

  /** The string stored in the `status` column. */
  function CallStatusName(s: CallStatus): string {
    match s
    case CallPending => "PENDING"
    case Accepted => "ACCEPTED"
    case Rejected => "REJECTED"
    case Ended => "ENDED"
    case Waiting => "WAITING"
    case CallCompleted => "COMPLETED"
  }

  const DefaultCallStatus: CallStatus := CallPending

  datatype CallRequest = CallRequest(
    id: nat,
    booking: BookingId,
    user: UserId,
    counsellor: ProfileId,
    status: CallStatus,
    scheduledAt: Option<Time>,
    requestedAt: Time,
    createdAt: Time,
    updatedAt: Time,
    acceptedAt: Option<Time>,
    endedAt: Option<Time>)

  // --------------------------------------------------------------- wallets

  /** One wallet per user (a one-to-one column), so wallets are keyed by
      user id. */
  datatype Wallet = Wallet(balance: Cents, extraMinutes: int)

  /** A wallet as `get_or_create` makes it: balance 0.00, no extra minutes. */
  const NewWallet: Wallet := Wallet(0, 0)

  datatype EntryKind = Deposit | Transfer | Withdrawal | ExtraMinutesCredit

  function EntryKindName(k: EntryKind): string {
    match k
    case Deposit => "DEPOSIT"
    case Transfer => "TRANSFER"
    case Withdrawal => "WITHDRAWAL"
    case ExtraMinutesCredit => "EXTRA_MINUTES_CREDIT"
  }

  /** A `WalletTransaction` row. Amounts are unsigned as the views write
      them; the kind says which way money moved. An extra-minutes entry
      carries the minute count in the amount column (so `m` minutes is
      stored as `m * 100` hundredths). */
  datatype LedgerEntry = LedgerEntry(
    wallet: UserId,
    amount: Cents,
    kind: EntryKind,
    booking: Option<BookingId>,
    createdAt: Time)

  // ---------------------------------------------------------------- events

  /** The `message` payloads the views hand to `group_send`. */
  datatype Message =
    | CallInitiated(bookingId: string, userId: UserId, userName: Option<string>, timestamp: Time)
    | CallAccepted(bookingId: string, counsellorName: string, counsellorId: UserId, timestamp: Time)
    | CallRejected(bookingId: string, timestamp: Time)

  /** One `group_send(group, {'type': 'call_notification', 'message': m})`. */
  datatype Event = GroupSend(group: string, message: Message)

  /** `f"call_{booking_id}"`, the group every call view publishes to. */
  function CallGroup(id: BookingId): string {
    "call_" + NatToString(id)
  }

  // ----------------------------------------------------------------- store

  /** The database tables the core touches, rows in insertion order. */
  datatype Store = Store(
    users: seq<User>,
    profiles: seq<Profile>,
    bookings: seq<Booking>,
    calls: seq<CallRequest>,
    wallets: map<UserId, Wallet>,
    ledger: seq<LedgerEntry>,
    nextBookingId: BookingId,
    nextCallId: nat)

  /** The call requests attached to one booking. */
  function RequestsFor(calls: seq<CallRequest>, id: BookingId): (r: seq<CallRequest>)
    ensures |r| <= |calls|
    ensures forall i :: 0 <= i < |r| ==> r[i].booking == id && r[i] in calls
    ensures multiset(r) <= multiset(calls)
    ensures forall c: CallRequest :: c.booking == id ==> multiset(r)[c] == multiset(calls)[c]
    ensures forall c :: c in calls && c.booking == id ==> c in r
  {
    if |calls| == 0 then []
    else
      assert calls == [calls[0]] + calls[1..];
      if calls[0].booking == id then [calls[0]] + RequestsFor(calls[1..], id)
      else RequestsFor(calls[1..], id)
  }

  // ------------------------------------------------------------- responses

  const BadRequest: int := 400
  const Forbidden: int := 403
  const NotFound: int := 404
  const ServerError: int := 500

  datatype ApiError = ApiError(status: int, message: string)

  /** One view invocation: the store afterwards, the response, and the
      broadcasts it published, in order. */
  datatype Step<+R> = Step(store: Store, result: Result<R, ApiError>, published: seq<Event>)

  /** A request argument Python treats as missing: absent or `0`. */
  predicate Falsy(arg: Option<int>) {
    arg.None? || arg.value == 0
  }
}
