/** The money side of a booking: creating the booking when an order is
    placed, crediting the requester's wallet when the payment is verified,
    and settling when the call ends (the full fee moves from requester to
    counsellor, unused minutes come back as extra minutes, the booking
    closes). Amounts are integer hundredths. */
module Ledger {
  import opened Wrappers
  import opened Models
  import opened Queries

  // ------------------------------------------------------------- booking

  /** A counsellor's `CounsellorPayment` settings. */
  datatype PaymentSettings = PaymentSettings(sessionFee: Cents, sessionDuration: int)

  /** The column defaults: 50.00 for 20 minutes. */
  const DefaultPaymentSettings: PaymentSettings := PaymentSettings(5000, 20)

  /** The booking the order view records once the gateway order exists:
      pending, for the counsellor's fee and duration, not yet paid. */
  function CreateBooking(st: Store, requester: UserId, counsellor: Profile, orderId: string,
                         settings: PaymentSettings, now: Time): (s: Step<BookingId>)
    ensures s.result == Success(st.nextBookingId) && s.published == []
    ensures |s.store.bookings| == |st.bookings| + 1
    ensures s.store == st.(bookings := st.bookings + [s.store.bookings[|st.bookings|]],
                           nextBookingId := st.nextBookingId + 1)
    ensures var b := s.store.bookings[|st.bookings|];
      && b.id == st.nextBookingId && b.user == requester && b.counsellor == counsellor.id
      && b.counsellorUser == counsellor.user && b.orderId == orderId
      && b.amount == settings.sessionFee && b.sessionDuration == settings.sessionDuration
      && b.status == DefaultBookingStatus && b.paymentId.None? && b.scheduledAt.None?
  {
    var b := Booking(st.nextBookingId, requester, counsellor.id, counsellor.user, orderId,
                     settings.sessionFee, Pending, None, now, None, settings.sessionDuration);
    Step(st.(bookings := st.bookings + [b], nextBookingId := st.nextBookingId + 1), Success(b.id), [])
  }

  /** Every stored booking id lies below the next id to be handed out. */
  predicate IdsBelowNext(st: Store) {
    forall b :: b in st.bookings ==> b.id < st.nextBookingId
  }

  /** Under that invariant the new booking's id is fresh: no earlier
      booking has it, looking the id up finds the new row, and the invariant
      holds afterwards. */
  lemma CreateBookingFresh(st: Store, requester: UserId, counsellor: Profile, orderId: string,
                           settings: PaymentSettings, now: Time)
    requires IdsBelowNext(st)
    ensures var s := CreateBooking(st, requester, counsellor, orderId, settings, now);
      && (forall b :: b in st.bookings ==> b.id != s.result.value)
      && BookingById(s.store, s.result.value) == Some(s.store.bookings[|st.bookings|])
      && IdsBelowNext(s.store)
  {
    var s := CreateBooking(st, requester, counsellor, orderId, settings, now);
    var nb := s.store.bookings[|st.bookings|];
    assert s.store.bookings == st.bookings + [nb];
    var r := BookingById(s.store, s.result.value);
    assert nb in s.store.bookings;
    assert r.Some?;
  }

  // -------------------------------------------------------- ledger sums

  /** What one entry does to `u`'s currency balance: deposits add,
      transfers and withdrawals subtract, minute credits carry no money. */
  function MoneyEffect(e: LedgerEntry, u: UserId): int {
    if e.wallet != u then 0
    else match e.kind
      case Deposit => e.amount
      case Transfer => -e.amount
      case Withdrawal => -e.amount
      case ExtraMinutesCredit => 0
  }

  /** What one entry does to `u`'s extra minutes, in hundredths of a minute
      as the amount column stores it. */
  function MinuteEffect(e: LedgerEntry, u: UserId): int {
    if e.wallet == u && e.kind == ExtraMinutesCredit then e.amount else 0
  }

  function NetMoney(l: seq<LedgerEntry>, u: UserId): int {
    if |l| == 0 then 0 else NetMoney(l[..|l| - 1], u) + MoneyEffect(l[|l| - 1], u)
  }

  function NetMinutes(l: seq<LedgerEntry>, u: UserId): int {
    if |l| == 0 then 0 else NetMinutes(l[..|l| - 1], u) + MinuteEffect(l[|l| - 1], u)
  }

  lemma NetAppend(l: seq<LedgerEntry>, e: LedgerEntry, u: UserId)
    ensures NetMoney(l + [e], u) == NetMoney(l, u) + MoneyEffect(e, u)
    ensures NetMinutes(l + [e], u) == NetMinutes(l, u) + MinuteEffect(e, u)
  {
    assert (l + [e])[..|l|] == l;
  }

  /** The audit invariant: every wallet equals the signed sum of its ledger
      entries (money and minutes), and no entry names a missing wallet. */
  ghost predicate LedgerConsistent(st: Store) {
    && (forall u :: u in st.wallets ==>
          st.wallets[u].balance == NetMoney(st.ledger, u) &&
          st.wallets[u].extraMinutes * 100 == NetMinutes(st.ledger, u))
    && (forall i :: 0 <= i < |st.ledger| ==> st.ledger[i].wallet in st.wallets)
  }

  lemma {:induction false} NetOfAbsentWallet(l: seq<LedgerEntry>, u: UserId)
    requires forall i :: 0 <= i < |l| ==> l[i].wallet != u
    ensures NetMoney(l, u) == 0 && NetMinutes(l, u) == 0
  {
    if |l| > 0 {
      NetOfAbsentWallet(l[..|l| - 1], u);
    }
  }

  // ---------------------------------------------------- payment credit

  datatype PaymentArgs = PaymentArgs(paymentId: Option<string>, orderId: Option<string>, signature: Option<string>)

  predicate Present(a: Option<string>) {
    a.Some? && a.value != ""
  }

  datatype PaymentReply = PaymentReply(bookingId: BookingId, walletBalance: Cents)

  /** Payment verification. `signatureValid` is the outcome of the HMAC
      comparison of the gateway signature. The booking is looked up by order
      id (none: 404; more than one: the lookup raises and the view answers
      500); it is then marked credited, its requester's wallet is created at
      zero if missing and credited with the booking amount, and one DEPOSIT
      entry is written. The booking's previous status is not checked. */
  function VerifyPayment(st: Store, args: PaymentArgs, signatureValid: bool, now: Time): (s: Step<PaymentReply>)
    ensures s.published == []
    ensures s.result.Failure? ==> s.store == st
  {
    if !(Present(args.paymentId) && Present(args.orderId) && Present(args.signature)) then
      Step(st, Failure(ApiError(BadRequest, "Missing required payment parameters")), [])
    else if !signatureValid then
      Step(st, Failure(ApiError(BadRequest, "Invalid payment signature")), [])
    else
      var order := args.orderId.value;
      var matches := CountWhere(st.bookings, (b: Booking) => b.orderId == order);
      if matches == 0 then Step(st, Failure(ApiError(NotFound, "Booking not found")), [])
      else if matches > 1 then Step(st, Failure(ApiError(ServerError, "Payment verification failed")), [])
      else
        var bi := FirstWhere(st.bookings, (b: Booking) => b.orderId == order).value;
        var b := st.bookings[bi];
        var w := if b.user in st.wallets then st.wallets[b.user] else NewWallet;
        var w' := w.(balance := w.balance + b.amount);
        var st' := st.(
          bookings := st.bookings[bi := b.(paymentId := args.paymentId, status := WalletCredited)],
          wallets := st.wallets[b.user := w'],
          ledger := st.ledger + [LedgerEntry(b.user, b.amount, Deposit, Some(b.id), now)]);
        Step(st', Success(PaymentReply(b.id, w'.balance)), [])
  }

  /** Crediting a wallet (created at zero if missing) and recording the
      matching DEPOSIT keeps every wallet equal to its ledger. */
  lemma DepositKeepsLedger(st: Store, st': Store, e: LedgerEntry)
    requires LedgerConsistent(st)
    requires e.kind == Deposit
    requires st'.ledger == st.ledger + [e]
    requires var w := if e.wallet in st.wallets then st.wallets[e.wallet] else NewWallet;
      st'.wallets == st.wallets[e.wallet := w.(balance := w.balance + e.amount)]
    ensures LedgerConsistent(st')
  {
    if e.wallet !in st.wallets {
      NetOfAbsentWallet(st.ledger, e.wallet);
    }
    forall u | u in st'.wallets
      ensures st'.wallets[u].balance == NetMoney(st'.ledger, u)
      ensures st'.wallets[u].extraMinutes * 100 == NetMinutes(st'.ledger, u)
    {
      NetAppend(st.ledger, e, u);
    }
  }

  /** A verified payment for the one booking with that order id: the booking
      becomes `wallet_credited`, the requester's wallet (zero if it was
      missing) grows by exactly the booking amount, every other wallet is
      unchanged, and exactly one DEPOSIT of that amount is appended. */
  lemma VerifyPaymentSpec(st: Store, args: PaymentArgs, signatureValid: bool, now: Time)
    ensures var s := VerifyPayment(st, args, signatureValid, now);
      s.result.Success? <==>
        Present(args.paymentId) && Present(args.orderId) && Present(args.signature) && signatureValid &&
        CountWhere(st.bookings, (b: Booking) => b.orderId == args.orderId.value) == 1
    ensures var s := VerifyPayment(st, args, signatureValid, now);
      s.result.Success? ==>
        exists i :: 0 <= i < |st.bookings| &&
          var b := st.bookings[i];
          var before := if b.user in st.wallets then st.wallets[b.user].balance else 0;
          && b.orderId == args.orderId.value
          && (forall j :: 0 <= j < |st.bookings| && j != i ==> st.bookings[j].orderId != b.orderId)
          && s.store.bookings == st.bookings[i := b.(paymentId := args.paymentId, status := WalletCredited)]
          && s.store.wallets.Keys == st.wallets.Keys + {b.user}
          && s.store.wallets[b.user].balance == before + b.amount
          && (forall u :: u in st.wallets && u != b.user ==> s.store.wallets[u] == st.wallets[u])
          && s.store.ledger == st.ledger + [LedgerEntry(b.user, b.amount, Deposit, Some(b.id), now)]
          && s.store.calls == st.calls && s.store.profiles == st.profiles
          && s.result.value == PaymentReply(b.id, before + b.amount)
  {
    var s := VerifyPayment(st, args, signatureValid, now);
    if s.result.Success? {
      var order := args.orderId.value;
      var p := (b: Booking) => b.orderId == order;
      var i := FirstWhere(st.bookings, p).value;
      CountOneIsFirst(st.bookings, p, i);
    }
  }

  /** Verification keeps every wallet equal to its ledger. */
  lemma VerifyPaymentKeepsLedger(st: Store, args: PaymentArgs, signatureValid: bool, now: Time)
    requires LedgerConsistent(st)
    ensures LedgerConsistent(VerifyPayment(st, args, signatureValid, now).store)
  {
    var s := VerifyPayment(st, args, signatureValid, now);
    if s.result.Success? {
      var order := args.orderId.value;
      var bi := FirstWhere(st.bookings, (b: Booking) => b.orderId == order).value;
      var b := st.bookings[bi];
      DepositKeepsLedger(st, s.store, LedgerEntry(b.user, b.amount, Deposit, Some(b.id), now));
    }
  }

  /** Verification is not guarded by the booking's status: replaying the
      same verified payment credits the wallet a second time. */
  lemma VerifyPaymentReplayCreditsAgain(st: Store, args: PaymentArgs, now1: Time, now2: Time)
    requires VerifyPayment(st, args, true, now1).result.Success?
    ensures var s1 := VerifyPayment(st, args, true, now1);
      var s2 := VerifyPayment(s1.store, args, true, now2);
      && s2.result.Success?
      && s2.result.value.bookingId == s1.result.value.bookingId
      && |s2.store.ledger| == |st.ledger| + 2
  {
    var s1 := VerifyPayment(st, args, true, now1);
    var order := args.orderId.value;
    var p := (b: Booking) => b.orderId == order;
    var i := FirstWhere(st.bookings, p).value;
    CountOneIsFirst(st.bookings, p, i);
    SameOrderIdsCount(st.bookings, s1.store.bookings, order);
    var j := FirstWhere(s1.store.bookings, p).value;
    assert j == i;
  }

  /** Rewriting columns other than the order id keeps the order-id count. */
  lemma {:induction false} SameOrderIdsCount(a: seq<Booking>, b: seq<Booking>, order: string)
    requires |a| == |b|
    requires forall i :: 0 <= i < |a| ==> a[i].orderId == b[i].orderId
    ensures CountWhere(a, (x: Booking) => x.orderId == order) == CountWhere(b, (x: Booking) => x.orderId == order)
  {
    if |a| > 0 {
      SameOrderIdsCount(a[1..], b[1..], order);
    }
  }

  // ---------------------------------------------------------- settlement

  /** The `actual_duration` argument: absent, not a decimal, or a decimal
      number of minutes (possibly fractional, possibly negative). */
  datatype DurationArg = DurationMissing | DurationUnparseable | Minutes(value: real)

  function UnusedTime(sessionDuration: int, actual: real): (t: real)
    ensures t >= 0.0
  {
    if sessionDuration as real - actual > 0.0 then sessionDuration as real - actual else 0.0
  }

  /** Unused time credited back: the whole minutes of
      `max(0, session_duration - actual_duration)`, truncated. */
  function ExtraMinutes(sessionDuration: int, actual: real): (m: nat)
    ensures m as real <= UnusedTime(sessionDuration, actual) < m as real + 1.0
  {
    UnusedTime(sessionDuration, actual).Floor
  }

  /** The booking a settlement would act on, if any, is not one the
      counsellor booked with themself. */
  predicate RequestedNotSelf(st: Store, bookingArg: Option<int>) {
    bookingArg.Some? && BookingById(st, bookingArg.value).Some? ==>
      BookingById(st, bookingArg.value).value.user != BookingById(st, bookingArg.value).value.counsellorUser
  }

  datatype SettleReply = SettleReply(bookingId: BookingId, userBalance: Cents, counsellorBalance: Cents, extraMinutesCredited: nat)

  /** The wallets after the counsellor's `get_or_create`. */
  function WithCounsellorWallet(wallets: map<UserId, Wallet>, b: Booking): map<UserId, Wallet> {
    if b.counsellorUser in wallets then wallets else wallets[b.counsellorUser := NewWallet]
  }

  /** The ledger rows one settlement writes, in order. */
  function SettlementEntries(b: Booking, extra: nat, now: Time): (es: seq<LedgerEntry>)
    ensures 2 <= |es| <= 3 && (|es| == 3 <==> extra > 0)
    ensures forall e :: e in es ==> e.booking == Some(b.id) && e.createdAt == now
    ensures forall e :: e in es ==> e.wallet == b.user || e.wallet == b.counsellorUser
  {
    [LedgerEntry(b.user, b.amount, Transfer, Some(b.id), now),
     LedgerEntry(b.counsellorUser, b.amount, Deposit, Some(b.id), now)]
    + (if extra > 0 then [LedgerEntry(b.user, extra * 100, ExtraMinutesCredit, Some(b.id), now)] else [])
  }

  /** The first request of the booking (default ordering: newest
      `requested_at`) is marked COMPLETED and ended now, whatever its status. */
  function CompleteFirstCall(calls: seq<CallRequest>, id: BookingId, now: Time): (r: seq<CallRequest>)
    ensures |r| == |calls|
  {
    match LatestWhere(calls, (c: CallRequest) => c.booking == id, (c: CallRequest) => c.requestedAt)
    case None => calls
    case Some(ci) => calls[ci := calls[ci].(status := CallCompleted, endedAt := Some(now), updatedAt := now)]
  }

  /** The writes of a settlement that passed every guard: the fee moves
      from the requester's wallet to the counsellor's (created at zero if
      missing), unused minutes are credited, the ledger rows are appended,
      the booking completes and its first request is closed. The two wallets
      are separate objects saved in turn (requester, counsellor, then the
      requester again only when minutes are credited), so when both are the
      same row the last save wins. */
  function ApplySettlement(st: Store, bi: nat, extra: nat, now: Time): (st': Store)
    requires bi < |st.bookings|
    requires st.bookings[bi].user in st.wallets
    ensures st'.bookings == st.bookings[bi := st.bookings[bi].(status := Completed)]
    ensures st'.ledger == st.ledger + SettlementEntries(st.bookings[bi], extra, now)
    ensures st'.calls == CompleteFirstCall(st.calls, st.bookings[bi].id, now)
    ensures st'.wallets.Keys == st.wallets.Keys + {st.bookings[bi].counsellorUser}
    ensures st' == st.(bookings := st'.bookings, calls := st'.calls, wallets := st'.wallets, ledger := st'.ledger)
  {
    var b := st.bookings[bi];
    var wallets1 := WithCounsellorWallet(st.wallets, b);
    var uw := wallets1[b.user];
    var cw := wallets1[b.counsellorUser];
    var userRow := Wallet(uw.balance - b.amount, uw.extraMinutes + extra);
    var counsellorRow := cw.(balance := cw.balance + b.amount);
    st.(bookings := st.bookings[bi := b.(status := Completed)],
        calls := CompleteFirstCall(st.calls, b.id, now),
        wallets := if b.user == b.counsellorUser && extra > 0 then wallets1[b.user := userRow]
                   else wallets1[b.user := userRow][b.counsellorUser := counsellorRow],
        ledger := st.ledger + SettlementEntries(b, extra, now))
  }

  /** The balance the counsellor's wallet has before a settlement. */
  function CounsellorBalance(wallets: map<UserId, Wallet>, b: Booking): Cents {
    if b.counsellorUser in wallets then wallets[b.counsellorUser].balance else 0
  }

  /** Ending a call. Refused unless the booking is `wallet_credited` and the
      requester has a wallet; the counsellor's wallet is created if missing
      before the balance check, so that creation survives a refusal for
      insufficient funds. On success the whole fee moves, unused minutes are
      credited, the booking completes and its first request is marked
      COMPLETED. The call's own status is never consulted. */
  function Settle(st: Store, bookingArg: Option<int>, duration: DurationArg, now: Time): (s: Step<SettleReply>)
    ensures s.published == []
  {
    if Falsy(bookingArg) then
      Step(st, Failure(ApiError(BadRequest, "Booking ID is required")), [])
    else if duration.DurationMissing? then
      Step(st, Failure(ApiError(BadRequest, "Actual duration is required")), [])
    else if duration.DurationUnparseable? then
      Step(st, Failure(ApiError(BadRequest, "Invalid actual_duration format")), [])
    else
      var id := bookingArg.value;
      match FirstWhere(st.bookings, (b: Booking) => b.id == id)
      case None => Step(st, Failure(ApiError(NotFound, "Booking not found")), [])
      case Some(bi) =>
        var b := st.bookings[bi];
        if b.status != WalletCredited then
          Step(st, Failure(ApiError(BadRequest, "Invalid booking state")), [])
        else if b.user !in st.wallets then
          Step(st, Failure(ApiError(BadRequest, "Wallet not found")), [])
        else if st.wallets[b.user].balance < b.amount then
          Step(st.(wallets := WithCounsellorWallet(st.wallets, b)),
               Failure(ApiError(BadRequest, "Insufficient wallet balance to cover full session cost")), [])
        else
          var extra := ExtraMinutes(b.sessionDuration, duration.value);
          Step(ApplySettlement(st, bi, extra, now),
               Success(SettleReply(b.id, st.wallets[b.user].balance - b.amount,
                                   CounsellorBalance(st.wallets, b) + b.amount, extra)), [])
  }

  /** The settlement refusals, in the order the view checks them. */
  predicate SettleAdmissible(st: Store, bookingArg: Option<int>, duration: DurationArg) {
    && !Falsy(bookingArg) && duration.Minutes?
    && BookingById(st, bookingArg.value).Some?
    && (var b := BookingById(st, bookingArg.value).value;
        b.status == WalletCredited && b.user in st.wallets && st.wallets[b.user].balance >= b.amount)
  }

  /** Settlement succeeds exactly when every guard passes. */
  lemma SettleGuards(st: Store, bookingArg: Option<int>, duration: DurationArg, now: Time)
    ensures var s := Settle(st, bookingArg, duration, now);
      s.result.Success? <==> SettleAdmissible(st, bookingArg, duration)
  {
    if !Falsy(bookingArg) && duration.Minutes? {
      var id := bookingArg.value;
      var fb := FirstWhere(st.bookings, (b: Booking) => b.id == id);
      if fb.Some? {
        assert BookingById(st, id) == Some(st.bookings[fb.value]);
      } else {
        assert BookingById(st, id).None?;
      }
    }
  }

  /** A refused settlement changes no balance, booking, request or ledger
      row, and at most adds the counsellor's empty wallet. */
  lemma SettleRefusalFrame(st: Store, bookingArg: Option<int>, duration: DurationArg, now: Time)
    requires Settle(st, bookingArg, duration, now).result.Failure?
    ensures var s := Settle(st, bookingArg, duration, now);
      && s.store.bookings == st.bookings && s.store.calls == st.calls && s.store.ledger == st.ledger
      && s.store.profiles == st.profiles && s.store.users == st.users
      && st.wallets.Keys <= s.store.wallets.Keys
      && (forall u :: u in st.wallets ==> s.store.wallets[u] == st.wallets[u])
      && (forall u :: u in s.store.wallets && u !in st.wallets ==> s.store.wallets[u] == NewWallet)
      && |s.store.wallets.Keys - st.wallets.Keys| <= 1
  {
    if !Falsy(bookingArg) && duration.Minutes? {
      var id := bookingArg.value;
      var fb := FirstWhere(st.bookings, (b: Booking) => b.id == id);
      if fb.Some? {
        var b := st.bookings[fb.value];
        if b.status == WalletCredited && b.user in st.wallets {
          var w1 := WithCounsellorWallet(st.wallets, b);
          assert w1.Keys - st.wallets.Keys <= {b.counsellorUser};
        }
      }
    }
  }

  /** The wallet effect of an applied settlement: the requester loses the
      fee and gains the extra minutes, the counsellor gains the fee, so the
      two balances sum to what they did before; nobody else is touched. */
  lemma ApplySettlementWallets(st: Store, bi: nat, extra: nat, now: Time)
    requires bi < |st.bookings|
    requires st.bookings[bi].user in st.wallets
    requires st.bookings[bi].user != st.bookings[bi].counsellorUser
    ensures var b := st.bookings[bi];
      var w := ApplySettlement(st, bi, extra, now).wallets;
      var before := st.wallets[b.user];
      && w.Keys == st.wallets.Keys + {b.counsellorUser}
      && w[b.user] == Wallet(before.balance - b.amount, before.extraMinutes + extra)
      && w[b.counsellorUser].balance == CounsellorBalance(st.wallets, b) + b.amount
      && w[b.user].balance + w[b.counsellorUser].balance == before.balance + CounsellorBalance(st.wallets, b)
      && (forall u :: u in st.wallets && u != b.user && u != b.counsellorUser ==> w[u] == st.wallets[u])
  {
  }

  /** A successful settlement acted on the first booking with the
      requested id, which was `wallet_credited` with a requester balance
      covering the fee. That booking is now completed, the ledger gained
      exactly the settlement's rows, the booking's newest-requested request
      was closed, and no other table changed. Unless the counsellor booked
      themself, the reply reports the balances now stored: the requester's
      less the fee, with the credited minutes added, and the counsellor's
      plus the fee. */
  lemma SettleSucceeds(st: Store, bookingArg: Option<int>, duration: DurationArg, now: Time)
    requires Settle(st, bookingArg, duration, now).result.Success?
    ensures var s := Settle(st, bookingArg, duration, now);
      var r := s.result.value;
      exists i ::
        && 0 <= i < |st.bookings|
        && (forall j :: 0 <= j < i ==> st.bookings[j].id != st.bookings[i].id)
        && var b := st.bookings[i];
        && b.id == bookingArg.value && r.bookingId == b.id && b.status == WalletCredited
        && b.user in st.wallets && st.wallets[b.user].balance >= b.amount
        && r.extraMinutesCredited == ExtraMinutes(b.sessionDuration, duration.value)
        && s.store.bookings == st.bookings[i := b.(status := Completed)]
        && s.store.ledger == st.ledger + SettlementEntries(b, r.extraMinutesCredited, now)
        && s.store.calls == CompleteFirstCall(st.calls, b.id, now)
        && s.store.users == st.users && s.store.profiles == st.profiles
        && s.store.nextBookingId == st.nextBookingId && s.store.nextCallId == st.nextCallId
        && b.user in s.store.wallets && b.counsellorUser in s.store.wallets
        && r.userBalance + b.amount == st.wallets[b.user].balance
        && r.counsellorBalance == CounsellorBalance(st.wallets, b) + b.amount
        && (b.user != b.counsellorUser ==>
              && s.store.wallets[b.user] == Wallet(r.userBalance, st.wallets[b.user].extraMinutes + r.extraMinutesCredited)
              && s.store.wallets[b.counsellorUser].balance == r.counsellorBalance)
  {
    var s := Settle(st, bookingArg, duration, now);
    var id := bookingArg.value;
    var bi := FirstWhere(st.bookings, (b: Booking) => b.id == id).value;
    var b := st.bookings[bi];
    var extra := ExtraMinutes(b.sessionDuration, duration.value);
    assert s.store == ApplySettlement(st, bi, extra, now);
    assert s.store.calls == CompleteFirstCall(st.calls, b.id, now);
    if b.user != b.counsellorUser {
      ApplySettlementWallets(st, bi, extra, now);
    }
  }

  /** When the counsellor booked themself, the requester and counsellor
      wallets are one row loaded twice: the row keeps whichever object was
      saved last, so it either loses the fee and gains the minutes, or
      (with no minutes to credit) gains the fee. */
  lemma SelfSettlementLastSaveWins(st: Store, bookingArg: Option<int>, duration: DurationArg, now: Time)
    requires Settle(st, bookingArg, duration, now).result.Success?
    requires !RequestedNotSelf(st, bookingArg)
    ensures var s := Settle(st, bookingArg, duration, now);
      var r := s.result.value;
      var b := BookingById(st, bookingArg.value).value;
      s.store.wallets == st.wallets[b.user :=
        if r.extraMinutesCredited > 0 then Wallet(r.userBalance, st.wallets[b.user].extraMinutes + r.extraMinutesCredited)
        else Wallet(r.counsellorBalance, st.wallets[b.user].extraMinutes)]
  {
    var s := Settle(st, bookingArg, duration, now);
    var id := bookingArg.value;
    var bi := FirstWhere(st.bookings, (b: Booking) => b.id == id).value;
    var b := st.bookings[bi];
    assert BookingById(st, id) == Some(b);
    var extra := ExtraMinutes(b.sessionDuration, duration.value);
    assert s.store == ApplySettlement(st, bi, extra, now);
  }

  /** The ledger records both moves of a self-booked settlement, which
      cancel out, while the row moved by the fee: for a non-zero fee the
      wallet no longer equals its ledger. */
  lemma SelfSettlementBreaksLedger(st: Store, bookingArg: Option<int>, duration: DurationArg, now: Time)
    requires Settle(st, bookingArg, duration, now).result.Success?
    requires !RequestedNotSelf(st, bookingArg)
    requires LedgerConsistent(st)
    requires BookingById(st, bookingArg.value).value.amount != 0
    ensures !LedgerConsistent(Settle(st, bookingArg, duration, now).store)
  {
    var s := Settle(st, bookingArg, duration, now);
    var b := BookingById(st, bookingArg.value).value;
    SelfSettlementLastSaveWins(st, bookingArg, duration, now);
    SettleSucceeds(st, bookingArg, duration, now);
    SelfSettlementNet(st.ledger, b, s.result.value.extraMinutesCredited, now);
    assert s.store.wallets[b.user].balance != NetMoney(s.store.ledger, b.user);
  }

  /** A self-booked settlement's rows cancel out in the money sum. */
  lemma SelfSettlementNet(l: seq<LedgerEntry>, b: Booking, extra: nat, now: Time)
    requires b.user == b.counsellorUser
    ensures NetMoney(l + SettlementEntries(b, extra, now), b.user) == NetMoney(l, b.user)
  {
    var es := SettlementEntries(b, extra, now);
    var l1 := l + [es[0]];
    var l2 := l1 + [es[1]];
    NetAppend(l, es[0], b.user);
    NetAppend(l1, es[1], b.user);
    if extra > 0 {
      NetAppend(l2, es[2], b.user);
      assert l + es == l2 + [es[2]];
    } else {
      assert l + es == l2;
    }
  }

  /** On success the full fee leaves the requester and reaches the
      counsellor, so their combined balance is unchanged, every other wallet
      is untouched, and the booking is completed. */
  lemma SettleConservesMoney(st: Store, bookingArg: Option<int>, duration: DurationArg, now: Time)
    requires RequestedNotSelf(st, bookingArg)
    requires Settle(st, bookingArg, duration, now).result.Success?
    ensures var s := Settle(st, bookingArg, duration, now);
      exists b :: b in st.bookings && b.id == bookingArg.value
        && b.user in st.wallets && b.user in s.store.wallets && b.counsellorUser in s.store.wallets
        && s.store.wallets[b.user].balance == st.wallets[b.user].balance - b.amount
        && s.store.wallets[b.user].balance + s.store.wallets[b.counsellorUser].balance
           == st.wallets[b.user].balance + CounsellorBalance(st.wallets, b)
        && (forall u :: u in st.wallets && u != b.user && u != b.counsellorUser ==> s.store.wallets[u] == st.wallets[u])
        && b.(status := Completed) in s.store.bookings
  {
    var s := Settle(st, bookingArg, duration, now);
    var id := bookingArg.value;
    var bi := FirstWhere(st.bookings, (b: Booking) => b.id == id).value;
    var b := st.bookings[bi];
    var extra := ExtraMinutes(b.sessionDuration, duration.value);
    assert s.store == ApplySettlement(st, bi, extra, now);
    ApplySettlementWallets(st, bi, extra, now);
    assert s.store.bookings[bi] == b.(status := Completed);
  }

  /** What the settlement writes to the ledger, entry by entry. */
  lemma SettlementEntriesShape(b: Booking, extra: nat, now: Time)
    ensures var es := SettlementEntries(b, extra, now);
      && |es| == (if extra > 0 then 3 else 2)
      && es[0].kind == Transfer && es[0].wallet == b.user && es[0].amount == b.amount
      && es[1].kind == Deposit && es[1].wallet == b.counsellorUser && es[1].amount == b.amount
      && (extra > 0 ==> es[2].kind == ExtraMinutesCredit && es[2].wallet == b.user && es[2].amount == extra * 100)
      && forall e :: e in es ==> e.booking == Some(b.id)
  {
  }

  /** A settled booking cannot be settled again: the second attempt meets
      the status guard and changes nothing, so money moves exactly once. */
  lemma SettleExactlyOnce(st: Store, bookingArg: Option<int>, duration: DurationArg, duration2: DurationArg, now: Time, now2: Time)
    requires Settle(st, bookingArg, duration, now).result.Success?
    ensures var s1 := Settle(st, bookingArg, duration, now);
      var s2 := Settle(s1.store, bookingArg, duration2, now2);
      s2.result.Failure? && s2.store == s1.store
  {
    var s1 := Settle(st, bookingArg, duration, now);
    var id := bookingArg.value;
    var p := (b: Booking) => b.id == id;
    var bi := FirstWhere(st.bookings, p).value;
    assert s1.store.bookings[bi].status == Completed;
    forall j | 0 <= j < bi ensures !p(s1.store.bookings[j]) {
      assert s1.store.bookings[j] == st.bookings[j];
    }
    assert FirstWhere(s1.store.bookings, p) == Some(bi);
  }

  /** Appending a settlement's rows moves each account's ledger sums by
      exactly the wallet change the settlement makes. */
  lemma {:induction false} SettlementEntriesNet(l: seq<LedgerEntry>, b: Booking, extra: nat, now: Time, u: UserId)
    requires b.user != b.counsellorUser
    ensures var l' := l + SettlementEntries(b, extra, now);
      && NetMoney(l', u) == NetMoney(l, u) + (if u == b.user then -b.amount else if u == b.counsellorUser then b.amount else 0)
      && NetMinutes(l', u) == NetMinutes(l, u) + (if u == b.user then extra * 100 else 0)
  {
    var es := SettlementEntries(b, extra, now);
    var l1 := l + [es[0]];
    var l2 := l1 + [es[1]];
    NetAppend(l, es[0], u);
    NetAppend(l1, es[1], u);
    if extra > 0 {
      NetAppend(l2, es[2], u);
      assert l + es == l2 + [es[2]];
    } else {
      assert l + es == l2;
    }
  }

  /** The writes of a settlement keep every wallet equal to its ledger. */
  lemma ApplySettlementKeepsLedger(st: Store, bi: nat, extra: nat, now: Time)
    requires bi < |st.bookings|
    requires st.bookings[bi].user in st.wallets
    requires st.bookings[bi].user != st.bookings[bi].counsellorUser
    requires LedgerConsistent(st)
    ensures LedgerConsistent(ApplySettlement(st, bi, extra, now))
  {
    var b := st.bookings[bi];
    var st' := ApplySettlement(st, bi, extra, now);
    if b.counsellorUser !in st.wallets {
      NetOfAbsentWallet(st.ledger, b.counsellorUser);
    }
    ApplySettlementWallets(st, bi, extra, now);
    forall u | u in st'.wallets
      ensures st'.wallets[u].balance == NetMoney(st'.ledger, u)
      ensures st'.wallets[u].extraMinutes * 100 == NetMinutes(st'.ledger, u)
    {
      SettlementEntriesNet(st.ledger, b, extra, now, u);
    }
    assert forall i :: 0 <= i < |SettlementEntries(b, extra, now)| ==>
      SettlementEntries(b, extra, now)[i].wallet in st'.wallets;
  }

  /** Adding empty wallets for accounts without ledger rows, and changing
      nothing else the invariant reads, keeps the invariant. */
  lemma NewWalletsKeepLedger(st: Store, st': Store)
    requires LedgerConsistent(st)
    requires st'.ledger == st.ledger
    requires st.wallets.Keys <= st'.wallets.Keys
    requires forall u :: u in st.wallets ==> st'.wallets[u] == st.wallets[u]
    requires forall u :: u in st'.wallets && u !in st.wallets ==> st'.wallets[u] == NewWallet
    ensures LedgerConsistent(st')
  {
    forall u | u in st'.wallets && u !in st.wallets
      ensures NetMoney(st.ledger, u) == 0 && NetMinutes(st.ledger, u) == 0
    {
      NetOfAbsentWallet(st.ledger, u);
    }
  }

  /** Settlement keeps every wallet equal to its ledger, whether it succeeds
      or is refused. */
  lemma SettleKeepsLedger(st: Store, bookingArg: Option<int>, duration: DurationArg, now: Time)
    requires RequestedNotSelf(st, bookingArg)
    requires LedgerConsistent(st)
    ensures LedgerConsistent(Settle(st, bookingArg, duration, now).store)
  {
    var s := Settle(st, bookingArg, duration, now);
    if s.result.Failure? {
      SettleRefusalFrame(st, bookingArg, duration, now);
      NewWalletsKeepLedger(st, s.store);
    } else {
      var id := bookingArg.value;
      var bi := FirstWhere(st.bookings, (b: Booking) => b.id == id).value;
      var b := st.bookings[bi];
      var extra := ExtraMinutes(b.sessionDuration, duration.value);
      assert s.store == ApplySettlement(st, bi, extra, now);
      ApplySettlementKeepsLedger(st, bi, extra, now);
    }
  }

  /** Closing the booking's call: when the booking has requests, exactly
      its newest one (by `requested_at`) becomes COMPLETED, ended now;
      otherwise nothing changes. */
  lemma CompleteFirstCallSpec(calls: seq<CallRequest>, id: BookingId, now: Time)
    ensures var r := CompleteFirstCall(calls, id, now);
      (forall c :: c in calls ==> c.booking != id) ==> r == calls
    ensures var r := CompleteFirstCall(calls, id, now);
      (exists c :: c in calls && c.booking == id) ==>
        exists i :: 0 <= i < |calls| && calls[i].booking == id
          && r == calls[i := calls[i].(status := CallCompleted, endedAt := Some(now), updatedAt := now)]
          && forall j :: 0 <= j < |calls| && calls[j].booking == id ==> calls[j].requestedAt <= calls[i].requestedAt
  {
    var lw := LatestWhere(calls, (c: CallRequest) => c.booking == id, (c: CallRequest) => c.requestedAt);
    if exists c :: c in calls && c.booking == id {
      var c :| c in calls && c.booking == id;
      var k :| 0 <= k < |calls| && calls[k] == c;
      assert lw.Some?;
    }
  }

  /** Fee 500.00, 20 booked minutes, 12 used, requester holding exactly the
      fee: the requester ends at 0.00 with 8 extra minutes, the counsellor
      at 500.00, the booking completed. */
  lemma SettlementScenario()
    ensures var b := Booking(1, 10, 5, 20, "order_1", 50000, WalletCredited, Some("pay_1"), 0, None, 20);
      var st := Store([], [], [b], [], map[10 := Wallet(50000, 0)], [], 2, 1);
      var s := Settle(st, Some(1), Minutes(12.0), 100);
      && s.result == Success(SettleReply(1, 0, 50000, 8))
      && s.store.wallets == map[10 := Wallet(0, 8), 20 := Wallet(50000, 0)]
      && s.store.bookings == [b.(status := Completed)]
      && |s.store.ledger| == 3
  {
    var b := Booking(1, 10, 5, 20, "order_1", 50000, WalletCredited, Some("pay_1"), 0, None, 20);
    assert UnusedTime(20, 12.0) == 8.0;
    assert ExtraMinutes(20, 12.0) == 8;
    var st := Store([], [], [b], [], map[10 := Wallet(50000, 0)], [], 2, 1);
    assert FirstWhere(st.bookings, (x: Booking) => x.id == 1) == Some(0);
  }

  /** Fee 500.00 against a balance of 100.00: refused, no balance moves, no
      ledger row is written; only the counsellor's empty wallet appears. */
  lemma InsufficientFundsScenario()
    ensures var b := Booking(1, 10, 5, 20, "order_1", 50000, WalletCredited, Some("pay_1"), 0, None, 20);
      var st := Store([], [], [b], [], map[10 := Wallet(10000, 0)], [], 2, 1);
      var s := Settle(st, Some(1), Minutes(12.0), 100);
      && s.result.Failure? && s.result.error.status == BadRequest
      && s.store == st.(wallets := map[10 := Wallet(10000, 0), 20 := NewWallet])
  {
    var b := Booking(1, 10, 5, 20, "order_1", 50000, WalletCredited, Some("pay_1"), 0, None, 20);
    var st := Store([], [], [b], [], map[10 := Wallet(10000, 0)], [], 2, 1);
    assert FirstWhere(st.bookings, (x: Booking) => x.id == 1) == Some(0);
  }

  /** Settlement reads nothing from the call requests: whatever their
      statuses, the same settlements succeed with the same replies. */
  lemma SettleIgnoresCalls(st: Store, calls: seq<CallRequest>, bookingArg: Option<int>, duration: DurationArg, now: Time)
    ensures Settle(st.(calls := calls), bookingArg, duration, now).result == Settle(st, bookingArg, duration, now).result
  {
  }

  // ------------------------------------------------------- extra minutes

  /** For a non-negative actual duration the credit never exceeds the
      booked duration, and credit plus used time covers the booking up to
      the truncated fraction. */
  lemma ExtraMinutesBounded(sessionDuration: nat, actual: real)
    requires actual >= 0.0
    ensures ExtraMinutes(sessionDuration, actual) <= sessionDuration
    ensures actual <= sessionDuration as real ==>
      (ExtraMinutes(sessionDuration, actual) as real) + actual > sessionDuration as real - 1.0
  {
  }

  /** The duration is not checked for sign: a negative actual duration
      credits more minutes than were booked. */
  lemma NegativeDurationOvercredits()
    ensures ExtraMinutes(20, -10.0) == 30
  {
    assert UnusedTime(20, -10.0) == 30.0;
  }

  /** A 20-minute booking used for 12 minutes returns 8 minutes; 12.5
      minutes of use returns 7 (truncation); overrunning returns none. */
  lemma ExtraMinutesExamples()
    ensures ExtraMinutes(20, 12.0) == 8
    ensures ExtraMinutes(20, 12.5) == 7
    ensures ExtraMinutes(20, 25.0) == 0
  {
    assert UnusedTime(20, 12.0) == 8.0;
    assert UnusedTime(20, 12.5) == 7.5;
  }
}
