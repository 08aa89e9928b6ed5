/** The call-request views: initiate (requester side), accept, reject,
    call status, active booking and the counsellor availability toggle.
    Each view is one atomic step over the store; its `group_send`
    broadcasts are returned as the published events. `channelUp` says
    whether the channel layer accepted the broadcast. */
module Calls {
  import opened Wrappers
  import opened Text
  import opened Models
  import opened Queries

  /** The name shown for a party: the full name if non-empty, else the
      username if it is set, non-empty and (when `literalNoneIsMissing`) not
      the text "None", else `prefix` followed by the user id. */
  function PartyName(u: User, prefix: string, literalNoneIsMissing: bool): (name: string)
    ensures name != ""
  {
    var username :=
      if u.username.Some? && literalNoneIsMissing && u.username.value == "None" then None
      else u.username;
    if u.fullName != "" then u.fullName
    else if username.Some? && username.value != "" then username.value
    else prefix + NatToString(u.id)
  }

  /** A party name is never empty; it is the full name exactly when the full
      name is set; the call-status view never shows a username "None". */
  lemma PartyNameProperties(u: User, prefix: string, literalNoneIsMissing: bool)
    ensures PartyName(u, prefix, literalNoneIsMissing) != ""
    ensures PartyName(u, prefix, literalNoneIsMissing) == u.fullName <==> u.fullName != ""
    ensures literalNoneIsMissing && u.fullName != "None" ==> PartyName(u, prefix, literalNoneIsMissing) != "None"
    ensures u.fullName == "" && (u.username.None? || u.username == Some("")) ==>
      PartyName(u, prefix, literalNoneIsMissing) == prefix + NatToString(u.id)
  {
    var fallback := prefix + NatToString(u.id);
    var digits := NatToString(u.id);
    assert fallback[|fallback| - 1] == digits[|digits| - 1];
    assert IsDigit(fallback[|fallback| - 1]);
    assert "None"[3] == 'e' && !IsDigit('e');
  }

  // ------------------------------------------------------------ initiate

  datatype InitiateReply =
    | AlreadyInitiated(existing: CallRequest)
    | Initiated(created: CallRequest)

  /** The call request a new initiation creates for `b`. */
  function NewCallRequest(st: Store, b: Booking, requester: UserId, now: Time): CallRequest {
    CallRequest(st.nextCallId, b.id, requester, b.counsellor, CallPending,
                Some(b.scheduledAt.GetOr(now)), now, now, now, None, None)
  }

  /** `get_full_name() or username` as the initiate broadcast carries it. */
  function InitiatorName(u: User): Option<string> {
    if u.fullName != "" then Some(u.fullName) else u.username
  }

  /** The requester starts a call for one of their bookings. The booking's
      status is not consulted; any existing request for the booking, in any
      status, is returned unchanged. */
  function Initiate(st: Store, actor: User, bookingArg: Option<int>, now: Time, channelUp: bool): (s: Step<InitiateReply>)
    ensures s.result.Failure? ==> s.store == st && s.published == []
    ensures s.result.Success? <==>
      !Falsy(bookingArg) && exists b :: b in st.bookings && b.id == bookingArg.value && b.user == actor.id
    ensures s.result.Success? && s.result.value.AlreadyInitiated? ==>
      s.store == st && s.published == [] &&
      s.result.value.existing in st.calls && s.result.value.existing.booking == bookingArg.value
    ensures s.result.Success? && s.result.value.Initiated? ==>
      (forall c :: c in st.calls ==> c.booking != bookingArg.value) &&
      s.store == st.(calls := st.calls + [s.result.value.created], nextCallId := st.nextCallId + 1)
  {
    if Falsy(bookingArg) then
      Step(st, Failure(ApiError(BadRequest, "Booking ID is required")), [])
    else
      var id := bookingArg.value;
      match FirstWhere(st.bookings, (b: Booking) => b.id == id && b.user == actor.id)
      case None => Step(st, Failure(ApiError(NotFound, "Booking not found")), [])
      case Some(bi) =>
        var b := st.bookings[bi];
        match LatestWhere(st.calls, (c: CallRequest) => c.booking == b.id, (c: CallRequest) => c.requestedAt)
        case Some(ci) => Step(st, Success(AlreadyInitiated(st.calls[ci])), [])
        case None =>
          var call := NewCallRequest(st, b, actor.id, now);
          var st' := st.(calls := st.calls + [call], nextCallId := st.nextCallId + 1);
          var ev := GroupSend(CallGroup(b.id), CallInitiated(NatToString(b.id), actor.id, InitiatorName(actor), now));
          Step(st', Success(Initiated(call)), if channelUp then [ev] else [])
  }

  /** A request created by initiation is PENDING, belongs to the booking's
      parties, was requested now and is scheduled at the booking's time or
      now; it has not been accepted or ended. A broadcast, when delivered,
      goes to the booking's call group. */
  lemma InitiateCreatesPending(st: Store, actor: User, bookingArg: Option<int>, now: Time, channelUp: bool)
    requires Initiate(st, actor, bookingArg, now, channelUp).result.Success?
    requires Initiate(st, actor, bookingArg, now, channelUp).result.value.Initiated?
    ensures var s := Initiate(st, actor, bookingArg, now, channelUp);
      var c := s.result.value.created;
      && c.status == CallPending && c.requestedAt == now && c.createdAt == now
      && c.user == actor.id && c.acceptedAt.None? && c.endedAt.None?
      && c.booking == bookingArg.value
      && (exists b :: b in st.bookings && b.id == c.booking && b.user == actor.id
            && c.counsellor == b.counsellor
            && c.scheduledAt == Some(if b.scheduledAt.Some? then b.scheduledAt.value else now))
      && |s.published| == (if channelUp then 1 else 0)
      && (channelUp ==> s.published[0].group == CallGroup(c.booking) && s.published[0].message.CallInitiated?)
  {
    var id := bookingArg.value;
    var bi := FirstWhere(st.bookings, (b: Booking) => b.id == id && b.user == actor.id).value;
    assert st.bookings[bi] in st.bookings;
  }

  /** Initiation is safe to repeat: once a request exists for the booking,
      a second initiation returns it and changes nothing, so this path never
      makes a second request for one booking. */
  lemma InitiateTwiceCreatesOnce(st: Store, actor: User, bookingArg: Option<int>, now1: Time, now2: Time, up1: bool, up2: bool)
    requires Initiate(st, actor, bookingArg, now1, up1).result.Success?
    ensures var s1 := Initiate(st, actor, bookingArg, now1, up1);
      var s2 := Initiate(s1.store, actor, bookingArg, now2, up2);
      && s2.store == s1.store && s2.published == []
      && s2.result.Success? && s2.result.value.AlreadyInitiated?
      && |RequestsFor(s2.store.calls, bookingArg.value)| >= 1
      && (s1.result.value.Initiated? ==> s2.result.value.existing == s1.result.value.created)
  {
    var s1 := Initiate(st, actor, bookingArg, now1, up1);
    var s2 := Initiate(s1.store, actor, bookingArg, now2, up2);
    var id := bookingArg.value;
    assert s1.store.bookings == st.bookings;
    var c1: CallRequest;
    if s1.result.value.Initiated? {
      InitiateCreatesPending(st, actor, bookingArg, now1, up1);
      c1 := s1.result.value.created;
      assert s1.store.calls[|st.calls|] == c1;
    } else {
      c1 := s1.result.value.existing;
    }
    assert c1 in s1.store.calls && c1.booking == id;
    assert s2.result.Success?;
    assert s2.result.value.AlreadyInitiated?;
    var e := s2.result.value.existing;
    assert e in RequestsFor(s2.store.calls, id);
    if s1.result.value.Initiated? {
      assert e in st.calls + [c1];
    }
  }

  // -------------------------------------------------------------- accept

  /** The request accept may act on: it belongs to booking `id` and to the
      counsellor profile `counsellor`, and is PENDING or WAITING. */
  predicate Acceptable(c: CallRequest, id: int, counsellor: ProfileId) {
    c.booking == id && c.counsellor == counsellor && (c.status == CallPending || c.status == Waiting)
  }

  /** How many requests accept could still act on. */
  function AcceptableCount(calls: seq<CallRequest>, id: int, counsellor: ProfileId): nat {
    CountWhere(calls, (c: CallRequest) => Acceptable(c, id, counsellor))
  }

  datatype AcceptReply = AcceptedReply(bookingId: BookingId)

  /** The counsellor accepts the newest PENDING or WAITING request of one of
      their bookings. The row is saved before the broadcast, so a channel
      failure yields a server error with the acceptance already stored. */
  function Accept(st: Store, actor: User, bookingArg: Option<int>, now: Time, channelUp: bool): (s: Step<AcceptReply>)
    ensures s.result.Success? ==> channelUp
    ensures s.store != st ==> s.result.Success? || (s.result.Failure? && s.result.error.status == ServerError && !channelUp)
  {
    if Falsy(bookingArg) then
      Step(st, Failure(ApiError(BadRequest, "booking_id is required")), [])
    else
      var id := bookingArg.value;
      match ProfileOf(st, actor.id)
      case None => Step(st, Failure(ApiError(ServerError, "Failed to accept call")), [])
      case Some(prof) =>
        match FirstWhere(st.bookings, (b: Booking) => b.id == id && b.counsellor == prof.id)
        case None => Step(st, Failure(ApiError(NotFound, "Booking not found")), [])
        case Some(bi) =>
          var b := st.bookings[bi];
          match LatestWhere(st.calls, (c: CallRequest) => Acceptable(c, b.id, b.counsellor), (c: CallRequest) => c.createdAt)
          case None => Step(st, Failure(ApiError(NotFound, "No pending call request found")), [])
          case Some(ci) =>
            var c := st.calls[ci];
            var st' := st.(calls := st.calls[ci := c.(status := Accepted, acceptedAt := Some(now), updatedAt := now)]);
            var name := PartyName(actor, "Counsellor ", false);
            var ev := GroupSend(CallGroup(b.id), CallAccepted(NatToString(b.id), name, actor.id, now));
            if channelUp then Step(st', Success(AcceptedReply(b.id)), [ev])
            else Step(st', Failure(ApiError(ServerError, "Failed to accept call")), [])
  }

  /** Accept succeeds only for the booking's own counsellor and only when an
      acceptable request exists; a success always writes, and publishes one
      `call_accepted` broadcast naming the caller to the booking's call
      group. */
  lemma AcceptSpec(st: Store, actor: User, bookingArg: Option<int>, now: Time, channelUp: bool)
    ensures var s := Accept(st, actor, bookingArg, now, channelUp);
      s.result.Success? <==>
        && channelUp && !Falsy(bookingArg) && ProfileOf(st, actor.id).Some?
        && exists b :: b in st.bookings && b.id == bookingArg.value && b.counsellor == ProfileOf(st, actor.id).value.id
                        && exists c :: c in st.calls && Acceptable(c, b.id, b.counsellor)
    ensures var s := Accept(st, actor, bookingArg, now, channelUp);
      s.result.Success? ==>
        && s.store != st
        && s.result.value.bookingId == bookingArg.value
        && s.published == [GroupSend(CallGroup(s.result.value.bookingId),
                             CallAccepted(NatToString(s.result.value.bookingId), PartyName(actor, "Counsellor ", false), actor.id, now))]
  {
    var s := Accept(st, actor, bookingArg, now, channelUp);
    if !Falsy(bookingArg) && ProfileOf(st, actor.id).Some? {
      var id := bookingArg.value;
      var prof := ProfileOf(st, actor.id).value;
      var fb := FirstWhere(st.bookings, (b: Booking) => b.id == id && b.counsellor == prof.id);
      if fb.Some? {
        var b := st.bookings[fb.value];
        assert b in st.bookings;
        var lc := LatestWhere(st.calls, (c: CallRequest) => Acceptable(c, b.id, b.counsellor), (c: CallRequest) => c.createdAt);
        if lc.Some? {
          assert s.store.calls[lc.value].status == Accepted;
          assert st.calls[lc.value] in st.calls;
        } else {
          assert s.result.Failure?;
        }
      }
    }
  }

  /** What accept writes, when it writes: the booking with the requested id
      belongs to the caller's profile, and the newest request acceptable for
      that booking and profile becomes ACCEPTED at `now`, every other row
      untouched. */
  lemma AcceptWrites(st: Store, actor: User, bookingArg: Option<int>, now: Time, channelUp: bool)
    ensures var s := Accept(st, actor, bookingArg, now, channelUp);
      s.store != st ==>
        && !Falsy(bookingArg) && ProfileOf(st, actor.id).Some?
        && (exists b :: b in st.bookings && b.id == bookingArg.value && b.counsellor == ProfileOf(st, actor.id).value.id)
        && (exists i ::
              && 0 <= i < |st.calls|
              && Acceptable(st.calls[i], bookingArg.value, ProfileOf(st, actor.id).value.id)
              && s.store == st.(calls := st.calls[i := st.calls[i].(status := Accepted, acceptedAt := Some(now), updatedAt := now)])
              && (forall j :: 0 <= j < |st.calls| && Acceptable(st.calls[j], bookingArg.value, ProfileOf(st, actor.id).value.id)
                    ==> st.calls[j].createdAt <= st.calls[i].createdAt))
  {
    var s := Accept(st, actor, bookingArg, now, channelUp);
    if !Falsy(bookingArg) && ProfileOf(st, actor.id).Some? {
      var id := bookingArg.value;
      var prof := ProfileOf(st, actor.id).value;
      var fb := FirstWhere(st.bookings, (b: Booking) => b.id == id && b.counsellor == prof.id);
      if fb.Some? {
        var b := st.bookings[fb.value];
        assert b in st.bookings;
        var lc := LatestWhere(st.calls, (c: CallRequest) => Acceptable(c, b.id, b.counsellor), (c: CallRequest) => c.createdAt);
        if lc.Some? {
          var i := lc.value;
          assert s.store == st.(calls := st.calls[i := st.calls[i].(status := Accepted, acceptedAt := Some(now), updatedAt := now)]);
        }
      }
    }
  }

  /** Every write of accept uses up one acceptable request: a second accept
      for the same booking has one request fewer to choose from. */
  lemma AcceptConsumesRequest(st: Store, actor: User, bookingArg: Option<int>, now: Time, channelUp: bool)
    requires Accept(st, actor, bookingArg, now, channelUp).store != st
    ensures var s := Accept(st, actor, bookingArg, now, channelUp);
      var pid := ProfileOf(st, actor.id).value.id;
      ProfileOf(s.store, actor.id) == ProfileOf(st, actor.id)
      && AcceptableCount(s.store.calls, bookingArg.value, pid) + 1 == AcceptableCount(st.calls, bookingArg.value, pid)
  {
    AcceptWrites(st, actor, bookingArg, now, channelUp);
    var s := Accept(st, actor, bookingArg, now, channelUp);
    var pid := ProfileOf(st, actor.id).value.id;
    var i :| 0 <= i < |st.calls|
          && Acceptable(st.calls[i], bookingArg.value, pid)
          && s.store == st.(calls := st.calls[i := st.calls[i].(status := Accepted, acceptedAt := Some(now), updatedAt := now)]);
    CountAfterUpdate(st.calls, (c: CallRequest) => Acceptable(c, bookingArg.value, pid), i,
                     st.calls[i].(status := Accepted, acceptedAt := Some(now), updatedAt := now));
  }

  // -------------------------------------------------------------- reject

  datatype RejectReply = RejectedReply(bookingArg: int)

  /** The request reject acts on: this booking, this counsellor, PENDING. */
  predicate Rejectable(c: CallRequest, id: int, counsellor: ProfileId) {
    c.booking == id && c.counsellor == counsellor && c.status == CallPending
  }

  /** The counsellor rejects the newest PENDING request addressed to them
      for the booking. With no such request the view still answers success,
      changing nothing and publishing nothing. */
  function Reject(st: Store, actor: User, bookingArg: Option<int>, now: Time, channelUp: bool): (s: Step<RejectReply>)
    ensures s.result.Success? && s.published == [] ==> s.store == st
  {
    if Falsy(bookingArg) then
      Step(st, Failure(ApiError(BadRequest, "booking_id is required")), [])
    else
      var id := bookingArg.value;
      match ProfileOf(st, actor.id)
      case None => Step(st, Failure(ApiError(ServerError, "Failed to reject call")), [])
      case Some(prof) =>
        match LatestWhere(st.calls, (c: CallRequest) => Rejectable(c, id, prof.id), (c: CallRequest) => c.createdAt)
        case None => Step(st, Success(RejectedReply(id)), [])
        case Some(ci) =>
          var c := st.calls[ci];
          var st' := st.(calls := st.calls[ci := c.(status := Rejected, updatedAt := now)]);
          var ev := GroupSend(CallGroup(c.booking), CallRejected(NatToString(c.booking), now));
          if channelUp then Step(st', Success(RejectedReply(id)), [ev])
          else Step(st', Failure(ApiError(ServerError, "Failed to reject call")), [])
  }

  /** Reject moves exactly one PENDING request of the caller to REJECTED and
      publishes `call_rejected`, or answers success with nothing changed when
      the caller has no such request. */
  lemma RejectSpec(st: Store, actor: User, bookingArg: Option<int>, now: Time, channelUp: bool)
    ensures var s := Reject(st, actor, bookingArg, now, channelUp);
      s.store != st <==>
        && !Falsy(bookingArg) && ProfileOf(st, actor.id).Some?
        && exists c :: c in st.calls && Rejectable(c, bookingArg.value, ProfileOf(st, actor.id).value.id)
    ensures var s := Reject(st, actor, bookingArg, now, channelUp);
      s.store != st ==>
        exists i ::
          && 0 <= i < |st.calls|
          && s.store == st.(calls := st.calls[i := st.calls[i].(status := Rejected, updatedAt := now)])
          && Rejectable(st.calls[i], bookingArg.value, ProfileOf(st, actor.id).value.id)
          && (forall j :: 0 <= j < |st.calls| && Rejectable(st.calls[j], bookingArg.value, ProfileOf(st, actor.id).value.id)
                ==> st.calls[j].createdAt <= st.calls[i].createdAt)
    ensures var s := Reject(st, actor, bookingArg, now, channelUp);
      |s.published| == (if s.store != st && channelUp then 1 else 0)
    ensures var s := Reject(st, actor, bookingArg, now, channelUp);
      s.published != [] ==>
        bookingArg.Some? && bookingArg.value >= 0 &&
        s.published == [GroupSend(CallGroup(bookingArg.value), CallRejected(NatToString(bookingArg.value), now))]
    ensures var s := Reject(st, actor, bookingArg, now, channelUp);
      s.result.Failure? ==> Falsy(bookingArg) || ProfileOf(st, actor.id).None? || (s.store != st && !channelUp)
  {
    var s := Reject(st, actor, bookingArg, now, channelUp);
    if !Falsy(bookingArg) && ProfileOf(st, actor.id).Some? {
      var id := bookingArg.value;
      var prof := ProfileOf(st, actor.id).value;
      var lc := LatestWhere(st.calls, (c: CallRequest) => Rejectable(c, id, prof.id), (c: CallRequest) => c.createdAt);
      if lc.Some? {
        var i := lc.value;
        assert st.calls[i] in st.calls;
        assert s.store.calls[i].status == Rejected;
        assert s.store != st;
      } else {
        assert s.store == st;
      }
    }
  }

  // --------------------------------------------------------- call status

  datatype StatusReply =
    | NoCall(bookingId: BookingId)
    | CallState(status: string, userName: string, bookingId: BookingId)

  /** Whose requests a caller may see: a counsellor sees the requests
      addressed to their profile, anyone else the requests they made. */
  predicate VisibleTo(c: CallRequest, st: Store, caller: UserId, id: BookingId) {
    var prof := ProfileOf(st, caller);
    c.booking == id &&
    if prof.Some? && prof.value.role == Counsellor then c.counsellor == prof.value.id else c.user == caller
  }

  /** Either party polls the newest visible request for a booking and gets
      its status lower-cased, or "none". The requester's display name skips
      a username that is literally "None". */
  function CallStatusOf(st: Store, actor: User, id: BookingId): (r: Result<StatusReply, ApiError>)
    ensures r.Success? ==> r.value.bookingId == id
    ensures r.Success? && r.value.CallState? ==> r.value.userName != ""
    ensures r.Failure? ==> r.error.status == ServerError
  {
    match LatestWhere(st.calls, (c: CallRequest) => VisibleTo(c, st, actor.id, id), (c: CallRequest) => c.createdAt)
    case None => Success(NoCall(id))
    case Some(ci) =>
      var c := st.calls[ci];
      match BookingById(st, c.booking)
      case None => Failure(ApiError(ServerError, "Failed to check call status"))
      case Some(b) =>
        match UserById(st, b.user)
        case None => Failure(ApiError(ServerError, "Failed to check call status"))
        case Some(u) =>
          Success(CallState(LowerAscii(CallStatusName(c.status)), PartyName(u, "User ", true), id))
  }

  /** The reported status is "none" exactly when the caller can see no
      request for the booking; otherwise it is the lower-cased status of the
      newest visible request, which tells the statuses apart. */
  lemma CallStatusSpec(st: Store, actor: User, id: BookingId)
    ensures var r := CallStatusOf(st, actor, id);
      r == Success(NoCall(id)) <==> forall c :: c in st.calls ==> !VisibleTo(c, st, actor.id, id)
    ensures var r := CallStatusOf(st, actor, id);
      r.Success? && r.value.CallState? ==>
        exists c :: c in st.calls && VisibleTo(c, st, actor.id, id)
          && r.value.status == LowerAscii(CallStatusName(c.status))
          && forall d :: d in st.calls && VisibleTo(d, st, actor.id, id) ==> d.createdAt <= c.createdAt
  {
    var r := CallStatusOf(st, actor, id);
    var lc := LatestWhere(st.calls, (c: CallRequest) => VisibleTo(c, st, actor.id, id), (c: CallRequest) => c.createdAt);
    if lc.Some? {
      assert st.calls[lc.value] in st.calls;
    }
  }

  /** Lower-casing keeps the stored call statuses distinct, so a poller can
      tell every status the views write apart. */
  lemma StatusNamesDistinct(s: CallStatus, t: CallStatus)
    requires LowerAscii(CallStatusName(s)) == LowerAscii(CallStatusName(t))
    ensures s == t
  {
    var a := CallStatusName(s);
    var b := CallStatusName(t);
    assert |a| == |LowerAscii(a)|;
    assert LowerAscii(a)[0] == LowerChar(a[0]) && LowerAscii(b)[0] == LowerChar(b[0]);
    assert LowerAscii(a)[1] == LowerChar(a[1]) && LowerAscii(b)[1] == LowerChar(b[1]);
  }

  // ------------------------------------------------------ active booking

  datatype ActiveReply = ActiveReply(bookingId: Option<BookingId>, userName: Option<string>, hasPendingCall: bool)

  /** The active-booking lookup for the counsellor dashboard. */
  function ActiveBooking(st: Store, actor: User): (r: Result<ActiveReply, ApiError>)
    ensures r.Failure? ==> r.error.status == Forbidden || r.error.status == ServerError
    ensures r.Success? ==> (r.value.bookingId.Some? <==> r.value.userName.Some?)
    ensures r.Success? && r.value.hasPendingCall ==> r.value.bookingId.Some?
    ensures r.Success? && r.value.userName.Some? ==> r.value.userName.value != ""
  {
    var prof := ProfileOf(st, actor.id);
    if prof.None? || prof.value.role != Counsellor then
      Failure(ApiError(Forbidden, "User is not a counsellor or has no profile"))
    else
      var pid := prof.value.id;
      match LatestWhere(st.calls, (c: CallRequest) => c.counsellor == pid && c.status == CallPending, (c: CallRequest) => c.createdAt)
      case Some(ci) =>
        (match BookingById(st, st.calls[ci].booking)
         case None => Failure(ApiError(ServerError, "Failed to fetch active booking"))
         case Some(b) => ActiveFor(st, b, true))
      case None =>
        match LatestWhere(st.bookings, (b: Booking) => b.counsellor == pid && b.status == Completed, (b: Booking) => b.createdAt)
        case Some(bi) => ActiveFor(st, st.bookings[bi], false)
        case None => Success(ActiveReply(None, None, false))
  }

  function ActiveFor(st: Store, b: Booking, pending: bool): Result<ActiveReply, ApiError> {
    match UserById(st, b.user)
    case None => Failure(ApiError(ServerError, "Failed to fetch active booking"))
    case Some(u) =>
      Success(ActiveReply(Some(b.id), Some(PartyName(u, "User ", false)), pending))
  }

  /** The lookup order, first part: non-counsellors are refused with 403;
      a counsellor with a PENDING request is pointed at the booking of their
      newest PENDING request, with the pending flag. */
  lemma ActiveBookingSpec(st: Store, actor: User)
    ensures var r := ActiveBooking(st, actor);
      r.Failure? && r.error.status == Forbidden <==>
        ProfileOf(st, actor.id).None? || ProfileOf(st, actor.id).value.role != Counsellor
    ensures var r := ActiveBooking(st, actor);
      r.Success? && r.value.hasPendingCall ==>
        r.value.bookingId.Some? &&
        exists c :: c in st.calls && c.status == CallPending && c.booking == r.value.bookingId.value
          && c.counsellor == ProfileOf(st, actor.id).value.id
          && forall d :: d in st.calls && d.counsellor == c.counsellor && d.status == CallPending ==> d.createdAt <= c.createdAt
  {
    var prof := ProfileOf(st, actor.id);
    if prof.Some? && prof.value.role == Counsellor {
      var pid := prof.value.id;
      var lc := LatestWhere(st.calls, (c: CallRequest) => c.counsellor == pid && c.status == CallPending, (c: CallRequest) => c.createdAt);
      if lc.Some? {
        assert st.calls[lc.value] in st.calls;
        forall d | d in st.calls && d.counsellor == pid && d.status == CallPending
          ensures d.createdAt <= st.calls[lc.value].createdAt
        {
          var j :| 0 <= j < |st.calls| && st.calls[j] == d;
        }
      }
    }
  }

  /** The lookup order, second part: a counsellor without PENDING requests
      is pointed at their newest completed booking, without the pending
      flag; with none of those either, at no booking. */
  lemma ActiveBookingFallback(st: Store, actor: User)
    ensures var r := ActiveBooking(st, actor);
      r.Success? && !r.value.hasPendingCall && r.value.bookingId.Some? ==>
        (forall c :: c in st.calls ==> !(c.counsellor == ProfileOf(st, actor.id).value.id && c.status == CallPending)) &&
        exists b :: b in st.bookings && b.id == r.value.bookingId.value && b.status == Completed
          && b.counsellor == ProfileOf(st, actor.id).value.id
          && forall d :: d in st.bookings && d.counsellor == b.counsellor && d.status == Completed ==> d.createdAt <= b.createdAt
    ensures var r := ActiveBooking(st, actor);
      r.Success? && r.value.bookingId.None? ==>
        var pid := ProfileOf(st, actor.id).value.id;
        (forall c :: c in st.calls ==> !(c.counsellor == pid && c.status == CallPending)) &&
        (forall b :: b in st.bookings ==> !(b.counsellor == pid && b.status == Completed))
  {
    var prof := ProfileOf(st, actor.id);
    if prof.Some? && prof.value.role == Counsellor {
      var pid := prof.value.id;
      var lc := LatestWhere(st.calls, (c: CallRequest) => c.counsellor == pid && c.status == CallPending, (c: CallRequest) => c.createdAt);
      if lc.None? {
        var lb := LatestWhere(st.bookings, (b: Booking) => b.counsellor == pid && b.status == Completed, (b: Booking) => b.createdAt);
        if lb.Some? {
          assert st.bookings[lb.value] in st.bookings;
          forall d | d in st.bookings && d.counsellor == pid && d.status == Completed
            ensures d.createdAt <= st.bookings[lb.value].createdAt
          {
            var j :| 0 <= j < |st.bookings| && st.bookings[j] == d;
          }
        }
      }
    }
  }

  // ------------------------------------------------- availability toggle

  /** The caller flips their own profile's `is_active` flag; without a
      profile the view answers 404. */
  function ToggleActive(st: Store, actor: UserId): (s: Step<bool>)
    ensures s.published == []
    ensures s.result.Failure? <==> ProfileOf(st, actor).None?
    ensures s.result.Failure? ==> s.store == st
    ensures s.result.Success? ==> s.result.value == !ProfileOf(st, actor).value.isActive
    ensures s.result.Success? ==>
      exists i ::
        && 0 <= i < |st.profiles| && st.profiles[i] == ProfileOf(st, actor).value
        && (forall j :: 0 <= j < i ==> st.profiles[j].user != actor)
        && s.store == st.(profiles := st.profiles[i := st.profiles[i].(isActive := s.result.value)])
  {
    match FirstWhere(st.profiles, (p: Profile) => p.user == actor)
    case None => Step(st, Failure(ApiError(NotFound, "Counsellor profile not found")), [])
    case Some(i) =>
      var p := st.profiles[i];
      Step(st.(profiles := st.profiles[i := p.(isActive := !p.isActive)]), Success(!p.isActive), [])
  }

  /** Toggling twice restores the store, and touches only the caller's flag. */
  lemma ToggleTwiceRestores(st: Store, actor: UserId)
    ensures ToggleActive(ToggleActive(st, actor).store, actor).store == st
    ensures var s := ToggleActive(st, actor).store;
      |s.profiles| == |st.profiles| && s.(profiles := st.profiles) == st &&
      forall i :: 0 <= i < |st.profiles| && st.profiles[i].user != actor ==> s.profiles[i] == st.profiles[i]
  {
    var s1 := ToggleActive(st, actor);
    var f := FirstWhere(st.profiles, (p: Profile) => p.user == actor);
    if f.Some? {
      var i := f.value;
      var f2 := FirstWhere(s1.store.profiles, (p: Profile) => p.user == actor);
      assert s1.store.profiles[i].user == actor;
      assert forall j :: 0 <= j < i ==> s1.store.profiles[j] == st.profiles[j];
      assert f2 == Some(i);
      assert s1.store.profiles[i := st.profiles[i]] == st.profiles;
    }
  }
}
