/** The counsellor WebSocket consumer: the connect decision (token taken
    from the query string, verified, matched against the counsellor id in
    the URL, then group join, accept and greeting), disconnect, and the
    `call_notification` handler. Token verification and the profile lookup
    are oracles; the channel layer's groups are a registry value. */
module Gateway {
  import opened Wrappers
  import opened Text
  import opened Models

  const CloseNoToken: int := 4001
  const CloseInvalidToken: int := 4002
  const CloseProfileMismatch: int := 4003
  const CloseSetupFailed: int := 4004

  const TokenKey: string := "token="

  /** `tok` starts right after the first `token=` of `qs`, at index `i`,
      and stops at an `&`, at another `token=` or at the end. */
  predicate TokenAt(qs: string, i: int, tok: string) {
    && OccursAt(qs, TokenKey, i)
    && (forall j :: 0 <= j < i ==> !OccursAt(qs, TokenKey, j))
    && tok <= qs[i + |TokenKey|..]
    && var end := i + |TokenKey| + |tok|;
       end == |qs| || qs[end] == '&' || OccursAt(qs, TokenKey, end)
  }

  /** The text `ExtractToken` keeps when the first `token=` is at `i`. */
  function TokenFrom(qs: string, i: nat): string
    requires i + |TokenKey| <= |qs|
  {
    BeforeFirst(BeforeFirst(qs[i + |TokenKey|..], TokenKey), "&")
  }

  /** The kept text ends where `TokenAt` says it must, and holds neither
      separator. */
  lemma TokenFromEnds(qs: string, i: nat)
    requires OccursAt(qs, TokenKey, i)
    requires forall j :: 0 <= j < i ==> !OccursAt(qs, TokenKey, j)
    ensures TokenAt(qs, i, TokenFrom(qs, i))
    ensures !Contains(TokenFrom(qs, i), "&") && !Contains(TokenFrom(qs, i), TokenKey)
  {
    var after := qs[i + |TokenKey|..];
    var segment := BeforeFirst(after, TokenKey);
    var token := BeforeFirst(segment, "&");
    PrefixKeepsAbsence(segment, token, TokenKey);
    var end := i + |TokenKey| + |token|;
    if |token| < |segment| {
      assert OccursAt(segment, "&", |token|);
      assert segment[|token|] == '&';
    } else if |segment| < |after| {
      assert OccursAt(after, TokenKey, |segment|);
      assert after[|segment|..|segment| + |TokenKey|] == qs[end..end + |TokenKey|];
    }
  }

  /** The token in a query string: the text after the first `token=`, up to
      the next `&`, the next `token=` or the end. Absent when the query
      string has no `token=`. */
  function ExtractToken(qs: string): (t: Option<string>)
    ensures t.Some? <==> Contains(qs, TokenKey)
    ensures t.Some? ==> !Contains(t.value, "&") && !Contains(t.value, TokenKey)
    ensures t.Some? ==> exists i :: TokenAt(qs, i, t.value)
  {
    match IndexOf(qs, TokenKey)
    case None => None
    case Some(i) =>
      TokenFromEnds(qs, i);
      Some(TokenFrom(qs, i))
  }

  /** A token followed by another parameter stops at the `&`. */
  lemma TokenBeforeAmpersand()
    ensures ExtractToken("token=abc&x=1") == Some("abc")
  {
    var qs := "token=abc&x=1";
    assert OccursAt(qs, TokenKey, 0);
    var after := "abc&x=1";
    assert qs[6..] == after;
    assert !Contains(after, TokenKey) by {
      forall j | 0 <= j <= |after| ensures !OccursAt(after, TokenKey, j) {
        if j + 6 <= |after| { assert after[j] != 't'; }
      }
    }
    assert OccursAt(after, "&", 3);
    forall j | 0 <= j < 3 ensures !OccursAt(after, "&", j) {
      assert after[j..j + 1] == [after[j]];
    }
    assert IndexOf(qs, TokenKey) == Some(0);
    assert BeforeFirst(after, TokenKey) == after;
    assert IndexOf(after, "&") == Some(3);
    assert after[..3] == "abc";
  }

  /** A query string without `token=` yields no token. */
  lemma NoTokenKey()
    ensures ExtractToken("x=1") == None
  {
  }

  // ------------------------------------------------------------- groups

  type Channel = string

  /** The channel layer's groups. A group with no members is not kept. */
  type Registry = map<string, set<Channel>>

  predicate NoEmptyGroups(reg: Registry) {
    forall g :: g in reg ==> reg[g] != {}
  }

  function GroupAdd(reg: Registry, g: string, ch: Channel): (r: Registry)
    ensures g in r && ch in r[g]
    ensures forall h :: h in reg && h != g ==> h in r && r[h] == reg[h]
    ensures r.Keys == reg.Keys + {g}
  {
    reg[g := (if g in reg then reg[g] else {}) + {ch}]
  }

  function GroupDiscard(reg: Registry, g: string, ch: Channel): (r: Registry)
    ensures g in r ==> ch !in r[g]
    ensures forall h :: h in reg && h != g ==> h in r && r[h] == reg[h]
    ensures r.Keys <= reg.Keys
  {
    if g !in reg then reg
    else if reg[g] - {ch} == {} then reg - {g}
    else reg[g := reg[g] - {ch}]
  }

  /** `f"counsellor_{counsellor_id}"`, fixed before any check. */
  function CounsellorGroup(counsellorId: string): string {
    "counsellor_" + counsellorId
  }

  /** The views publish to `call_` groups and the consumer only joins
      `counsellor_` groups, so no view broadcast reaches a consumer. */
  lemma ViewGroupsNeverJoined(id: BookingId, counsellorId: string)
    ensures CallGroup(id) != CounsellorGroup(counsellorId)
  {
    assert CallGroup(id)[1] == 'a';
    assert CounsellorGroup(counsellorId)[1] == 'o';
  }

  // ------------------------------------------------------------ connect

  /** Where connection setup can fail after the checks pass. */
  datatype SetupFault = NoFault | GroupAddFails | AcceptFails | SendFails

  const ConnectionEstablished: string := "connection_established"

  /** The result of a connection attempt: the groups afterwards, whether
      the socket was accepted, what was sent on it, the close code if any. */
  datatype ConnectOutcome = ConnectOutcome(groups: Registry, accepted: bool, sent: seq<string>, closeCode: Option<int>)

  function Closed(reg: Registry, code: int): ConnectOutcome {
    ConnectOutcome(reg, false, [], Some(code))
  }

  /** The connect decision. `verify` maps a token to the user id it carries
      (None: invalid, expired or without a user id); `lookup` maps a user id
      to that user's profile id (None: the lookup raised). The close code is
      decided by the first failing check, in order; the socket is accepted
      and greeted exactly once only when every check and every setup step
      succeeds, and only then does it stay open. */
  function Connect(reg: Registry, ch: Channel, counsellorId: string, qs: string,
                   verify: string -> Option<UserId>, lookup: UserId -> Option<ProfileId>,
                   fault: SetupFault): (o: ConnectOutcome)
    ensures
      var t := ExtractToken(qs);
      && (o.closeCode == Some(CloseNoToken) <==> t.None? || t.value == "")
      && (o.closeCode == Some(CloseInvalidToken) <==>
            t.Some? && t.value != "" && (verify(t.value).None? || lookup(verify(t.value).value).None?))
      && (o.closeCode == Some(CloseProfileMismatch) <==>
            t.Some? && t.value != "" && verify(t.value).Some? && lookup(verify(t.value).value).Some?
            && NatToString(lookup(verify(t.value).value).value) != counsellorId)
      && (o.closeCode.None? <==>
            t.Some? && t.value != "" && verify(t.value).Some? && lookup(verify(t.value).value).Some?
            && NatToString(lookup(verify(t.value).value).value) == counsellorId && fault == NoFault)
      && (o.closeCode == Some(CloseSetupFailed) <==>
            t.Some? && t.value != "" && verify(t.value).Some? && lookup(verify(t.value).value).Some?
            && NatToString(lookup(verify(t.value).value).value) == counsellorId && fault != NoFault)
      && (o.closeCode.None? ==> o.accepted && o.sent == [ConnectionEstablished])
      && (o.sent != [] ==> o.closeCode.None?)
      && (o.closeCode != Some(CloseSetupFailed) && o.closeCode.Some? ==> o.groups == reg && !o.accepted)
      && (o.groups == reg || o.groups == GroupAdd(reg, CounsellorGroup(counsellorId), ch))
  {
    var group := CounsellorGroup(counsellorId);
    var token := ExtractToken(qs);
    if token.None? || token.value == "" then Closed(reg, CloseNoToken)
    else match verify(token.value)
      case None => Closed(reg, CloseInvalidToken)
      case Some(uid) =>
        match lookup(uid)
        case None => Closed(reg, CloseInvalidToken)
        case Some(pid) =>
          if NatToString(pid) != counsellorId then Closed(reg, CloseProfileMismatch)
          else match fault
            case GroupAddFails => Closed(reg, CloseSetupFailed)
            case AcceptFails => Closed(GroupAdd(reg, group, ch), CloseSetupFailed)
            case SendFails => ConnectOutcome(GroupAdd(reg, group, ch), true, [], Some(CloseSetupFailed))
            case NoFault => ConnectOutcome(GroupAdd(reg, group, ch), true, [ConnectionEstablished], None)
  }

  /** The URL's counsellor id is compared as text: a zero-padded id is
      refused even when it names the caller's own profile. */
  lemma PaddedIdRefused(reg: Registry, ch: Channel)
    ensures Connect(reg, ch, "07", "token=t", (s: string) => Some(3), (u: UserId) => Some(7), NoFault).closeCode
            == Some(CloseProfileMismatch)
  {
    assert ExtractToken("token=t") == Some("t") by {
      assert OccursAt("token=t", TokenKey, 0);
      assert !Contains("t", TokenKey);
      ContainsChar("t", '&');
    }
    assert NatToString(7) == "7";
  }

  /** The consumer as written: the profile model is referenced without being
      imported, so the lookup raises a name error for every user. */
  function ConnectAsWritten(reg: Registry, ch: Channel, counsellorId: string, qs: string,
                            verify: string -> Option<UserId>, fault: SetupFault): (o: ConnectOutcome)
    ensures !o.accepted && o.sent == [] && o.groups == reg
    ensures o.closeCode == Some(CloseNoToken) || o.closeCode == Some(CloseInvalidToken)
  {
    Connect(reg, ch, counsellorId, qs, verify, (uid: UserId) => None, fault)
  }

  /** As written, no connection is ever accepted: a missing or empty token
      closes with 4001 and every other attempt with 4002, groups untouched. */
  lemma ConnectAsWrittenNeverAccepts(reg: Registry, ch: Channel, counsellorId: string, qs: string,
                                     verify: string -> Option<UserId>, fault: SetupFault)
    ensures var o := ConnectAsWritten(reg, ch, counsellorId, qs, verify, fault);
      var t := ExtractToken(qs);
      && !o.accepted && o.sent == [] && o.groups == reg
      && o.closeCode == Some(if t.None? || t.value == "" then CloseNoToken else CloseInvalidToken)
  {
  }

  /** A caller with a valid token for the counsellor's own profile is
      accepted once the lookup works, and refused as written. */
  lemma ConnectAsWrittenDiffers(reg: Registry, ch: Channel)
    ensures Connect(reg, ch, "7", "token=t", (s: string) => Some(3), (u: UserId) => Some(7), NoFault).accepted
    ensures ConnectAsWritten(reg, ch, "7", "token=t", (s: string) => Some(3), NoFault).closeCode == Some(CloseInvalidToken)
  {
    assert ExtractToken("token=t") == Some("t") by {
      assert OccursAt("token=t", TokenKey, 0);
      assert !Contains("t", TokenKey);
      ContainsChar("t", '&');
    }
    assert NatToString(7) == "7";
  }

  // --------------------------------------------------------- disconnect

  /** Leaving removes the channel from the group connect computed, whether
      or not connect got as far as joining it. */
  function Disconnect(reg: Registry, ch: Channel, counsellorId: string): (r: Registry)
    ensures CounsellorGroup(counsellorId) in r ==> ch !in r[CounsellorGroup(counsellorId)]
    ensures forall h :: h in reg && h != CounsellorGroup(counsellorId) ==> h in r && r[h] == reg[h]
    ensures r.Keys <= reg.Keys
  {
    GroupDiscard(reg, CounsellorGroup(counsellorId), ch)
  }

  /** Discarding a channel that was not in the group changes nothing, and
      discarding it right after adding it restores the registry. */
  lemma DiscardUndoesAdd(reg: Registry, g: string, ch: Channel)
    requires NoEmptyGroups(reg)
    requires g in reg ==> ch !in reg[g]
    ensures GroupDiscard(reg, g, ch) == reg
    ensures GroupDiscard(GroupAdd(reg, g, ch), g, ch) == reg
  {
    var added := GroupAdd(reg, g, ch);
    if g in reg {
      assert reg[g] - {ch} == reg[g];
      assert reg[g := reg[g]] == reg;
      assert added[g] - {ch} == reg[g];
    } else {
      assert added[g] - {ch} == {};
      assert (added - {g}).Keys == reg.Keys;
    }
  }

  /** Disconnect undoes connect: starting from a registry without empty
      groups in which the channel was not yet a member of its group, the
      registry is restored whatever connect decided. */
  lemma DisconnectUndoesConnect(reg: Registry, ch: Channel, counsellorId: string, qs: string,
                                verify: string -> Option<UserId>, lookup: UserId -> Option<ProfileId>, fault: SetupFault)
    requires NoEmptyGroups(reg)
    requires var g := CounsellorGroup(counsellorId); g in reg ==> ch !in reg[g]
    ensures Disconnect(Connect(reg, ch, counsellorId, qs, verify, lookup, fault).groups, ch, counsellorId) == reg
  {
    var g := CounsellorGroup(counsellorId);
    var o := Connect(reg, ch, counsellorId, qs, verify, lookup, fault);
    DiscardUndoesAdd(reg, g, ch);
  }

  // ------------------------------------------------- call notification

  /** An event delivered to the consumer, field name to its `str()` text
      (nested payloads appear as their rendering). */
  type EventFields = map<string, string>

  datatype Notification = Notification(
    roomId: string, kitToken: string, userId: string, bookingId: string,
    counsellorId: Option<string>, message: string)

  predicate HasCallFields(ev: EventFields) {
    "room_id" in ev && "kitToken" in ev && "user_id" in ev && "booking_id" in ev
  }

  /** The `call_notification` handler: it forwards the event's room, token,
      user and booking (and the counsellor id if present) with an
      "Incoming call" line. A missing field or a failed send is swallowed:
      nothing is sent. */
  function CallNotification(ev: EventFields, sendOk: bool): (r: Option<Notification>)
    ensures r.Some? <==> HasCallFields(ev) && sendOk
    ensures r.Some? ==>
      && r.value.roomId == ev["room_id"] && r.value.kitToken == ev["kitToken"]
      && r.value.userId == ev["user_id"] && r.value.bookingId == ev["booking_id"]
      && (r.value.counsellorId.Some? <==> "counsellor_id" in ev)
      && |r.value.message| >= |"Incoming call from user "|
      && r.value.message[..|"Incoming call from user "|] == "Incoming call from user "
      && r.value.message[|"Incoming call from user "|..] == ev["user_id"]
  {
    if HasCallFields(ev) && sendOk then
      Some(Notification(ev["room_id"], ev["kitToken"], ev["user_id"], ev["booking_id"],
                        if "counsellor_id" in ev then Some(ev["counsellor_id"]) else None,
                        "Incoming call from user " + ev["user_id"]))
    else None
  }

  /** The top-level fields of a view broadcast: `type` and `message`. */
  function ViewEventFields(e: Event, renderedMessage: string): EventFields {
    map["type" := "call_notification", "message" := renderedMessage]
  }

  /** Even if a view broadcast reached the consumer, it lacks the room and
      token fields, so the handler would send nothing. */
  lemma ViewEventsNotForwarded(e: Event, renderedMessage: string, sendOk: bool)
    ensures CallNotification(ViewEventFields(e, renderedMessage), sendOk).None?
  {
    assert "room_id" !in ViewEventFields(e, renderedMessage);
  }
}
