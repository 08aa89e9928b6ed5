# Counselling call backend — a Dafny model

This project models the core of a Django backend for paid counselling calls.
A user orders a session with a counsellor, which creates a booking. The
payment gateway's confirmation credits the user's wallet. The user starts a
call, and the counsellor accepts or rejects it. Either party polls the call
status. When the call ends, the fee moves from the user's wallet to the
counsellor's, and unused minutes come back as extra minutes. Beside the
views, the core has four more parts:

- the counsellor WebSocket consumer's connect decision;
- the Zego "token04" builder used for the video room;
- the account helpers of `userdetails`: phone normalisation, the phone
  pattern, user and superuser creation, profile save/clean;
- the profile and OTP serializers.

The model is written in Dafny and consists of these modules:

| module | file | models |
|---|---|---|
| `Wrappers` | wrappers.dfy | `Option` / `Result` |
| `Text` | text.dfy | the string operations the source relies on: `in`, `split(...)[0]`, `lower()`, `strip()`, `str(int)` |
| `Models` | models.dfy | users, profiles, bookings, call requests, wallets, ledger rows, channel events, the store |
| `Queries` | queries.dfy | first / newest / count queries and the foreign-key lookups |
| `Calls` | calls.dfy | initiate, accept, reject, call status, active booking, availability toggle |
| `Ledger` | ledger.dfy | booking creation, payment credit, settlement at call end, the wallet/ledger invariant |
| `Gateway` | gateway.dfy | the WebSocket consumer: token extraction, close codes, groups, `call_notification` |
| `ZegoToken` | zego.dfy | `generate_token04`, PKCS#5 padding, the random IV, the byte layout |
| `Accounts` | accounts.dfy | `userdetails/models.py` |
| `Serializers` | serializers.dfy | `userdetails/serializers.py` |

Each view is one pure step function, `Step(store', result, published)`.
`store'` is the database after the step, `result` is the success payload or
an `ApiError(status, message)`, and `published` lists the `group_send`
broadcasts the channel layer accepted. Money is kept in integer hundredths,
because the database columns are `numeric(10, 2)`. The store keeps the call
requests as one flat table rather than a map from booking to requests. The
active-booking view searches across all bookings. `Models.RequestsFor` gives
the per-booking view.

The oracles are:

- the payment signature check, a boolean;
- JWT verification and the profile lookup, functions;
- AES-CBC, JSON rendering and base64, functions;
- the clock, the random draws and the channel layer's availability, plain
  parameters.

## Model

| member | source | states |
|---|---|---|
| Models.RequestsFor | dashboard/views.py:245 | the requests of one booking are exactly the stored requests with that booking: every returned row is a stored one for that booking, and each such row is returned exactly as many times as it is stored |
| Text.StripIsTrim | userdetails/serializers.py:105-118 | `strip()` returns a slice of its input with only `str.isspace()` whitespace cut off before and after it |
| Text.Strip | userdetails/serializers.py:105-118 | the stripped text is no longer than the input and neither starts nor ends with whitespace |
| Queries.LatestWhere | counsellorapp/views.py:182-186 | `order_by('-created_at').first()` / default `-requested_at` ordering: the chosen row matches and no matching row has a larger key; none chosen iff none matches |
| Queries.CountOneIsFirst | dashboard/views.py:177 | when exactly one row matches, the first match is the only one, as `get()` requires |
| Queries.ProfileOf | counsellorapp/views.py:78 | the profile of a user is found iff one exists; the one found belongs to that user |
| Queries.BookingById | dashboard/views.py:389 | the booking with an id is found iff one exists |
| Calls.PartyNameProperties | counsellorapp/views.py:132-140 | the display name is never empty, is the full name exactly when that is set, falls back to "User <id>", and in the call-status view is never the literal username "None" |
| Calls.PartyName | counsellorapp/views.py:136-140 | the display name is never empty |
| Calls.Initiate | dashboard/views.py:222-348 | success iff the booking id is given and names one of the caller's own bookings; failures change nothing; an existing request (any status) is returned with nothing changed; otherwise exactly one request is appended |
| Calls.InitiateCreatesPending | dashboard/views.py:255-264 | a new request is PENDING, carries the booking's counsellor and the caller, is requested now, and is scheduled at the booking's time or now; a delivered broadcast goes to `call_<booking>` |
| Calls.InitiateTwiceCreatesOnce | dashboard/views.py:245-252 | repeating initiation returns the first request and changes nothing, so this path makes at most one request per booking |
| Calls.Accept | counsellorapp/views.py:162-239 | success needs a working channel; the store changes only on success or on a 500 after the row was saved |
| Calls.AcceptSpec | counsellorapp/views.py:179-218 | success iff the caller is the booking's counsellor and a PENDING or WAITING request of that counsellor exists; a success changed the store and replies with the requested id; exactly one `call_accepted` broadcast to `call_<id>` naming the caller is published, and only on success |
| Calls.AcceptWrites | counsellorapp/views.py:179-198 | a changed store means the id names a booking of the caller's profile and exactly one acceptable request of it, one with no newer acceptable sibling, became ACCEPTED with `accepted_at` now; every other row and table is kept |
| Calls.AcceptConsumesRequest | counsellorapp/views.py:182-198 | a write leaves one acceptable request fewer for that booking and counsellor, so repeated accepts terminate |
| Calls.Reject | counsellorapp/views.py:306-356 | a success that publishes nothing leaves the store unchanged |
| Calls.RejectSpec | counsellorapp/views.py:318-350 | the store changes iff the caller has a PENDING request for the booking; then exactly the newest-created such request becomes REJECTED; a broadcast is published iff changed and the channel is up, and it is one `call_rejected` to `call_<id>`; failures only for a missing id, a missing profile, or a channel fault after saving |
| Calls.CallStatusSpec | counsellorapp/views.py:116-152 | "none" iff the caller can see no request for the booking; otherwise the lower-cased status of the newest visible request |
| Calls.CallStatusOf | counsellorapp/views.py:113-159 | the reply carries the polled booking id and, for a request, a non-empty name; the only failure is a 500 |
| Calls.StatusNamesDistinct | counsellorapp/views.py:143 | lower-casing keeps the stored statuses apart |
| Calls.ActiveBookingSpec | counsellorapp/views.py:244-272 | 403 iff the caller has no counsellor profile; when the counsellor has a PENDING request, the reply is the booking of the newest-created one, flagged as pending |
| Calls.ActiveBooking | counsellorapp/views.py:244-303 | refusals are 403 or 500 only; a booking is reported iff a requester name is, the name is non-empty, and the pending flag comes with a booking |
| Calls.ActiveBookingFallback | counsellorapp/views.py:274-296 | without a PENDING request, the reply is the newest-created completed booking of the counsellor, not flagged as pending; no booking is reported iff there is none |
| Calls.ToggleActive | counsellorapp/views.py:73-83 | 404 iff the caller has no profile, with nothing changed; otherwise the caller's first profile row, and only it, has its flag set to the reply, which is the negation of the old flag |
| Calls.ToggleTwiceRestores | counsellorapp/views.py:76-81 | toggling twice restores the store; only the caller's profile changes |
| Ledger.CreateBooking | dashboard/views.py:115-122 | one booking is appended: pending, unpaid, for the counsellor's fee and duration, with the next id; nothing else changes |
| Ledger.CreateBookingFresh | dashboard/views.py:115-122 | when every id is below the counter, no earlier booking has the new id, looking it up finds the new row, and the invariant is kept |
| Ledger.NetAppend | userdetails/models.py:160-173 | appending a ledger row moves each account's sums by that row's effect |
| Ledger.NetOfAbsentWallet | userdetails/models.py:168 | an account without rows has zero ledger sums |
| Ledger.VerifyPayment | dashboard/views.py:141-215 | publishes nothing; every failure leaves the store unchanged |
| Ledger.VerifyPaymentSpec | dashboard/views.py:175-202 | success iff all three parameters are present, the signature is valid and exactly one booking has the order id; then that booking becomes wallet_credited, the requester's wallet (created at zero if missing) grows by the amount, other wallets are unchanged, and one DEPOSIT is appended |
| Ledger.DepositKeepsLedger | dashboard/views.py:182-192 | crediting a wallet (created at zero if missing) together with the matching DEPOSIT row keeps every wallet equal to its ledger |
| Ledger.VerifyPaymentKeepsLedger | dashboard/views.py:182-192 | payment credit preserves "every wallet equals the sum of its ledger rows" |
| Ledger.VerifyPaymentReplayCreditsAgain | dashboard/views.py:177-185 | verifying the same payment twice credits twice: the status is not checked |
| Ledger.SameOrderIdsCount | dashboard/views.py:177 | rewriting other columns keeps the number of bookings with an order id |
| Ledger.UnusedTime | dashboard/views.py:398-400 | unused time is never negative |
| Ledger.ExtraMinutes | dashboard/views.py:398-401 | the credited minutes are the whole part of the unused time |
| Ledger.CompleteFirstCall | dashboard/views.py:453-457 | the request table keeps its length |
| Ledger.CompleteFirstCallSpec | dashboard/views.py:453-457 | with no request nothing changes; otherwise exactly the newest-requested request of the booking becomes COMPLETED and ended now |
| Ledger.Settle | dashboard/views.py:366-478 | publishes nothing, for every input including a self-booked counsellor |
| Ledger.SettleGuards | dashboard/views.py:372-411 | success iff id and parseable duration given, the booking exists, is wallet_credited, and the requester has a wallet covering the fee |
| Ledger.SettleRefusalFrame | dashboard/views.py:389-411 | a refusal changes no booking, request, ledger row or existing wallet and adds at most the counsellor's empty wallet |
| Ledger.ApplySettlementWallets | dashboard/views.py:394-438 | the requester loses the fee and gains the extra minutes, the counsellor (wallet created if missing) gains the fee, their sum is unchanged, nobody else is touched |
| Ledger.ApplySettlement | dashboard/views.py:394-457 | the booking alone becomes completed, its newest-requested request is closed, the ledger gains exactly the settlement's rows, the wallets gain at most the counsellor's, and users, profiles and counters are untouched |
| Ledger.SelfSettlementLastSaveWins | dashboard/views.py:394-438 | a self-booked settlement stores the requester object when minutes were credited (saved last), otherwise the counsellor object |
| Ledger.SelfSettlementBreaksLedger | dashboard/views.py:413-447 | a self-booked settlement of a non-zero fee leaves the wallet different from its ledger sum |
| Ledger.SelfSettlementNet | dashboard/views.py:420-447 | the rows of a self-booked settlement cancel out in the account's money sum |
| Ledger.SettleSucceeds | dashboard/views.py:389-466 | a success acted on the first booking with the requested id, which was wallet_credited with a requester balance covering the fee; that booking alone becomes completed, its newest-requested request is closed as by `CompleteFirstCall`, the ledger gains exactly the settlement's rows, users and profiles are unchanged; the reply's balances are the requester's less the fee and the counsellor's plus the fee, and unless the counsellor booked themself they are the stored ones |
| Ledger.SettleConservesMoney | dashboard/views.py:413-417 | when the requester is not the counsellor, the fee leaves the requester and reaches the counsellor in full; the booking ends completed |
| Ledger.SettlementEntriesShape | dashboard/views.py:420-447 | a TRANSFER from the requester and a DEPOSIT to the counsellor of the fee, then an EXTRA_MINUTES_CREDIT only when minutes are credited, all tied to the booking |
| Ledger.SettlementEntries | dashboard/views.py:420-447 | two rows, or three exactly when minutes are credited, all tied to the booking, dated now, and on the requester's or the counsellor's account |
| Ledger.SettleExactlyOnce | dashboard/views.py:391-392 | a settled booking fails the status guard, so a second settlement changes nothing |
| Ledger.SettlementEntriesNet | dashboard/views.py:413-447 | the rows a settlement writes move each account's ledger sums by exactly its wallet change |
| Ledger.NewWalletsKeepLedger | dashboard/views.py:395 | creating empty wallets for accounts without ledger rows keeps every wallet equal to its ledger |
| Ledger.ApplySettlementKeepsLedger | dashboard/views.py:413-457 | the writes of a settlement keep every wallet equal to its ledger |
| Ledger.SettleKeepsLedger | dashboard/views.py:389-457 | settlement, successful or refused, of a booking whose requester is not its counsellor preserves "every wallet equals the sum of its ledger rows" |
| Ledger.SettlementScenario | dashboard/views.py:398-466 | fee 500.00, 20 minutes booked, 12 used: requester 0.00 with 8 extra minutes, counsellor 500.00, three ledger rows |
| Ledger.InsufficientFundsScenario | dashboard/views.py:395-411 | fee above the balance: 400, only the counsellor's empty wallet appears |
| Ledger.SettleIgnoresCalls | dashboard/views.py:389-411 | the outcome does not depend on any call request's status |
| Ledger.ExtraMinutesBounded | dashboard/views.py:398-401 | for a non-negative duration the credit is at most the booked minutes and misses the unused time by less than one minute |
| Ledger.NegativeDurationOvercredits | dashboard/views.py:382-401 | a negative duration is accepted and credits more minutes than were booked |
| Ledger.ExtraMinutesExamples | dashboard/views.py:398-401 | 12 of 20 minutes gives 8, 12.5 gives 7, overrunning gives 0 |
| Gateway.ExtractToken | dashboard/consumers.py:16-17 | a token exists iff the query string contains `token=`; it is the text after the first `token=` up to the next `&`, `token=` or the end, and contains neither |
| Gateway.TokenFromEnds | dashboard/consumers.py:17 | the text after the first `token=` ends at an `&`, another `token=` or the end, and contains neither |
| Gateway.TokenBeforeAmpersand | dashboard/consumers.py:17 | `token=abc&x=1` yields `abc` |
| Gateway.NoTokenKey | dashboard/consumers.py:16 | a query string without `token=` yields no token |
| Gateway.GroupAdd | dashboard/consumers.py:42 | the channel joins the group; other groups are kept |
| Gateway.GroupDiscard | dashboard/consumers.py:55-57 | the channel leaves the group; other groups are kept |
| Gateway.ViewGroupsNeverJoined | dashboard/consumers.py:12 | view broadcasts go to `call_` groups, which never equal a consumer's `counsellor_` group |
| Gateway.Connect | dashboard/consumers.py:8-52 | 4001 iff no or empty token; 4002 iff verification or lookup fails; 4003 iff the profile id differs from the URL's; 4004 iff every check passes and a setup step fails; the socket stays open, accepted and greeted once iff every check and setup step succeeds; earlier closes leave groups untouched; at most the channel's own group is joined |
| Gateway.PaddedIdRefused | dashboard/consumers.py:30-34 | ids are compared as text: `07` is refused for profile 7 |
| Gateway.ConnectAsWrittenNeverAccepts | dashboard/consumers.py:24-38 | as written no connection is ever accepted: 4001 without a token, 4002 for every token |
| Gateway.ConnectAsWritten | dashboard/consumers.py:24-38 | as written the socket is never accepted or greeted, keeps the groups, and closes with 4001 or 4002 |
| Gateway.ConnectAsWrittenDiffers | dashboard/consumers.py:27 | a valid counsellor is accepted by the corrected connect and refused with 4002 as written |
| Gateway.DiscardUndoesAdd | dashboard/consumers.py:42-57 | discarding an absent channel changes nothing; discarding right after adding restores the registry |
| Gateway.DisconnectUndoesConnect | dashboard/consumers.py:54-57 | disconnect restores the groups connect started from, whatever connect decided |
| Gateway.Disconnect | dashboard/consumers.py:54-57 | the channel is no longer in its counsellor group; every other group is kept; no group is added |
| Gateway.CallNotification | dashboard/consumers.py:60-75 | a notification is sent iff the event has room, token, user and booking fields and the send works; it forwards those fields |
| Gateway.ViewEventsNotForwarded | dashboard/consumers.py:60-75 | the `type`/`message` events the views publish would never be forwarded |
| ZegoToken.ValidationOrder | utils/zego_token.py:59-66 | error 1, 3, 5, 6 each iff its check fails and all earlier ones pass; no error iff all pass |
| ZegoToken.ValidationError | utils/zego_token.py:59-66 | no error iff the app id is a non-zero int, the user id a non-empty str, the secret a 32-character str and the effective time a positive int; an error carries one of the codes 1, 3, 5, 6 |
| ZegoToken.BoolAppIdRejected | utils/zego_token.py:59 | a bool app id is refused with code 1 |
| ZegoToken.GenerateToken04 | utils/zego_token.py:45-102 | a failed check gives an empty token with that check's code; when all checks pass the result is either a raise or error code 0 with a token starting "04" |
| ZegoToken.GenerateRaisesWhen | utils/zego_token.py:67-97 | after validation, building raises iff the secret is not ASCII, the expiry exceeds int64, or the ciphertext length exceeds int16 |
| ZegoToken.GeneratedTokenLayout | utils/zego_token.py:67-102 | a successful token is "04" + base64 of a layout that parses back to expiry = now + effective time (> now), the IV bytes and the ciphertext of the claims |
| ZegoToken.Utf8 | utils/zego_token.py:32 | the encoding is never shorter than the text, and has its length iff the text is ASCII |
| ZegoToken.Utf8Append | utils/zego_token.py:36-42 | encoding distributes over concatenation |
| ZegoToken.Utf8Repeat | utils/zego_token.py:36 | repeated ASCII characters encode to repeated bytes |
| ZegoToken.PyMod | utils/zego_token.py:33 | Python's `%`: for a positive divisor the Euclidean remainder, for a negative one a remainder in (b, 0] |
| ZegoToken.Pkcs5Padding | utils/zego_token.py:31-37 | None iff the block size is negative; otherwise the text is extended by p copies of chr(p), 1 <= p <= block size, p = block size − (UTF-8 length mod block size) |
| ZegoToken.PaddedIsAligned | utils/zego_token.py:41-42 | for 16-byte blocks the padded encoding is a whole number of blocks, at most one block longer |
| ZegoToken.Pkcs5Unpad | utils/zego_token.py:31-37 | unpadding removes 1..block size trailing bytes |
| ZegoToken.UnpadRepeat | utils/zego_token.py:33-37 | bytes followed by p copies of p, 1 <= p <= 16, unpad to those bytes |
| ZegoToken.PaddingRoundTrip | utils/zego_token.py:31-42 | unpadding the padded encoding gives back the encoding of the text |
| ZegoToken.AesEncrypt | utils/zego_token.py:39-43 | raises iff the key is not 16/24/32 bytes or the IV is not 16 bytes; with a length-preserving cipher the output is whole blocks longer than the plaintext |
| ZegoToken.SecretKeyNeedsAscii | utils/zego_token.py:39-43 | a 32-character secret is a valid AES key iff it is ASCII |
| ZegoToken.MakeRandomIv | utils/zego_token.py:23-29 | 16 characters, each from `0123456789abcdef`, the i-th chosen by the i-th draw |
| ZegoToken.IvBytes | utils/zego_token.py:90-94 | an IV is 16 bytes |
| ZegoToken.BigEndian | utils/zego_token.py:87-97 | n bytes whose big-endian value is the input |
| ZegoToken.BigEndianOfValue | utils/zego_token.py:87-97 | bytes are determined by their value |
| ZegoToken.PackSigned | utils/zego_token.py:87-97 | `struct.pack` raises iff out of range; otherwise n bytes whose two's-complement value is the input |
| ZegoToken.PackSignedValue | utils/zego_token.py:87-97 | every n bytes are the packing of their signed value |
| ZegoToken.TokenLayout | utils/zego_token.py:84-99 | raises iff expiry or ciphertext length do not fit; otherwise length = ciphertext + 28, expiry at 0..8, 16 at 8..10, IV at 10..26, length at 26..28, ciphertext from 28 |
| ZegoToken.LayoutRoundTrip | utils/zego_token.py:84-99 | layout and parse are inverse in both directions |
| Accounts.RemoveChar | userdetails/models.py:14 | `replace(c, "")` removes every c and keeps every other character's count |
| Accounts.NormalizePhone | userdetails/models.py:12-14 | no space or dash survives; every other character keeps its count |
| Accounts.NormalizeIsFilter | userdetails/models.py:14 | the two replaces equal a one-pass filter, so order is kept |
| Accounts.NormalizeIdempotent | userdetails/models.py:12-14 | normalising twice changes nothing |
| Accounts.PhoneValidMatches | userdetails/models.py:42-45 | every accepted phone splits into the pattern's parts |
| Accounts.PatternSplitValid | userdetails/models.py:42-45 | every split into the pattern's parts is accepted |
| Accounts.PhoneValidIsPattern | userdetails/models.py:42-45 | the direct check accepts exactly what `^\+?1?\d{9,15}$` matches |
| Accounts.PhoneValid | userdetails/models.py:42-45 | an accepted phone has 9 to 18 characters, each a digit except a leading `+` and a final newline |
| Accounts.PhoneExamplesAccepted | userdetails/models.py:43 | `+919876543210`, 16 digits after a `1`, and 9 digits with a trailing newline are accepted |
| Accounts.PhoneExamplesRefused | userdetails/models.py:43 | 16 digits not starting with `1`, and 8 digits after a `+`, are refused |
| Accounts.NextUserId | userdetails/models.py:25 | a new primary key differs from every existing one |
| Accounts.CreateUser | userdetails/models.py:16-26 | fails iff the phone is missing or empty; otherwise appends one user with a fresh id and the normalised phone, a usable password iff a non-empty one is given, and the given flags |
| Accounts.CreateUserMayStoreEmptyPhone | userdetails/models.py:17-19 | the emptiness check precedes normalisation, so " - " is stored as "" |
| Accounts.CreateUserSkipsPattern | userdetails/models.py:19-25 | the phone pattern is not applied on creation |
| Accounts.CreateSuperuser | userdetails/models.py:28-36 | refused for a passed staff flag that is not True, then for a superuser flag that is not True, then for a missing or empty phone; succeeds iff none applies, and then appends one user with a fresh id and the normalised phone, staff and superuser, and admin unless told otherwise |
| Accounts.SuperuserExtendsCreateUser | userdetails/models.py:28-36 | with acceptable flags, a superuser is created iff the plain user would be, and is that user with staff and superuser set and admin by default |
| Accounts.SuperuserNeedsLiteralTrue | userdetails/models.py:32-33 | a truthy non-True staff flag is refused |
| Accounts.SaveProfile | userdetails/models.py:120-124 | an empty phone is filled from the owner; otherwise nothing changes |
| Accounts.CleanProfile | userdetails/models.py:115-118 | passes iff the phone equals the owner's |
| Accounts.SaveThenClean | userdetails/models.py:115-124 | after saving, clean passes iff the phone was empty or the owner's |
| Accounts.EntryKindNamesDistinct | userdetails/models.py:161-166 | the four transaction kinds have distinct stored names |
| Serializers.MappedChoice | userdetails/serializers.py:9-19 | a key is returned unchanged; otherwise the first case-insensitive display-name match gives its key; otherwise `invalid_choice` |
| Serializers.GenderKeyKept | userdetails/serializers.py:12 | `M` stays `M` |
| Serializers.GenderDisplayMapped | userdetails/serializers.py:15-17 | `FEMALE` maps to `F` |
| Serializers.GenderLowerKeyRefused | userdetails/serializers.py:19 | `m` is neither a key nor a display name |
| Serializers.ValidateAge | userdetails/serializers.py:84-87 | passes iff absent or within 18..100, unchanged |
| Serializers.MissingCounsellorField | userdetails/serializers.py:74-80 | none missing iff name, email and age are all non-empty |
| Serializers.ValidateProfile | userdetails/serializers.py:53-81 | phone-taken error iff a non-empty phone belongs to another profile; email-taken iff not that and a non-empty email belongs to another; success iff neither and, when creating a counsellor, nothing is missing |
| Serializers.OwnValuesAllowedOnUpdate | userdetails/serializers.py:59-71 | a profile keeps its own phone and email on update, but a new profile may not reuse them |
| Serializers.UnwrapSingletons | userdetails/serializers.py:41-51 | keys are kept; single-element lists become their element; every other value is untouched |
| Serializers.UnwrapChangesOnlySingletons | userdetails/serializers.py:45-49 | unwrapping is the identity iff no value is a single-element list |
| Serializers.UnwrapOneLevel | userdetails/serializers.py:46-47 | only one level of nesting is removed |
| Serializers.CreateProfile | userdetails/serializers.py:89-93 | fails iff no user is in the context; otherwise the profile belongs to that user, is active unless `is_active` false was submitted, has the model defaults otherwise and the user's phone when none was given |
| Serializers.CreatedProfileClean | userdetails/serializers.py:89-93 | a created profile passes clean iff no phone was given or it is the user's |
| Serializers.TrimmedText | userdetails/serializers.py:105-118 | missing is `required`; a `strip()` to nothing is `blank`; otherwise the stripped text |
| Serializers.RequiredText | userdetails/serializers.py:105-118 | missing is `required`; all-whitespace is `blank`; a NUL in the trimmed text is refused; otherwise the `strip()`ped text, which has no surrounding whitespace |
| Serializers.PhoneField | userdetails/serializers.py:105-114 | passes iff the trimmed text matches the phone pattern |
| Serializers.PhoneFieldHasNoNewline | userdetails/serializers.py:108-114 | after trimming, an accepted phone has no trailing newline and 9 to 16 digits |
| Serializers.TrimmedPhoneDigits | userdetails/models.py:42-45 | a pattern-valid phone without a final newline is 9 to 16 digits after an optional `+` |
| Serializers.PhoneNumberRequest | userdetails/serializers.py:105-114 | valid iff the phone field passes; errors name only `phone_number` |
| Serializers.OtpField | userdetails/serializers.py:118 | after the required and blank checks, more than 6 trimmed characters fail `max_length`, fewer fail `min_length`, then a NUL is refused; passes iff the trimmed text has exactly 6 characters and no NUL |
| Serializers.OtpVerificationRequest | userdetails/serializers.py:116-126 | valid iff both fields pass; every failing field is reported |
| Serializers.OtpTrimmed | userdetails/serializers.py:118 | surrounding spaces do not count toward the six characters |

## Left out

- HMAC signature check, Razorpay order creation: the signature outcome is a boolean parameter; the gateway order is not modelled.
- AES-CBC, JSON rendering, base64, `random`, `time.time()`: parameters. Only "encryption preserves the length of block-aligned input" is assumed, as a hypothesis where used.
- The nonce's 31-bit range is not checked: it is only carried into the claims.
- `channel_layer.group_send` and the async consumer machinery: publishes are an event list; the consumer is a decision function; concurrency is not modelled.
- Transactions: each view is one step. The accept and reject views have no atomic block, so the saved request stays saved when the broadcast then fails (the 500 paths of `Calls.Accept` and `Calls.Reject`). The end-call and initiate views are atomic, but catch their exceptions inside it, so the transaction commits whatever was written before a late failure. The payment credit writes only after all its checks, so none of its refusals has anything to roll back.
- Ledger.SettleConservesMoney: requires `RequestedNotSelf`. A counsellor who booked themself has one wallet row loaded as two objects, the last save wins (`Ledger.SelfSettlementLastSaveWins`), and the fee does not move between two accounts.
- Ledger.SettleKeepsLedger: requires `RequestedNotSelf`, because for a self-booked settlement of a non-zero fee the invariant is false (`Ledger.SelfSettlementBreaksLedger`).
- Logging, the `description` text of ledger rows and response message wording beyond the error status.
- Decimal overflow of `numeric(10, 2)` columns at save, and the float conversions of amounts in the order view.
- Unicode: `lower()` is modelled on ASCII letters only and `\d` as the ASCII digits; `strip()` cuts every character `str.isspace()` accepts. JSON rendering is a parameter.
- Ledger.ExtraMinutes: `actual_duration` is parsed with `Decimal(str(x))` and is modelled as an exact real. Not modelled: the 28-digit rounding of `Decimal` arithmetic; `NaN` and `-Infinity`, which make the comparison or the `int()` conversion raise and give a 500 after the counsellor's wallet was created; `Infinity`, which gives 0 minutes. The model's `DurationUnparseable` stands for every text `Decimal` refuses.
- Booking ids: `booking_id` is modelled as an optional integer. The views receive it as JSON, so a string id is possible: `"0"` is truthy and then finds no booking, a non-numeric string makes the lookup raise (a 500), and `"07"` finds booking 7 while the broadcast goes to `call_07`. These string cases are not modelled.
- Serializers.RequiredText: DRF runs every validator and reports all their messages; the model reports the first failing one. Surrogate code points cannot occur, as a Dafny `char` excludes them, so `ProhibitSurrogateCharactersValidator` never fires here.
- Serializers.OtpField: as for `Serializers.RequiredText`, only the first failing validator's message is reported.
- Django `BooleanField` conversion of odd flag values: `Accounts.StoredFlag` stores the value's truth.
- Ledger.CreateBooking: the booking model in dashboard/models.py declares no `session_duration` column. The model assumes that column exists, holding the counsellor's session length. As written, creating the booking would raise (a 500 from the order view), and settlement would raise reading the duration (a 500 after the counsellor's wallet was created). These failures are not modelled.
- Serializers.ValidateProfile: the profile serializer's field list names `dob`, which the profile model does not declare. As written, building the serializer's fields raises `ImproperlyConfigured` inside `is_valid()` and `.data`, so `validate`, `validate_age` and `create` are never reached. The model assumes the field list builds. It states what those methods do once reached: Serializers.ValidateProfile, Serializers.ValidateAge, Serializers.MissingCounsellorField, Serializers.OwnValuesAllowedOnUpdate, Serializers.CreateProfile and Serializers.CreatedProfileClean. The raising path is not modelled.
- Serializers.UnwrapSingletons: modelled for a JSON body, a dict whose values may be lists. A form or multipart body arrives as a `QueryDict`, whose `items()` yields each key's last value, so no list reaches the unwrapping there and `a=1&a=2` becomes `"2"`. That body kind is not modelled.
- Database integrity errors (unique phone, one profile per user) raised by inserts are not modelled.
- Calls.Accept: the "No pending call request" and not-found paths are covered by `Calls.AcceptSpec`; the literal response bodies are not.
- Ordering ties between rows with equal timestamps go to the last inserted row.
- `EndCallView` is not routed in dashboard/urls.py; it is modelled as written.
- Views, middleware and serializers outside the modules above, the admin app, migrations and routing.

## Findings

| source | as written | input that shows it | evidently intended | confidence | as-written member | corrected member |
|---|---|---|---|---|---|---|
| dashboard/consumers.py:27 | `UserProfile` is used but only `User` is imported (line 5), so the lookup raises a name error, caught as "invalid token" | a valid token for the counsellor's own profile, URL id "7" | the profile of the token's user is looked up and compared with the URL id | high (not executed) | Gateway.ConnectAsWrittenNeverAccepts | Gateway.Connect |
