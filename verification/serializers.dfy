/** The profile serializers: the mapped gender choice field, the age and
    cross-field checks, the unwrapping of single-element lists, creation,
    and the phone and OTP request serializers. A serializer error is the failing field's
    name with its message. */
module Serializers {
  import opened Wrappers
  import opened Text
  import opened Models
  import opened Accounts
  import opened Queries

  datatype FieldError = FieldError(field: string, message: string)

  // ------------------------------------------------ mapped choice field

  datatype Choice = Choice(key: string, display: string)

  const GenderChoices: seq<Choice> := [Choice("M", "Male"), Choice("F", "Female"), Choice("O", "Other")]

  predicate IsKey(choices: seq<Choice>, data: string) {
    exists i :: 0 <= i < |choices| && choices[i].key == data
  }

  predicate DisplayMatches(c: Choice, data: string) {
    LowerAscii(c.display) == LowerAscii(data)
  }

  /** `MappedChoiceField.to_internal_value`: a key is taken as it is;
      otherwise the first choice whose display name matches ignoring case
      gives its key; otherwise `invalid_choice`. */
  function MappedChoice(choices: seq<Choice>, data: string): (r: Result<string, string>)
    ensures IsKey(choices, data) ==> r == Success(data)
    ensures !IsKey(choices, data) ==>
      (r.Success? <==> exists i :: 0 <= i < |choices| && DisplayMatches(choices[i], data))
    ensures r.Success? && !IsKey(choices, data) ==>
      exists i :: 0 <= i < |choices| && DisplayMatches(choices[i], data) && r.value == choices[i].key
        && forall j :: 0 <= j < i ==> !DisplayMatches(choices[j], data)
    ensures r.Failure? ==> r.error == "invalid_choice"
  {
    if IsKey(choices, data) then Success(data)
    else match FirstWhere(choices, (c: Choice) => DisplayMatches(c, data))
      case Some(i) => Success(choices[i].key)
      case None => Failure("invalid_choice")
  }

  /** A key passes through unchanged. */
  lemma GenderKeyKept()
    ensures MappedChoice(GenderChoices, "M") == Success("M")
  {
    assert GenderChoices[0].key == "M";
  }

  /** A display name in any case maps to its key. */
  lemma GenderDisplayMapped()
    ensures MappedChoice(GenderChoices, "FEMALE") == Success("F")
  {
    var data := "FEMALE";
    assert !IsKey(GenderChoices, data) by {
      assert forall j :: 0 <= j < 3 ==> |GenderChoices[j].key| == 1;
    }
    assert LowerAscii(data) == "female";
    assert LowerAscii("Female") == "female";
    assert DisplayMatches(GenderChoices[1], data);
    assert !DisplayMatches(GenderChoices[0], data) by {
      assert |LowerAscii("Male")| == 4;
    }
    var r := MappedChoice(GenderChoices, data);
    var i :| 0 <= i < |GenderChoices| && DisplayMatches(GenderChoices[i], data) && r.value == GenderChoices[i].key
      && forall j :: 0 <= j < i ==> !DisplayMatches(GenderChoices[j], data);
    assert i == 1;
  }

  /** A lower-case key is neither a key nor a display name. */
  lemma GenderLowerKeyRefused()
    ensures MappedChoice(GenderChoices, "m") == Failure("invalid_choice")
  {
    assert !IsKey(GenderChoices, "m") by {
      assert forall j :: 0 <= j < 3 ==> GenderChoices[j].key[0] != 'm';
    }
    assert forall j :: 0 <= j < 3 ==> |LowerAscii(GenderChoices[j].display)| != 1;
  }

  // -------------------------------------------------------------- age

  const MinAge: int := 18
  const MaxAge: int := 100

  /** `validate_age`: no value passes; a value must lie in 18..100. */
  function ValidateAge(value: Option<int>): (r: Result<Option<int>, string>)
    ensures r.Success? <==> value.None? || MinAge <= value.value <= MaxAge
    ensures r.Success? ==> r.value == value
  {
    if value.Some? && (value.value < MinAge || value.value > MaxAge) then Failure("Age must be between 18 and 100.")
    else Success(value)
  }

  // --------------------------------------------------------- validate

  const PhoneTakenError: FieldError := FieldError("phone_number", "A profile with this phone number already exists.")
  const EmailTakenError: FieldError := FieldError("email", "A profile with this email already exists.")

  /** The fields `validate` reads and `create` stores, after field-level
      validation; None is a field the request left out. */
  datatype ProfileData = ProfileData(
    phone: Option<string>, email: Option<string>, role: Option<Role>, name: Option<string>, age: Option<int>,
    isActive: Option<bool>)

  /** A submitted flag is stored; a missing one takes the model default. */
  function ActiveFlag(data: ProfileData): bool {
    if data.isActive.Some? then data.isActive.value else true
  }

  predicate Blank(s: Option<string>) {
    s.None? || s.value == ""
  }

  /** Another profile (not the one being updated) with this phone. */
  predicate PhoneTaken(profiles: seq<Profile>, phone: string, instance: Option<ProfileId>) {
    exists p :: p in profiles && p.phone == phone && (instance.None? || p.id != instance.value)
  }

  /** Another profile (not the one being updated) with this email. */
  predicate EmailTaken(profiles: seq<Profile>, email: string, instance: Option<ProfileId>) {
    exists p :: p in profiles && p.email == Some(email) && (instance.None? || p.id != instance.value)
  }

  /** The first of name, email and age that a new counsellor leaves empty. */
  function MissingCounsellorField(data: ProfileData): (r: Option<string>)
    ensures r.None? <==> !Blank(data.name) && !Blank(data.email) && !Falsy(data.age)
    ensures r.Some? ==> r.value in ["name", "email", "age"]
  {
    if Blank(data.name) then Some("name")
    else if Blank(data.email) then Some("email")
    else if Falsy(data.age) then Some("age")
    else None
  }

  /** `UserProfileSerializer.validate`: a non-empty phone or email already
      used by another profile is refused, phone first; creating a
      counsellor needs a name, an email and a non-zero age, while an update
      skips that check. */
  function ValidateProfile(profiles: seq<Profile>, instance: Option<ProfileId>, data: ProfileData)
    : (r: Result<ProfileData, FieldError>)
    ensures r.Success? ==> r.value == data
    ensures r == Failure(PhoneTakenError) <==>
      !Blank(data.phone) && PhoneTaken(profiles, data.phone.value, instance)
    ensures r == Failure(EmailTakenError) <==>
      !(!Blank(data.phone) && PhoneTaken(profiles, data.phone.value, instance))
      && !Blank(data.email) && EmailTaken(profiles, data.email.value, instance)
    ensures r.Success? <==>
      && !(!Blank(data.phone) && PhoneTaken(profiles, data.phone.value, instance))
      && !(!Blank(data.email) && EmailTaken(profiles, data.email.value, instance))
      && (instance.Some? || data.role != Some(Counsellor) || MissingCounsellorField(data).None?)
  {
    if !Blank(data.phone) && PhoneTaken(profiles, data.phone.value, instance) then Failure(PhoneTakenError)
    else if !Blank(data.email) && EmailTaken(profiles, data.email.value, instance) then Failure(EmailTakenError)
    else if data.role == Some(Counsellor) && instance.None? && MissingCounsellorField(data).Some? then
      var f := MissingCounsellorField(data).value;
      Failure(FieldError(f, f + " is required for counsellors."))
    else Success(data)
  }

  /** A profile may keep its own phone and email on update, but a new
      profile may not reuse them. */
  lemma OwnValuesAllowedOnUpdate(p: Profile, data: ProfileData)
    requires data.phone == Some(p.phone) && data.email == p.email && data.role != Some(Counsellor)
    ensures ValidateProfile([p], Some(p.id), data).Success?
    ensures p.phone != "" ==> ValidateProfile([p], None, data) == Failure(PhoneTakenError)
  {
  }

  // ------------------------------------------------------ request data

  /** A value of a JSON request body: text, or a list of values. */
  datatype FormValue = Atom(text: string) | Items(values: seq<FormValue>)

  predicate IsSingleton(v: FormValue) {
    v.Items? && |v.values| == 1
  }

  /** `UserProfileSerializer.__init__` on a JSON body (a dict):
      single-element lists are replaced by their element, every other value
      is kept; absent data stays absent. */
  function UnwrapSingletons(data: Option<map<string, FormValue>>): (r: Option<map<string, FormValue>>)
    ensures r.None? <==> data.None?
    ensures r.Some? ==> r.value.Keys == data.value.Keys
    ensures r.Some? ==> forall k :: k in data.value ==>
      (if IsSingleton(data.value[k]) then r.value[k] == data.value[k].values[0] else r.value[k] == data.value[k])
  {
    match data
    case None => None
    case Some(m) => Some(map k | k in m :: if IsSingleton(m[k]) then m[k].values[0] else m[k])
  }

  /** Unwrapping changes the data exactly when some value is a
      single-element list; it unwraps one level only. */
  lemma UnwrapChangesOnlySingletons(m: map<string, FormValue>)
    ensures UnwrapSingletons(Some(m)) == Some(m) <==> forall k :: k in m ==> !IsSingleton(m[k])
  {
    var r := UnwrapSingletons(Some(m)).value;
    if r == m {
      forall k | k in m ensures !IsSingleton(m[k]) {
        assert r[k] == m[k];
      }
    }
  }

  /** One level only: a list holding a one-element list becomes that list. */
  lemma UnwrapOneLevel()
    ensures UnwrapSingletons(Some(map["gender" := Items([Items([Atom("M")])])]))
            == Some(map["gender" := Items([Atom("M")])])
  {
    var m := map["gender" := Items([Items([Atom("M")])])];
    var r := UnwrapSingletons(Some(m)).value;
    var expected := map["gender" := Items([Atom("M")])];
    assert r.Keys == expected.Keys;
    assert IsSingleton(m["gender"]);
    assert r["gender"] == expected["gender"];
    assert r == expected;
  }

  // ------------------------------------------------------------ create

  /** `UserProfileSerializer.create`: without a user in the context it
      fails; otherwise the profile is created for that user with the
      model's defaults (role normal, active) for the fields the request
      leaves out, and saved, so an empty phone
      is filled from the user's. */
  function CreateProfile(contextUser: Option<User>, data: ProfileData, newId: ProfileId): (r: Result<Profile, string>)
    ensures r.Success? <==> contextUser.Some?
    ensures r.Success? ==>
      && r.value.user == contextUser.value.id
      && r.value.id == newId
      && r.value.role == (if data.role.Some? then data.role.value else Normal)
      && (r.value.isActive <==> data.isActive != Some(false))
      && r.value.name == data.name && r.value.email == data.email && r.value.age == data.age
      && (Blank(data.phone) ==> r.value.phone == contextUser.value.phone)
      && (!Blank(data.phone) ==> r.value.phone == data.phone.value)
  {
    match contextUser
    case None => Failure("User must be provided to create a UserProfile.")
    case Some(u) =>
      var phone := if data.phone.Some? then data.phone.value else "";
      Success(SaveProfile(Profile(newId, u.id, if data.role.Some? then data.role.value else Normal, ActiveFlag(data),
                                  phone, data.name, data.email, data.age), u))
  }

  /** A created profile passes `clean` exactly when no phone was given or
      the given phone is the user's own. */
  lemma CreatedProfileClean(u: User, data: ProfileData, newId: ProfileId)
    ensures CleanProfile(CreateProfile(Some(u), data, newId).value, u).Success?
            <==> Blank(data.phone) || data.phone.value == u.phone
  {
    SaveThenClean(Profile(newId, u.id, if data.role.Some? then data.role.value else Normal, ActiveFlag(data),
                          if data.phone.Some? then data.phone.value else "", data.name, data.email, data.age), u);
  }

  // ---------------------------------------------- phone and OTP requests

  /** The character `ProhibitNullCharactersValidator` refuses. */
  const Nul: char := 0 as char

  /** The first steps of a required `CharField`: missing is `required`;
      surrounding whitespace is trimmed, and nothing left is `blank`. */
  function TrimmedText(raw: Option<string>): (r: Result<string, string>)
    ensures raw.None? ==> r == Failure("required")
    ensures raw.Some? ==> (r == Failure("blank") <==> Strip(raw.value) == "")
    ensures raw.Some? && r.Success? ==> r.value == Strip(raw.value) && r.value != ""
  {
    match raw
    case None => Failure("required")
    case Some(s) => if Strip(s) == "" then Failure("blank") else Success(Strip(s))
  }

  /** A required `CharField` with no length limits: the trimmed text, which
      must not contain a NUL character. */
  function RequiredText(raw: Option<string>): (r: Result<string, string>)
    ensures raw.None? ==> r == Failure("required")
    ensures raw.Some? ==> (r == Failure("blank") <==> Strip(raw.value) == "")
    ensures r.Success? <==> raw.Some? && Strip(raw.value) != "" && Nul !in Strip(raw.value)
    ensures r.Success? ==> r.value == Strip(raw.value)
    ensures r.Success? ==> r.value != "" && !IsSpace(r.value[0]) && !IsSpace(r.value[|r.value| - 1])
  {
    match TrimmedText(raw)
    case Failure(e) => Failure(e)
    case Success(s) => if Nul in s then Failure("null_characters_not_allowed") else Success(s)
  }

  /** The phone field of the phone and OTP serializers: trimmed, then the
      same pattern as the model. */
  function PhoneField(raw: Option<string>): (r: Result<string, string>)
    ensures r.Success? ==> PhoneValid(r.value) && RequiredText(raw) == Success(r.value)
    ensures r.Failure? <==> RequiredText(raw).Failure? || !PhoneValid(RequiredText(raw).value)
  {
    match RequiredText(raw)
    case Failure(e) => Failure(e)
    case Success(s) => if PhoneValid(s) then Success(s) else Failure("invalid")
  }

  /** Trimming happens first, so the pattern's allowance for a final
      newline never admits one here: an accepted phone is 9 to 16 digits
      after an optional `+`. */
  lemma PhoneFieldHasNoNewline(raw: Option<string>)
    requires PhoneField(raw).Success?
    ensures var s := PhoneField(raw).value;
      s[|s| - 1] != '\n'
      && var digits := if s[0] == '+' then s[1..] else s;
         AllDigits(digits) && 9 <= |digits| <= 16
  {
    var s := PhoneField(raw).value;
    assert PhoneValid(s) && RequiredText(raw) == Success(s);
    RequiredTextNoFinalNewline(raw);
    assert s != [] && s[|s| - 1] != '\n';
    TrimmedPhoneDigits(s);
  }

  /** Accepted required text never ends in a newline, as that is
      whitespace and is trimmed. */
  lemma RequiredTextNoFinalNewline(raw: Option<string>)
    requires RequiredText(raw).Success?
    ensures var v := RequiredText(raw).value; v != "" && v[|v| - 1] != '\n'
  {
    var v := RequiredText(raw).value;
    assert !IsSpace(v[|v| - 1]);
  }

  /** A pattern-valid phone that does not end in a newline is digits after
      an optional `+`, 9 to 16 of them. */
  lemma TrimmedPhoneDigits(s: string)
    requires PhoneValid(s) && s != [] && s[|s| - 1] != '\n'
    ensures var digits := if s[0] == '+' then s[1..] else s;
      AllDigits(digits) && 9 <= |digits| <= 16
  {
  }

  /** `PhoneNumberSerializer`. */
  function PhoneNumberRequest(phone: Option<string>): (r: Result<string, map<string, string>>)
    ensures r.Success? <==> PhoneField(phone).Success?
    ensures r.Failure? ==> r.error.Keys == {"phone_number"}
  {
    match PhoneField(phone)
    case Success(s) => Success(s)
    case Failure(e) => Failure(map["phone_number" := e])
  }

  const OtpLength: nat := 6

  /** The OTP field: trimmed text of exactly six characters, none NUL.
      The validators run in the order the field declares them: maximum
      length, minimum length, then the NUL check. */
  function OtpField(raw: Option<string>): (r: Result<string, string>)
    ensures r.Success? <==> RequiredText(raw).Success? && |RequiredText(raw).value| == OtpLength
    ensures r.Success? ==> r.value == RequiredText(raw).value
    ensures r == Failure("max_length") <==> TrimmedText(raw).Success? && |TrimmedText(raw).value| > OtpLength
    ensures r == Failure("min_length") <==> TrimmedText(raw).Success? && |TrimmedText(raw).value| < OtpLength
  {
    match TrimmedText(raw)
    case Failure(e) => Failure(e)
    case Success(s) =>
      if |s| > OtpLength then Failure("max_length")
      else if |s| < OtpLength then Failure("min_length")
      else if Nul in s then Failure("null_characters_not_allowed")
      else Success(s)
  }

  datatype OtpRequest = OtpRequest(phone: string, otp: string)

  /** `OTPVerificationSerializer`: both fields are validated and every
      failing field is reported. */
  function OtpVerificationRequest(phone: Option<string>, otp: Option<string>): (r: Result<OtpRequest, map<string, string>>)
    ensures r.Success? <==> PhoneField(phone).Success? && OtpField(otp).Success?
    ensures r.Success? ==> PhoneValid(r.value.phone) && |r.value.otp| == OtpLength
    ensures r.Failure? ==>
      && ("phone_number" in r.error <==> PhoneField(phone).Failure?)
      && ("otp" in r.error <==> OtpField(otp).Failure?)
  {
    var p := PhoneField(phone);
    var o := OtpField(otp);
    if p.Success? && o.Success? then Success(OtpRequest(p.value, o.value))
    else
      var errors := if p.Failure? then map["phone_number" := p.error] else map[];
      Failure(if o.Failure? then errors["otp" := o.error] else errors)
  }

  /** Surrounding spaces do not count towards the six characters. */
  lemma OtpTrimmed()
    ensures OtpField(Some(" 123456 ")) == Success("123456")
  {
    StripPadded(" ", "123456", " ");
    assert " " + "123456" + " " == " 123456 ";
    assert TrimmedText(Some(" 123456 ")) == Success("123456");
    assert Nul !in "123456" by {
      forall i | 0 <= i < 6 ensures "123456"[i] != Nul {
      }
    }
  }
}
