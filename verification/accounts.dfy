/** The account side of userdetails: phone normalisation, the phone
    pattern, user and superuser creation, profile save/clean, and the
    wallet and ledger-entry shapes. */
module Accounts {
  import opened Wrappers
  import opened Text
  import opened Models

  // ------------------------------------------------------- normalisation

  /** `s.replace(c, "")`: every `c` removed, everything else kept in order. */
  function RemoveChar(s: string, c: char): (r: string)
    ensures c !in r
    ensures forall x :: x != c ==> multiset(r)[x] == multiset(s)[x]
    ensures c !in s ==> r == s
  {
    if s == [] then []
    else
      var init := RemoveChar(s[..|s| - 1], c);
      assert s == s[..|s| - 1] + [s[|s| - 1]];
      if s[|s| - 1] == c then init else init + [s[|s| - 1]]
  }

  predicate IsSeparator(c: char) {
    c == ' ' || c == '-'
  }

  /** The characters that are not separators, in order, in one pass. */
  function DropSeparators(s: string): (r: string)
    ensures |r| <= |s|
  {
    if s == [] then []
    else if IsSeparator(s[|s| - 1]) then DropSeparators(s[..|s| - 1])
    else DropSeparators(s[..|s| - 1]) + [s[|s| - 1]]
  }

  /** `normalize_phone_number`: spaces removed, then dashes removed. No
      separator survives and every other character keeps its count. */
  function NormalizePhone(s: string): (r: string)
    ensures forall i :: 0 <= i < |r| ==> !IsSeparator(r[i])
    ensures forall x :: !IsSeparator(x) ==> multiset(r)[x] == multiset(s)[x]
  {
    var spaced := RemoveChar(s, ' ');
    var r := RemoveChar(spaced, '-');
    assert multiset(r)[' '] == multiset(spaced)[' '] == 0;
    r
  }

  /** The two passes equal the one-pass filter, so the kept characters
      also keep their order. */
  lemma {:induction false} NormalizeIsFilter(s: string)
    ensures NormalizePhone(s) == DropSeparators(s)
  {
    if s != [] {
      var init := s[..|s| - 1];
      var x := s[|s| - 1];
      NormalizeIsFilter(init);
      var spaced := RemoveChar(init, ' ');
      if x != ' ' {
        assert RemoveChar(s, ' ') == spaced + [x];
        assert (spaced + [x])[..|spaced + [x]| - 1] == spaced;
      }
    }
  }

  /** Normalising twice changes nothing. */
  lemma NormalizeIdempotent(s: string)
    ensures NormalizePhone(NormalizePhone(s)) == NormalizePhone(s)
  {
    var r := NormalizePhone(s);
    assert ' ' !in r && '-' !in r by {
      forall i | 0 <= i < |r| ensures r[i] != ' ' && r[i] != '-' {
        assert !IsSeparator(r[i]);
      }
    }
  }

  // ------------------------------------------------------- phone pattern

  /** The phone pattern `^\+?1?\d{9,15}$` as matched by `re.search`: `$`
      also matches before one final newline, and the optional `1` may
      instead be read as the first of the digits. */
  function PhoneValid(s: string): (b: bool)
    ensures b ==> 9 <= |s| <= 18
    ensures b ==> forall i :: 0 <= i < |s| ==> IsDigit(s[i]) || (i == 0 && s[i] == '+') || (i == |s| - 1 && s[i] == '\n')
  {
    var body := if |s| > 0 && s[|s| - 1] == '\n' then s[..|s| - 1] else s;
    var digits := if |body| > 0 && body[0] == '+' then body[1..] else body;
    AllDigits(digits) && (9 <= |digits| <= 15 || (|digits| == 16 && digits[0] == '1'))
  }

  /** One way of reading `s` as the pattern's parts: a `+` or not, a `1`
      or not, then 9 to 15 digits, then a newline or not. */
  ghost predicate PatternSplit(s: string, plus: bool, one: bool, newline: bool) {
    var a := if plus then 1 else 0;
    var b := if one then 1 else 0;
    var c := if newline then 1 else 0;
    && a + b + c <= |s|
    && (plus ==> s[0] == '+')
    && (one ==> s[a] == '1')
    && (newline ==> s[|s| - 1] == '\n')
    && 9 <= |s| - a - b - c <= 15
    && AllDigits(s[a + b..|s| - c])
  }

  ghost predicate MatchesPhonePattern(s: string) {
    exists plus: bool, one: bool, newline: bool :: PatternSplit(s, plus, one, newline)
  }

  /** Every string the direct check accepts matches the pattern. */
  lemma PhoneValidMatches(s: string)
    requires PhoneValid(s)
    ensures MatchesPhonePattern(s)
  {
    var newline := |s| > 0 && s[|s| - 1] == '\n';
    var body := if newline then s[..|s| - 1] else s;
    var plus := |body| > 0 && body[0] == '+';
    var digits := if plus then body[1..] else body;
    var one := |digits| == 16;
    var a := if plus then 1 else 0;
    var b := if one then 1 else 0;
    var c := if newline then 1 else 0;
    assert body == s[..|s| - c];
    assert digits == s[a..|s| - c];
    assert s[a + b..|s| - c] == digits[b..];
    assert AllDigits(digits[b..]) by {
      forall i | 0 <= i < |digits| - b ensures IsDigit(digits[b..][i]) {
        assert digits[b..][i] == digits[i + b];
      }
    }
    assert one ==> s[a] == digits[0];
    assert PatternSplit(s, plus, one, newline);
  }

  /** Every reading of `s` as the pattern's parts is accepted by the
      direct check. */
  lemma PatternSplitValid(s: string, p: bool, o: bool, n: bool)
    requires PatternSplit(s, p, o, n)
    ensures PhoneValid(s)
  {
    var a := if p then 1 else 0;
    var b := if o then 1 else 0;
    var c := if n then 1 else 0;
    var core := s[a + b..|s| - c];
    assert IsDigit(core[0]) && IsDigit(core[|core| - 1]);
    var body := s[..|s| - c];
    assert n == (|s| > 0 && s[|s| - 1] == '\n') by {
      if !n { assert s[|s| - 1] == core[|core| - 1]; }
    }
    assert p == (|body| > 0 && body[0] == '+') by {
      if !p && !o { assert body[0] == core[0]; }
    }
    var digits := s[a..|s| - c];
    assert (if p then body[1..] else body) == digits;
    assert |digits| == |core| + b;
    assert AllDigits(digits) by {
      if o {
        forall i | 0 <= i < |digits| ensures IsDigit(digits[i]) {
          if i > 0 { assert digits[i] == core[i - 1]; }
        }
      } else {
        assert digits == core;
      }
    }
    assert o ==> digits[0] == '1';
    assert 9 <= |digits| <= 15 || (|digits| == 16 && digits[0] == '1');
    assert (if |s| > 0 && s[|s| - 1] == '\n' then s[..|s| - 1] else s) == body;
  }

  /** The direct check accepts exactly the strings the pattern matches. */
  lemma PhoneValidIsPattern(s: string)
    ensures PhoneValid(s) <==> MatchesPhonePattern(s)
  {
    if PhoneValid(s) { PhoneValidMatches(s); }
    if MatchesPhonePattern(s) {
      var p, o, n :| PatternSplit(s, p, o, n);
      PatternSplitValid(s, p, o, n);
    }
  }

  /** Accepted examples: country code with plus, the sixteen-digit reading
      of the optional `1`, a trailing newline. */
  lemma PhoneExamplesAccepted()
    ensures PhoneValid("+919876543210")
    ensures PhoneValid("1234567890123456")
    ensures PhoneValid("987654321\n")
  {
    assert "987654321\n"[..9] == "987654321";
  }

  /** Refused examples: sixteen digits not starting with `1`, and too few
      digits after a plus. */
  lemma PhoneExamplesRefused()
    ensures !PhoneValid("2234567890123456")
    ensures !PhoneValid("+12345678")
  {
    assert "+12345678"[1..] == "12345678";
  }

  // ------------------------------------------------------- create users

  /** A value passed for a boolean flag, as far as `is not True` and
      truthiness can tell. */
  datatype PyFlag = PyTrue | PyFalse | PyOtherValue(truthy: bool)

  /** The flag keyword arguments; None means not passed. */
  datatype ExtraFields = ExtraFields(isStaff: Option<PyFlag>, isSuperuser: Option<PyFlag>, isAdmin: Option<PyFlag>)

  const NoExtraFields: ExtraFields := ExtraFields(None, None, None)

  datatype AccountError = PhoneRequired | StaffRequired | SuperuserRequired

  /** What a flag column holds: the model default (False) when not passed,
      otherwise the value's truth. */
  function StoredFlag(f: Option<PyFlag>): bool {
    match f
    case None => false
    case Some(PyTrue) => true
    case Some(PyFalse) => false
    case Some(PyOtherValue(t)) => t
  }

  /** The next primary key: one past the largest in use. */
  function NextUserId(users: seq<User>): (id: UserId)
    ensures forall u :: u in users ==> u.id < id
  {
    if users == [] then 1
    else
      var rest := NextUserId(users[..|users| - 1]);
      assert users == users[..|users| - 1] + [users[|users| - 1]];
      if users[|users| - 1].id < rest then rest else users[|users| - 1].id + 1
  }

  /** `create_user`: a missing or empty phone is refused; otherwise the
      normalised phone is stored, with a usable password only when a
      non-empty one is given. */
  function CreateUser(users: seq<User>, phone: Option<string>, password: Option<string>, extra: ExtraFields)
    : (r: Result<seq<User>, AccountError>)
    ensures r.Failure? <==> phone.None? || phone.value == ""
    ensures r.Failure? ==> r.error == PhoneRequired
    ensures r.Success? ==>
      && |r.value| == |users| + 1 && r.value[..|users|] == users
      && var u := r.value[|users|];
         && (forall v :: v in users ==> v.id != u.id)
         && u.phone == NormalizePhone(phone.value)
         && (u.password.Usable? <==> password.Some? && password.value != "")
         && (u.password.Usable? ==> u.password.raw == password.value)
         && u.isStaff == StoredFlag(extra.isStaff)
         && u.isSuperuser == StoredFlag(extra.isSuperuser)
         && u.isAdmin == StoredFlag(extra.isAdmin)
  {
    if phone.None? || phone.value == "" then Failure(PhoneRequired)
    else
      var pw := if password.Some? && password.value != "" then Usable(password.value) else Unusable;
      var u := User(NextUserId(users), NormalizePhone(phone.value), "", None, pw,
                    StoredFlag(extra.isStaff), StoredFlag(extra.isSuperuser), StoredFlag(extra.isAdmin));
      assert (users + [u])[..|users|] == users;
      Success(users + [u])
  }

  /** The emptiness check runs before normalising, so a phone made only of
      separators is stored as the empty string. */
  lemma CreateUserMayStoreEmptyPhone()
    ensures CreateUser([], Some(" - "), None, NoExtraFields).Success?
    ensures CreateUser([], Some(" - "), None, NoExtraFields).value[0].phone == ""
  {
    var r := NormalizePhone(" - ");
    assert multiset(r) == multiset{} by {
      forall x ensures multiset(r)[x] == 0 {
        if !IsSeparator(x) { assert multiset(" - ")[x] == 0; }
      }
    }
  }

  /** The phone pattern is not applied when creating a user. */
  lemma CreateUserSkipsPattern()
    ensures CreateUser([], Some("abc"), None, NoExtraFields).Success?
    ensures !PhoneValid(CreateUser([], Some("abc"), None, NoExtraFields).value[0].phone)
  {
    assert ' ' !in "abc" && '-' !in "abc";
    assert NormalizePhone("abc") == "abc";
    assert !IsDigit("abc"[0]);
  }

  /** `setdefault`: a flag that was not passed becomes True. */
  function DefaultTrue(f: Option<PyFlag>): Option<PyFlag> {
    if f.None? then Some(PyTrue) else f
  }

  /** `create_superuser`: the three flags default to True; a staff or
      superuser flag that is anything but the value True is refused (in
      that order); then the user is created as by `CreateUser`. */
  function CreateSuperuser(users: seq<User>, phone: Option<string>, password: Option<string>, extra: ExtraFields)
    : (r: Result<seq<User>, AccountError>)
    ensures r.Failure? && r.error == StaffRequired <==> extra.isStaff.Some? && extra.isStaff != Some(PyTrue)
    ensures r.Failure? && r.error == SuperuserRequired <==>
      (extra.isStaff.None? || extra.isStaff == Some(PyTrue)) && extra.isSuperuser.Some? && extra.isSuperuser != Some(PyTrue)
    ensures r.Success? <==>
      && (extra.isStaff.None? || extra.isStaff == Some(PyTrue))
      && (extra.isSuperuser.None? || extra.isSuperuser == Some(PyTrue))
      && phone.Some? && phone.value != ""
    ensures r.Success? ==>
      && |r.value| == |users| + 1 && r.value[..|users|] == users
      && (forall v :: v in users ==> v.id != r.value[|users|].id)
      && r.value[|users|].phone == NormalizePhone(phone.value)
      && r.value[|users|].isStaff && r.value[|users|].isSuperuser
      && r.value[|users|].isAdmin == (extra.isAdmin.None? || StoredFlag(extra.isAdmin))
  {
    var fields := ExtraFields(DefaultTrue(extra.isStaff), DefaultTrue(extra.isSuperuser), DefaultTrue(extra.isAdmin));
    if fields.isStaff != Some(PyTrue) then Failure(StaffRequired)
    else if fields.isSuperuser != Some(PyTrue) then Failure(SuperuserRequired)
    else CreateUser(users, phone, password, fields)
  }

  /** Once both flags are acceptable, a superuser is created exactly when a
      plain user with the same phone and password would be, and it is that
      user with the staff and superuser flags set and admin by default. */
  lemma SuperuserExtendsCreateUser(users: seq<User>, phone: Option<string>, password: Option<string>, extra: ExtraFields)
    requires extra.isStaff.None? || extra.isStaff == Some(PyTrue)
    requires extra.isSuperuser.None? || extra.isSuperuser == Some(PyTrue)
    ensures CreateSuperuser(users, phone, password, extra).Success? <==> CreateUser(users, phone, password, extra).Success?
    ensures CreateSuperuser(users, phone, password, extra).Success? ==>
      var s := CreateSuperuser(users, phone, password, extra).value;
      var u := CreateUser(users, phone, password, extra).value;
      s[..|users|] == u[..|users|]
      && s[|users|] == u[|users|].(isStaff := true, isSuperuser := true,
                                   isAdmin := extra.isAdmin.None? || StoredFlag(extra.isAdmin))
  {
  }

  /** A truthy value that is not True itself, such as 1, is refused. */
  lemma SuperuserNeedsLiteralTrue(users: seq<User>, phone: Option<string>, password: Option<string>)
    ensures CreateSuperuser(users, phone, password, ExtraFields(Some(PyOtherValue(true)), None, None))
            == Failure(StaffRequired)
  {
  }

  // ------------------------------------------------------------ profiles

  /** `UserProfile.save`: an empty phone is filled from the owner's. */
  function SaveProfile(p: Profile, owner: User): (r: Profile)
    requires p.user == owner.id
    ensures p.phone != "" ==> r == p
    ensures p.phone == "" ==> r == p.(phone := owner.phone)
    ensures r.phone != "" <== p.phone != "" || owner.phone != ""
  {
    if p.phone == "" then p.(phone := owner.phone) else p
  }

  /** `UserProfile.clean`: the profile's phone must equal its owner's. */
  function CleanProfile(p: Profile, owner: User): (r: Result<Profile, string>)
    requires p.user == owner.id
    ensures r.Success? <==> p.phone == owner.phone
    ensures r.Success? ==> r.value == p
  {
    if p.phone != owner.phone then Failure("UserProfile phone_number must match User phone_number.")
    else Success(p)
  }

  /** After saving, clean passes exactly when the phone was empty or
      already the owner's; save itself does not call clean, so a
      mismatched phone is stored as given. */
  lemma SaveThenClean(p: Profile, owner: User)
    requires p.user == owner.id
    ensures CleanProfile(SaveProfile(p, owner), owner).Success? <==> p.phone == "" || p.phone == owner.phone
    ensures SaveProfile(SaveProfile(p, owner), owner) == SaveProfile(p, owner) || owner.phone == ""
  {
  }

  // -------------------------------------------------------------- wallets

  /** The transaction kinds are stored under four distinct names. */
  lemma EntryKindNamesDistinct(a: EntryKind, b: EntryKind)
    ensures EntryKindName(a) == EntryKindName(b) <==> a == b
  {
    if a != b {
      assert EntryKindName(a)[0] != EntryKindName(b)[0] || |EntryKindName(a)| != |EntryKindName(b)|;
    }
  }
}
