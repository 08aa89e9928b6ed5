/** The three ORM query shapes the views use, over a table held as a
    sequence of rows in insertion order:
    `.filter(p).get()` / `.first()` without ordering (first matching row),
    `.filter(p).order_by('-key').first()` (newest matching row), and the
    row count `get` uses to tell "none" from "more than one". */
module Queries {
  import opened Wrappers
  import opened Models

  /** The first row satisfying `p`. */
  function FirstWhere<T>(s: seq<T>, p: T -> bool): (r: Option<nat>)
    ensures r.Some? ==> r.value < |s| && p(s[r.value])
    ensures r.Some? ==> forall j :: 0 <= j < r.value ==> !p(s[j])
    ensures r.None? <==> forall j :: 0 <= j < |s| ==> !p(s[j])
  {
    if |s| == 0 then None
    else if p(s[0]) then Some(0)
    else match FirstWhere(s[1..], p)
      case None => None
      case Some(i) => Some(i + 1)
  }

  /** The row satisfying `p` with the greatest `key`: what
      `order_by('-key').first()` returns. Among rows with equal keys the one
      inserted last is chosen (the database leaves ties unordered). */
  function LatestWhere<T>(s: seq<T>, p: T -> bool, key: T -> int): (r: Option<nat>)
    ensures r.Some? ==> r.value < |s| && p(s[r.value])
    ensures r.Some? ==> forall j :: 0 <= j < |s| && p(s[j]) ==> key(s[j]) <= key(s[r.value])
    ensures r.None? <==> forall j :: 0 <= j < |s| ==> !p(s[j])
  {
    if |s| == 0 then None
    else
      var last := |s| - 1;
      var earlier := LatestWhere(s[..last], p, key);
      if p(s[last]) && (earlier.None? || key(s[earlier.value]) <= key(s[last])) then Some(last)
      else earlier
  }

  /** How many rows satisfy `p`. */
  function CountWhere<T>(s: seq<T>, p: T -> bool): (n: nat)
    ensures n <= |s|
    ensures n == 0 <==> forall j :: 0 <= j < |s| ==> !p(s[j])
  {
    if |s| == 0 then 0 else (if p(s[0]) then 1 else 0) + CountWhere(s[1..], p)
  }

  /** When exactly one row matches, it is the first matching row. */
  lemma {:induction false} CountOneIsFirst<T>(s: seq<T>, p: T -> bool, i: nat)
    requires CountWhere(s, p) == 1
    requires FirstWhere(s, p) == Some(i)
    ensures forall j :: 0 <= j < |s| && j != i ==> !p(s[j])
  {
    if p(s[0]) {
      assert i == 0;
      assert CountWhere(s[1..], p) == 0;
      forall j | 1 <= j < |s| ensures !p(s[j]) {
        assert s[j] == s[1..][j - 1];
      }
    } else {
      assert CountWhere(s[1..], p) == 1;
      CountOneIsFirst(s[1..], p, i - 1);
      forall j | 1 <= j < |s| && j != i ensures !p(s[j]) {
        assert s[j] == s[1..][j - 1];
      }
    }
  }

  /** Overwriting one matching row with a row that does not match lowers
      the count by exactly one. */
  lemma {:induction false} CountAfterUpdate<T>(s: seq<T>, p: T -> bool, i: nat, x: T)
    requires i < |s| && p(s[i]) && !p(x)
    ensures CountWhere(s[i := x], p) + 1 == CountWhere(s, p)
  {
    if i == 0 {
      assert s[i := x][1..] == s[1..];
    } else {
      CountAfterUpdate(s[1..], p, i - 1, x);
      assert s[i := x][1..] == s[1..][i - 1 := x];
    }
  }

  // ------------------------------------------------- foreign-key lookups

  /** `request.user.profile`: the profile whose user is `uid`. */
  function ProfileOf(st: Store, uid: UserId): (r: Option<Profile>)
    ensures r.Some? ==> r.value in st.profiles && r.value.user == uid
    ensures r.None? <==> forall p :: p in st.profiles ==> p.user != uid
  {
    match FirstWhere(st.profiles, (p: Profile) => p.user == uid)
    case None => None
    case Some(i) => Some(st.profiles[i])
  }

  /** The user row with primary key `uid`. */
  function UserById(st: Store, uid: UserId): (r: Option<User>)
    ensures r.Some? ==> r.value in st.users && r.value.id == uid
    ensures r.None? <==> forall u :: u in st.users ==> u.id != uid
  {
    match FirstWhere(st.users, (u: User) => u.id == uid)
    case None => None
    case Some(i) => Some(st.users[i])
  }

  /** The booking row with primary key `id`. */
  function BookingById(st: Store, id: int): (r: Option<Booking>)
    ensures r.Some? ==> r.value in st.bookings && r.value.id == id
    ensures r.None? <==> forall b :: b in st.bookings ==> b.id != id
  {
    match FirstWhere(st.bookings, (b: Booking) => b.id == id)
    case None => None
    case Some(i) => Some(st.bookings[i])
  }
}
