/** The user directory's records (src/App.js:351-364, 464-469, 506-529):
    a user is an id, a display name, a passcode, an ordered list of time
    entries and an optional open-session start; the directory is the list of
    users in their stored order. */
module Records {
  import opened Wrappers

  /** The `type` tag the app writes on an entry. */
  datatype EntryKind = ClockInMark | ClockOutMark

  /** One time entry: `raw` is an instant in milliseconds (absent in a
      malformed stored entry): the clock-in instant on a clock-in marker and
      on an added or edited punch, but the clock-out instant on the entry a
      live clock-out appends.  The history page and the export read `raw` as
      the clock-in and `raw` plus the duration as the clock-out either way.
      `time` is the locale time text shown in lists,
      `duration` the `durationMinutes` field (absent on a clock-in marker). */
  datatype Entry = Entry(kind: EntryKind, time: string, raw: Option<int>, duration: Option<int>)

  /** `session` is `currentSessionStart`: present exactly while clocked in. */
  datatype User = User(id: string, name: string, passcode: string, entries: seq<Entry>, session: Option<int>)

  /** The locale formatters the source calls (`toLocaleTimeString`,
      `toLocaleDateString`, `formatLocalDateTime`), left uninterpreted. */
  datatype Locale = Locale(time: int -> string, date: int -> string, dateTime: int -> string)

  /** The code that always authenticates as administrator; the source text
      carries it as this six-character literal. */
  const AdminCode: string := "******"
  const AdminId: string := "admin"

  /** The record `ensureAdminUser` appends. */
  const AdminUser: User := User(AdminId, "Admin", AdminCode, [], None)

  /** `durationMinutes` is truthy: present and non-zero. */
  predicate HasDuration(e: Entry) {
    e.duration.Some? && e.duration.value != 0
  }

  /** What an entry adds to any total: its duration when truthy, else nothing. */
  function Minutes(e: Entry): int {
    if HasDuration(e) then e.duration.value else 0
  }

  /** Position of the first user with this id (`Array.prototype.find`), or -1. */
  function FindUserIndex(users: seq<User>, id: string): (i: int)
    ensures -1 <= i < |users|
    ensures i >= 0 ==> users[i].id == id && forall j :: 0 <= j < i ==> users[j].id != id
    ensures i == -1 <==> forall j :: 0 <= j < |users| ==> users[j].id != id
  {
    if |users| == 0 then -1
    else if users[0].id == id then 0
    else
      var k := FindUserIndex(users[1..], id);
      if k == -1 then -1 else k + 1
  }

  /** `getUserById`: the first user with this id, or null. */
  function FindUser(users: seq<User>, id: string): (r: Option<User>)
    ensures r.None? <==> forall j :: 0 <= j < |users| ==> users[j].id != id
    ensures r.Some? ==> r.value.id == id
  {
    var i := FindUserIndex(users, id);
    if i == -1 then None else Some(users[i])
  }

  /** `find` returns the first listed user with the id: it sits at some
      position of the directory, and no earlier position has that id. */
  lemma FindUserIsFirst(users: seq<User>, id: string)
    ensures FindUser(users, id).Some? ==>
              exists i :: 0 <= i < |users| && users[i] == FindUser(users, id).value
                          && forall j :: 0 <= j < i ==> users[j].id != id
  {
    if FindUser(users, id).Some? {
      var i := FindUserIndex(users, id);
      assert users[i] == FindUser(users, id).value;
    }
  }

  /** `updateUser` and every `prev.map(u => u.id === id ? change(u) : u)`:
      each user with this id is replaced by `change` of itself, the others and
      the order are kept. */
  function UpdateWhere(users: seq<User>, id: string, change: User -> User): (r: seq<User>)
    ensures |r| == |users|
    ensures forall i :: 0 <= i < |users| && users[i].id == id ==> r[i] == change(users[i])
    ensures forall i :: 0 <= i < |users| && users[i].id != id ==> r[i] == users[i]
  {
    seq(|users|, i requires 0 <= i < |users| => if users[i].id == id then change(users[i]) else users[i])
  }

  /** After an update that keeps ids, looking the id up finds the changed
      first record, and every other id finds what it found before. */
  lemma FindAfterUpdate(users: seq<User>, id: string, change: User -> User, other: string)
    requires forall u :: change(u).id == u.id
    ensures FindUser(users, id).Some? ==>
              FindUser(UpdateWhere(users, id, change), id) == Some(change(FindUser(users, id).value))
    ensures FindUser(users, id).None? ==> UpdateWhere(users, id, change) == users
    ensures other != id ==> FindUser(UpdateWhere(users, id, change), other) == FindUser(users, other)
  {
    var r := UpdateWhere(users, id, change);
    assert forall j :: 0 <= j < |users| ==> r[j].id == users[j].id;
    FindUserIndexSameIds(users, r, id);
    FindUserIndexSameIds(users, r, other);
  }

  /** Two directories with the same ids in the same places find the same positions. */
  lemma {:induction false} FindUserIndexSameIds(a: seq<User>, b: seq<User>, id: string)
    requires |a| == |b| && forall j :: 0 <= j < |a| ==> a[j].id == b[j].id
    ensures FindUserIndex(a, id) == FindUserIndex(b, id)
  {
    if |a| > 0 && a[0].id != id {
      FindUserIndexSameIds(a[1..], b[1..], id);
    }
  }

  predicate HasAdmin(users: seq<User>) {
    exists i :: 0 <= i < |users| && users[i].id == AdminId
  }

  /** `ensureAdminUser`: the list itself when some user has id `admin`,
      otherwise the list with one fresh admin record appended at the end. */
  function EnsureAdmin(users: seq<User>): (r: seq<User>)
    ensures HasAdmin(r)
    ensures HasAdmin(users) ==> r == users
    ensures !HasAdmin(users) ==> r == users + [AdminUser]
  {
    if HasAdmin(users) then users
    else
      var r := users + [AdminUser];
      assert r[|users|].id == AdminId;
      r
  }

  /** How many records carry the admin id. */
  function AdminCount(users: seq<User>): nat {
    if |users| == 0 then 0
    else AdminCount(users[..|users| - 1]) + (if users[|users| - 1].id == AdminId then 1 else 0)
  }

  lemma {:induction false} AdminCountZero(users: seq<User>)
    ensures AdminCount(users) == 0 <==> !HasAdmin(users)
  {
    if |users| > 0 {
      var init := users[..|users| - 1];
      AdminCountZero(init);
      if HasAdmin(init) {
        var i :| 0 <= i < |init| && init[i].id == AdminId;
        assert users[i].id == AdminId;
      }
      if HasAdmin(users) && users[|users| - 1].id != AdminId {
        var i :| 0 <= i < |users| && users[i].id == AdminId;
        assert init[i].id == AdminId;
      }
    }
  }

  /** Ensuring the admin twice is ensuring it once, and it never adds a
      second admin: the admin count becomes one when it was zero and is
      otherwise left as it was. */
  lemma EnsureAdminIdempotent(users: seq<User>)
    ensures EnsureAdmin(EnsureAdmin(users)) == EnsureAdmin(users)
    ensures AdminCount(EnsureAdmin(users)) == if AdminCount(users) == 0 then 1 else AdminCount(users)
  {
    AdminCountZero(users);
    if !HasAdmin(users) {
      assert (users + [AdminUser])[..|users|] == users;
    }
  }

  /** What `handleLogin` decides. */
  datatype LoginResult =
    | AdminSession(currentUserId: string)
    | UserSession(currentUserId: string)
    | UserNotFound
    | IncorrectPasscode

  /** `handleLogin`: the admin code signs in as administrator whatever user
      is selected (an empty selection becomes `admin`); otherwise the first
      user with the selected id must exist and its passcode must match. */
  function Login(users: seq<User>, selectedUserId: string, passcode: string): (r: LoginResult)
    ensures r.AdminSession? <==> passcode == AdminCode
    ensures r.AdminSession? ==> r.currentUserId == if selectedUserId == "" then AdminId else selectedUserId
    ensures r.UserNotFound? <==> passcode != AdminCode && FindUser(users, selectedUserId).None?
    ensures r.UserSession? <==>
              passcode != AdminCode && FindUser(users, selectedUserId).Some?
              && FindUser(users, selectedUserId).value.passcode == passcode
    ensures r.UserSession? ==> r.currentUserId == selectedUserId
  {
    if passcode == AdminCode then
      AdminSession(if selectedUserId == "" then AdminId else selectedUserId)
    else
      match FindUser(users, selectedUserId)
      case None => UserNotFound
      case Some(u) => if u.passcode == passcode then UserSession(u.id) else IncorrectPasscode
  }
}
