/** User management (src/App.js:540-591, 651-665): adding, renaming and
    removing users, and the reset that wipes every user's time data.  The
    `Date.now()` suffix of a new id and the answers to `window.confirm` are
    parameters. */
module Directory {
  import opened Wrappers
  import opened Text
  import opened Records
  import opened Durations

  /** Why a user-management handler changes nothing. */
  datatype DirectoryError =
    | NotEditing            // `editingUser` is null
    | NeedNameAndPasscode   // "Enter a name and a 4-digit passcode"

  /** The form check shared by adding and editing: a name that is not blank
      once trimmed and a passcode of exactly four characters (any characters:
      the source checks only the length). */
  predicate ValidForm(name: string, passcode: string) {
    Trim(name) != "" && |passcode| == 4
  }

  /** `${name.trim().toLowerCase()}-${Date.now()}`. */
  function NewUserId(name: string, stamp: nat): string {
    ToLower(Trim(name)) + "-" + NatToString(stamp)
  }

  /** A new id is the lower-cased trimmed name, a dash, and the decimal
      digits of the stamp. */
  lemma NewUserIdShape(name: string, stamp: nat)
    ensures var id := NewUserId(name, stamp);
            var p := ToLower(Trim(name));
            |id| > |p| + 1 && id[..|p|] == p && id[|p|] == '-'
            && AllDigits(id[|p| + 1..]) && DigitsValue(id[|p| + 1..]) == stamp
  {
    var p := ToLower(Trim(name));
    assert NewUserId(name, stamp)[|p| + 1..] == NatToString(stamp);
  }

  /** `handleAddUser`: a valid form appends one fresh, idle user with no
      entries; anything else changes nothing. */
  function AddUser(users: seq<User>, name: string, passcode: string, stamp: nat): (r: Result<seq<User>, DirectoryError>)
    ensures r.Ok? <==> ValidForm(name, passcode)
    ensures r.Err? ==> r.error == NeedNameAndPasscode
    ensures r.Ok? ==> r.value == users + [User(NewUserId(name, stamp), Trim(name), passcode, [], None)]
  {
    if !ValidForm(name, passcode) then Err(NeedNameAndPasscode)
    else Ok(users + [User(NewUserId(name, stamp), Trim(name), passcode, [], None)])
  }

  /** The new user is found under its id unless an earlier record already
      has that id, every earlier lookup is unchanged, and the totals do not move. */
  lemma AddUserFinds(users: seq<User>, name: string, passcode: string, stamp: nat, other: string)
    requires ValidForm(name, passcode)
    ensures var r := AddUser(users, name, passcode, stamp).value;
            (FindUser(users, NewUserId(name, stamp)).None? ==> FindUser(r, NewUserId(name, stamp)) == Some(r[|users|]))
            && (FindUser(users, other).Some? ==> FindUser(r, other) == FindUser(users, other))
            && TotalMinutesAllUsers(r) == TotalMinutesAllUsers(users)
  {
    var nu := User(NewUserId(name, stamp), Trim(name), passcode, [], None);
    AppendedUserFinds(users, nu, other);
  }

  /** What appending one record does to lookups and to the all-users total. */
  lemma AppendedUserFinds(users: seq<User>, u: User, other: string)
    ensures FindUser(users, u.id).None? ==> FindUser(users + [u], u.id) == Some(u)
    ensures FindUser(users, other).Some? ==> FindUser(users + [u], other) == FindUser(users, other)
    ensures TotalMinutesAllUsers(users + [u]) == TotalMinutesAllUsers(users) + TotalMinutesForUser(u)
  {
    FindUserIndexAppend(users, u, u.id);
    FindUserIndexAppend(users, u, other);
    assert (users + [u])[..|users|] == users;
  }

  /** Appending a record only matters to a lookup that found nothing before. */
  lemma {:induction false} FindUserIndexAppend(users: seq<User>, u: User, id: string)
    ensures FindUserIndex(users, id) >= 0 ==> FindUserIndex(users + [u], id) == FindUserIndex(users, id)
    ensures FindUserIndex(users, id) == -1 && u.id == id ==> FindUserIndex(users + [u], id) == |users|
  {
    if |users| > 0 {
      assert (users + [u])[1..] == users[1..] + [u];
      FindUserIndexAppend(users[1..], u, id);
    } else {
      assert (users + [u])[0] == u;
    }
  }

  function Rename(name: string, passcode: string): User -> User {
    (u: User) => u.(name := Trim(name), passcode := passcode)
  }

  /** `saveEditUser`: without an open edit or with an invalid form nothing
      changes; otherwise every record with the edited id takes the trimmed
      name and the new passcode and keeps everything else. */
  function SaveEditUser(users: seq<User>, editing: Option<User>, name: string, passcode: string): (r: Result<seq<User>, DirectoryError>)
    ensures editing.None? ==> r == Err(NotEditing)
    ensures editing.Some? ==> (r.Ok? <==> ValidForm(name, passcode))
    ensures editing.Some? && !ValidForm(name, passcode) ==> r == Err(NeedNameAndPasscode)
    ensures r.Ok? ==>
              |r.value| == |users|
              && forall i :: 0 <= i < |users| ==>
                   r.value[i] == if users[i].id == editing.value.id
                                 then users[i].(name := Trim(name), passcode := passcode)
                                 else users[i]
  {
    match editing
    case None => Err(NotEditing)
    case Some(e) =>
      if !ValidForm(name, passcode) then Err(NeedNameAndPasscode)
      else Ok(UpdateWhere(users, e.id, Rename(name, passcode)))
  }

  /** Editing a user never touches time data: every entry list and open
      session is kept, so every total is kept too. */
  lemma {:induction false} SaveEditUserKeepsTime(users: seq<User>, editing: Option<User>, name: string, passcode: string, weekStart: int)
    requires SaveEditUser(users, editing, name, passcode).Ok?
    ensures var r := SaveEditUser(users, editing, name, passcode).value;
            TotalMinutesAllUsers(r) == TotalMinutesAllUsers(users)
            && WeeklyMinutesAllUsers(r, weekStart) == WeeklyMinutesAllUsers(users, weekStart)
            && forall i :: 0 <= i < |users| ==> r[i].entries == users[i].entries && r[i].session == users[i].session
  {
    var r := SaveEditUser(users, editing, name, passcode).value;
    SameEntriesSameTotals(users, r, weekStart);
  }

  /** Directories that agree on every record's entries agree on the sums. */
  lemma {:induction false} SameEntriesSameTotals(a: seq<User>, b: seq<User>, weekStart: int)
    requires |a| == |b| && forall i :: 0 <= i < |a| ==> a[i].entries == b[i].entries
    ensures TotalMinutesAllUsers(a) == TotalMinutesAllUsers(b)
    ensures WeeklyMinutesAllUsers(a, weekStart) == WeeklyMinutesAllUsers(b, weekStart)
  {
    if |a| > 0 {
      SameEntriesSameTotals(a[..|a| - 1], b[..|b| - 1], weekStart);
    }
  }

  /** `prev.filter(u => u.id !== userId)`. */
  function WithoutId(users: seq<User>, id: string): (r: seq<User>)
    ensures |r| <= |users|
    ensures forall i :: 0 <= i < |r| ==> r[i].id != id && r[i] in users
    ensures forall i :: 0 <= i < |users| && users[i].id != id ==> users[i] in r
  {
    if |users| == 0 then []
    else (if users[0].id == id then [] else [users[0]]) + WithoutId(users[1..], id)
  }

  /** Removing an id from a concatenation removes it from each part and keeps
      the parts in order, so the kept records stay in directory order. */
  lemma {:induction false} WithoutIdAppend(a: seq<User>, b: seq<User>, id: string)
    ensures WithoutId(a + b, id) == WithoutId(a, id) + WithoutId(b, id)
  {
    if |a| > 0 {
      assert (a + b)[0] == a[0] && (a + b)[1..] == a[1..] + b;
      WithoutIdAppend(a[1..], b, id);
    } else {
      assert a + b == b;
    }
  }

  /** `deleteUser`: without confirmation nothing changes; otherwise every
      record with the id is removed and the rest keep their order. */
  function DeleteUser(users: seq<User>, userId: string, confirmed: bool): (r: seq<User>)
    ensures !confirmed ==> r == users
    ensures confirmed ==> r == WithoutId(users, userId)
  {
    if confirmed then WithoutId(users, userId) else users
  }

  /** After a confirmed delete the id is gone and every other id finds the
      record it found before. */
  lemma {:induction false} DeleteUserFinds(users: seq<User>, userId: string, other: string)
    ensures FindUser(WithoutId(users, userId), userId).None?
    ensures other != userId ==> FindUser(WithoutId(users, userId), other) == FindUser(users, other)
  {
    if |users| > 0 {
      var rest := WithoutId(users[1..], userId);
      DeleteUserFinds(users[1..], userId, other);
      FindUserSkip(users, other);
      if users[0].id != userId {
        assert WithoutId(users, userId) == [users[0]] + rest;
        FindUserSkip([users[0]] + rest, userId);
        if other != userId {
          FindUserSkip([users[0]] + rest, other);
        }
      } else {
        assert WithoutId(users, userId) == rest;
      }
    }
  }

  /** A lookup passes over a first record with another id. */
  lemma FindUserSkip(users: seq<User>, id: string)
    requires |users| > 0
    ensures users[0].id == id ==> FindUser(users, id) == Some(users[0])
    ensures users[0].id != id ==> FindUser(users, id) == FindUser(users[1..], id)
  {
  }

  /** Deleting a user takes exactly that user's minutes off the all-users total. */
  lemma {:induction false} DeleteUserTotals(users: seq<User>, userId: string)
    ensures TotalMinutesAllUsers(users)
         == TotalMinutesAllUsers(WithoutId(users, userId)) + TotalMinutesAllUsers(MatchingId(users, userId))
  {
    if |users| > 0 {
      DeleteUserTotals(users[1..], userId);
      FrontSplitTotals(users, userId);
    }
  }

  /** The step of `DeleteUserTotals`: the first record joins exactly the
      side its id sends it to. */
  lemma FrontSplitTotals(users: seq<User>, userId: string)
    requires |users| > 0
    requires TotalMinutesAllUsers(users[1..])
          == TotalMinutesAllUsers(WithoutId(users[1..], userId)) + TotalMinutesAllUsers(MatchingId(users[1..], userId))
    ensures TotalMinutesAllUsers(users)
         == TotalMinutesAllUsers(WithoutId(users, userId)) + TotalMinutesAllUsers(MatchingId(users, userId))
  {
    var u, rest := users[0], users[1..];
    assert users == [u] + rest;
    IdSplitCons(u, rest, userId);
    if u.id == userId {
      JoinsSideTotal(u, rest, MatchingId(rest, userId), WithoutId(rest, userId));
    } else {
      JoinsSideTotal(u, rest, WithoutId(rest, userId), MatchingId(rest, userId));
    }
  }

  /** Both sides of the split of a directory with a record in front. */
  lemma IdSplitCons(u: User, rest: seq<User>, userId: string)
    ensures u.id == userId ==> WithoutId([u] + rest, userId) == WithoutId(rest, userId)
    ensures u.id == userId ==> MatchingId([u] + rest, userId) == [u] + MatchingId(rest, userId)
    ensures u.id != userId ==> WithoutId([u] + rest, userId) == [u] + WithoutId(rest, userId)
    ensures u.id != userId ==> MatchingId([u] + rest, userId) == MatchingId(rest, userId)
  {
    assert ([u] + rest)[0] == u && ([u] + rest)[1..] == rest;
  }

  /** A record put in front of a directory split in two sides joins one
      side, which grows by that record's total. */
  lemma JoinsSideTotal(u: User, rest: seq<User>, side: seq<User>, other: seq<User>)
    requires TotalMinutesAllUsers(rest) == TotalMinutesAllUsers(side) + TotalMinutesAllUsers(other)
    ensures TotalMinutesAllUsers([u] + rest) == TotalMinutesAllUsers([u] + side) + TotalMinutesAllUsers(other)
  {
    ConsTotal(u, rest);
    ConsTotal(u, side);
  }

  /** A record in front adds its own total to the directory's. */
  lemma ConsTotal(u: User, rest: seq<User>)
    ensures TotalMinutesAllUsers([u] + rest) == TotalMinutesForUser(u) + TotalMinutesAllUsers(rest)
  {
    AllUsersAppend([u], rest, 0);
    assert [u][..0] == [];
  }

  /** The records with this id, in order. */
  function MatchingId(users: seq<User>, id: string): (r: seq<User>)
    ensures forall i :: 0 <= i < |r| ==> r[i].id == id
  {
    if |users| == 0 then []
    else (if users[0].id == id then [users[0]] else []) + MatchingId(users[1..], id)
  }

  /** `resetData`: without confirmation nothing changes; otherwise every
      user keeps id, name and passcode and loses all entries and any open
      session. */
  function ResetData(users: seq<User>, confirmed: bool): (r: seq<User>)
    ensures |r| == |users|
    ensures !confirmed ==> r == users
    ensures confirmed ==> forall i :: 0 <= i < |users| ==> r[i] == users[i].(entries := [], session := None)
  {
    if !confirmed then users
    else seq(|users|, i requires 0 <= i < |users| => users[i].(entries := [], session := None))
  }

  /** After a confirmed reset every total is zero, nobody is clocked in, and
      the admin account is still there when it was before. */
  lemma {:induction false} ResetDataClears(users: seq<User>, weekStart: int)
    ensures TotalMinutesAllUsers(ResetData(users, true)) == 0
    ensures WeeklyMinutesAllUsers(ResetData(users, true), weekStart) == 0
    ensures forall i :: 0 <= i < |users| ==> ResetData(users, true)[i].session.None?
    ensures HasAdmin(users) ==> HasAdmin(ResetData(users, true))
  {
    EmptyEntriesZero(ResetData(users, true), weekStart);
    if HasAdmin(users) {
      var i :| 0 <= i < |users| && users[i].id == AdminId;
      assert ResetData(users, true)[i].id == AdminId;
    }
  }

  /** A directory whose users have no entries has zero totals. */
  lemma {:induction false} EmptyEntriesZero(users: seq<User>, weekStart: int)
    requires forall i :: 0 <= i < |users| ==> users[i].entries == []
    ensures TotalMinutesAllUsers(users) == 0 && WeeklyMinutesAllUsers(users, weekStart) == 0
  {
    if |users| > 0 {
      EmptyEntriesZero(users[..|users| - 1], weekStart);
    }
  }
}
