/**
 * The account store `UserManager`: the list of registered users, the session copy of the logged-in user,
 * and the browser storage keys that mirror them ('testoria_users', 'testoria_current_user', 'isLoggedIn').
 */
module AuthCore {
  import opened Wrappers
  import opened Seqs
  import opened Text
  import Base64

  /** A user's `history` keeps at most this many entries, newest first. */
  const MaxHistory: nat := 50

  datatype Stats = Stats(testsCompleted: int, totalTime: int, favoriteCategory: Option<string>)

  /** One completed test, as `updateUserStats` records it. */
  datatype HistoryEntry = HistoryEntry(testId: string, testTitle: string, result: string, completedAt: string,
                                       timeSpent: int)

  /** A stored user record; a record without an `isAdmin` field reads as `false`. */
  datatype User = User(id: string, name: string, password: string, createdAt: string, stats: Stats,
                       history: seq<HistoryEntry>, achievements: seq<string>, isAdmin: bool)

  /** What the quiz page reports when a test is finished; `time` may be absent. */
  datatype TestData = TestData(testId: string, testTitle: string, result: string, time: Option<int>)

  /** A record of the 'testResults' storage key. */
  datatype TestResult = TestResult(id: string, userId: string, testTitle: string, score: int, completedAt: string,
                                   timeSpent: Option<int>)

  /** The errors the store throws: a name clash, a failed login, and `btoa` rejecting a character above U+00FF. */
  datatype AuthError = DuplicateName | InvalidCredentials | InvalidCharacter

  // ---------------------------------------------------------------------------------------------
  // Lookups over the user list

  /** Names compare case-insensitively: both sides go through `toLowerCase`. */
  predicate SameName(a: string, b: string) {
    Lower(a) == Lower(b)
  }

  /** Some stored user already has `name`, ignoring case. */
  predicate NameTaken(us: seq<User>, name: string) {
    exists i :: 0 <= i < |us| && SameName(us[i].name, name)
  }

  /** A user other than the one with id `id` already has `name`, ignoring case. */
  predicate NameTakenByOther(us: seq<User>, name: string, id: string) {
    exists i :: 0 <= i < |us| && SameName(us[i].name, name) && us[i].id != id
  }

  predicate IdFresh(us: seq<User>, id: string) {
    forall i :: 0 <= i < |us| ==> us[i].id != id
  }

  /** `findIndex(u => u.id === id)`. */
  function IndexOfId(us: seq<User>, id: string): (k: int)
    ensures -1 <= k < |us|
    ensures k == -1 <==> IdFresh(us, id)
    ensures 0 <= k ==> us[k].id == id && forall i :: 0 <= i < k ==> us[i].id != id
  {
    FirstIndex((u: User) => u.id == id, us)
  }

  /** Two user lists with the same ids, position by position. */
  predicate SameIds(us: seq<User>, vs: seq<User>) {
    |us| == |vs| && forall i :: 0 <= i < |us| ==> us[i].id == vs[i].id
  }

  /** Updating records without touching their ids leaves the lookup of `id` where it was. */
  lemma IndexOfIdSameIds(us: seq<User>, vs: seq<User>, id: string)
    requires SameIds(us, vs)
    ensures IndexOfId(us, id) == IndexOfId(vs, id)
  {
  }

  /** User `u` is one that `loginByName(name, password)` accepts. */
  predicate LoginMatches(u: User, name: string, password: string) {
    SameName(u.name, name) && Base64.Btoa(password) == Some(u.password)
  }

  /**
   * The index of the user `loginByName` logs in: the first whose lowered name and stored encoding match.
   * The encoding is only computed once some lowered name matches, so an unencodable password throws
   * `InvalidCharacter` only then; otherwise the failure is `InvalidCredentials`.
   */
  function LoginIndex(us: seq<User>, name: string, password: string): (r: Result<nat, AuthError>)
    ensures r.Ok? <==> exists i :: 0 <= i < |us| && LoginMatches(us[i], name, password)
    ensures r.Ok? ==> r.value < |us| && LoginMatches(us[r.value], name, password)
    ensures r.Ok? ==> forall j :: 0 <= j < r.value ==> !LoginMatches(us[j], name, password)
    ensures r == Err(InvalidCharacter) <==> NameTaken(us, name) && Base64.Btoa(password).None?
    ensures r.Err? ==> r.error != DuplicateName
  {
    if FirstIndex((u: User) => SameName(u.name, name), us) < 0 then
      Err(InvalidCredentials)
    else
      match Base64.Btoa(password)
      case None => Err(InvalidCharacter)
      case Some(hashed) =>
        var k := FirstIndex((u: User) => SameName(u.name, name) && u.password == hashed, us);
        if k < 0 then Err(InvalidCredentials) else Ok(k)
  }

  /**
   * Registration followed by login: once a user with an unclaimed name and the encoding of `registered` is
   * appended, logging in with that name in any case finds the new user exactly when the password is `registered`.
   */
  lemma LoginAfterRegister(us: seq<User>, newUser: User, registered: string, name: string, password: string)
    requires !NameTaken(us, newUser.name)
    requires Base64.Btoa(registered) == Some(newUser.password)
    requires SameName(newUser.name, name)
    ensures LoginIndex(us + [newUser], name, password) == Ok(|us|) <==> password == registered
  {
    var all := us + [newUser];
    forall i | 0 <= i < |us| ensures !LoginMatches(all[i], name, password) {
      assert all[i] == us[i];
      assert !SameName(us[i].name, newUser.name);
    }
    if password == registered {
      assert LoginMatches(all[|us|], name, password);
    }
    if LoginIndex(all, name, password) == Ok(|us|) {
      Base64.BtoaInjective(password, registered);
    }
  }

  /** Registering a user does not change how a login under any other name resolves. */
  lemma LoginUnderOtherName(us: seq<User>, newUser: User, name: string, password: string)
    requires !SameName(newUser.name, name)
    ensures LoginIndex(us + [newUser], name, password) == LoginIndex(us, name, password)
  {
    var byName := (u: User) => SameName(u.name, name);
    FirstIndexAppend(byName, us, newUser);
    var hashed := Base64.Btoa(password);
    if hashed.Some? {
      FirstIndexAppend((u: User) => SameName(u.name, name) && u.password == hashed.value, us, newUser);
    }
  }

  // ---------------------------------------------------------------------------------------------
  // Recording a completed test

  /** `time || 0`: an absent time counts as zero, a present one as itself. */
  function TimeOrZero(time: Option<int>): (r: int)
    ensures time.None? ==> r == 0
    ensures time.Some? ==> r == time.value
  {
    match time
    case Some(t) => t
    case None => 0
  }

  /** `unshift` the new entry, then keep the first `MaxHistory` entries when the list grew past the cap. */
  function PushRecent(h: seq<HistoryEntry>, e: HistoryEntry): (r: seq<HistoryEntry>)
    ensures |r| == Min(MaxHistory, |h| + 1)
    ensures r[0] == e && r[1..] == h[..|r| - 1]
  {
    var grown := [e] + h;
    if |grown| > MaxHistory then grown[..MaxHistory] else grown
  }

  /** One recording keeps the newest `MaxHistory` entries of the new entry followed by the old history. */
  lemma PushRecentIsTake(h: seq<HistoryEntry>, e: HistoryEntry)
    ensures PushRecent(h, e) == Take(MaxHistory, [e] + h)
  {
  }

  /** A history after recording `entries` one after another, oldest first. */
  function RecordAll(h: seq<HistoryEntry>, entries: seq<HistoryEntry>): seq<HistoryEntry>
    decreases |entries|
  {
    if |entries| == 0 then h else RecordAll(PushRecent(h, entries[0]), entries[1..])
  }

  /**
   * Recording entries one by one leaves the newest `MaxHistory` of them and of the old history,
   * most recent first: the bounded log drops exactly its oldest entries.
   */
  lemma {:induction false} RecordAllKeepsNewest(h: seq<HistoryEntry>, entries: seq<HistoryEntry>)
    requires |entries| > 0 || |h| <= MaxHistory
    ensures RecordAll(h, entries) == Take(MaxHistory, Reverse(entries) + h)
    decreases |entries|
  {
    if |entries| == 0 {
      assert Reverse(entries) + h == h;
    } else {
      var e, later := entries[0], entries[1..];
      RecordAllKeepsNewest(PushRecent(h, e), later);
      PushRecentIsTake(h, e);
      TakeConcatTake(MaxHistory, Reverse(later), [e] + h);
      assert Reverse(later) + ([e] + h) == Reverse(entries) + h;
    }
  }

  /** After at least `MaxHistory` recordings the log holds exactly the last `MaxHistory`, newest first. */
  lemma HistoryCapReached(h: seq<HistoryEntry>, entries: seq<HistoryEntry>)
    requires |entries| >= MaxHistory
    ensures |RecordAll(h, entries)| == MaxHistory
    ensures forall i :: 0 <= i < MaxHistory ==> RecordAll(h, entries)[i] == entries[|entries| - 1 - i]
  {
    RecordAllKeepsNewest(h, entries);
    var all := Reverse(entries) + h;
    assert forall i :: 0 <= i < MaxHistory ==> all[i] == Reverse(entries)[i];
  }

  /** The user record after one completed test. */
  function Recorded(u: User, data: TestData, now: string): (v: User)
    ensures v.id == u.id && v.name == u.name && v.isAdmin == u.isAdmin
    ensures v.stats.testsCompleted == u.stats.testsCompleted + 1
    ensures v.stats.totalTime == u.stats.totalTime + TimeOrZero(data.time)
    ensures |u.history| <= MaxHistory ==> |v.history| <= MaxHistory
    ensures v.password == u.password && v.createdAt == u.createdAt && v.achievements == u.achievements
    ensures v.stats.favoriteCategory == u.stats.favoriteCategory
    ensures v.history == Take(MaxHistory, [HistoryEntry(data.testId, data.testTitle, data.result, now,
                                                        TimeOrZero(data.time))] + u.history)
    ensures |v.history| >= 1
    ensures v.history[0].testId == data.testId && v.history[0].completedAt == now
  {
    var entry := HistoryEntry(data.testId, data.testTitle, data.result, now, TimeOrZero(data.time));
    PushRecentIsTake(u.history, entry);
    u.(stats := u.stats.(testsCompleted := u.stats.testsCompleted + 1,
                         totalTime := u.stats.totalTime + TimeOrZero(data.time)),
       history := PushRecent(u.history, entry))
  }

  /** `getTestHistory(userId)`: the stored test results of one user, in stored order. */
  function TestHistory(results: seq<TestResult>, userId: string): (r: seq<TestResult>)
    ensures forall t :: t in r <==> t in results && t.userId == userId
    ensures |r| <= |results|
  {
    Filter((t: TestResult) => t.userId == userId, results)
  }

  /** The stored users whose flag is set, in stored order. */
  function Admins(us: seq<User>): (r: seq<User>)
    ensures forall u :: u in r <==> u in us && u.isAdmin
    ensures |r| <= |us|
  {
    Filter((u: User) => u.isAdmin, us)
  }

  /** Selecting admins keeps stored order: the admins of a concatenation are those of each part, in turn. */
  lemma AdminsKeepOrder(a: seq<User>, b: seq<User>)
    ensures Admins(a + b) == Admins(a) + Admins(b)
  {
    FilterConcat((u: User) => u.isAdmin, a, b);
  }

  // ---------------------------------------------------------------------------------------------
  // Invariants of the stored list

  predicate UniqueIds(us: seq<User>) {
    forall i, j :: 0 <= i < j < |us| ==> us[i].id != us[j].id
  }

  predicate UniqueNames(us: seq<User>) {
    forall i, j :: 0 <= i < j < |us| ==> !SameName(us[i].name, us[j].name)
  }

  predicate HistoriesBounded(us: seq<User>) {
    forall i :: 0 <= i < |us| ==> |us[i].history| <= MaxHistory
  }

  /** The session copy is absent or equal to the stored record with its id (no dangling, no stale session). */
  predicate SessionSynced(us: seq<User>, session: Option<User>) {
    session.None? || (0 <= IndexOfId(us, session.value.id) && us[IndexOfId(us, session.value.id)] == session.value)
  }

  /** No user other than the one at index `k` has `name`, ignoring case. */
  predicate NameFreeExcept(us: seq<User>, k: nat, name: string) {
    forall i :: 0 <= i < |us| && i != k ==> !SameName(us[i].name, name)
  }

  /** Replacing the record at `k` by one with the same id, a free name and a bounded history keeps the
      invariants; the session stays in sync if it is moved to the new record exactly when it had that id. */
  lemma UpdateKeepsValid(us: seq<User>, k: nat, v: User, session: Option<User>)
    requires k < |us| && v.id == us[k].id
    requires UniqueIds(us) && UniqueNames(us) && HistoriesBounded(us) && SessionSynced(us, session)
    requires |v.history| <= MaxHistory && NameFreeExcept(us, k, v.name)
    ensures UniqueIds(us[k := v]) && UniqueNames(us[k := v]) && HistoriesBounded(us[k := v])
    ensures session.Some? && session.value.id == v.id ==> SessionSynced(us[k := v], Some(v))
    ensures !(session.Some? && session.value.id == v.id) ==> SessionSynced(us[k := v], session)
  {
    var vs := us[k := v];
    if session.Some? {
      IndexOfIdSameIds(us, vs, session.value.id);
    }
    forall i, j | 0 <= i < j < |vs| ensures !SameName(vs[i].name, vs[j].name) {
      if i == k {
        assert !SameName(us[j].name, v.name);
      } else if j == k {
        assert !SameName(us[i].name, v.name);
      }
    }
  }

  /** With unique names, the name a record already has is free apart from that record. */
  lemma OwnNameFree(us: seq<User>, k: nat)
    requires k < |us| && UniqueNames(us)
    ensures NameFreeExcept(us, k, us[k].name)
  {
    forall i | 0 <= i < |us| && i != k ensures !SameName(us[i].name, us[k].name) {
      if i > k {
        assert !SameName(us[k].name, us[i].name);
      }
    }
  }

  /** Renaming the session user's record to a name no other user has keeps the invariants, with the session
      moved to the renamed record. */
  lemma RenameKeepsValid(us: seq<User>, k: nat, newName: string, session: Option<User>)
    requires k < |us| && session.Some? && session.value.id == us[k].id
    requires UniqueIds(us) && UniqueNames(us) && HistoriesBounded(us) && SessionSynced(us, session)
    requires !NameTakenByOther(us, newName, us[k].id)
    ensures var v := us[k].(name := newName);
            UniqueIds(us[k := v]) && UniqueNames(us[k := v]) && HistoriesBounded(us[k := v])
            && SessionSynced(us[k := v], Some(v))
  {
    forall i | 0 <= i < |us| && i != k ensures !SameName(us[i].name, newName) {
      assert us[i].id != us[k].id;
    }
    UpdateKeepsValid(us, k, us[k].(name := newName), session);
  }

  /** The session after the flag of the record with id `id` is set to `flag`: the session copy gets the same flag
      when it has that id. */
  function SessionWithFlag(session: Option<User>, id: string, flag: bool): Option<User> {
    if session.Some? && session.value.id == id then Some(session.value.(isAdmin := flag)) else session
  }

  /** Setting the admin flag of one record keeps the invariants, and the session copy with the same flag set stays
      in sync. */
  lemma AdminFlagKeepsValid(us: seq<User>, k: nat, flag: bool, session: Option<User>)
    requires k < |us|
    requires UniqueIds(us) && UniqueNames(us) && HistoriesBounded(us) && SessionSynced(us, session)
    ensures var vs := us[k := us[k].(isAdmin := flag)];
            UniqueIds(vs) && UniqueNames(vs) && HistoriesBounded(vs) && SessionSynced(vs, SessionWithFlag(session, us[k].id, flag))
  {
    var v := us[k].(isAdmin := flag);
    OwnNameFree(us, k);
    UpdateKeepsValid(us, k, v, session);
    if session.Some? && session.value.id == v.id {
      assert session.value == us[k];
    }
  }

  class UserManager {
    var users: seq<User>
    var currentUser: Option<User>
    /** The 'testoria_users' key; None while it has never been written. */
    ghost var storedUsers: Option<seq<User>>
    /** The 'testoria_current_user' key. */
    ghost var storedCurrentUser: Option<User>
    /** Whether the 'isLoggedIn' key holds 'true'. */
    ghost var storedLoggedIn: bool

    /** The invariants the store's operations keep. */
    ghost predicate Valid()
      reads this
    {
      UniqueIds(users) && UniqueNames(users) && HistoriesBounded(users) && SessionSynced(users, currentUser)
    }

    /** The storage keys mirror the in-memory state. */
    ghost predicate Persisted()
      reads this
    {
      storedUsers.GetOr([]) == users && storedCurrentUser == currentUser
    }

    /** The 'isLoggedIn' flag agrees with the session. */
    ghost predicate FlagSynced()
      reads this
    {
      storedLoggedIn <==> currentUser.Some?
    }

    /** Loads the user list and the session copy from storage; absent keys give `[]` and no session. */
    constructor (savedUsers: Option<seq<User>>, savedCurrentUser: Option<User>, ghost savedLoggedIn: bool)
      ensures users == savedUsers.GetOr([]) && currentUser == savedCurrentUser
      ensures storedUsers == savedUsers && storedCurrentUser == savedCurrentUser && storedLoggedIn == savedLoggedIn
      ensures Persisted()
    {
      users := savedUsers.GetOr([]);
      currentUser := savedCurrentUser;
      storedUsers := savedUsers;
      storedCurrentUser := savedCurrentUser;
      storedLoggedIn := savedLoggedIn;
    }

    /** Writes the user list to 'testoria_users'. */
    method SaveUsers()
      modifies this
      ensures storedUsers == Some(users)
      ensures users == old(users) && currentUser == old(currentUser)
      ensures storedCurrentUser == old(storedCurrentUser) && storedLoggedIn == old(storedLoggedIn)
    {
      storedUsers := Some(users);
    }

    /** Registers a user with id `id` created at `now`, then logs that user in. */
    method Register(name: string, password: string, id: string, now: string) returns (r: Result<User, AuthError>)
      modifies this
      ensures NameTaken(old(users), name) ==> r == Err(DuplicateName) && unchanged(this)
      ensures !NameTaken(old(users), name) && Base64.Btoa(password).None? ==>
                r == Err(InvalidCharacter) && unchanged(this)
      ensures !NameTaken(old(users), name) && Base64.Btoa(password).Some? ==>
                && r == Ok(User(id, name, Base64.Btoa(password).value, now, Stats(0, 0, None), [], [], false))
                && users == old(users) + [r.value]
                && currentUser == Some(r.value)
                && storedUsers == Some(users) && storedCurrentUser == currentUser && storedLoggedIn
      ensures old(Valid()) && IdFresh(old(users), id) ==> Valid()
      ensures old(Persisted()) ==> Persisted()
      ensures old(FlagSynced()) ==> FlagSynced()
    {
      if FirstIndex((u: User) => SameName(u.name, name), users) >= 0 {
        return Err(DuplicateName);
      }
      var hashed := Base64.Btoa(password);
      if hashed.None? {
        return Err(InvalidCharacter);
      }
      var newUser := User(id, name, hashed.value, now, Stats(0, 0, None), [], [], false);
      ghost var before := users;
      users := users + [newUser];
      SaveUsers();
      LoginAfterRegister(before, newUser, password, name, password);
      var login := LoginByName(name, password);
      r := Ok(newUser);
    }

    /** Logs in the first user whose lowered name and password encoding match, or throws. */
    method LoginByName(name: string, password: string) returns (r: Result<User, AuthError>)
      modifies this
      ensures LoginIndex(old(users), name, password).Err? ==>
                r == Err(LoginIndex(old(users), name, password).error) && unchanged(this)
      ensures LoginIndex(old(users), name, password).Ok? ==>
                && r == Ok(old(users)[LoginIndex(old(users), name, password).value])
                && users == old(users) && currentUser == Some(r.value)
                && storedUsers == old(storedUsers) && storedCurrentUser == currentUser && storedLoggedIn
      ensures old(Valid()) ==> Valid()
      ensures old(Persisted()) ==> Persisted()
      ensures old(FlagSynced()) ==> FlagSynced()
    {
      var found := LoginIndex(users, name, password);
      if found.Err? {
        return Err(found.error);
      }
      var user := users[found.value];
      currentUser := Some(user);
      storedCurrentUser := currentUser;
      storedLoggedIn := true;
      r := Ok(user);
    }

    /** Ends the session and removes both session keys; calling it again changes nothing more. */
    method Logout()
      modifies this
      ensures currentUser == None && storedCurrentUser == None && !storedLoggedIn
      ensures users == old(users) && storedUsers == old(storedUsers)
      ensures old(Valid()) ==> Valid()
      ensures old(Persisted()) ==> Persisted()
      ensures FlagSynced()
    {
      currentUser := None;
      storedCurrentUser := None;
      storedLoggedIn := false;
    }

    /** Records a completed test on the session user's stored record and refreshes the session copy. */
    method UpdateUserStats(data: TestData, now: string)
      modifies this
      ensures old(currentUser).None? || IndexOfId(old(users), old(currentUser).value.id) < 0 ==> unchanged(this)
      ensures old(currentUser).Some? && 0 <= IndexOfId(old(users), old(currentUser).value.id) ==>
                var k := IndexOfId(old(users), old(currentUser).value.id);
                && users == old(users)[k := Recorded(old(users)[k], data, now)]
                && currentUser == Some(users[k])
                && storedUsers == Some(users) && storedCurrentUser == currentUser
                && storedLoggedIn == old(storedLoggedIn)
      ensures old(Valid()) ==> Valid()
      ensures old(Persisted()) ==> Persisted()
      ensures old(FlagSynced()) ==> FlagSynced()
    {
      if currentUser.None? {
        return;
      }
      var k := IndexOfId(users, currentUser.value.id);
      if k != -1 {
        users := users[k := Recorded(users[k], data, now)];
        SaveUsers();
        currentUser := Some(users[k]);
        storedCurrentUser := currentUser;
      }
    }

    /** Renames the session user; throws when another user already has the name, ignoring case. */
    method UpdateUserName(newName: string) returns (r: Outcome<AuthError>)
      modifies this
      ensures old(currentUser).None? ==> r == Pass && unchanged(this)
      ensures old(currentUser).Some? && NameTakenByOther(old(users), newName, old(currentUser).value.id) ==>
                r == Fail(DuplicateName) && unchanged(this)
      ensures (old(currentUser).Some? && !NameTakenByOther(old(users), newName, old(currentUser).value.id) &&
               IndexOfId(old(users), old(currentUser).value.id) < 0) ==> r == Pass && unchanged(this)
      ensures (old(currentUser).Some? && !NameTakenByOther(old(users), newName, old(currentUser).value.id) &&
               0 <= IndexOfId(old(users), old(currentUser).value.id)) ==>
                var k := IndexOfId(old(users), old(currentUser).value.id);
                && r == Pass
                && users == old(users)[k := old(users)[k].(name := newName)]
                && currentUser == Some(users[k])
                && storedUsers == Some(users) && storedCurrentUser == currentUser
                && storedLoggedIn == old(storedLoggedIn)
      ensures old(Valid()) ==> Valid()
      ensures old(Persisted()) ==> Persisted()
      ensures old(FlagSynced()) ==> FlagSynced()
    {
      if currentUser.None? {
        return Pass;
      }
      var id := currentUser.value.id;
      if FirstIndex((u: User) => SameName(u.name, newName) && u.id != id, users) >= 0 {
        return Fail(DuplicateName);
      }
      var k := IndexOfId(users, id);
      if k != -1 {
        ghost var before, session := users, currentUser;
        users := users[k := users[k].(name := newName)];
        SaveUsers();
        currentUser := Some(users[k]);
        storedCurrentUser := currentUser;
        if UniqueIds(before) && UniqueNames(before) && HistoriesBounded(before) && SessionSynced(before, session) {
          RenameKeepsValid(before, k, newName, session);
        }
      }
      r := Pass;
    }

    /** `isAdmin(user)`: the flag on the stored record with the id of `user`, or of the session user. */
    function IsAdmin(user: Option<User>): (r: bool)
      reads this
      ensures var target := if user.Some? then user else currentUser;
              && (target.None? ==> !r)
              && (r ==> exists i :: 0 <= i < |users| && users[i].id == target.value.id && users[i].isAdmin)
              && (UniqueIds(users) && target.Some? ==>
                    (r <==> exists i :: 0 <= i < |users| && users[i].id == target.value.id && users[i].isAdmin))
    {
      var target := if user.Some? then user else currentUser;
      if target.None? then false
      else
        var k := IndexOfId(users, target.value.id);
        0 <= k && users[k].isAdmin
    }

    /** Sets `isAdmin` on the stored record with id `userId`; false when there is none. */
    method MakeAdmin(userId: string) returns (found: bool)
      modifies this
      ensures found <==> 0 <= IndexOfId(old(users), userId)
      ensures !found ==> unchanged(this)
      ensures found ==>
                var k := IndexOfId(old(users), userId);
                && users == old(users)[k := old(users)[k].(isAdmin := true)]
                && storedUsers == Some(users)
                && IsAdmin(Some(users[k]))
      ensures found && old(currentUser).Some? && old(currentUser).value.id == userId ==>
                currentUser == Some(old(currentUser).value.(isAdmin := true)) && storedCurrentUser == currentUser
      ensures !(found && old(currentUser).Some? && old(currentUser).value.id == userId) ==>
                currentUser == old(currentUser) && storedCurrentUser == old(storedCurrentUser)
      ensures storedLoggedIn == old(storedLoggedIn)
      ensures old(Valid()) ==> Valid()
      ensures old(Persisted()) ==> Persisted()
      ensures old(FlagSynced()) ==> FlagSynced()
    {
      var k := IndexOfId(users, userId);
      if k == -1 {
        return false;
      }
      ghost var before, session := users, currentUser;
      users := users[k := users[k].(isAdmin := true)];
      IndexOfIdSameIds(before, users, userId);
      SaveUsers();
      if currentUser.Some? && currentUser.value.id == userId {
        currentUser := Some(currentUser.value.(isAdmin := true));
        storedCurrentUser := currentUser;
      }
      if UniqueIds(before) && UniqueNames(before) && HistoriesBounded(before) && SessionSynced(before, session) {
        AdminFlagKeepsValid(before, k, true, session);
      }
      found := true;
    }

    /** Clears `isAdmin` on the stored record with id `userId`; false when there is none. */
    method RemoveAdmin(userId: string) returns (found: bool)
      modifies this
      ensures found <==> 0 <= IndexOfId(old(users), userId)
      ensures !found ==> unchanged(this)
      ensures found ==>
                var k := IndexOfId(old(users), userId);
                && users == old(users)[k := old(users)[k].(isAdmin := false)]
                && storedUsers == Some(users)
                && !IsAdmin(Some(users[k]))
      ensures found && old(currentUser).Some? && old(currentUser).value.id == userId ==>
                currentUser == Some(old(currentUser).value.(isAdmin := false)) && storedCurrentUser == currentUser
      ensures !(found && old(currentUser).Some? && old(currentUser).value.id == userId) ==>
                currentUser == old(currentUser) && storedCurrentUser == old(storedCurrentUser)
      ensures storedLoggedIn == old(storedLoggedIn)
      ensures old(Valid()) ==> Valid()
      ensures old(Persisted()) ==> Persisted()
      ensures old(FlagSynced()) ==> FlagSynced()
    {
      var k := IndexOfId(users, userId);
      if k == -1 {
        return false;
      }
      ghost var before, session := users, currentUser;
      users := users[k := users[k].(isAdmin := false)];
      IndexOfIdSameIds(before, users, userId);
      SaveUsers();
      if currentUser.Some? && currentUser.value.id == userId {
        currentUser := Some(currentUser.value.(isAdmin := false));
        storedCurrentUser := currentUser;
      }
      if UniqueIds(before) && UniqueNames(before) && HistoriesBounded(before) && SessionSynced(before, session) {
        AdminFlagKeepsValid(before, k, false, session);
      }
      found := true;
    }

    /** `getAdmins()`: the stored users whose flag is set, in stored order. */
    function GetAdmins(): (r: seq<User>)
      reads this
      ensures forall u :: u in r <==> u in users && u.isAdmin
      ensures |r| <= |users|
    {
      Admins(users)
    }

    /** `isLoggedIn()`: whether there is a session; it agrees with the 'isLoggedIn' key when that is in sync. */
    function IsLoggedIn(): (r: bool)
      reads this
      ensures r <==> currentUser.Some?
      ensures FlagSynced() ==> (r <==> storedLoggedIn)
    {
      currentUser.Some?
    }

    /** `getCurrentUser()`: the session copy, which is a stored record while the invariants hold. */
    function GetCurrentUser(): (r: Option<User>)
      reads this
      ensures r.Some? <==> IsLoggedIn()
      ensures SessionSynced(users, currentUser) && r.Some? ==> r.value in users
    {
      currentUser
    }
  }
}
