/**
 * A client of the account store, proved from the method contracts alone: the life cycle of one account,
 * from registration through logins, sixty finished tests, role changes and logout.
 */
module Scenario {
  import opened Wrappers
  import opened Seqs
  import opened Text
  import opened AuthCore

  lemma AliceNamesMatch()
    ensures SameName("Alice", "ALICE") && SameName("Alice", "alice")
  {
    assert Lower("Alice") == Lower("ALICE") == Lower("alice") by {
      assert forall i :: 0 <= i < 5 ==> LowerChar("Alice"[i]) == LowerChar("ALICE"[i]) == LowerChar("alice"[i]);
    }
  }

  lemma PasswordsEncodable()
    ensures Base64.Btoa("p1").Some? && Base64.Btoa("p2").Some?
  {
    assert Base64.IsLatin1("p1") && Base64.IsLatin1("p2");
  }

  /**
   * The life cycle of one account on an empty store: registration, logins in another case and with a wrong
   * password, a name clash, sixty finished tests, granting and revoking the role, and two logouts.
   */
  method AccountLifeCycle(aliceId: string, now: string, results: seq<TestData>)
    requires |results| == 60
  {
    var store := new UserManager(None, None, false);
    PasswordsEncodable();
    var registered := store.Register("Alice", "p1", aliceId, now);
    var alice := registered.value;
    assert store.users == [alice] && store.GetCurrentUser() == Some(alice) && alice.name == "Alice";
    store.Logout();
    LoginAgain(store, alice, now);
    SixtyTests(store, results, now);
    RolesThenLogout(store, aliceId);
  }

  /** With one account on the store, logins in another case succeed with its password only, and its name
      cannot be registered again in another case. */
  method LoginAgain(store: UserManager, alice: User, now: string)
    requires store.users == [alice] && alice.name == "Alice" && Base64.Btoa("p1") == Some(alice.password)
    requires Base64.Btoa("p2").Some?
    modifies store
    ensures store.users == [alice] && store.currentUser == Some(alice)
  {
    AliceNamesMatch();
    assert [] + [alice] == [alice];
    LoginAfterRegister([], alice, "p1", "ALICE", "p1");
    var again := store.LoginByName("ALICE", "p1");
    assert again == Ok(alice) && store.GetCurrentUser() == Some(alice);

    // A wrong password is refused and changes nothing.
    LoginAfterRegister([], alice, "p1", "ALICE", "p2");
    var wrong := store.LoginByName("ALICE", "p2");
    assert wrong.Err? && store.GetCurrentUser() == Some(alice);

    // The same name in another case cannot be registered twice.
    assert NameTaken(store.users, "alice");
    var clash := store.Register("alice", "p2", "another-id", now);
    assert clash == Err(DuplicateName) && store.users == [alice];
  }

  /** Sixty finished tests on a fresh account: the counter reaches sixty, the history stops at fifty. */
  method SixtyTests(store: UserManager, results: seq<TestData>, now: string)
    requires |results| == 60
    requires store.Valid() && |store.users| == 1 && store.currentUser == Some(store.users[0])
    requires store.users[0].stats.testsCompleted == 0 && store.users[0].history == []
    modifies store
    ensures store.Valid() && |store.users| == 1 && store.currentUser == Some(store.users[0])
    ensures store.users[0].id == old(store.users[0].id)
  {
    var i := 0;
    while i < |results|
      invariant 0 <= i <= |results|
      invariant store.Valid() && |store.users| == 1 && store.currentUser == Some(store.users[0])
      invariant store.users[0].id == old(store.users[0].id)
      invariant store.users[0].stats.testsCompleted == i
      invariant |store.users[0].history| == Min(MaxHistory, i)
    {
      store.UpdateUserStats(results[i], now);
      i := i + 1;
    }
    assert store.GetCurrentUser().value.stats.testsCompleted == 60;
    assert |store.GetCurrentUser().value.history| == MaxHistory;
  }

  /** Granting and revoking the role is seen by `isAdmin`; logging out twice is logging out once. */
  method RolesThenLogout(store: UserManager, id: string)
    requires store.Valid() && store.currentUser.Some? && store.currentUser.value.id == id
    modifies store
  {
    var granted := store.MakeAdmin(id);
    assert granted && store.IsAdmin(store.GetCurrentUser()) && store.GetCurrentUser().value in store.GetAdmins();
    var revoked := store.RemoveAdmin(id);
    assert revoked && !store.IsAdmin(store.GetCurrentUser()) && store.GetCurrentUser().value !in store.GetAdmins();

    store.Logout();
    var usersAfterOne, storedAfterOne := store.users, store.storedUsers;
    store.Logout();
    assert store.users == usersAfterOne && store.storedUsers == storedAfterOne;
    assert !store.IsLoggedIn() && store.storedCurrentUser == None && !store.storedLoggedIn;
  }
}
