/** The authentication manager as an object (internal/auth/manager.go): each method changes the fields in place,
    undoes the change when the file cannot be saved, and is proved against the operation it stands for. */
module AuthManager {
  import opened Store
  import opened Text
  import opened Lex
  import opened Ordering
  import opened Accounts
  import opened Sessions

  // ----- Helpers with loops -----

  method FindUserIndex(users: seq<User>, name: string) returns (i: int)
    ensures i == Find(users, name)
  {
    var trimmed := Trim(name);
    i := 0;
    while i < |users|
      invariant 0 <= i <= |users| && FindFrom(users, name, 0) == FindFrom(users, name, i)
    {
      if EqualFold(users[i].username, trimmed) { return; }
      i := i + 1;
    }
    i := -1;
  }

  method ActiveAdminCount(users: seq<User>) returns (count: nat)
    ensures count > 0 <==> HasActiveAdmin(users)
  {
    count := 0;
    for n := 0 to |users|
      invariant count > 0 <==> exists i :: 0 <= i < n && users[i].active && users[i].role == Admin
    {
      if users[n].active && users[n].role == Admin { count := count + 1; }
    }
  }

  lemma GrantSetGrows(ids: seq<string>, n: nat)
    requires n < |ids|
    ensures GrantSet(ids[..n + 1]) == GrantSet(ids[..n]) + (if Trim(ids[n]) != "" then {Trim(ids[n])} else {})
  {
    var a, b := ids[..n], ids[..n + 1];
    assert forall i :: 0 <= i < n ==> a[i] == b[i];
    assert b[n] == ids[n];
  }

  method CollectIds(ids: seq<string>) returns (unique: set<string>)
    ensures unique == GrantSet(ids)
  {
    unique := {};
    for n := 0 to |ids|
      invariant unique == GrantSet(ids[..n])
    {
      GrantSetGrows(ids, n);
      var id := Trim(ids[n]);
      if id != "" { unique := unique + {id}; }
    }
    assert ids[..|ids|] == ids;
  }

  method ClusterIdsForRole(role: Role, ids: seq<string>) returns (r: seq<string>)
    ensures r == Grants(role, ids)
    ensures NormalGrants(role, r)
  {
    GrantsAreNormal(role, ids);
    if role == Admin { return []; }
    var unique := CollectIds(ids);
    r := SortText(unique);
  }

  lemma WithoutFirst<T(!new)>(ids: seq<T>, n: nat, id: T)
    requires n < |ids|
    ensures Without(ids[n..], id) ==
      if ids[n] == id then Without(ids[n + 1..], id) else [ids[n]] + Without(ids[n + 1..], id)
  {
    assert ids[n..][1..] == ids[n + 1..];
  }

  lemma FilterStep<T(!new)>(ids: seq<T>, n: nat, id: T, filtered: seq<T>)
    requires n < |ids| && Without(ids, id) == filtered + Without(ids[n..], id)
    ensures Without(ids, id) == (if ids[n] == id then filtered else filtered + [ids[n]]) + Without(ids[n + 1..], id)
  {
    WithoutFirst(ids, n, id);
    Regrouped(filtered, ids[n], Without(ids[n + 1..], id));
  }

  lemma Regrouped<T>(a: seq<T>, x: T, b: seq<T>)
    ensures a + ([x] + b) == a + [x] + b
  {
  }

  /** The inner loop of RemoveClusterPermissions. */
  method Filter<T(==, !new)>(ids: seq<T>, id: T) returns (filtered: seq<T>, changed: bool)
    ensures filtered == Without(ids, id)
    ensures changed <==> id in ids
    ensures !changed ==> filtered == ids
  {
    filtered, changed := [], false;
    for n := 0 to |ids|
      invariant Without(ids, id) == filtered + Without(ids[n..], id)
      invariant changed <==> exists i :: 0 <= i < n && ids[i] == id
    {
      FilterStep(ids, n, id, filtered);
      if ids[n] != id { filtered := filtered + [ids[n]]; } else { changed := true; }
    }
    assert ids[|ids|..] == [];
    WithoutMembers(ids, id);
  }

  method Edited(previous: User, displayName: string, role: Role, input: UserInput, now: int) returns (updated: User)
    requires displayName == Trim(input.displayName)
    ensures updated == UpdatedUser(previous, role, input, now)
  {
    var grants := ClusterIdsForRole(role, input.clusterIds);
    updated := previous.(displayName := displayName, role := role, clusterIds := grants);
    if input.active.Some? { updated := updated.(active := input.active.value); }
    if input.password.Hashed? { updated := updated.(hash := input.password.hash); }
    updated := updated.(updatedAt := now);
  }

  class Manager {
    var configured: bool
    var mode: Mode
    var ldap: LdapSettings
    var users: seq<User>
    var sessions: Table

    ghost function Stored(): Config reads this { Config(configured, mode, ldap, users) }

    ghost predicate Valid() reads this { Good(Stored()) }

    constructor ()
      ensures Valid() && Stored() == UNCONFIGURED && sessions == map[]
    {
      configured, mode, ldap, users, sessions := false, LocalMode, LdapSettings("", []), [], map[];
    }

    method Bootstrap(input: UserInput, mustChange: bool, now: int, saved: bool) returns (error: Option<AuthError>)
      requires Valid()
      modifies this`configured, this`mode, this`ldap, this`users
      ensures Outcome(Stored(), error) == ApplyBootstrap(old(Stored()), input, mustChange, now, saved)
      ensures Valid() && (error.Some? ==> Stored() == old(Stored()))
    {
      BootstrapKeeps(Stored(), input, mustChange, now, saved);
      var f := NormalizeUserFields(input.username, input.displayName, "admin");
      if f.None? || !input.password.Hashed? { return Some(InvalidInput); }
      if configured { return Some(AlreadyConfigured); }
      var user := User(f.value.username, f.value.displayName, Admin, true, [], mustChange, input.password.hash, now, now);
      mode, ldap, users := LocalMode, LdapSettings("", []), [user];
      if !saved {
        mode, ldap, users := LocalMode, LdapSettings("", []), [];
        return Some(NotSaved);
      }
      configured := true;
      error := None;
    }

    method UpdateSettings(text: string, checked: Option<LdapSettings>, saved: bool) returns (error: Option<AuthError>)
      requires Valid()
      modifies this`mode, this`ldap, this`sessions
      ensures Outcome(Stored(), error) == ApplySettings(old(Stored()), text, checked, saved)
      ensures Valid() && (error.Some? ==> Stored() == old(Stored()) && sessions == old(sessions))
      ensures error.None? ==> sessions == RevokeAll(old(sessions), OfMode(mode))
    {
      var m := ParseMode(text);
      if m.None? { return Some(InvalidInput); }
      if !configured { return Some(NotConfigured); }
      if checked.None? { return Some(InvalidInput); }
      var admins := ActiveAdminCount(users);
      if ModeIncludes(m.value, Local) && admins == 0 { return Some(LastAdmin); }
      if m.value == LdapMode && checked.value.admins == [] { return Some(InvalidInput); }
      var previousMode, previousLdap := mode, ldap;
      mode, ldap := m.value, checked.value;
      if !saved {
        mode, ldap := previousMode, previousLdap;
        return Some(NotSaved);
      }
      RevokeSessions(OfMode(mode));
      error := None;
    }

    method CreateUser(input: UserInput, now: int, saved: bool) returns (error: Option<AuthError>)
      requires Valid()
      modifies this`users
      ensures Outcome(Stored(), error) == ApplyCreate(old(Stored()), input, now, saved)
      ensures Valid() && (error.Some? ==> Stored() == old(Stored()))
    {
      CreateKeeps(Stored(), input, now, saved);
      var f := NormalizeUserFields(input.username, input.displayName, input.role);
      if f.None? || !input.password.Hashed? { return Some(InvalidInput); }
      var active := true;
      if input.active.Some? { active := input.active.value; }
      var grants := ClusterIdsForRole(f.value.role, input.clusterIds);
      var user := User(f.value.username, f.value.displayName, f.value.role, active, grants, false,
                       input.password.hash, now, now);
      if !configured { return Some(NotConfigured); }
      var index := FindUserIndex(users, f.value.username);
      if index >= 0 { return Some(UserExists); }
      users := users + [user];
      if !saved {
        users := users[..|users| - 1];
        return Some(NotSaved);
      }
      error := None;
    }

    method UpdateUser(username: string, input: UserInput, now: int, saved: bool) returns (error: Option<AuthError>)
      requires Valid()
      modifies this`users, this`sessions
      ensures Outcome(Stored(), error) == ApplyUpdate(old(Stored()), username, input, now, saved)
      ensures Valid() && (error.Some? ==> Stored() == old(Stored()) && sessions == old(sessions))
      ensures error.None? ==>
        sessions == RevokeAll(old(sessions), OfUser(old(users)[Find(old(users), username)].username))
    {
      UpdateKeeps(Stored(), username, input, now, saved);
      var displayName, role := Trim(input.displayName), ParseRole(input.role);
      if displayName == "" || |displayName| > 100 || role.None? || input.password.Weak? { return Some(InvalidInput); }
      if !configured { return Some(NotConfigured); }
      var index := FindUserIndex(users, username);
      if index < 0 { return Some(UserNotFound); }
      var previous := users[index];
      var updated := Edited(previous, displayName, role.value, input, now);
      error := ReplaceUser(index, updated, saved);
      if error.None? { RevokeSessions(OfUser(previous.username)); }
    }

    /** The end of UpdateUser: puts the account in place and takes it back when that must not stand. */
    method ReplaceUser(index: nat, updated: User, saved: bool) returns (error: Option<AuthError>)
      requires index < |users|
      modifies this`users
      ensures Outcome(Stored(), error) == WithUsers(old(Stored()), old(users)[index := updated], saved)
      ensures error.Some? ==> Stored() == old(Stored())
    {
      var previous := users[index];
      users := users[index := updated];
      var admins := ActiveAdminCount(users);
      if ModeIncludes(mode, Local) && admins == 0 {
        users := users[index := previous];
        return Some(LastAdmin);
      }
      if !saved {
        users := users[index := previous];
        return Some(NotSaved);
      }
      error := None;
    }

    method DeleteUser(username: string, saved: bool) returns (error: Option<AuthError>)
      requires Valid()
      modifies this`users, this`sessions
      ensures Outcome(Stored(), error) == ApplyDelete(old(Stored()), username, saved)
      ensures Valid() && (error.Some? ==> Stored() == old(Stored()) && sessions == old(sessions))
      ensures error.None? ==> sessions == RevokeAll(old(sessions), OfUser(username))
    {
      DeleteKeeps(Stored(), username, saved);
      if !configured { return Some(NotConfigured); }
      var index := FindUserIndex(users, username);
      if index < 0 { return Some(UserNotFound); }
      var previous := users;
      users := users[..index] + users[index + 1..];
      var admins := ActiveAdminCount(users);
      if ModeIncludes(mode, Local) && admins == 0 {
        users := previous;
        return Some(LastAdmin);
      }
      if !saved {
        users := previous;
        return Some(NotSaved);
      }
      RevokeSessions(OfUser(username));
      error := None;
    }

    method RemoveClusterPermissions(clusterId: string, now: int, saved: bool) returns (error: Option<AuthError>)
      requires Valid()
      modifies this`users
      ensures Outcome(Stored(), error) == ApplyRemove(old(Stored()), clusterId, now, saved)
      ensures Valid() && (error.Some? ==> Stored() == old(Stored()))
    {
      RemoveKeeps(Stored(), clusterId, now, saved);
      var id := Trim(clusterId);
      if id == "" { return Some(InvalidInput); }
      if !configured { return Some(NotConfigured); }
      var previous, previousUpdatedAt, changed := FilterUsers(id, now);
      if !changed { return None; }
      if !saved {
        RestoreUsers(previous, previousUpdatedAt, old(users));
        return Some(NotSaved);
      }
      error := None;
    }

    /** The loop over the users: takes `id` out of each grant list and remembers what it replaces. */
    method FilterUsers(id: string, now: int)
      returns (previous: seq<seq<string>>, previousUpdatedAt: seq<int>, changed: bool)
      modifies this`users
      ensures users == RevokedAll(old(users), id, now)
      ensures |previous| == |previousUpdatedAt| == |users|
      ensures forall i :: 0 <= i < |users| ==>
        previous[i] == old(users)[i].clusterIds && previousUpdatedAt[i] == old(users)[i].updatedAt
      ensures !changed <==> forall i :: 0 <= i < |users| ==> id !in old(users)[i].clusterIds
      ensures !changed ==> users == old(users)
    {
      previous, previousUpdatedAt, changed := [], [], false;
      for index := 0 to |users|
        invariant |users| == |old(users)| && |previous| == |previousUpdatedAt| == index
        invariant forall i :: 0 <= i < index ==>
          previous[i] == old(users)[i].clusterIds && previousUpdatedAt[i] == old(users)[i].updatedAt
        invariant forall i :: 0 <= i < index ==> users[i] == Revoked(old(users)[i], id, now)
        invariant forall i :: index <= i < |users| ==> users[i] == old(users)[i]
        invariant changed <==> exists i :: 0 <= i < index && id in old(users)[i].clusterIds
      {
        previous := previous + [users[index].clusterIds];
        previousUpdatedAt := previousUpdatedAt + [users[index].updatedAt];
        var filtered, userChanged := Filter(users[index].clusterIds, id);
        if userChanged { changed := true; }
        users := users[index := users[index].(clusterIds := filtered)];
        if userChanged { users := users[index := users[index].(updatedAt := now)]; }
      }
    }

    /** The loop that puts the remembered grants and times back. */
    method RestoreUsers(previous: seq<seq<string>>, previousUpdatedAt: seq<int>, ghost was: seq<User>)
      requires |previous| == |previousUpdatedAt| == |users| == |was|
      requires forall i :: 0 <= i < |was| ==>
        users[i].(clusterIds := previous[i], updatedAt := previousUpdatedAt[i]) == was[i]
      modifies this`users
      ensures users == was
    {
      for index := 0 to |users|
        invariant |users| == |was|
        invariant forall i :: 0 <= i < index ==> users[i] == was[i]
        invariant forall i :: index <= i < |users| ==> users[i] == old(users)[i]
      {
        users := users[index := users[index].(clusterIds := previous[index], updatedAt := previousUpdatedAt[index])];
      }
    }

    /** The second critical section of ChangePassword and CompleteTemporaryPasswordChange. */
    method CommitPassword(username: string, readHash: nat, newHash: nat, temporary: bool, now: int, saved: bool)
      returns (error: Option<AuthError>)
      requires Valid()
      modifies this`users
      ensures Outcome(Stored(), error) == ApplyPassword(old(Stored()), username, readHash, newHash, temporary, now, saved)
      ensures Valid() && (error.Some? ==> Stored() == old(Stored()))
    {
      PasswordKeeps(Stored(), username, readHash, newHash, temporary, now, saved);
      var index := FindUserIndex(users, username);
      if index < 0 || users[index].hash != readHash { return Some(InvalidCredentials); }
      if temporary && (!users[index].active || !users[index].mustChange) { return Some(PasswordChangeNotRequired); }
      var previous := users[index];
      users := users[index := previous.(hash := newHash, mustChange := false, updatedAt := now)];
      if !saved {
        users := users[index := previous];
        return Some(NotSaved);
      }
      error := None;
    }

    // ----- Sessions -----

    method RevokeSessions(duty: Duty)
      modifies this`sessions
      ensures sessions == RevokeAll(old(sessions), duty)
    {
      var left := sessions.Keys;
      while left != {}
        invariant left <= sessions.Keys <= old(sessions).Keys
        invariant forall t :: t in sessions ==> sessions[t] == old(sessions)[t]
        invariant forall t :: t in old(sessions) ==> (t in sessions <==> t in left || !Hit(duty, old(sessions)[t]))
        decreases left
      {
        ghost var some := AnElement(left);
        var t :| t in left;
        left := left - {t};
        if Hit(duty, sessions[t]) { sessions := sessions - {t}; }
      }
    }

    method CreateSession(token: string, principal: Principal, now: int, expiresAt: int)
      modifies this`sessions
      ensures sessions == DropExpired(old(sessions), now)[token := Session(principal, expiresAt)]
    {
      var left := sessions.Keys;
      while left != {}
        invariant left <= sessions.Keys <= old(sessions).Keys
        invariant forall t :: t in sessions ==> sessions[t] == old(sessions)[t]
        invariant forall t :: t in old(sessions) ==> (t in sessions <==> t in left || old(sessions)[t].expiresAt > now)
        decreases left
      {
        ghost var some := AnElement(left);
        var t :| t in left;
        left := left - {t};
        if sessions[t].expiresAt <= now { sessions := sessions - {t}; }
      }
      assert sessions == DropExpired(old(sessions), now);
      sessions := sessions[token := Session(principal, expiresAt)];
    }

    /** A lookup with nothing in between: both halves of the protocol in one call. */
    method LookupSession(token: string, now: int) returns (r: Option<Principal>)
      modifies this`sessions
      ensures r == if token in old(sessions) && old(sessions)[token].expiresAt > now
                   then Accept(Stored(), old(sessions)[token].principal) else None
      ensures sessions == if r.Some? then old(sessions) else old(sessions) - {token}
    {
      if token !in sessions || sessions[token].expiresAt <= now {
        sessions := sessions - {token};
        return None;
      }
      var principal := sessions[token].principal;
      if !configured || !ModeIncludes(mode, principal.provider) {
        sessions := sessions - {token};
        return None;
      }
      if principal.provider == Local {
        var index := FindUserIndex(users, principal.username);
        if index < 0 || !users[index].active {
          sessions := sessions - {token};
          return None;
        }
        principal := principal.(displayName := users[index].displayName, role := users[index].role,
                                clusterIds := users[index].clusterIds, mustChange := users[index].mustChange);
      } else {
        principal := principal.(role := Operator, clusterIds := []);
        var listed := HasFold(ldap.admins, principal.username);
        if listed { principal := principal.(role := Admin); }
      }
      r := Some(principal);
    }
  }

  method HasFold(values: seq<string>, value: string) returns (found: bool)
    ensures found <==> ContainsFold(values, value)
  {
    for n := 0 to |values|
      invariant forall i :: 0 <= i < n ==> !EqualFold(values[i], value)
    {
      if EqualFold(values[n], value) { return true; }
    }
    found := false;
  }
}
