/** The stored authentication settings and local accounts (internal/auth/manager.go): what each operation
    makes of them, and what holds in every state reachable from bootstrap. */
module Accounts {
  import opened Store
  import opened Text
  import opened Lex
  import opened Ordering

  datatype Role = Admin | Operator
  datatype Mode = LocalMode | LdapMode | BothMode
  datatype Provider = Local | Ldap

  datatype User = User(
    username: string, displayName: string, role: Role, active: bool, clusterIds: seq<string>,
    mustChange: bool, hash: nat, createdAt: int, updatedAt: int)

  datatype LdapSettings = LdapSettings(connection: string, admins: seq<string>)

  datatype Config = Config(configured: bool, mode: Mode, ldap: LdapSettings, users: seq<User>)

  const UNCONFIGURED := Config(false, LocalMode, LdapSettings("", []), [])

  datatype AuthError =
    | NotConfigured
    | AlreadyConfigured
    | InvalidInput
    | UserExists
    | UserNotFound
    | LastAdmin
    | InvalidCredentials
    | PasswordChangeNotRequired
    | NotSaved

  /** A password as the operations see it: missing, refused by the policy, or hashed with a fresh salt. */
  datatype PasswordInput = Absent | Weak | Hashed(hash: nat)

  datatype UserInput = UserInput(
    username: string, displayName: string, role: string, active: Option<bool>, clusterIds: seq<string>,
    password: PasswordInput)

  /** `CommitPassword` is the second critical section of the two password changes. `ldap` is the outcome of
      checking the LDAP settings. */
  datatype Op =
    | Bootstrap(input: UserInput, mustChange: bool)
    | UpdateSettings(mode: string, ldap: Option<LdapSettings>)
    | CreateUser(input: UserInput)
    | UpdateUser(username: string, input: UserInput)
    | DeleteUser(username: string)
    | RemoveClusterPermissions(clusterId: string)
    | CommitPassword(username: string, readHash: nat, newHash: nat, temporary: bool)

  datatype Outcome = Outcome(config: Config, error: Option<AuthError>)

  // ----- Reading the input -----

  predicate ModeIncludes(mode: Mode, provider: Provider) {
    mode == BothMode || mode == (if provider == Local then LocalMode else LdapMode)
  }

  function ParseMode(s: string): Option<Mode> {
    var m := Lower(Trim(s));
    if m == "local" then Some(LocalMode) else if m == "ldap" then Some(LdapMode)
    else if m == "both" then Some(BothMode) else None
  }

  function ParseRole(s: string): Option<Role> {
    var r := Lower(Trim(s));
    if r == "admin" then Some(Admin) else if r == "operator" then Some(Operator) else None
  }

  predicate Alphanumeric(c: char) { 'A' <= c <= 'Z' || 'a' <= c <= 'z' || '0' <= c <= '9' }

  /** The pattern of user names: 2 to 64 letters, digits, or . _ @ - after the first. */
  predicate ValidUsername(s: string) {
    && 2 <= |s| <= 64 && Alphanumeric(s[0])
    && forall i :: 0 <= i < |s| ==> Alphanumeric(s[i]) || s[i] in "._@-"
  }

  datatype Fields = Fields(username: string, displayName: string, role: Role)

  function NormalizeUserFields(username: string, displayName: string, role: string): Option<Fields> {
    var u, d := Trim(username), Trim(displayName);
    var shown := if d == "" then u else d;
    var r := if Lower(Trim(role)) == "" then Some(Operator) else ParseRole(role);
    if !ValidUsername(u) || |shown| > 100 || r.None? then None else Some(Fields(u, shown, r.value))
  }

  // ----- Cluster grants -----

  function GrantSet(ids: seq<string>): set<string> {
    set i | 0 <= i < |ids| && Trim(ids[i]) != "" :: Trim(ids[i])
  }

  /** clusterIDsForRole. */
  ghost function Grants(role: Role, ids: seq<string>): seq<string> {
    if role == Admin then [] else SortedText(GrantSet(ids))
  }

  predicate CleanId(id: string) { id != "" && Trim(id) == id }

  /** An administrator has no explicit grants; an operator's are trimmed, nonempty, sorted and distinct. */
  ghost predicate NormalGrants(role: Role, ids: seq<string>) {
    && (role == Admin ==> ids == [])
    && Ascending(ids, TextLess)
    && forall id :: id in ids ==> CleanId(id)
  }

  lemma GrantsAreNormal(role: Role, ids: seq<string>)
    ensures NormalGrants(role, Grants(role, ids))
  {
    forall x | x in GrantSet(ids) ensures CleanId(x) {
      var i :| 0 <= i < |ids| && Trim(ids[i]) != "" && Trim(ids[i]) == x;
      TrimTwice(ids[i]);
    }
  }

  /** Normalising again, as every reload does, changes nothing. */
  lemma NormalGrantsAreFixed(role: Role, ids: seq<string>)
    requires NormalGrants(role, ids)
    ensures Grants(role, ids) == ids
  {
    TextLessIsOrder();
    forall x | x in ids ensures x in GrantSet(ids) {
      var i :| 0 <= i < |ids| && ids[i] == x;
      assert CleanId(x);
    }
    forall x | x in GrantSet(ids) ensures x in ids {
      var i :| 0 <= i < |ids| && Trim(ids[i]) != "" && Trim(ids[i]) == x;
      assert ids[i] in ids && CleanId(ids[i]);
    }
    if role == Operator { ListingUnique(ids, GrantSet(ids), TextLess); }
  }

  lemma WithoutIsNormal(role: Role, ids: seq<string>, id: string)
    requires NormalGrants(role, ids)
    ensures NormalGrants(role, Without(ids, id))
  {
    WithoutAscends(ids, id, TextLess);
    WithoutMembers(ids, id);
  }

  // ----- Users -----

  function FindFrom(users: seq<User>, name: string, k: nat): (i: int)
    requires k <= |users|
    ensures i == -1 || k <= i < |users|
    ensures i >= 0 ==> EqualFold(users[i].username, Trim(name))
    ensures forall j :: k <= j < (if i >= 0 then i else |users|) ==> !EqualFold(users[j].username, Trim(name))
    decreases |users| - k
  {
    if k == |users| then -1
    else if EqualFold(users[k].username, Trim(name)) then k
    else FindFrom(users, name, k + 1)
  }

  /** findUserIndex: the first user with that name, ignoring case and surrounding white space, or -1. */
  function Find(users: seq<User>, name: string): (i: int)
    ensures i == -1 || 0 <= i < |users|
    ensures i >= 0 ==> EqualFold(users[i].username, Trim(name))
    ensures i < 0 ==> forall j :: 0 <= j < |users| ==> !EqualFold(users[j].username, Trim(name))
  {
    FindFrom(users, name, 0)
  }

  predicate HasActiveAdmin(users: seq<User>) {
    exists i :: 0 <= i < |users| && users[i].active && users[i].role == Admin
  }

  predicate UniqueNames(users: seq<User>) {
    forall i, j :: 0 <= i < j < |users| ==> !EqualFold(users[i].username, users[j].username)
  }

  ghost predicate UserOk(u: User) {
    && ValidUsername(u.username) && 0 < |u.displayName| <= 100 && Trim(u.displayName) == u.displayName
    && NormalGrants(u.role, u.clusterIds)
  }

  function Revoked(u: User, id: string, now: int): User {
    if id in u.clusterIds then u.(clusterIds := Without(u.clusterIds, id), updatedAt := now) else u
  }

  function RevokedAll(users: seq<User>, id: string, now: int): (r: seq<User>)
    ensures |r| == |users| && forall i :: 0 <= i < |r| ==> r[i] == Revoked(users[i], id, now)
  {
    seq(|users|, i requires 0 <= i < |users| => Revoked(users[i], id, now))
  }

  // ----- What each operation makes of the configuration -----

  ghost function Fail(c: Config, e: AuthError): Outcome { Outcome(c, Some(e)) }

  ghost function Commit(c: Config, c': Config, saved: bool): Outcome {
    if saved then Outcome(c', None) else Fail(c, NotSaved)
  }

  /** A change of the accounts that must leave an active administrator while local login is enabled. */
  ghost function WithUsers(c: Config, users: seq<User>, saved: bool): Outcome {
    if ModeIncludes(c.mode, Local) && !HasActiveAdmin(users) then Fail(c, LastAdmin)
    else Commit(c, c.(users := users), saved)
  }

  ghost function Apply(c: Config, op: Op, now: int, saved: bool): Outcome {
    match op
    case Bootstrap(input, mustChange) => ApplyBootstrap(c, input, mustChange, now, saved)
    case UpdateSettings(mode, ldap) => ApplySettings(c, mode, ldap, saved)
    case CreateUser(input) => ApplyCreate(c, input, now, saved)
    case UpdateUser(username, input) => ApplyUpdate(c, username, input, now, saved)
    case DeleteUser(username) => ApplyDelete(c, username, saved)
    case RemoveClusterPermissions(id) => ApplyRemove(c, id, now, saved)
    case CommitPassword(username, readHash, newHash, temporary) =>
      ApplyPassword(c, username, readHash, newHash, temporary, now, saved)
  }

  ghost function ApplyBootstrap(c: Config, input: UserInput, mustChange: bool, now: int, saved: bool): Outcome {
    var f := NormalizeUserFields(input.username, input.displayName, "admin");
    if f.None? || !input.password.Hashed? then Fail(c, InvalidInput)
    else if c.configured then Fail(c, AlreadyConfigured)
    else
      var user := User(f.value.username, f.value.displayName, Admin, true, [], mustChange, input.password.hash, now, now);
      Commit(c, Config(true, LocalMode, LdapSettings("", []), [user]), saved)
  }

  ghost function ApplySettings(c: Config, mode: string, ldap: Option<LdapSettings>, saved: bool): Outcome {
    var m := ParseMode(mode);
    if m.None? then Fail(c, InvalidInput)
    else if !c.configured then Fail(c, NotConfigured)
    else if ldap.None? then Fail(c, InvalidInput)
    else if ModeIncludes(m.value, Local) && !HasActiveAdmin(c.users) then Fail(c, LastAdmin)
    else if m.value == LdapMode && ldap.value.admins == [] then Fail(c, InvalidInput)
    else Commit(c, c.(mode := m.value, ldap := ldap.value), saved)
  }

  ghost function ApplyCreate(c: Config, input: UserInput, now: int, saved: bool): Outcome {
    var f := NormalizeUserFields(input.username, input.displayName, input.role);
    if f.None? || !input.password.Hashed? then Fail(c, InvalidInput)
    else if !c.configured then Fail(c, NotConfigured)
    else if Find(c.users, f.value.username) >= 0 then Fail(c, UserExists)
    else
      var active := input.active.None? || input.active.value;
      var user := User(f.value.username, f.value.displayName, f.value.role, active,
                       Grants(f.value.role, input.clusterIds), false, input.password.hash, now, now);
      Commit(c, c.(users := c.users + [user]), saved)
  }

  ghost function UpdatedUser(was: User, role: Role, input: UserInput, now: int): User {
    was.(displayName := Trim(input.displayName), role := role, clusterIds := Grants(role, input.clusterIds),
         active := if input.active.Some? then input.active.value else was.active,
         hash := if input.password.Hashed? then input.password.hash else was.hash,
         updatedAt := now)
  }

  ghost function ApplyUpdate(c: Config, username: string, input: UserInput, now: int, saved: bool): Outcome {
    var d, role := Trim(input.displayName), ParseRole(input.role);
    if d == "" || |d| > 100 || role.None? || input.password.Weak? then Fail(c, InvalidInput)
    else if !c.configured then Fail(c, NotConfigured)
    else
      var i := Find(c.users, username);
      if i < 0 then Fail(c, UserNotFound)
      else
        WithUsers(c, c.users[i := UpdatedUser(c.users[i], role.value, input, now)], saved)
  }

  ghost function ApplyDelete(c: Config, username: string, saved: bool): Outcome {
    var i := Find(c.users, username);
    if !c.configured then Fail(c, NotConfigured)
    else if i < 0 then Fail(c, UserNotFound)
    else
      WithUsers(c, c.users[..i] + c.users[i + 1..], saved)
  }

  ghost function ApplyRemove(c: Config, clusterId: string, now: int, saved: bool): Outcome {
    var id := Trim(clusterId);
    if id == "" then Fail(c, InvalidInput)
    else if !c.configured then Fail(c, NotConfigured)
    else if forall i :: 0 <= i < |c.users| ==> id !in c.users[i].clusterIds then Outcome(c, None)
    else Commit(c, c.(users := RevokedAll(c.users, id, now)), saved)
  }

  ghost function ApplyPassword(
      c: Config, username: string, readHash: nat, newHash: nat, temporary: bool, now: int, saved: bool): Outcome {
    var i := Find(c.users, username);
    if i < 0 || c.users[i].hash != readHash then Fail(c, InvalidCredentials)
    else if temporary && (!c.users[i].active || !c.users[i].mustChange) then Fail(c, PasswordChangeNotRequired)
    else Commit(c, c.(users := c.users[i := c.users[i].(hash := newHash, mustChange := false, updatedAt := now)]), saved)
  }

  // ----- What holds in every reachable state -----

  ghost predicate Good(c: Config) {
    && (!c.configured ==> c == UNCONFIGURED)
    && (c.configured && ModeIncludes(c.mode, Local) ==> HasActiveAdmin(c.users))
    && (c.configured && c.mode == LdapMode ==> c.ldap.admins != [])
    && UniqueNames(c.users)
    && forall i :: 0 <= i < |c.users| ==> UserOk(c.users[i])
  }

  lemma UsernameIsTrimmed(s: string)
    requires ValidUsername(s)
    ensures Trim(s) == s
  {
    assert !IsSpace(s[0]) && !IsSpace(s[|s| - 1]);
    TrimmedIsFixed(s);
  }

  /** User names are ASCII without white space, start with a letter or digit, and every such name of two to 64
      characters that uses nothing but letters, digits and . _ @ - is one. */
  lemma UsernameShape(s: string)
    ensures ValidUsername(s) ==> (forall i :: 0 <= i < |s| ==> 33 <= s[i] as int < 127) && s[0] !in "._@-"
    ensures ValidUsername(s) <==> 1 < |s| < 65 && s[0] !in "._@-" && forall c :: c in s ==> Alphanumeric(c) || c in "._@-"
  {
  }

  lemma FieldsAreOk(username: string, displayName: string, role: string)
    ensures var f := NormalizeUserFields(username, displayName, role);
      f.Some? ==>
        && ValidUsername(f.value.username)
        && 0 < |f.value.displayName| <= 100 && Trim(f.value.displayName) == f.value.displayName
  {
    TrimTwice(username);
    TrimTwice(displayName);
  }

  lemma AppendKeeps(c: Config, user: User)
    requires Good(c) && c.configured && UserOk(user)
    requires forall i :: 0 <= i < |c.users| ==> !EqualFold(c.users[i].username, user.username)
    ensures Good(c.(users := c.users + [user]))
  {
    var users := c.users + [user];
    if HasActiveAdmin(c.users) {
      var k :| 0 <= k < |c.users| && c.users[k].active && c.users[k].role == Admin;
      assert users[k] == c.users[k];
    }
  }

  lemma CreateKeeps(c: Config, input: UserInput, now: int, saved: bool)
    requires Good(c)
    ensures Good(ApplyCreate(c, input, now, saved).config)
  {
    var f := NormalizeUserFields(input.username, input.displayName, input.role);
    var c' := ApplyCreate(c, input, now, saved).config;
    FieldsAreOk(input.username, input.displayName, input.role);
    if c' != c {
      UsernameIsTrimmed(f.value.username);
      GrantsAreNormal(f.value.role, input.clusterIds);
      AppendKeeps(c, c'.users[|c.users|]);
    }
  }

  lemma ReplaceKeeps(c: Config, i: nat, user: User)
    requires Good(c) && c.configured && i < |c.users| && user.username == c.users[i].username && UserOk(user)
    requires ModeIncludes(c.mode, Local) ==> HasActiveAdmin(c.users[i := user])
    ensures Good(c.(users := c.users[i := user]))
  {
    var users := c.users[i := user];
    assert forall j :: 0 <= j < |users| ==> users[j].username == c.users[j].username;
    assert UniqueNames(users);
  }

  lemma UpdateKeeps(c: Config, username: string, input: UserInput, now: int, saved: bool)
    requires Good(c)
    ensures Good(ApplyUpdate(c, username, input, now, saved).config)
  {
    var c' := ApplyUpdate(c, username, input, now, saved).config;
    if c' != c {
      var i := Find(c.users, username);
      TrimTwice(input.displayName);
      GrantsAreNormal(c'.users[i].role, input.clusterIds);
      assert UserOk(c.users[i]);
      ReplaceKeeps(c, i, c'.users[i]);
    }
  }

  lemma PasswordKeeps(c: Config, username: string, readHash: nat, newHash: nat, temporary: bool, now: int, saved: bool)
    requires Good(c)
    ensures Good(ApplyPassword(c, username, readHash, newHash, temporary, now, saved).config)
  {
    var c' := ApplyPassword(c, username, readHash, newHash, temporary, now, saved).config;
    if c' != c {
      var i := Find(c.users, username);
      assert UserOk(c.users[i]);
      if HasActiveAdmin(c.users) {
        var k :| 0 <= k < |c.users| && c.users[k].active && c.users[k].role == Admin;
        assert c'.users[k].active && c'.users[k].role == Admin;
      }
      ReplaceKeeps(c, i, c'.users[i]);
    }
  }

  lemma DeleteKeeps(c: Config, username: string, saved: bool)
    requires Good(c)
    ensures Good(ApplyDelete(c, username, saved).config)
  {
    var c' := ApplyDelete(c, username, saved).config;
    if c' != c {
      var i := Find(c.users, username);
      assert forall j :: 0 <= j < |c'.users| ==> c'.users[j] == c.users[if j < i then j else j + 1];
    }
  }

  lemma RemoveKeeps(c: Config, clusterId: string, now: int, saved: bool)
    requires Good(c)
    ensures Good(ApplyRemove(c, clusterId, now, saved).config)
  {
    var c' := ApplyRemove(c, clusterId, now, saved).config;
    if c' != c {
      var id := Trim(clusterId);
      forall j | 0 <= j < |c'.users| ensures UserOk(c'.users[j]) {
        assert UserOk(c.users[j]);
        WithoutIsNormal(c.users[j].role, c.users[j].clusterIds, id);
      }
      if HasActiveAdmin(c.users) {
        var k :| 0 <= k < |c.users| && c.users[k].active && c.users[k].role == Admin;
        assert c'.users[k].active && c'.users[k].role == Admin;
      }
    }
  }

  lemma BootstrapKeeps(c: Config, input: UserInput, mustChange: bool, now: int, saved: bool)
    requires Good(c)
    ensures Good(ApplyBootstrap(c, input, mustChange, now, saved).config)
  {
    FieldsAreOk(input.username, input.displayName, "admin");
    var c' := ApplyBootstrap(c, input, mustChange, now, saved).config;
    if c' != c {
      assert c'.users[0].active && c'.users[0].role == Admin;
      assert UserOk(c'.users[0]);
    }
  }

  /** Every operation keeps the invariant, whether it succeeds or not. */
  lemma ApplyKeeps(c: Config, op: Op, now: int, saved: bool)
    requires Good(c)
    ensures Good(Apply(c, op, now, saved).config)
  {
    match op
    case Bootstrap(input, mustChange) => BootstrapKeeps(c, input, mustChange, now, saved);
    case UpdateSettings(mode, ldap) =>
    case CreateUser(input) => CreateKeeps(c, input, now, saved);
    case UpdateUser(username, input) => UpdateKeeps(c, username, input, now, saved);
    case DeleteUser(username) => DeleteKeeps(c, username, saved);
    case RemoveClusterPermissions(id) => RemoveKeeps(c, id, now, saved);
    case CommitPassword(username, readHash, newHash, temporary) =>
      PasswordKeeps(c, username, readHash, newHash, temporary, now, saved);
  }

  // ----- Whole runs -----

  datatype Call = Call(op: Op, now: int, saved: bool)

  ghost function After(c: Config, calls: seq<Call>): Config {
    if calls == [] then c
    else
      var n := |calls| - 1;
      Apply(After(c, calls[..n]), calls[n].op, calls[n].now, calls[n].saved).config
  }

  /** From an empty manager, any sequence of calls, succeeding or failing, leads to a good configuration. */
  lemma {:induction false} ReachableIsGood(calls: seq<Call>)
    ensures Good(After(UNCONFIGURED, calls))
  {
    if calls != [] {
      var n := |calls| - 1;
      ReachableIsGood(calls[..n]);
      ApplyKeeps(After(UNCONFIGURED, calls[..n]), calls[n].op, calls[n].now, calls[n].saved);
    }
  }

  /** In a good configuration a name finds the only user it can mean. */
  lemma FindIsUnique(c: Config, name: string, i: nat)
    requires Good(c) && i < |c.users|
    ensures Find(c.users, name) == i <==> EqualFold(c.users[i].username, Trim(name))
  {
  }

  /** A cluster that was removed from the grants is granted to nobody. */
  lemma RemovedIsRemoved(c: Config, clusterId: string, now: int, saved: bool)
    requires ApplyRemove(c, clusterId, now, saved).error.None?
    ensures var users := ApplyRemove(c, clusterId, now, saved).config.users;
      && |users| == |c.users|
      && forall i, x :: 0 <= i < |users| ==>
           (x in users[i].clusterIds <==> x in c.users[i].clusterIds && x != Trim(clusterId))
  {
    var users := ApplyRemove(c, clusterId, now, saved).config.users;
    assert users == RevokedAll(c.users, Trim(clusterId), now);
    forall i | 0 <= i < |users|
      ensures forall x :: x in users[i].clusterIds <==> x in c.users[i].clusterIds && x != Trim(clusterId)
    {
      WithoutMembers(c.users[i].clusterIds, Trim(clusterId));
    }
  }

  // ----- What the operations are for -----

  /** Principal.CanAccessCluster. */
  predicate CanAccess(role: Role, grants: seq<string>, clusterId: string) {
    role == Admin || Trim(clusterId) in grants
  }

  /** The clusters named in the input, ignoring blanks, order, repetition and white space. */
  predicate Named(ids: seq<string>, clusterId: string) {
    Trim(clusterId) != "" && exists i :: 0 <= i < |ids| && Trim(ids[i]) == Trim(clusterId)
  }

  lemma AccessIsAsNamed(role: Role, ids: seq<string>, clusterId: string)
    ensures CanAccess(role, Grants(role, ids), clusterId) <==> role == Admin || Named(ids, clusterId)
  {
    if role == Operator {
      assert Trim(clusterId) in Grants(role, ids) <==> Trim(clusterId) in GrantSet(ids);
    }
  }

  /** A created account is found by its name with the role asked for, may use exactly the clusters named, and
      nothing else changes. */
  lemma CreateEffect(c: Config, input: UserInput, now: int, clusterId: string)
    requires Good(c) && ApplyCreate(c, input, now, true).error.None?
    ensures var c' := ApplyCreate(c, input, now, true).config;
      var n := |c.users|;
      && c' == c.(users := c'.users) && |c'.users| == n + 1 && c'.users[..n] == c.users
      && Find(c'.users, input.username) == n && Find(c.users, input.username) == -1
      && c'.users[n].username == Trim(input.username)
      && c'.users[n].displayName == (if Trim(input.displayName) == "" then Trim(input.username) else Trim(input.displayName))
      && input.password == Hashed(c'.users[n].hash)
      && (c'.users[n].active <==> input.active != Some(false)) && !c'.users[n].mustChange
      && (c'.users[n].role == Admin <==> ParseRole(input.role) == Some(Admin))
      && (CanAccess(c'.users[n].role, c'.users[n].clusterIds, clusterId) <==>
            c'.users[n].role == Admin || Named(input.clusterIds, clusterId))
  {
    var c' := ApplyCreate(c, input, now, true).config;
    var f := NormalizeUserFields(input.username, input.displayName, input.role).value;
    FieldsAreOk(input.username, input.displayName, input.role);
    UsernameIsTrimmed(f.username);
    CreateKeeps(c, input, now, true);
    FindIsUnique(c', input.username, |c.users|);
    AccessIsAsNamed(f.role, input.clusterIds, clusterId);
  }

  /** Deleting what was just created gives back the configuration there was before. */
  lemma CreateThenDelete(c: Config, input: UserInput, now: int)
    requires Good(c) && ApplyCreate(c, input, now, true).error.None?
    ensures ApplyDelete(ApplyCreate(c, input, now, true).config, input.username, true) == Outcome(c, None)
  {
    CreateEffect(c, input, now, "");
    DropLast(c.users, ApplyCreate(c, input, now, true).config.users);
  }

  lemma DropLast(users: seq<User>, users': seq<User>)
    requires |users'| == |users| + 1 && users'[..|users|] == users
    ensures users'[..|users|] + users'[|users| + 1..] == users
  {
  }

  /** An updated account keeps its name and creation time, may use exactly the clusters named, and no other
      account changes. */
  lemma UpdateEffect(c: Config, username: string, input: UserInput, now: int, clusterId: string)
    requires Good(c) && ApplyUpdate(c, username, input, now, true).error.None?
    ensures var c' := ApplyUpdate(c, username, input, now, true).config;
      var i := Find(c.users, username);
      && i >= 0 && c' == c.(users := c'.users) && |c'.users| == |c.users|
      && (forall j :: 0 <= j < |c.users| && j != i ==> c'.users[j] == c.users[j])
      && c'.users[i].username == c.users[i].username && c'.users[i].createdAt == c.users[i].createdAt
      && c'.users[i].mustChange == c.users[i].mustChange && c'.users[i].displayName == Trim(input.displayName)
      && Some(c'.users[i].role) == ParseRole(input.role)
      && (input.password.Hashed? ==> c'.users[i].hash == input.password.hash)
      && (!input.password.Hashed? ==> c'.users[i].hash == c.users[i].hash)
      && (input.active.Some? ==> c'.users[i].active == input.active.value)
      && (input.active.None? ==> c'.users[i].active == c.users[i].active)
      && (CanAccess(c'.users[i].role, c'.users[i].clusterIds, clusterId) <==>
            c'.users[i].role == Admin || Named(input.clusterIds, clusterId))
  {
    AccessIsAsNamed(ParseRole(input.role).value, input.clusterIds, clusterId);
  }

  /** A deleted account is not found any more; every other account stays, in order. */
  lemma DeleteEffect(c: Config, username: string)
    requires Good(c) && ApplyDelete(c, username, true).error.None?
    ensures var c' := ApplyDelete(c, username, true).config;
      var i := Find(c.users, username);
      && Find(c'.users, username) == -1
      && i >= 0 && |c'.users| == |c.users| - 1
      && forall j :: 0 <= j < |c'.users| ==> c'.users[j] == c.users[if j < i then j else j + 1]
  {
    var c' := ApplyDelete(c, username, true).config;
    var i := Find(c.users, username);
    forall j | 0 <= j < |c'.users|
      ensures c'.users[j] == c.users[if j < i then j else j + 1] && !EqualFold(c'.users[j].username, Trim(username))
    {
      var k := if j < i then j else j + 1;
      assert c'.users[j] == c.users[k];
      FindIsUnique(c, username, k);
    }
  }

  /** An operator loses access to a removed cluster and to no other; an administrator keeps it. */
  lemma RemoveEffect(c: Config, clusterId: string, now: int, other: string, i: nat)
    requires ApplyRemove(c, clusterId, now, true).error.None? && i < |c.users|
    ensures var u, u' := c.users[i], ApplyRemove(c, clusterId, now, true).config.users[i];
      && u'.role == u.role
      && (CanAccess(u'.role, u'.clusterIds, other) <==>
            u.role == Admin || (CanAccess(u.role, u.clusterIds, other) && Trim(other) != Trim(clusterId)))
  {
    RemovedIsRemoved(c, clusterId, now, true);
  }

  // ----- When the operations succeed -----

  /** Which texts name a mode: the three words in any case, with white space around them. */
  lemma ModeNames(word: string)
    requires Trim(word) == word
    ensures Lower(word) == "local" ==> ParseMode(word) == Some(LocalMode)
    ensures Lower(word) == "ldap" ==> ParseMode(word) == Some(LdapMode)
    ensures Lower(word) == "both" ==> ParseMode(word) == Some(BothMode)
    ensures ParseMode(word).Some? ==> Lower(word) in {"local", "ldap", "both"}
    ensures ParseMode(Upper(word)) == ParseMode(word)
  {
    assert "local" != "ldap" && "local" != "both" && "ldap" != "both" by { assert "ldap"[0] != "both"[0]; }
    UpperTrims(word);
    UpperIsSame(word);
  }

  lemma UpperTrims(word: string)
    requires Trim(word) == word
    ensures Trim(Upper(word)) == Upper(word)
  {
    UpperIsSame(word);
    TrimmedIsFixed(word);
    FoldKeepsTrimmed(Upper(word), word);
    TrimmedIsFixed(Upper(word));
  }

  /** White space around a mode or a role does not matter. */
  lemma PaddingIgnored(text: string)
    ensures ParseMode(Trim(text)) == ParseMode(text) && ParseRole(Trim(text)) == ParseRole(text)
  {
    TrimTwice(text);
  }

  /** Exactly when an account can be created. */
  lemma CreateSucceedsIff(c: Config, input: UserInput, now: int, saved: bool)
    ensures var out := ApplyCreate(c, input, now, saved);
      var acceptable :=
        && ValidUsername(Trim(input.username))
        && |if Trim(input.displayName) == "" then Trim(input.username) else Trim(input.displayName)| <= 100
        && (ParseRole(input.role).Some? || Lower(Trim(input.role)) == "")
        && input.password.Hashed?;
      var taken := exists i :: 0 <= i < |c.users| && EqualFold(c.users[i].username, Trim(input.username));
      && (out.error.None? <==> acceptable && c.configured && !taken && saved)
      && (out.error == Some(UserExists) <==> acceptable && c.configured && taken)
      && (out.error.Some? ==> out.config == c)
  {
    var f := NormalizeUserFields(input.username, input.displayName, input.role);
    if f.Some? { TrimTwice(input.username); }
  }

  /** Exactly when an account can be updated; the last active administrator cannot be lost while local login is on. */
  lemma UpdateSucceedsIff(c: Config, username: string, input: UserInput, now: int, saved: bool)
    ensures var out := ApplyUpdate(c, username, input, now, saved);
      var acceptable := 0 < |Trim(input.displayName)| <= 100 && ParseRole(input.role).Some? && !input.password.Weak?;
      var i := Find(c.users, username);
      var keepsAdmin := i >= 0 && ParseRole(input.role).Some? &&
        (c.mode == LdapMode ||
         HasActiveAdmin(c.users[i := UpdatedUser(c.users[i], ParseRole(input.role).value, input, now)]));
      && (out.error.None? <==> acceptable && c.configured && i >= 0 && keepsAdmin && saved)
      && (out.error == Some(UserNotFound) <==> acceptable && c.configured && i < 0)
      && (out.error == Some(LastAdmin) <==> acceptable && c.configured && i >= 0 && !keepsAdmin)
      && (out.error.Some? ==> out.config == c)
  {
  }

  /** Exactly when an account can be deleted. */
  lemma DeleteSucceedsIff(c: Config, username: string, saved: bool)
    ensures var out := ApplyDelete(c, username, saved);
      var i := Find(c.users, username);
      var keepsAdmin := c.mode == LdapMode ||
        exists k :: 0 <= k < |c.users| && k != i && c.users[k].active && c.users[k].role == Admin;
      && (out.error.None? <==> c.configured && i >= 0 && keepsAdmin && saved)
      && (out.error == Some(UserNotFound) <==> c.configured && i < 0)
      && (out.error == Some(LastAdmin) <==> c.configured && i >= 0 && !keepsAdmin)
      && (out.error.Some? ==> out.config == c)
  {
    var i := Find(c.users, username);
    if i >= 0 { AdminElsewhere(c.users, i); }
  }

  lemma AdminElsewhere(users: seq<User>, i: nat)
    requires i < |users|
    ensures HasActiveAdmin(users[..i] + users[i + 1..]) <==>
      exists k :: 0 <= k < |users| && k != i && users[k].active && users[k].role == Admin
  {
    var rest := users[..i] + users[i + 1..];
    forall j | 0 <= j < |rest| ensures rest[j] == users[if j < i then j else j + 1] {}
    if k :| 0 <= k < |users| && k != i && users[k].active && users[k].role == Admin {
      assert rest[if k < i then k else k - 1] == users[k];
    }
  }

  /** Exactly when the settings can be changed, and what they are then. */
  lemma SettingsEffect(c: Config, text: string, ldap: Option<LdapSettings>, saved: bool)
    ensures var out := ApplySettings(c, text, ldap, saved);
      var m := ParseMode(text);
      var admins := m.Some? && ldap.Some? &&
        (m.value != LdapMode ==> HasActiveAdmin(c.users)) && (m.value == LdapMode ==> ldap.value.admins != []);
      && (out.error.None? <==> c.configured && admins && saved)
      && (out.error.None? ==> out.config == Config(true, m.value, ldap.value, c.users))
      && (out.error.Some? ==> out.config == c)
  {
  }

  function Shown(username: string, displayName: string): string {
    if Trim(displayName) == "" then Trim(username) else Trim(displayName)
  }

  lemma AdminFields(username: string, displayName: string)
    ensures NormalizeUserFields(username, displayName, "admin") ==
      if ValidUsername(Trim(username)) && |Shown(username, displayName)| <= 100
      then Some(Fields(Trim(username), Shown(username, displayName), Admin)) else None
  {
    RoleNameParses(Admin);
    LowerIsFixed("admin");
    TrimmedIsFixed("admin");
  }

  /** The first account is created exactly while nothing is configured. */
  lemma BootstrapSucceedsIff(c: Config, input: UserInput, mustChange: bool, now: int, saved: bool)
    ensures var out := ApplyBootstrap(c, input, mustChange, now, saved);
      var acceptable := ValidUsername(Trim(input.username)) && |Shown(input.username, input.displayName)| <= 100
                        && input.password.Hashed?;
      && (out.error.None? <==> acceptable && !c.configured && saved)
      && (out.error == Some(AlreadyConfigured) <==> acceptable && c.configured)
      && (out.error.Some? ==> out.config == c)
  {
    AdminFields(input.username, input.displayName);
  }

  /** It is then the only account, active, an administrator, found by its name, and local login is on. */
  lemma BootstrapEffect(c: Config, input: UserInput, mustChange: bool, now: int)
    requires ApplyBootstrap(c, input, mustChange, now, true).error.None?
    ensures var c' := ApplyBootstrap(c, input, mustChange, now, true).config;
      && c'.configured && c'.mode == LocalMode && |c'.users| == 1
      && var u := c'.users[0];
      && u.username == Trim(input.username) && u.displayName == Shown(input.username, input.displayName)
      && u.role == Admin && u.active && u.clusterIds == [] && u.mustChange == mustChange
      && input.password == Hashed(u.hash)
      && Find(c'.users, input.username) == 0
  {
    AdminFields(input.username, input.displayName);
  }

  /** The temporary administrator of a first start can always be created. */
  lemma TemporaryAdminWorks(displayName: string, hash: nat, now: int)
    requires |Trim(displayName)| <= 100
    ensures ApplyBootstrap(UNCONFIGURED, UserInput("admin", displayName, "", None, [], Hashed(hash)), true, now, true).error.None?
  {
    TrimmedIsFixed("admin");
    assert ValidUsername("admin");
    BootstrapSucceedsIff(UNCONFIGURED, UserInput("admin", displayName, "", None, [], Hashed(hash)), true, now, true);
  }

  /** The new password takes effect exactly when the account is still there with the hash that was read. */
  lemma PasswordSucceedsIff(c: Config, username: string, readHash: nat, newHash: nat, temporary: bool, now: int, saved: bool)
    ensures var out := ApplyPassword(c, username, readHash, newHash, temporary, now, saved);
      var i := Find(c.users, username);
      && (out.error.None? <==>
            i >= 0 && c.users[i].hash == readHash && (temporary ==> c.users[i].active && c.users[i].mustChange) && saved)
      && (out.error == Some(InvalidCredentials) <==> i < 0 || c.users[i].hash != readHash)
      && (out.error.Some? ==> out.config == c)
  {
  }

  /** Taking a cluster away fails only for a blank name, an unconfigured manager, or when somebody has it and the
      change cannot be saved. */
  lemma RemoveSucceedsIff(c: Config, clusterId: string, now: int, saved: bool)
    ensures var out := ApplyRemove(c, clusterId, now, saved);
      && (out.error.None? <==>
            Trim(clusterId) != "" && c.configured
            && (saved || forall i :: 0 <= i < |c.users| ==> Trim(clusterId) !in c.users[i].clusterIds))
      && (out.error.Some? ==> out.config == c)
  {
  }

  // ----- Reloading -----

  function RoleName(role: Role): string { if role == Admin then "admin" else "operator" }

  /** What load makes of a stored configuration: it is refused, or its grants are normalised again. */
  ghost function Load(c: Config): Option<Config> {
    if exists i :: 0 <= i < |c.users|
         && NormalizeUserFields(c.users[i].username, c.users[i].displayName, RoleName(c.users[i].role)).None?
    then None
    else Some(c.(users := seq(|c.users|, i requires 0 <= i < |c.users| =>
                   c.users[i].(clusterIds := Grants(c.users[i].role, c.users[i].clusterIds)))))
  }

  lemma RoleNameParses(role: Role)
    ensures ParseRole(RoleName(role)) == Some(role)
  {
    var name := RoleName(role);
    TrimmedIsFixed(name);
    LowerIsFixed(name);
  }

  predicate Acceptable(u: User) {
    && ValidUsername(Trim(u.username))
    && |if Trim(u.displayName) == "" then Trim(u.username) else Trim(u.displayName)| <= 100
  }

  /** A stored configuration with an account that could not have been created is refused. */
  lemma LoadRefusesIff(c: Config)
    ensures Load(c).None? <==> exists i :: 0 <= i < |c.users| && !Acceptable(c.users[i])
  {
    RoleNameParses(Admin);
    RoleNameParses(Operator);
  }

  /** Restarting from the file of any reachable configuration gives that configuration back. */
  lemma ReloadIsIdentity(calls: seq<Call>)
    ensures Load(After(UNCONFIGURED, calls)) == Some(After(UNCONFIGURED, calls))
  {
    ReachableIsGood(calls);
    var c := After(UNCONFIGURED, calls);
    forall i | 0 <= i < |c.users|
      ensures NormalizeUserFields(c.users[i].username, c.users[i].displayName, RoleName(c.users[i].role)).Some?
      ensures Grants(c.users[i].role, c.users[i].clusterIds) == c.users[i].clusterIds
    {
      assert UserOk(c.users[i]);
      UsernameIsTrimmed(c.users[i].username);
      RoleNameParses(c.users[i].role);
      NormalGrantsAreFixed(c.users[i].role, c.users[i].clusterIds);
    }
    assert Load(c).value.users == c.users;
  }
}
