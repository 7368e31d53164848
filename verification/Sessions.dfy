/** Sessions, revocation and password changes racing with account operations (internal/auth/manager.go).

    Two locks guard the manager: one for the configuration, one for the session table. An account operation
    holds the first while it commits and then revokes sessions; a session lookup reads the table first and the
    configuration afterwards; a password change reads the account, hashes without a lock, and commits later. */
module Sessions {
  import opened Store
  import opened Text
  import opened Accounts

  datatype Principal = Principal(
    username: string, displayName: string, provider: Provider, role: Role, clusterIds: seq<string>, mustChange: bool)

  datatype Session = Session(principal: Principal, expiresAt: int)

  type Table = map<string, Session>

  /** What a committed operation still has to revoke before it releases the configuration. */
  datatype Duty = OfUser(name: string) | OfMode(mode: Mode)

  datatype Lookup = Lookup(token: string, session: Session)

  datatype Change = Change(username: string, readHash: nat, temporary: bool)

  datatype State = State(
    config: Config, duty: Option<Duty>, sessions: Table, issued: set<string>,
    lookups: map<nat, Lookup>, nextLookup: nat, changes: map<nat, Change>, nextChange: nat, hashes: set<nat>)

  datatype Action =
    | Operate(op: Op, now: int, saved: bool)
    | Revoke
    | OpenSession(token: string, principal: Principal, now: int, expiresAt: int)
    | Logout(token: string)
    | BeginLookup(token: string, now: int)
    | EndLookup(lookup: nat)
    | BeginChange(username: string, temporary: bool)
    | CommitChange(change: nat, newHash: nat, now: int, saved: bool)

  // ----- The pieces -----

  predicate Hit(duty: Duty, session: Session) {
    match duty
    case OfUser(name) => session.principal.provider == Local && EqualFold(session.principal.username, name)
    case OfMode(mode) => !ModeIncludes(mode, session.principal.provider)
  }

  function RevokeAll(sessions: Table, duty: Duty): Table {
    map t | t in sessions && !Hit(duty, sessions[t]) :: sessions[t]
  }

  function DropExpired(sessions: Table, now: int): Table {
    map t | t in sessions && sessions[t].expiresAt > now :: sessions[t]
  }

  predicate ContainsFold(values: seq<string>, value: string) {
    exists i :: 0 <= i < |values| && EqualFold(values[i], value)
  }

  /** The second half of a lookup: the session's principal as the configuration sees it now. */
  function Accept(c: Config, p: Principal): Option<Principal> {
    if !c.configured || !ModeIncludes(c.mode, p.provider) then None
    else if p.provider == Local then
      var i := Find(c.users, p.username);
      if i < 0 || !c.users[i].active then None
      else Some(p.(displayName := c.users[i].displayName, role := c.users[i].role,
                   clusterIds := c.users[i].clusterIds, mustChange := c.users[i].mustChange))
    else Some(p.(role := if ContainsFold(c.ldap.admins, p.username) then Admin else Operator, clusterIds := []))
  }

  /** UpdateUser revokes by the stored name, DeleteUser by the name it was called with. */
  function DutyOf(c: Config, op: Op): Option<Duty> {
    match op
    case UpdateSettings(mode, _) => if ParseMode(mode).Some? then Some(OfMode(ParseMode(mode).value)) else None
    case UpdateUser(username, _) =>
      var i := Find(c.users, username);
      if i >= 0 then Some(OfUser(c.users[i].username)) else None
    case DeleteUser(username) => Some(OfUser(username))
    case _ => None
  }

  function NewHash(op: Op): Option<nat> {
    match op
    case Bootstrap(input, _) => if input.password.Hashed? then Some(input.password.hash) else None
    case CreateUser(input) => if input.password.Hashed? then Some(input.password.hash) else None
    case UpdateUser(_, input) => if input.password.Hashed? then Some(input.password.hash) else None
    case CommitPassword(_, _, newHash, _) => Some(newHash)
    case _ => None
  }

  ghost function CommitOf(s: State, a: Action): Op
    requires a.CommitChange? && a.change in s.changes
  {
    var q := s.changes[a.change];
    CommitPassword(q.username, q.readHash, a.newHash, q.temporary)
  }

  // ----- The steps -----

  /** Whatever reads or writes the configuration waits for the duty to be done. Tokens and salted hashes are fresh. */
  ghost predicate Enabled(s: State, a: Action) {
    match a
    case Operate(op, _, _) =>
      s.duty.None? && !op.CommitPassword? && (NewHash(op).Some? ==> NewHash(op).value !in s.hashes)
    case Revoke => s.duty.Some?
    case OpenSession(token, _, _, _) => token !in s.issued
    case Logout(_) => true
    case BeginLookup(_, _) => true
    case EndLookup(l) => s.duty.None? && l in s.lookups
    case BeginChange(_, _) => s.duty.None?
    case CommitChange(q, newHash, _, _) => s.duty.None? && q in s.changes && newHash !in s.hashes
  }

  ghost function OperateStep(s: State, op: Op, now: int, saved: bool): State {
    var out := Apply(s.config, op, now, saved);
    s.(config := out.config,
       duty := if out.error.None? then DutyOf(s.config, op) else None,
       hashes := if NewHash(op).Some? then s.hashes + {NewHash(op).value} else s.hashes)
  }

  ghost function Next(s: State, a: Action): State
    requires Enabled(s, a)
  {
    match a
    case Operate(op, now, saved) => OperateStep(s, op, now, saved)
    case Revoke => s.(sessions := RevokeAll(s.sessions, s.duty.value), duty := None)
    case OpenSession(token, principal, now, expiresAt) =>
      s.(sessions := DropExpired(s.sessions, now)[token := Session(principal, expiresAt)], issued := s.issued + {token})
    case Logout(token) => s.(sessions := s.sessions - {token})
    case BeginLookup(token, now) =>
      if token !in s.sessions || s.sessions[token].expiresAt <= now then s.(sessions := s.sessions - {token})
      else s.(lookups := s.lookups[s.nextLookup := Lookup(token, s.sessions[token])], nextLookup := s.nextLookup + 1)
    case EndLookup(l) =>
      var q := s.lookups[l];
      var s' := s.(lookups := s.lookups - {l});
      if Accept(s.config, q.session.principal).None? then s'.(sessions := s.sessions - {q.token}) else s'
    case BeginChange(username, temporary) =>
      var i := Find(s.config.users, username);
      if i < 0 || !s.config.users[i].active || (temporary && !s.config.users[i].mustChange) then s
      else s.(changes := s.changes[s.nextChange := Change(username, s.config.users[i].hash, temporary)],
              nextChange := s.nextChange + 1)
    case CommitChange(q, newHash, now, saved) =>
      OperateStep(s, CommitOf(s, a), now, saved).(changes := s.changes - {q})
  }

  ghost predicate Init(s: State) {
    s == State(UNCONFIGURED, None, map[], {}, map[], 0, map[], 0, {})
  }

  ghost predicate Run(states: seq<State>, actions: seq<Action>) {
    && |states| == |actions| + 1
    && Init(states[0])
    && forall i :: 0 <= i < |actions| ==> Enabled(states[i], actions[i]) && states[i + 1] == Next(states[i], actions[i])
  }

  // ----- Sessions -----

  /** Tokens are handed out once: whatever the table holds for an issued token later, it held before, unchanged. */
  ghost predicate OnlyDisappear(s: State, s': State) {
    && s.issued <= s'.issued
    && (forall t :: t in s'.sessions ==> t in s'.issued)
    && forall t :: t in s.issued && t in s'.sessions ==> t in s.sessions && s'.sessions[t] == s.sessions[t]
  }

  lemma StepOnlyDisappears(s: State, a: Action)
    requires Enabled(s, a) && forall t :: t in s.sessions ==> t in s.issued
    ensures OnlyDisappear(s, Next(s, a))
  {
  }

  lemma DisappearTwice(s: State, s': State, s'': State)
    requires OnlyDisappear(s, s') && OnlyDisappear(s', s'')
    ensures OnlyDisappear(s, s'')
  {
  }

  lemma {:induction false} TokensAreIssued(states: seq<State>, actions: seq<Action>, i: nat)
    requires Run(states, actions) && i <= |actions|
    ensures OnlyDisappear(states[i], states[i])
  {
    if i > 0 {
      TokensAreIssued(states, actions, i - 1);
      StepOnlyDisappears(states[i - 1], actions[i - 1]);
    }
  }

  lemma {:induction false} SessionsOnlyDisappear(states: seq<State>, actions: seq<Action>, i: nat, j: nat)
    requires Run(states, actions) && i <= j <= |actions|
    ensures OnlyDisappear(states[i], states[j])
    decreases j
  {
    if i == j {
      TokensAreIssued(states, actions, i);
    } else {
      SessionsOnlyDisappear(states, actions, i, j - 1);
      StepOnlyDisappears(states[j - 1], actions[j - 1]);
      DisappearTwice(states[i], states[j - 1], states[j]);
    }
  }

  /** Every lookup in flight was in flight before, or its token was in the table then. */
  ghost predicate LookupsFrom(s: State, s': State) {
    forall l :: l in s'.lookups ==>
      s'.lookups[l].token in s.sessions || (l in s.lookups && s.lookups[l] == s'.lookups[l])
  }

  lemma StepLookups(s: State, a: Action)
    requires Enabled(s, a)
    ensures LookupsFrom(s, Next(s, a))
  {
  }

  lemma RunLookups(states: seq<State>, actions: seq<Action>)
    requires Run(states, actions)
    ensures forall j :: 0 <= j < |actions| ==> LookupsFrom(states[j], states[j + 1])
  {
    forall j | 0 <= j < |actions| ensures LookupsFrom(states[j], states[j + 1]) {
      StepLookups(states[j], actions[j]);
    }
  }

  /** A lookup of a token that is no longer in the table must have begun while it was. */
  lemma {:induction false} LateLookupsFail(states: seq<State>, i: nat, k: nat, l: nat)
    requires i <= k < |states| && l in states[k].lookups
    requires forall j :: 0 <= j < k ==> LookupsFrom(states[j], states[j + 1])
    requires forall j :: i <= j <= k ==> states[k].lookups[l].token !in states[j].sessions
    ensures l in states[i].lookups
    decreases k
  {
    if i < k {
      assert LookupsFrom(states[k - 1], states[k - 1 + 1]);
      LateLookupsFail(states, i, k - 1, l);
    }
  }

  /** The only ways a session leaves the table: an operation revokes it, it is logged out, it has expired when
      sessions are opened or looked up, or a lookup of it is refused. */
  lemma WhyGone(s: State, a: Action, t: string)
    requires Enabled(s, a) && t in s.sessions && t !in Next(s, a).sessions
    ensures
      || (a.Revoke? && Hit(s.duty.value, s.sessions[t]))
      || (a.Logout? && a.token == t)
      || ((a.OpenSession? || (a.BeginLookup? && a.token == t)) && s.sessions[t].expiresAt <= a.now)
      || (a.EndLookup? && s.lookups[a.lookup].token == t && Accept(s.config, s.lookups[a.lookup].session.principal).None?)
  {
  }

  /** And each of them takes it. */
  lemma GoneThen(s: State, a: Action, t: string)
    requires Enabled(s, a) && t in s.sessions && OnlyDisappear(s, s)
    requires
      || (a.Revoke? && Hit(s.duty.value, s.sessions[t]))
      || (a.Logout? && a.token == t)
      || ((a.OpenSession? || (a.BeginLookup? && a.token == t)) && s.sessions[t].expiresAt <= a.now)
      || (a.EndLookup? && s.lookups[a.lookup].token == t && Accept(s.config, s.lookups[a.lookup].session.principal).None?)
    ensures t !in Next(s, a).sessions
  {
  }

  /** A session that the operation does not revoke, and that is neither logged out, expired nor refused meanwhile, is
      in the table unchanged when the operation has returned. */
  lemma {:induction false} OthersStayLoggedIn(states: seq<State>, actions: seq<Action>, i: nat, j: nat, t: string)
    requires Run(states, actions) && i <= j <= |actions| && t in states[i].sessions
    requires forall k :: i <= k < j ==>
      && (actions[k].Revoke? ==> !Hit(states[k].duty.value, states[i].sessions[t]))
      && actions[k] != Logout(t)
      && (actions[k].OpenSession? || actions[k].BeginLookup? ==> states[i].sessions[t].expiresAt > actions[k].now)
      && (actions[k].EndLookup? ==> Accept(states[k].config, states[k].lookups[actions[k].lookup].session.principal).Some?)
    ensures t in states[j].sessions && states[j].sessions[t] == states[i].sessions[t]
    decreases j
  {
    if i < j {
      OthersStayLoggedIn(states, actions, i, j - 1, t);
      TokensAreIssued(states, actions, j - 1);
      StepKeepsSession(states[j - 1], actions[j - 1], t);
    }
  }

  lemma StepKeepsSession(s: State, a: Action, t: string)
    requires Enabled(s, a) && OnlyDisappear(s, s) && t in s.sessions
    requires a.Revoke? ==> !Hit(s.duty.value, s.sessions[t])
    requires a != Logout(t) && (a.OpenSession? || a.BeginLookup? ==> s.sessions[t].expiresAt > a.now)
    requires a.EndLookup? ==> Accept(s.config, s.lookups[a.lookup].session.principal).Some?
    ensures t in Next(s, a).sessions && Next(s, a).sessions[t] == s.sessions[t]
  {
    if t !in Next(s, a).sessions { WhyGone(s, a, t); }
    StepOnlyDisappears(s, a);
  }

  /** Only updates, deletions and changes of the settings revoke, and only when they succeed. */
  lemma OnlyTheseRevoke(s: State, op: Op, now: int, saved: bool)
    requires Enabled(s, Operate(op, now, saved)) && Next(s, Operate(op, now, saved)).duty.Some?
    ensures (op.UpdateUser? || op.DeleteUser? || op.UpdateSettings?) && Apply(s.config, op, now, saved).error.None?
  {
  }

  /** An operation that fails changes neither configuration nor sessions, and one that succeeds changes no session
      before it revokes. */
  lemma OperationsAndSessions(s: State, op: Op, now: int, saved: bool)
    requires Enabled(s, Operate(op, now, saved))
    ensures var s' := Next(s, Operate(op, now, saved));
      && s'.sessions == s.sessions && s'.config == Apply(s.config, op, now, saved).config
      && (Apply(s.config, op, now, saved).error.Some? ==> s'.config == s.config && s'.duty.None?)
  {
  }

  lemma {:induction false} DutyLasts(states: seq<State>, actions: seq<Action>, i: nat, r: nat)
    requires Run(states, actions) && i <= r <= |actions| && states[i].duty.Some?
    requires forall j :: i <= j < r ==> !actions[j].Revoke?
    ensures states[r].duty == states[i].duty
    decreases r
  {
    if i < r {
      DutyLasts(states, actions, i, r - 1);
    }
  }

  /** A session that is in the table when an operation commits and that the operation must revoke is out of the
      table once the operation has returned, for ever, whatever is re-created or re-enabled later. */
  lemma RevokedLeavesTheTable(states: seq<State>, actions: seq<Action>, i: nat, r: nat, k: nat, t: string)
    requires Run(states, actions) && i < r < k <= |actions|
    requires actions[i].Operate? && states[i + 1].duty.Some?
    requires t in states[i].sessions && Hit(states[i + 1].duty.value, states[i].sessions[t])
    requires actions[r].Revoke? && forall j :: i < j < r ==> !actions[j].Revoke?
    ensures t !in states[k].sessions
  {
    DutyLasts(states, actions, i + 1, r);
    SessionsOnlyDisappear(states, actions, i, i);
    SessionsOnlyDisappear(states, actions, i, r);
    SessionsOnlyDisappear(states, actions, r, r + 1);
    assert t in states[r + 1].issued && t !in states[r + 1].sessions;
    SessionsOnlyDisappear(states, actions, r + 1, k);
  }

  /** No lookup that begins after the operation returned gets past the table: one that still carries the token
      began before. */
  lemma RevokedIsNeverAccepted(states: seq<State>, actions: seq<Action>, i: nat, r: nat, k: nat, t: string, l: nat)
    requires Run(states, actions) && i < r < k <= |actions|
    requires actions[i].Operate? && states[i + 1].duty.Some?
    requires t in states[i].sessions && Hit(states[i + 1].duty.value, states[i].sessions[t])
    requires actions[r].Revoke? && forall j :: i < j < r ==> !actions[j].Revoke?
    requires l in states[k].lookups && states[k].lookups[l].token == t
    ensures l in states[r].lookups
  {
    forall j | r + 1 <= j <= k ensures t !in states[j].sessions {
      RevokedLeavesTheTable(states, actions, i, r, j, t);
    }
    RunLookups(states, actions);
    LateLookupsFail(states, r + 1, k, l);
  }

  /** Updating an account revokes exactly the local sessions that belong to it: those whose user name, free of
      white space around it, is a name of the updated account. */
  lemma UpdateUserHits(c: Config, username: string, input: UserInput, now: int, session: Session)
    requires Good(c) && Apply(c, UpdateUser(username, input), now, true).error.None?
    ensures DutyOf(c, UpdateUser(username, input)).Some?
    ensures var p := session.principal;
      Hit(DutyOf(c, UpdateUser(username, input)).value, session) <==>
        p.provider == Local && Trimmed(p.username) && Find(c.users, p.username) == Find(c.users, username)
  {
    var p, i := session.principal, Find(c.users, username);
    var stored := c.users[i].username;
    assert UserOk(c.users[i]);
    UsernameIsTrimmed(stored);
    TrimmedIsFixed(stored);
    TrimmedIsFixed(p.username);
    if EqualFold(p.username, stored) { FoldKeepsTrimmed(p.username, stored); }
    FindIsUnique(c, p.username, i);
  }

  /** Deleting an account never revokes sessions of another account, nor of LDAP users. */
  lemma DeleteUserSpares(c: Config, username: string, session: Session)
    requires Good(c) && Apply(c, DeleteUser(username), 0, true).error.None?
    requires session.principal.provider == Ldap || Find(c.users, session.principal.username) != Find(c.users, username)
    ensures DutyOf(c, DeleteUser(username)).Some?
    ensures !Hit(DutyOf(c, DeleteUser(username)).value, session)
  {
    var p := session.principal;
    if EqualFold(p.username, username) {
      TrimFolds(p.username, username);
      FindIsUnique(c, p.username, Find(c.users, username));
    }
  }

  /** Changing the mode revokes exactly the sessions of disabled providers. */
  lemma UpdateSettingsHits(c: Config, mode: string, ldap: Option<LdapSettings>, session: Session)
    requires Apply(c, UpdateSettings(mode, ldap), 0, true).error.None?
    ensures DutyOf(c, UpdateSettings(mode, ldap)).Some?
    ensures Hit(DutyOf(c, UpdateSettings(mode, ldap)).value, session) <==>
      !ModeIncludes(Apply(c, UpdateSettings(mode, ldap), 0, true).config.mode, session.principal.provider)
  {
  }

  /** Deleting an account finds it by the trimmed name but revokes by the name as given: the account's sessions
      are revoked exactly when the name had no white space around it. */
  lemma DeleteUserHitsIff(c: Config, username: string, session: Session)
    requires Apply(c, DeleteUser(username), 0, true).error.None?
    requires session.principal.provider == Local
    requires EqualFold(session.principal.username, c.users[Find(c.users, username)].username)
    ensures DutyOf(c, DeleteUser(username)).Some?
    ensures Hit(DutyOf(c, DeleteUser(username)).value, session) <==> Trimmed(username)
  {
    FoldLength(username);
    FoldLength(Trim(username));
    TrimShape(username);
    TrimmedIsFixed(username);
  }

  function Account(name: string, role: Role, hash: nat): User {
    User(name, name, role, true, [], false, hash, 0, 0)
  }

  lemma PaddedBob()
    ensures Trim(" bob") == "bob" && Trim("bob") == "bob"
    ensures !EqualFold("root", "bob") && EqualFold("bob", "bob") && !EqualFold("bob", " bob")
  {
    assert " bob"[1..] == "bob";
    TrimmedIsFixed("bob");
    assert TrimLeft(" bob") == TrimLeft("bob") == "bob";
    FoldLength("bob");
    FoldLength("root");
    FoldLength(" bob");
  }

  lemma BobIsFound(root: User, bob: User, name: string)
    requires root.username == "root" && bob.username == "bob" && Trim(name) == "bob"
    requires !EqualFold("root", "bob") && EqualFold("bob", "bob")
    ensures Find([root, bob], name) == 1 && Find([root], name) == -1
  {
    assert [root, bob][0] == root && [root, bob][1] == bob && [root][0] == root;
  }

  /** The condition fails for instance when bob is deleted as " bob": his session stays in the table, and once
      an account bob exists again the session is accepted. */
  lemma PaddedDeleteKeepsSession(displayName: string, expiresAt: int)
    ensures var bob := Account("bob", Operator, 1);
      var c := Config(true, LocalMode, LdapSettings("", []), [Account("root", Admin, 0), bob]);
      var session := Session(Principal("bob", displayName, Local, Operator, [], false), expiresAt);
      var deleted := Apply(c, DeleteUser(" bob"), 0, true);
      && deleted.error.None? && deleted.config.users == [Account("root", Admin, 0)]
      && !Hit(DutyOf(c, DeleteUser(" bob")).value, session)
      && Accept(deleted.config, session.principal).None?
      && Accept(deleted.config.(users := deleted.config.users + [bob]), session.principal).Some?
  {
    var root, bob := Account("root", Admin, 0), Account("bob", Operator, 1);
    var c := Config(true, LocalMode, LdapSettings("", []), [root, bob]);
    var session := Session(Principal("bob", displayName, Local, Operator, [], false), expiresAt);
    PaddedBob();
    BobIsFound(root, bob, " bob");
    BobIsFound(root, bob, "bob");
    assert c.users[..1] + c.users[2..] == [root];
    assert root.active && [root][0] == root;
    assert [root] + [bob] == [root, bob];
  }

  /** What a lookup returns is what the configuration says when it ends: the one active account of that name with
      its current role and grants, or for LDAP the role the administrator list gives, and the provider is enabled. */
  lemma AcceptedIsCurrent(states: seq<State>, actions: seq<Action>, k: nat)
    requires Run(states, actions) && k < |actions| && actions[k].EndLookup?
    requires Accept(states[k].config, states[k].lookups[actions[k].lookup].session.principal).Some?
    ensures var c, p := states[k].config, states[k].lookups[actions[k].lookup].session.principal;
      var p' := Accept(c, p).value;
      && c.configured && ModeIncludes(c.mode, p.provider) && p'.username == p.username && p'.provider == p.provider
      && (p.provider == Local ==>
            && (exists i :: 0 <= i < |c.users| && EqualFold(c.users[i].username, Trim(p.username)))
            && forall i :: 0 <= i < |c.users| && EqualFold(c.users[i].username, Trim(p.username)) ==>
                 && c.users[i].active && p'.role == c.users[i].role && p'.clusterIds == c.users[i].clusterIds
                 && p'.displayName == c.users[i].displayName && p'.mustChange == c.users[i].mustChange)
      && (p.provider == Ldap ==> (p'.role == Admin <==> ContainsFold(c.ldap.admins, p.username)) && p'.clusterIds == [])
  {
    RunIsGood(states, actions, k);
    var c, p := states[k].config, states[k].lookups[actions[k].lookup].session.principal;
    forall i | 0 <= i < |c.users| && EqualFold(c.users[i].username, Trim(p.username)) && p.provider == Local
      ensures Find(c.users, p.username) == i
    {
      FindIsUnique(c, p.username, i);
    }
  }

  /** Exactly whose sessions are accepted: users of an enabled provider, for local ones with an active account. */
  lemma AcceptIff(c: Config, p: Principal)
    requires Good(c)
    ensures Accept(c, p).Some? <==>
      && c.configured && (c.mode == BothMode || (c.mode == LocalMode && p.provider == Local) || (c.mode == LdapMode && p.provider == Ldap))
      && (p.provider == Local ==>
            exists i :: 0 <= i < |c.users| && EqualFold(c.users[i].username, Trim(p.username)) && c.users[i].active)
  {
    if p.provider == Local && exists i :: 0 <= i < |c.users| && EqualFold(c.users[i].username, Trim(p.username)) && c.users[i].active {
      var i :| 0 <= i < |c.users| && EqualFold(c.users[i].username, Trim(p.username)) && c.users[i].active;
      FindIsUnique(c, p.username, i);
    }
  }

  /** Logging in and looking the session up before it expires gives the principal as the configuration sees it, and
      the session stays. */
  lemma SessionWorks(s: State, token: string, p: Principal, now: int, expiresAt: int, later: int)
    requires Enabled(s, OpenSession(token, p, now, expiresAt)) && later < expiresAt
    requires s.duty.None? && Accept(s.config, p).Some?
    ensures var l := s.nextLookup;
      var s1 := Next(s, OpenSession(token, p, now, expiresAt));
      var s2 := Next(s1, BeginLookup(token, later));
      && Enabled(s2, EndLookup(l)) && s2.config == s.config && s2.lookups[l].session.principal == p
      && token in Next(s2, EndLookup(l)).sessions
  {
  }

  lemma {:induction false} RunIsGood(states: seq<State>, actions: seq<Action>, i: nat)
    requires Run(states, actions) && i <= |actions|
    ensures Good(states[i].config)
  {
    if i > 0 {
      RunIsGood(states, actions, i - 1);
      var s, a := states[i - 1], actions[i - 1];
      if a.Operate? {
        ApplyKeeps(s.config, a.op, a.now, a.saved);
      } else if a.CommitChange? {
        ApplyKeeps(s.config, CommitOf(s, a), a.now, a.saved);
      }
    }
  }

  // ----- Password changes -----

  predicate HashIn(users: seq<User>, h: nat) { exists i :: 0 <= i < |users| && users[i].hash == h }

  ghost predicate HashesOk(s: State) {
    && (forall i :: 0 <= i < |s.config.users| ==> s.config.users[i].hash in s.hashes)
    && Apart(s.config.users)
    && (forall q :: q in s.changes ==> s.changes[q].readHash in s.hashes)
  }

  ghost predicate Apart(users: seq<User>) {
    forall i, j :: 0 <= i < j < |users| ==> users[i].hash != users[j].hash
  }

  ghost predicate OnlyNew(users: seq<User>, users': seq<User>, newHash: Option<nat>) {
    forall i :: 0 <= i < |users'| ==> HashIn(users, users'[i].hash) || newHash == Some(users'[i].hash)
  }

  ghost predicate KeepsApart(users: seq<User>, users': seq<User>, newHash: Option<nat>) {
    Apart(users) && (newHash.Some? ==> !HashIn(users, newHash.value)) ==> Apart(users') && OnlyNew(users, users', newHash)
  }

  lemma SlotHashes(users: seq<User>, i: nat, user: User, newHash: Option<nat>)
    requires i < |users| && (user.hash == users[i].hash || newHash == Some(user.hash))
    ensures KeepsApart(users, users[i := user], newHash)
  {
    var users' := users[i := user];
    assert forall j :: 0 <= j < |users| && j != i ==> users'[j] == users[j];
  }

  lemma PasswordHashes(c: Config, op: Op, now: int, saved: bool)
    requires op.CommitPassword? || op.UpdateUser?
    ensures KeepsApart(c.users, Apply(c, op, now, saved).config.users, NewHash(op))
  {
    var c' := Apply(c, op, now, saved).config;
    if c' != c {
      var i := Find(c.users, op.username);
      SlotHashes(c.users, i, c'.users[i], NewHash(op));
    }
  }

  lemma AppendHashes(users: seq<User>, user: User)
    ensures KeepsApart(users, users + [user], Some(user.hash))
  {
    var users' := users + [user];
    assert forall j :: 0 <= j < |users| ==> users'[j] == users[j];
  }

  lemma AccountHashes(c: Config, op: Op, now: int, saved: bool)
    requires op.Bootstrap? || op.CreateUser? || op.UpdateSettings?
    ensures KeepsApart(c.users, Apply(c, op, now, saved).config.users, NewHash(op))
  {
    var users' := Apply(c, op, now, saved).config.users;
    if op.CreateUser? && users' != c.users {
      AppendHashes(c.users, users'[|c.users|]);
    }
  }

  lemma DroppedHashes(users: seq<User>, n: nat)
    requires n < |users|
    ensures KeepsApart(users, users[..n] + users[n + 1..], None)
  {
    var users' := users[..n] + users[n + 1..];
    assert forall j :: 0 <= j < |users'| ==> users'[j] == users[if j < n then j else j + 1];
  }

  lemma RevokedHashes(users: seq<User>, id: string, now: int)
    ensures KeepsApart(users, RevokedAll(users, id, now), None)
  {
    var users' := RevokedAll(users, id, now);
    assert forall j :: 0 <= j < |users'| ==> users'[j].hash == users[j].hash;
  }

  lemma RemovalHashes(c: Config, op: Op, now: int, saved: bool)
    requires op.DeleteUser? || op.RemoveClusterPermissions?
    ensures KeepsApart(c.users, Apply(c, op, now, saved).config.users, NewHash(op))
  {
    if Apply(c, op, now, saved).config != c {
      if op.DeleteUser? {
        DroppedHashes(c.users, Find(c.users, op.username));
      } else {
        RevokedHashes(c.users, Trim(op.clusterId), now);
      }
    }
  }

  /** An operation keeps hashes apart and introduces none but its new one. */
  lemma ApplyHashes(c: Config, op: Op, now: int, saved: bool)
    ensures KeepsApart(c.users, Apply(c, op, now, saved).config.users, NewHash(op))
  {
    match op
    case CommitPassword(_, _, _, _) => PasswordHashes(c, op, now, saved);
    case UpdateUser(_, _) => PasswordHashes(c, op, now, saved);
    case DeleteUser(_) => RemovalHashes(c, op, now, saved);
    case RemoveClusterPermissions(_) => RemovalHashes(c, op, now, saved);
    case _ => AccountHashes(c, op, now, saved);
  }

  lemma StepKeepsHashes(s: State, a: Action)
    requires HashesOk(s) && Enabled(s, a)
    ensures HashesOk(Next(s, a)) && s.hashes <= Next(s, a).hashes
    ensures forall h :: h in s.hashes && !HashIn(s.config.users, h) ==> !HashIn(Next(s, a).config.users, h)
  {
    if a.Operate? {
      ApplyHashes(s.config, a.op, a.now, a.saved);
    } else if a.CommitChange? {
      ApplyHashes(s.config, CommitOf(s, a), a.now, a.saved);
    }
  }

  lemma {:induction false} RunKeepsHashes(states: seq<State>, actions: seq<Action>, i: nat)
    requires Run(states, actions) && i <= |actions|
    ensures HashesOk(states[i])
  {
    if i > 0 {
      RunKeepsHashes(states, actions, i - 1);
      StepKeepsHashes(states[i - 1], actions[i - 1]);
    }
  }

  /** A hash that is gone never comes back. */
  lemma {:induction false} GoneForGood(states: seq<State>, actions: seq<Action>, i: nat, j: nat, h: nat)
    requires Run(states, actions) && i <= j <= |actions| && h in states[i].hashes && !HashIn(states[i].config.users, h)
    ensures h in states[j].hashes && !HashIn(states[j].config.users, h)
    decreases j
  {
    if i < j {
      GoneForGood(states, actions, i, j - 1, h);
      RunKeepsHashes(states, actions, j - 1);
      StaysGone(states[j - 1], actions[j - 1], h);
    }
  }

  lemma StaysGone(s: State, a: Action, h: nat)
    requires HashesOk(s) && Enabled(s, a) && h in s.hashes && !HashIn(s.config.users, h)
    ensures h in Next(s, a).hashes && !HashIn(Next(s, a).config.users, h)
  {
    StepKeepsHashes(s, a);
  }

  /** The step commits a password change successfully. */
  ghost predicate Changed(s: State, a: Action) {
    && a.CommitChange? && Enabled(s, a)
    && Apply(s.config, CommitOf(s, a), a.now, a.saved).error.None?
  }

  /** A successful change replaces exactly the hash it read, in one account, and touches no other account. */
  lemma ChangeReplacesWhatItRead(states: seq<State>, actions: seq<Action>, i: nat)
    requires Run(states, actions) && i < |actions| && Changed(states[i], actions[i])
    ensures var read := states[i].changes[actions[i].change].readHash;
      var users, users' := states[i].config.users, states[i + 1].config.users;
      && |users'| == |users| && !HashIn(users', read)
      && exists n :: 0 <= n < |users| && users[n].hash == read && users'[n].hash == actions[i].newHash
           && !users'[n].mustChange && users'[n].username == users[n].username
           && forall m :: 0 <= m < |users| && m != n ==> users'[m] == users[m]
  {
    RunKeepsHashes(states, actions, i);
    var s, a := states[i], actions[i];
    var n := Find(s.config.users, s.changes[a.change].username);
    assert s.config.users[n].hash == s.changes[a.change].readHash;
  }

  /** Of the changes that read one hash at most one succeeds, in every interleaving. */
  lemma OneChangePerHash(states: seq<State>, actions: seq<Action>, i: nat, j: nat)
    requires Run(states, actions) && i < j < |actions| && Changed(states[i], actions[i]) && Changed(states[j], actions[j])
    ensures states[i].changes[actions[i].change].readHash != states[j].changes[actions[j].change].readHash
  {
    var h := states[i].changes[actions[i].change].readHash;
    ChangeReplacesWhatItRead(states, actions, i);
    ChangeReplacesWhatItRead(states, actions, j);
    RunKeepsHashes(states, actions, i);
    StepKeepsHashes(states[i], actions[i]);
    GoneForGood(states, actions, i + 1, j, h);
  }

  /** A password change left alone succeeds: an active account that may change its password gets the new hash, if the
      configuration can be saved. */
  lemma ChangeAlone(s: State, username: string, temporary: bool, newHash: nat, now: int, saved: bool)
    requires s.duty.None? && newHash !in s.hashes && Find(s.config.users, username) >= 0
    requires var u := s.config.users[Find(s.config.users, username)]; u.active && (temporary ==> u.mustChange)
    ensures var i, q := Find(s.config.users, username), s.nextChange;
      var s1 := Next(s, BeginChange(username, temporary));
      && Enabled(s1, CommitChange(q, newHash, now, saved))
      && Changed(s1, CommitChange(q, newHash, now, saved)) == saved
      && var s2 := Next(s1, CommitChange(q, newHash, now, saved));
      s2.config == if saved
        then s.config.(users := s.config.users[i := s.config.users[i].(hash := newHash, mustChange := false, updatedAt := now)])
        else s.config
  {
  }

  /** A change cannot begin for an unknown or inactive account, nor as a first change when none is required. */
  lemma ChangeRefused(s: State, username: string, temporary: bool)
    requires s.duty.None?
    requires var i := Find(s.config.users, username);
      i < 0 || !s.config.users[i].active || (temporary && !s.config.users[i].mustChange)
    ensures Next(s, BeginChange(username, temporary)) == s
  {
  }
}
