/** The cluster registry (internal/store/registry.go) as a state machine: lookups create clients lazily with a
    check, unlock, create, lock, re-check pattern while updates and deletions race with them. */
module Registry {
  import opened Store

  datatype Config = Config(name: string, details: string, updatedAt: nat)

  datatype Managed = Managed(config: Config, client: Option<nat>)

  datatype Pc =
    | Checking                                  // about to look at the entry
    | Dialing(config: Config)                   // about to create a client, no lock held
    | Holding(config: Config, client: nat)      // about to lock and re-check

  /** `racing` counts updates of this cluster committed during the lookup; `seen` is its value at the last check. */
  datatype Lookup = Lookup(id: string, pc: Pc, retries: nat, racing: nat, seen: nat)

  /** An UpdateCluster call between its read and its write lock. */
  datatype Pending = Pending(id: string, config: Config)

  datatype Origin = Origin(id: string, config: Config)

  /** `given` collects the configurations each cluster was ever given; `fold` is the case folding by which names
      are compared, whatever it is. */
  datatype State = State(
    clusters: map<string, Managed>, everUsed: set<string>, given: set<Origin>,
    open: set<nat>, builtFrom: map<nat, Origin>, nextClient: nat,
    lookups: map<nat, Lookup>, nextLookup: nat, updates: set<Pending>, fold: string -> string)

  datatype Action =
    | Create(id: string, config: Config, saved: bool)
    | BeginUpdate(id: string, config: Config)
    | CommitUpdate(update: Pending, saved: bool)
    | Delete(id: string, saved: bool)
    | StartLookup(id: string)
    | Check(lookup: nat)
    | Dial(lookup: nat, connected: bool)
    | Install(lookup: nat)

  predicate NameExists(clusters: map<string, Managed>, name: string, except: string, fold: string -> string) {
    exists id :: id in clusters && id != except && fold(clusters[id].config.name) == fold(name)
  }

  /** Cluster identifiers are random, never empty and never reused. */
  predicate Enabled(s: State, a: Action) {
    match a
    case Create(id, _, _) => id != "" && id !in s.everUsed
    case BeginUpdate(id, _) => id in s.clusters
    case CommitUpdate(u, _) => u in s.updates
    case Delete(_, _) => true
    case StartLookup(_) => true
    case Check(l) => l in s.lookups && s.lookups[l].pc.Checking?
    case Dial(l, _) => l in s.lookups && s.lookups[l].pc.Dialing?
    case Install(l) => l in s.lookups && s.lookups[l].pc.Holding?
  }

  function CloseClient(s: State, client: Option<nat>): set<nat> {
    if client.Some? then s.open - {client.value} else s.open
  }

  function Raced(lookups: map<nat, Lookup>, id: string): map<nat, Lookup> {
    map l | l in lookups :: if lookups[l].id == id then lookups[l].(racing := lookups[l].racing + 1) else lookups[l]
  }

  function CommitStep(s: State, u: Pending, saved: bool): State {
    var s' := s.(updates := s.updates - {u});
    if u.id !in s.clusters || NameExists(s.clusters, u.config.name, u.id, s.fold) || !saved then s'
    else s'.(clusters := s.clusters[u.id := Managed(u.config, None)],
             open := CloseClient(s, s.clusters[u.id].client),
             lookups := Raced(s.lookups, u.id))
  }

  function CheckStep(s: State, l: nat): State
    requires l in s.lookups
  {
    var q := s.lookups[l];
    if q.id !in s.clusters || s.clusters[q.id].client.Some? then s.(lookups := s.lookups - {l})
    else s.(lookups := s.lookups[l := q.(pc := Dialing(s.clusters[q.id].config), seen := q.racing)])
  }

  function DialStep(s: State, l: nat, connected: bool): State
    requires l in s.lookups && s.lookups[l].pc.Dialing?
  {
    var q := s.lookups[l];
    if !connected then s.(lookups := s.lookups - {l})
    else
      var client := s.nextClient;
      s.(lookups := s.lookups[l := q.(pc := Holding(q.pc.config, client))], open := s.open + {client},
         builtFrom := s.builtFrom[client := Origin(q.id, q.pc.config)], nextClient := client + 1)
  }

  function InstallStep(s: State, l: nat): State
    requires l in s.lookups && s.lookups[l].pc.Holding?
  {
    var q := s.lookups[l];
    var closed := s.(open := s.open - {q.pc.client}, lookups := s.lookups - {l});
    if q.id !in s.clusters then closed
    else
      var current := s.clusters[q.id];
      if current.config.updatedAt != q.pc.config.updatedAt then
        closed.(lookups := s.lookups[l := q.(pc := Checking, retries := q.retries + 1)])
      else if current.client.Some? then closed
      else s.(clusters := s.clusters[q.id := current.(client := Some(q.pc.client))], lookups := s.lookups - {l})
  }

  function Next(s: State, a: Action): State
    requires Enabled(s, a)
  {
    match a
    case Create(id, config, saved) =>
      var s' := s.(everUsed := s.everUsed + {id}, given := s.given + {Origin(id, config)});
      if NameExists(s.clusters, config.name, "", s.fold) || !saved then s'
      else s'.(clusters := s.clusters[id := Managed(config, None)])
    case BeginUpdate(id, config) =>
      s.(updates := s.updates + {Pending(id, config)}, given := s.given + {Origin(id, config)})
    case CommitUpdate(u, saved) => CommitStep(s, u, saved)
    case Delete(id, saved) =>
      if id !in s.clusters || !saved then s
      else s.(clusters := s.clusters - {id}, open := CloseClient(s, s.clusters[id].client))
    case StartLookup(id) =>
      s.(lookups := s.lookups[s.nextLookup := Lookup(id, Checking, 0, 0, 0)], nextLookup := s.nextLookup + 1)
    case Check(l) => CheckStep(s, l)
    case Dial(l, connected) => DialStep(s, l, connected)
    case Install(l) => InstallStep(s, l)
  }

  /** A freshly loaded registry: entries without clients. */
  ghost predicate Init(s: State) {
    && s.open == {} && s.lookups == map[] && s.updates == {} && s.builtFrom == map[]
    && (forall id :: id in s.clusters ==>
          id != "" && id in s.everUsed && s.clusters[id].client.None? && Origin(id, s.clusters[id].config) in s.given)
  }

  ghost predicate Run(states: seq<State>, actions: seq<Action>) {
    && |states| == |actions| + 1
    && Init(states[0])
    && forall i :: 0 <= i < |actions| ==>
         Enabled(states[i], actions[i]) && states[i + 1] == Next(states[i], actions[i])
  }

  // ----- Invariant -----

  ghost predicate NamesDistinct(clusters: map<string, Managed>, fold: string -> string) {
    forall i, j :: i in clusters && j in clusters && i != j ==> fold(clusters[i].config.name) != fold(clusters[j].config.name)
  }

  ghost predicate Holds(s: State, l: nat, client: nat) {
    l in s.lookups && s.lookups[l].pc.Holding? && s.lookups[l].pc.client == client
  }

  ghost predicate Installed(s: State, id: string, client: nat) {
    id in s.clusters && s.clusters[id].client == Some(client)
  }

  /** The client was built for this cluster, from a configuration with the stamp of the present one. */
  ghost predicate BuiltFor(s: State, id: string, client: nat)
    requires id in s.clusters
  {
    && client in s.builtFrom && s.builtFrom[client].id == id
    && s.builtFrom[client].config.updatedAt == s.clusters[id].config.updatedAt
  }

  /** Exactly one owner: an in-flight lookup, or an entry of the cluster the client was built for. */
  ghost predicate OwnedOnce(s: State, client: nat) {
    || (exists l :: Holds(s, l, client) && (forall m :: Holds(s, m, client) ==> m == l) && !exists id :: Installed(s, id, client))
    || (exists id :: Installed(s, id, client) && (forall o :: Installed(s, o, client) ==> o == id)
                     && BuiltFor(s, id, client) && !exists l :: Holds(s, l, client))
  }

  ghost predicate ClientsOk(s: State) {
    && (forall c :: c in s.open ==> c < s.nextClient && c in s.builtFrom)
    && (forall l, c :: Holds(s, l, c) ==> c in s.open && s.builtFrom[c] == Origin(s.lookups[l].id, s.lookups[l].pc.config))
    && (forall id, c :: Installed(s, id, c) ==> c in s.open && BuiltFor(s, id, c))
    && (forall l, m, c :: Holds(s, l, c) && Holds(s, m, c) ==> l == m)
    && (forall l, id, c :: Holds(s, l, c) ==> !Installed(s, id, c))
    && (forall c :: c in s.open ==> (exists l :: Holds(s, l, c)) || (exists id :: Installed(s, id, c)))
  }

  ghost predicate LookupOk(s: State, q: Lookup) {
    && q.retries <= q.racing
    && (!q.pc.Checking? ==>
          && Origin(q.id, q.pc.config) in s.given && q.retries <= q.seen <= q.racing && q.id in s.everUsed
          && (q.seen == q.racing && q.id in s.clusters ==> s.clusters[q.id].config == q.pc.config))
  }

  ghost predicate ConfigsOk(s: State) {
    && (forall id :: id in s.clusters ==> id != "" && id in s.everUsed && Origin(id, s.clusters[id].config) in s.given)
    && (forall u :: u in s.updates ==> Origin(u.id, u.config) in s.given)
    && (forall c :: c in s.builtFrom ==> s.builtFrom[c] in s.given)
    && (forall l :: l in s.lookups ==> l < s.nextLookup && LookupOk(s, s.lookups[l]))
  }

  ghost predicate Inv(s: State) {
    ClientsOk(s) && ConfigsOk(s)
  }

  lemma OwnedExactlyOnce(s: State, client: nat)
    requires ClientsOk(s) && client in s.open
    ensures OwnedOnce(s, client)
  {
    if l :| Holds(s, l, client) {
      assert forall m :: Holds(s, m, client) ==> m == l;
      assert !exists id :: Installed(s, id, client);
    } else {
      var id :| Installed(s, id, client);
      assert forall o :: Installed(s, o, client) ==> BuiltFor(s, o, client) && o == s.builtFrom[client].id;
    }
  }

  // ----- Each step keeps the invariant -----

  lemma SameClients(s: State, s': State)
    requires ClientsOk(s) && s'.open == s.open && s'.builtFrom == s.builtFrom && s'.nextClient == s.nextClient
    requires forall l, c :: Holds(s', l, c) <==> Holds(s, l, c)
    requires forall l, c :: Holds(s', l, c) ==> s'.lookups[l].id == s.lookups[l].id && s'.lookups[l].pc == s.lookups[l].pc
    requires forall id, c :: Installed(s', id, c) <==> Installed(s, id, c)
    requires forall id, c :: Installed(s', id, c) ==> s'.clusters[id].config == s.clusters[id].config
    ensures ClientsOk(s')
  {
    forall c | c in s'.open ensures (exists l :: Holds(s', l, c)) || (exists id :: Installed(s', id, c)) {
      if l :| Holds(s, l, c) { assert Holds(s', l, c); } else { var id :| Installed(s, id, c); assert Installed(s', id, c); }
    }
  }

  lemma CreateKeeps(s: State, id: string, config: Config, saved: bool)
    requires Inv(s) && Enabled(s, Create(id, config, saved))
    ensures Inv(Next(s, Create(id, config, saved)))
  {
    var s' := Next(s, Create(id, config, saved));
    SameClients(s, s');
    forall l | l in s'.lookups ensures LookupOk(s', s'.lookups[l]) {
      assert LookupOk(s, s.lookups[l]);
    }
  }

  lemma BeginUpdateKeeps(s: State, id: string, config: Config)
    requires Inv(s) && Enabled(s, BeginUpdate(id, config))
    ensures Inv(Next(s, BeginUpdate(id, config)))
  {
    var s' := Next(s, BeginUpdate(id, config));
    SameClients(s, s');
    forall l | l in s'.lookups ensures LookupOk(s', s'.lookups[l]) {
      assert LookupOk(s, s.lookups[l]);
    }
  }

  lemma StartLookupKeeps(s: State, id: string)
    requires Inv(s)
    ensures Inv(Next(s, StartLookup(id)))
  {
    SameClients(s, Next(s, StartLookup(id)));
  }

  lemma CheckKeeps(s: State, l: nat)
    requires Inv(s) && Enabled(s, Check(l))
    ensures Inv(Next(s, Check(l)))
  {
    SameClients(s, Next(s, Check(l)));
  }

  /** Closing the client of an entry that goes away leaves every other client owned. */
  lemma EntryCloses(s: State, s': State, id: string)
    requires ClientsOk(s) && id in s.clusters && s'.open == CloseClient(s, s.clusters[id].client)
    requires s'.builtFrom == s.builtFrom && s'.nextClient == s.nextClient
    requires forall l, c :: Holds(s', l, c) <==> Holds(s, l, c)
    requires forall l, c :: Holds(s', l, c) ==> s'.lookups[l].id == s.lookups[l].id && s'.lookups[l].pc == s.lookups[l].pc
    requires forall o, c :: Installed(s', o, c) <==> Installed(s, o, c) && o != id
    requires forall o, c :: Installed(s', o, c) ==> s'.clusters[o].config == s.clusters[o].config
    ensures ClientsOk(s')
  {
    forall o, c | Installed(s', o, c) ensures c in s'.open {
      assert BuiltFor(s, o, c) && !Installed(s, id, c);
    }
    forall l, c | Holds(s', l, c) ensures c in s'.open {
      assert !Installed(s, id, c);
    }
    forall c | c in s'.open ensures (exists l :: Holds(s', l, c)) || (exists o :: Installed(s', o, c)) {
      if l :| Holds(s, l, c) { assert Holds(s', l, c); } else { var o :| Installed(s, o, c); assert Installed(s', o, c); }
    }
  }

  lemma CommitKeeps(s: State, u: Pending, saved: bool)
    requires Inv(s) && Enabled(s, CommitUpdate(u, saved))
    ensures Inv(Next(s, CommitUpdate(u, saved)))
  {
    var s' := Next(s, CommitUpdate(u, saved));
    if u.id !in s.clusters || NameExists(s.clusters, u.config.name, u.id, s.fold) || !saved {
      SameClients(s, s');
    } else {
      EntryCloses(s, s', u.id);
      CommitConfigs(s, u);
    }
  }

  lemma CommitConfigs(s: State, u: Pending)
    requires ConfigsOk(s) && u in s.updates
    ensures ConfigsOk(CommitStep(s, u, true))
  {
    var s' := CommitStep(s, u, true);
    forall l | l in s'.lookups ensures LookupOk(s', s'.lookups[l]) {
      assert LookupOk(s, s.lookups[l]);
    }
  }

  lemma DeleteKeeps(s: State, id: string, saved: bool)
    requires Inv(s)
    ensures Inv(Next(s, Delete(id, saved)))
  {
    if id in s.clusters && saved {
      EntryCloses(s, Next(s, Delete(id, saved)), id);
    }
  }

  lemma DialKeeps(s: State, l: nat, connected: bool)
    requires Inv(s) && Enabled(s, Dial(l, connected))
    ensures Inv(Next(s, Dial(l, connected)))
  {
    var s' := Next(s, Dial(l, connected));
    if !connected {
      SameClients(s, s');
    } else {
      assert Holds(s', l, s.nextClient);
      assert forall m, c :: Holds(s', m, c) <==> (m == l && c == s.nextClient) || Holds(s, m, c);
      assert forall id, c :: Installed(s', id, c) <==> Installed(s, id, c);
      assert LookupOk(s, s.lookups[l]);
      forall c | c in s.open ensures (exists m :: Holds(s', m, c)) || (exists id :: Installed(s', id, c)) {
        if m :| Holds(s, m, c) { assert Holds(s', m, c); } else { var id :| Installed(s, id, c); assert Installed(s', id, c); }
      }
    }
  }

  lemma LookupCloses(s: State, s': State, l: nat)
    requires ClientsOk(s) && l in s.lookups && s.lookups[l].pc.Holding? && s'.open == s.open - {s.lookups[l].pc.client}
    requires s'.builtFrom == s.builtFrom && s'.nextClient == s.nextClient && s'.clusters == s.clusters
    requires forall m, c :: Holds(s', m, c) <==> Holds(s, m, c) && m != l
    requires forall m, c :: Holds(s', m, c) ==> s'.lookups[m] == s.lookups[m]
    ensures ClientsOk(s')
  {
    assert Holds(s, l, s.lookups[l].pc.client);
    assert forall id, c :: Installed(s', id, c) <==> Installed(s, id, c);
    forall c | c in s'.open ensures (exists m :: Holds(s', m, c)) || (exists id :: Installed(s', id, c)) {
      if m :| Holds(s, m, c) { assert Holds(s', m, c); } else { var id :| Installed(s, id, c); assert Installed(s', id, c); }
    }
    forall id, c | Installed(s', id, c) ensures c in s'.open {
      assert Installed(s, id, c);
    }
  }

  lemma InstallKeeps(s: State, l: nat)
    requires Inv(s) && Enabled(s, Install(l))
    ensures Inv(Next(s, Install(l)))
  {
    var s' := Next(s, Install(l));
    var q := s.lookups[l];
    assert LookupOk(s, q);
    if q.id in s.clusters && s.clusters[q.id].config.updatedAt == q.pc.config.updatedAt && s.clusters[q.id].client.None? {
      InstalledOk(s, s', l);
    } else {
      LookupCloses(s, s', l);
    }
  }

  lemma InstalledOk(s: State, s': State, l: nat)
    requires Inv(s) && Enabled(s, Install(l)) && s' == Next(s, Install(l))
    requires s.lookups[l].id in s.clusters && s.clusters[s.lookups[l].id].client.None?
    requires s.clusters[s.lookups[l].id].config.updatedAt == s.lookups[l].pc.config.updatedAt
    ensures Inv(s')
  {
    InstalledClients(s, s', l);
    forall m | m in s'.lookups ensures LookupOk(s', s'.lookups[m]) {
      assert LookupOk(s, s.lookups[m]);
    }
  }

  lemma InstalledClients(s: State, s': State, l: nat)
    requires ClientsOk(s) && Enabled(s, Install(l)) && s' == Next(s, Install(l))
    requires s.lookups[l].id in s.clusters && s.clusters[s.lookups[l].id].client.None?
    requires s.clusters[s.lookups[l].id].config.updatedAt == s.lookups[l].pc.config.updatedAt
    ensures ClientsOk(s')
  {
    var q := s.lookups[l];
    assert Holds(s, l, q.pc.client);
    assert Installed(s', q.id, q.pc.client);
    assert forall m, c :: Holds(s', m, c) <==> Holds(s, m, c) && m != l;
    assert forall id, c :: Installed(s', id, c) <==> Installed(s, id, c) || (id == q.id && c == q.pc.client);
    forall c | c in s'.open ensures (exists m :: Holds(s', m, c)) || (exists id :: Installed(s', id, c)) {
      if m :| Holds(s, m, c) {
        if m != l { assert Holds(s', m, c); }
      } else {
        var id :| Installed(s, id, c);
        assert Installed(s', id, c);
      }
    }
  }

  lemma StepKeeps(s: State, a: Action)
    requires Inv(s) && Enabled(s, a)
    ensures Inv(Next(s, a))
  {
    match a
    case Check(l) => CheckKeeps(s, l);
    case CommitUpdate(u, saved) => CommitKeeps(s, u, saved);
    case Delete(id, saved) => DeleteKeeps(s, id, saved);
    case Dial(l, connected) => DialKeeps(s, l, connected);
    case Install(l) => InstallKeeps(s, l);
    case Create(id, config, saved) => CreateKeeps(s, id, config, saved);
    case BeginUpdate(id, config) => BeginUpdateKeeps(s, id, config);
    case StartLookup(id) => StartLookupKeeps(s, id);
  }

  lemma {:induction false} RunKeeps(states: seq<State>, actions: seq<Action>, i: nat)
    requires Run(states, actions) && i <= |actions|
    ensures Inv(states[i])
  {
    if i > 0 {
      RunKeeps(states, actions, i - 1);
      StepKeeps(states[i - 1], actions[i - 1]);
    }
  }

  /** In every run each open client has exactly one owner, and an installed client was built for its entry's
      cluster under the stamp the entry has now. */
  lemma ClientsNeverLeak(states: seq<State>, actions: seq<Action>, i: nat, client: nat)
    requires Run(states, actions) && i <= |actions| && client in states[i].open
    ensures OwnedOnce(states[i], client)
  {
    RunKeeps(states, actions, i);
    OwnedExactlyOnce(states[i], client);
  }

  /** A lookup retries at most once for each update of its cluster that races with it. */
  lemma RetriesAreBounded(states: seq<State>, actions: seq<Action>, i: nat, l: nat)
    requires Run(states, actions) && i <= |actions| && l in states[i].lookups
    ensures states[i].lookups[l].retries <= states[i].lookups[l].racing
  {
    RunKeeps(states, actions, i);
    assert LookupOk(states[i], states[i].lookups[l]);
  }

  /** The step commits an update of that cluster. */
  predicate Commits(s: State, a: Action, id: string) {
    && a.CommitUpdate? && a.update.id == id && id in s.clusters && a.saved
    && !NameExists(s.clusters, a.update.config.name, id, s.fold)
  }

  function CommitsFrom(states: seq<State>, actions: seq<Action>, i: nat, j: nat, id: string): nat
    requires i <= j <= |actions| && |states| == |actions| + 1
    decreases j
  {
    if i == j then 0 else CommitsFrom(states, actions, i, j - 1, id) + if Commits(states[j - 1], actions[j - 1], id) then 1 else 0
  }

  /** The counters of the lookup move as they should in this step. */
  ghost predicate Counted(s: State, a: Action, s': State, l: nat) {
    l in s.lookups && l in s'.lookups ==>
      var q, q' := s.lookups[l], s'.lookups[l];
      && q'.id == q.id && q'.racing == q.racing + (if Commits(s, a, q.id) then 1 else 0)
      && q'.retries == q.retries + (if a == Install(l) then 1 else 0)
  }

  lemma StepCounts(s: State, a: Action, l: nat)
    requires Inv(s) && Enabled(s, a)
    ensures Counted(s, a, Next(s, a), l)
  {
    if l in s.lookups { assert l < s.nextLookup; }
  }

  lemma RunCounts(states: seq<State>, actions: seq<Action>, l: nat)
    requires Run(states, actions)
    ensures forall k :: 0 <= k < |actions| ==> Counted(states[k], actions[k], states[k + 1], l)
  {
    forall k | 0 <= k < |actions| ensures Counted(states[k], actions[k], states[k + 1], l) {
      RunKeeps(states, actions, k);
      StepCounts(states[k], actions[k], l);
    }
  }

  lemma {:induction false} CountsAddUp(states: seq<State>, actions: seq<Action>, i: nat, j: nat, l: nat)
    requires i <= j <= |actions| && |states| == |actions| + 1
    requires forall k :: i <= k < j ==> Counted(states[k], actions[k], states[k + 1], l)
    requires forall k :: i <= k <= j ==> l in states[k].lookups
    ensures states[j].lookups[l].id == states[i].lookups[l].id
    ensures states[j].lookups[l].racing ==
      states[i].lookups[l].racing + CommitsFrom(states, actions, i, j, states[i].lookups[l].id)
    decreases j
  {
    if i < j {
      CountsAddUp(states, actions, i, j - 1, l);
      assert Counted(states[j - 1], actions[j - 1], states[j - 1 + 1], l);
    }
  }

  /** The bound counts what it says: over the life of a lookup it grows by one for each committed update of its
      cluster, and the retries by one for each time it could not install its client. */
  lemma RacingIsCount(states: seq<State>, actions: seq<Action>, i: nat, j: nat, l: nat)
    requires Run(states, actions) && i <= j <= |actions|
    requires forall k :: i <= k <= j ==> l in states[k].lookups
    ensures forall k :: i <= k < j ==> Counted(states[k], actions[k], states[k + 1], l)
    ensures states[j].lookups[l].id == states[i].lookups[l].id
    ensures states[j].lookups[l].racing ==
      states[i].lookups[l].racing + CommitsFrom(states, actions, i, j, states[i].lookups[l].id)
  {
    RunCounts(states, actions, l);
    CountsAddUp(states, actions, i, j, l);
  }

  /** A lookup starts with both counts at zero. */
  lemma LookupStarts(s: State, id: string)
    ensures var s' := Next(s, StartLookup(id));
      && s.nextLookup in s'.lookups && s'.lookups[s.nextLookup].id == id
      && s'.lookups[s.nextLookup].retries == 0 && s'.lookups[s.nextLookup].racing == 0
  {
  }

  datatype Answer = Answer(client: nat, config: Config)

  /** What a lookup that ends in this step returns to its caller, if it returns a client. */
  function Returned(s: State, a: Action): Option<Answer>
    requires Enabled(s, a)
  {
    match a
    case Check(l) =>
      var id := s.lookups[l].id;
      if id in s.clusters && s.clusters[id].client.Some?
      then Some(Answer(s.clusters[id].client.value, s.clusters[id].config)) else None
    case Install(l) =>
      var q := s.lookups[l];
      if q.id !in s.clusters || s.clusters[q.id].config.updatedAt != q.pc.config.updatedAt then None
      else if s.clusters[q.id].client.Some?
      then Some(Answer(s.clusters[q.id].client.value, s.clusters[q.id].config))
      else Some(Answer(q.pc.client, s.clusters[q.id].config))
    case _ => None
  }

  /** Among the configurations a cluster was given no two carry one stamp. */
  ghost predicate StampsDiffer(s: State, id: string) {
    forall a, b :: Origin(id, a) in s.given && Origin(id, b) in s.given && a.updatedAt == b.updatedAt ==> a == b
  }

  /** A client handed to a caller is open, installed for the cluster that was asked for and built for it under the
      stamp of the configuration handed out with it; when the stamps of that one cluster differ, it was built from
      exactly that configuration. */
  lemma AnswersMatchTheirConfig(states: seq<State>, actions: seq<Action>, i: nat)
    requires Run(states, actions) && i < |actions| && Returned(states[i], actions[i]).Some?
    ensures var answer := Returned(states[i], actions[i]).value;
      var id := states[i].lookups[actions[i].lookup].id;
      && answer.client in states[i + 1].open
      && Installed(states[i + 1], id, answer.client)
      && states[i + 1].clusters[id].config == answer.config
      && BuiltFor(states[i + 1], id, answer.client)
      && (StampsDiffer(states[i + 1], id) ==> states[i + 1].builtFrom[answer.client] == Origin(id, answer.config))
  {
    RunKeeps(states, actions, i + 1);
    var s, s' := states[i], states[i + 1];
    var id := s.lookups[actions[i].lookup].id;
    var client := Returned(s, actions[i]).value.client;
    assert Installed(s', id, client);
    if StampsDiffer(s', id) { StampsDecide(s', id, client); }
  }

  lemma StampsDecide(s: State, id: string, client: nat)
    requires Inv(s) && Installed(s, id, client) && StampsDiffer(s, id)
    ensures client in s.builtFrom && s.builtFrom[client] == Origin(id, s.clusters[id].config)
  {
    assert BuiltFor(s, id, client);
    assert Origin(id, s.builtFrom[client].config) == s.builtFrom[client];
  }

  /** A lookup that ends hands out a client unless dialling failed or the cluster is gone. */
  lemma LookupsAnswer(s: State, a: Action, l: nat)
    requires Enabled(s, a) && l in s.lookups && l !in Next(s, a).lookups
    requires s.lookups[l].id in Next(s, a).clusters && !(a.Dial? && !a.connected)
    ensures (a.Check? || a.Install?) && a.lookup == l && Returned(s, a).Some?
  {
  }

  /** A lookup left alone returns the installed client, or dials one, installs it and returns it. */
  lemma LookupAlone(s: State, id: string)
    requires id in s.clusters
    ensures var l, managed := s.nextLookup, s.clusters[id];
      var s1 := Next(s, StartLookup(id));
      && Enabled(s1, Check(l))
      && (managed.client.Some? ==>
            && Returned(s1, Check(l)) == Some(Answer(managed.client.value, managed.config))
            && Next(s1, Check(l)).clusters == s.clusters && Next(s1, Check(l)).open == s.open)
      && (managed.client.None? ==>
            var s2 := Next(s1, Check(l));
            && Enabled(s2, Dial(l, true))
            && var s3 := Next(s2, Dial(l, true));
            && Enabled(s3, Install(l)) && Returned(s3, Install(l)) == Some(Answer(s.nextClient, managed.config))
            && Next(s3, Install(l)).clusters == s.clusters[id := managed.(client := Some(s.nextClient))]
            && Next(s3, Install(l)).open == s.open + {s.nextClient})
  {
  }

  // ----- Changes of the clusters -----

  /** Which action changes the entry of which cluster, and how: a saved creation or update under a free name puts the
      configuration in place without a client, a saved deletion removes the entry, installing only adds a client. */
  lemma EntryAfter(s: State, a: Action, id: string)
    requires ConfigsOk(s) && Enabled(s, a)
    ensures var s' := Next(s, a);
      && (id in s'.clusters && id !in s.clusters ==>
            a.Create? && a.id == id && a.saved && !NameExists(s.clusters, a.config.name, "", s.fold))
      && (id in s.clusters && id !in s'.clusters ==> a.Delete? && a.id == id && a.saved)
      && (id in s.clusters && id in s'.clusters && s'.clusters[id].config != s.clusters[id].config ==>
            && a.CommitUpdate? && a.update.id == id && a.saved && s'.clusters[id].config == a.update.config
            && !NameExists(s.clusters, a.update.config.name, id, s.fold))
  {
  }

  /** A creation, update or deletion that nothing stands against and that is saved takes effect, and on nothing else. */
  lemma ChangesTakeEffect(s: State, a: Action)
    requires Enabled(s, a)
    ensures a.Create? && a.saved && !NameExists(s.clusters, a.config.name, "", s.fold) ==>
      Next(s, a).clusters == s.clusters[a.id := Managed(a.config, None)] && Next(s, a).open == s.open
    ensures (a.CommitUpdate? && a.saved && a.update.id in s.clusters
             && !NameExists(s.clusters, a.update.config.name, a.update.id, s.fold)) ==>
      Next(s, a).clusters == s.clusters[a.update.id := Managed(a.update.config, None)]
    ensures a.Delete? && a.saved && a.id in s.clusters ==> Next(s, a).clusters == s.clusters - {a.id}
    ensures (a.Create? || a.Delete? || a.CommitUpdate?) && !a.saved ==>
      Next(s, a).clusters == s.clusters && Next(s, a).open == s.open
  {
  }

  /** A client is closed only with the entry that held it, or because its lookup could not install it. */
  lemma WhyClosed(s: State, a: Action, client: nat)
    requires Inv(s) && Enabled(s, a) && client in s.open && client !in Next(s, a).open
    ensures (a.Delete? && a.saved && Installed(s, a.id, client))
      || (a.CommitUpdate? && a.saved && Installed(s, a.update.id, client))
      || (a.Install? && Holds(s, a.lookup, client) && Next(s, a).clusters == s.clusters)
  {
  }

  /** A deleted cluster does not come back: identifiers are not reused. */
  lemma {:induction false} DeletedForGood(states: seq<State>, actions: seq<Action>, i: nat, j: nat, id: string)
    requires Run(states, actions) && i <= j <= |actions| && id in states[i].everUsed && id !in states[i].clusters
    ensures id in states[j].everUsed && id !in states[j].clusters
    decreases j
  {
    if i < j {
      DeletedForGood(states, actions, i, j - 1, id);
      RunKeeps(states, actions, j - 1);
      EntryAfter(states[j - 1], actions[j - 1], id);
    }
  }

  /** Takes the actions in turn; None when one of them is not enabled. */
  function Replay(s: State, actions: seq<Action>): Option<State>
    decreases |actions|
  {
    if actions == [] then Some(s)
    else if !Enabled(s, actions[0]) then None
    else Replay(Next(s, actions[0]), actions[1..])
  }

  lemma ReplayFirst(s: State, a: Action, next: State, rest: seq<Action>, end: State)
    requires Enabled(s, a) && Next(s, a) == next && Replay(next, rest) == Some(end)
    ensures Replay(s, [a] + rest) == Some(end)
  {
    assert ([a] + rest)[1..] == rest;
  }

  /** A lookup dialled for `before` and now holds client 0; an update to `after` is waiting for the lock. */
  function Dialled(id: string, before: Config, after: Config): State {
    State(map[id := Managed(before, None)], {id}, {Origin(id, before), Origin(id, after)}, {0}, map[0 := Origin(id, before)], 1,
          map[0 := Lookup(id, Holding(before, 0), 0, 0, 0)], 1, {Pending(id, after)}, name => name)
  }

  lemma ReplayToDialled(id: string, before: Config, after: Config) returns (s: State, actions: seq<Action>)
    requires before.updatedAt == after.updatedAt && id != ""
    ensures Init(s) && Replay(s, actions) == Some(Dialled(id, before, after))
  {
    s := State(map[id := Managed(before, None)], {id}, {Origin(id, before)}, {}, map[], 0, map[], 0, {}, name => name);
    var s1 := s.(updates := {Pending(id, after)}, given := {Origin(id, before), Origin(id, after)});
    var s2 := s1.(lookups := map[0 := Lookup(id, Checking, 0, 0, 0)], nextLookup := 1);
    var s3 := s2.(lookups := map[0 := Lookup(id, Dialing(before), 0, 0, 0)]);
    var end := Dialled(id, before, after);
    ReplayFirst(s3, Dial(0, true), end, [], end);
    ReplayFirst(s2, Check(0), s3, [Dial(0, true)] + [], end);
    ReplayFirst(s1, StartLookup(id), s2, [Check(0)] + ([Dial(0, true)] + []), end);
    actions := [StartLookup(id)] + ([Check(0)] + ([Dial(0, true)] + []));
    ReplayFirst(s, BeginUpdate(id, after), s1, actions, end);
    actions := [BeginUpdate(id, after)] + actions;
  }

  lemma {:induction false} ReplayAppend(s: State, first: seq<Action>, rest: seq<Action>)
    requires Replay(s, first).Some?
    ensures Replay(s, first + rest) == Replay(Replay(s, first).value, rest)
    decreases |first|
  {
    if first == [] {
      assert first + rest == rest;
    } else {
      ReplayAppend(Next(s, first[0]), first[1..], rest);
      assert (first + rest)[1..] == first[1..] + rest;
    }
  }

  ghost predicate Reachable(s: State) {
    exists start, actions :: Init(start) && Replay(start, actions) == Some(s)
  }

  /** A client built from `before` serves the cluster under `after`. */
  ghost predicate Mixed(s: State, id: string, client: nat, before: Config, after: Config) {
    && Installed(s, id, client) && s.clusters[id].config == after
    && client in s.builtFrom && s.builtFrom[client] == Origin(id, before)
  }

  lemma {:induction false} ReplayKeeps(s: State, actions: seq<Action>)
    requires Inv(s) && Replay(s, actions).Some?
    ensures Inv(Replay(s, actions).value)
    decreases |actions|
  {
    if actions != [] {
      StepKeeps(s, actions[0]);
      ReplayKeeps(Next(s, actions[0]), actions[1..]);
    }
  }

  /** With two configurations stamped alike, a client dialled for the old one can end up under the new one. */
  lemma EqualStampsMix(id: string, before: Config, after: Config) returns (end: State)
    requires before.updatedAt == after.updatedAt && id != ""
    ensures Reachable(end) && Mixed(end, id, 0, before, after)
  {
    var s, actions := ReplayToDialled(id, before, after);
    var dialled := Dialled(id, before, after);
    var update := CommitUpdate(Pending(id, after), true);
    var updated := Next(dialled, update);
    end := Next(updated, Install(0));
    ReplayFirst(updated, Install(0), end, [], end);
    ReplayFirst(dialled, update, updated, [Install(0)] + [], end);
    ReplayAppend(s, actions, [update] + ([Install(0)] + []));
  }

  /** A client of one configuration can serve under another if and only if the two carry the same stamp. */
  lemma MixedIffEqualStamps(id: string, before: Config, after: Config)
    requires id != ""
    ensures (exists s, client :: Reachable(s) && Mixed(s, id, client, before, after)) <==>
      before.updatedAt == after.updatedAt
  {
    if before.updatedAt == after.updatedAt {
      var end := EqualStampsMix(id, before, after);
    }
    if s, client :| Reachable(s) && Mixed(s, id, client, before, after) {
      var start, actions :| Init(start) && Replay(start, actions) == Some(s);
      ReplayKeeps(start, actions);
      assert BuiltFor(s, id, client);
    }
  }

  lemma NewNameKeeps(clusters: map<string, Managed>, id: string, config: Config, except: string, fold: string -> string)
    requires NamesDistinct(clusters, fold) && !NameExists(clusters, config.name, except, fold) && (except == id || except !in clusters)
    ensures NamesDistinct(clusters[id := Managed(config, None)], fold)
  {
    assert forall i :: i in clusters && i != id && i != except ==> fold(clusters[i].config.name) != fold(config.name);
  }

  lemma SameNames(clusters: map<string, Managed>, clusters': map<string, Managed>, fold: string -> string)
    requires NamesDistinct(clusters, fold) && clusters'.Keys <= clusters.Keys
    requires forall i :: i in clusters' ==> clusters'[i].config == clusters[i].config
    ensures NamesDistinct(clusters', fold)
  {
  }

  lemma StepKeepsNames(s: State, a: Action)
    requires ConfigsOk(s) && Enabled(s, a) && NamesDistinct(s.clusters, s.fold)
    ensures NamesDistinct(Next(s, a).clusters, s.fold)
  {
    match a
    case Create(id, config, _) =>
      if !NameExists(s.clusters, config.name, "", s.fold) { NewNameKeeps(s.clusters, id, config, "", s.fold); }
    case CommitUpdate(u, _) =>
      if !NameExists(s.clusters, u.config.name, u.id, s.fold) { NewNameKeeps(s.clusters, u.id, u.config, u.id, s.fold); }
    case _ => SameNames(s.clusters, Next(s, a).clusters, s.fold);
  }

  /** Names that differ at the start, ignoring case, differ for ever. */
  lemma {:induction false} NamesStayDistinct(states: seq<State>, actions: seq<Action>, i: nat)
    requires Run(states, actions) && i <= |actions| && NamesDistinct(states[0].clusters, states[0].fold)
    ensures states[i].fold == states[0].fold && NamesDistinct(states[i].clusters, states[0].fold)
  {
    if i > 0 {
      NamesStayDistinct(states, actions, i - 1);
      RunKeeps(states, actions, i - 1);
      StepKeepsNames(states[i - 1], actions[i - 1]);
    }
  }
}
