# Etcd Studio: verified model

Etcd Studio is a web console for etcd that adds a durable history of values, an audit log, accounts with
sessions, and a registry of clusters. This project models the parts of it whose correctness spans several
functions or several concurrent requests, and proves what they promise, in Dafny 4.11. Check it with
`dafny verify dfyconfig.toml`.

## What is modelled

- **Archive before overwrite** (`Mvcc`, `Archive`, `ArchiveSafety`, `ArchiveEffects`). etcd is a log of transactions with
  tombstones and a compaction revision. A put, delete or rollback is a sequence of atomic steps (read, look up,
  fetch, and for every snapshot: read the retention, insert, select a cutoff, delete below it; then the
  compare-and-swap). Steps of any number of requests interleave with outside writers, compaction, retention
  changes and prunes started elsewhere, and a request may be abandoned anywhere. Whatever a guarded write
  replaces is in storage at that moment, for every retention. Pruning can evict the snapshot just saved; the
  proof is that a compare-and-swap that succeeds shows the revision was still the newest. One family of puts
  escapes: one that reads no version and expects a revision that does not exist yet. `PutIsSafeIff` gives the
  exact condition, and `FutureExpectationLosesData` builds the losing run for every such put.
- **Rollback** (`EtcdWalk`, `Rollback`, `RollbackPages`, `RollbackWalk`). The backwards walk, the merge of both
  sources, one page, the walk through all pages, and resolving a listed version.
- **File-backed history** (`Base64`, `HistoryFile`, `HistoryLog`, `HistoryCut`, `HistoryDisk`, `FileBackend`). The
  records, the two string-keyed maps and the append-only file, with failed appends, rewrites, crashes and reloads.
  What each operation leaves on disk and in memory is one function; the methods compute it, and a crash leaves
  something that reopens to its argument or to its result.
- **Database-backed history** (`Database`) and **retention** (`History`, `Retention`, `HistoryManager`), proved
  against the same table as the file backend.
- **Cluster registry** (`Registry`). Lookups that create clients lazily, racing with updates and deletions.
- **Accounts and sessions** (`Accounts`, `Sessions`, `AuthManager`, `Password`).
- **Audit log** (`Audit`) and **key listing** (`KeyList`), both paged by cursor.
- `Ordering`, `Lex`, `Text` and `Store` hold the listings of ordered sets, the orders, the string helpers and
  the shared records.

## Form

What the program changes in place is a class or a method over fields and arrays, proved against a function of
the old state; what several requests do concurrently is a state machine whose steps are the program's critical
sections; the rest is functions. Inputs from outside the program are parameters: whether a write or a rename
succeeded (`saved`, `written`, `renamed`, `closed`, `persisted`, `executed`, `connected`), the time (`now`), random draws (`Random`),
password hashes and tokens (fresh where the program makes them so), and what a server answers (`get`, `server`).

## Premises

- A cluster identifier names one etcd, and a request carries an expected revision.
- The record codec is injective, writes no newline inside a record and never a blank line; undoing a failed
  append succeeds, and reopening after the rename succeeds.
- Hashes of keys and of tokens do not collide; cluster identifiers, tokens and salted password hashes are fresh;
  the paging theorem of the audit log is for logs whose events have different identifiers.

## Where the code does less than its purpose suggests

- A put that reads no version but names a future revision can replace an unarchived version
  (`ArchiveSafety.PutIsSafeIff`).
- Equal update timestamps, and only they, let a client built from one configuration of a cluster serve under
  another (`Registry.MixedIffEqualStamps`).
- Deleting an account by a name with white space around it deletes the account and leaves its sessions in the
  table (`Sessions.DeleteUserHitsIff`, `Sessions.PaddedDeleteKeepsSession`).
- A listed version below the compaction revision that is not stored cannot be resolved, and such versions exist
  (`RollbackWalk.ListedResolves`, `RollbackWalk.ListedBelowCompaction`).

## Model

| member | source | states |
|---|---|---|
| `Mvcc.PastIsFixed` | internal/store/etcd.go:158-173 | What a key was at a revision is not changed by any later transaction. |
| `Mvcc.VisibleIsLastWrite` | internal/store/etcd.go:158-173 | A version visible at a revision is the last write of the key up to there, a put, and a key is absent exactly when it was never written or last deleted. |
| `Mvcc.WriteEffects` | internal/store/etcd.go:175-220 | A put makes the next version of its key, or the first one, at the next revision; a delete removes the key; other keys stay. |
| `ArchiveSafety.StepKeeps` | internal/app/server.go:447-535 | Every step of every request, outside writer, compaction, retention change or prune keeps the protocol invariant: what a request saved is stored or no longer the newest write, and every stored snapshot is a real version. |
| `ArchiveSafety.RunKeeps` | internal/app/server.go:646-706 | The invariant holds in every state of every run. |
| `ArchiveSafety.WriteIsGuarded` | internal/store/etcd.go:175-220 | In every run a write with an expected revision makes a revision only if the key is at the expected one, and then exactly the put, delete or restored value that was asked for; a refused write changes nothing. |
| `ArchiveSafety.ArchiveBeforeOverwrite` | internal/app/server.go:804-828 | In every interleaving, whenever the write of a guarded put, delete or rollback changes the log over an existing version, storage holds exactly that version at that moment, for every retention. |
| `ArchiveSafety.RollbackRestoresTarget` | internal/app/server.go:646-706 | A rollback that commits writes exactly the target version's value over exactly the expected version. |
| `ArchiveSafety.FutureExpectationLosesData` | internal/app/server.go:804-821 | For every put that reads no version and expects a later revision there is a continuation in which it replaces an unarchived version. |
| `ArchiveSafety.PutIsSafeIff` | internal/app/server.go:804-821 | A guarded put is safe in every continuation of its read if and only if it read a version or its expected revision is not above the store revision at the read. |
| `ArchiveEffects.PutAlone` | internal/app/server.go:447-494 | A put left alone writes its value exactly when the key is at the expected version, after saving the version it replaces with its retention; otherwise nothing changes. |
| `ArchiveEffects.DeleteAlone` | internal/app/server.go:496-535 | A delete left alone deletes exactly when the key exists at the expected version, after saving it; otherwise nothing changes. |
| `ArchiveEffects.RollbackAlone` | internal/app/server.go:646-743 | A rollback left alone writes the value of exactly the version that rollbackTarget finds, saving a target read from etcd first and the current version after it; when there is none nothing changes. |
| `ArchiveEffects.AnySurroundings` | internal/store/etcd.go:158-220 | The surroundings of the protocol are as free as they can be: any further log, compaction and retention can come about. |
| `ArchiveEffects.PruneElsewhere` | internal/store/history_manager.go:228-251 | A prune started elsewhere, with anything between its two steps left out, is one retention of that key. |
| `ArchiveEffects.VersionsAreStorable` | internal/store/history.go:411-422 | Every version of a key is accepted by storage. |
| `EtcdWalk.EtcdVersionsBefore` | internal/app/server.go:784-802 | The loop ends for arbitrary replies, returns at most the limit, strictly descending positive revisions below the start, and equals the recursive walk. |
| `EtcdWalk.WalkIsChain` | internal/app/server.go:784-802 | Against an MVCC log the loop returns the first `limit` elements of the chain of versions and reports compaction exactly when compaction ended it early. |
| `EtcdWalk.ChainVersion` | internal/app/server.go:784-802 | Every entry of the chain is a version of the key at its own revision. |
| `EtcdWalk.ChainCovers` | internal/app/server.go:784-802 | No write of the key between the end and the start of the walk is skipped. |
| `EtcdWalk.ChainStops` | internal/app/server.go:784-802 | The walk ends only at the first revision, below compaction, or where the key is absent. |
| `EtcdWalk.WalkFailsWith` | internal/app/server.go:784-802 | The walk fails only with the error of a read below its start, and never with compaction. |
| `EtcdWalk.FirstRead` | internal/app/server.go:784-802 | An error is passed on; compaction, a missing key and an answer that is no older version end the walk. |
| `Rollback.RollbackCandidates` | internal/app/server.go:745-782 | The map, sort and cut return the newest `limit` of the union of both lists, descending, a stored copy winning over an etcd one, hasMore exactly when the union is larger, and the compaction error only for an empty union. |
| `RollbackPages.ProtocolIsFaithful` | internal/app/server.go:823-828 | In every state of every run of the protocol the stored snapshots of a key are versions of it, which is what the listing needs. |
| `RollbackPages.PageIsNewestOfUnion` | internal/app/server.go:745-782 | Although each source is cut at limit + 1 first, a page is exactly the newest `limit` of the uncut union, labelled "storage" exactly when stored, with hasMore exact. |
| `RollbackWalk.WalkListsEverythingOffered` | internal/app/server.go:573-644 | With or without deletions and with any page sizes, the pages of a finished walk list versions of the key only, none twice, newest first, each with its entry and source, and every stored snapshot below the start. |
| `RollbackWalk.PromiseIsKept` | internal/app/server.go:573-644 | After a page with a next cursor the next page is neither empty nor an error. |
| `RollbackWalk.WalkEnds` | internal/app/server.go:573-644 | Following the cursors ends after at most as many pages as the starting revision. |
| `RollbackWalk.WalkExists` | internal/app/server.go:573-644 | Unless the first answer is the compaction error, following the cursors reaches a page without a next cursor. |
| `RollbackWalk.WalkListsExactly` | internal/app/server.go:573-644 | For a key never deleted, a finished walk from the current version lists every stored or still readable earlier version exactly once, newest first, each with its entry and source. |
| `RollbackWalk.StoredLookup` | internal/app/server.go:708-743 | Asking for the newest snapshot up to a revision finds that revision exactly when it is stored. |
| `RollbackWalk.ConflictIff` | internal/app/server.go:708-720 | The answer is a conflict if and only if the version read is not the expected one. |
| `RollbackWalk.TargetIff` | internal/app/server.go:708-743 | A rollback has a target if and only if the key is at the expected version and the target is an older version of it that is stored or readable at its own revision; the answer then holds the current version and exactly that version. |
| `RollbackWalk.OfferedResolves` | internal/app/server.go:708-743 | A version offered at any position resolves to its entry and source if and only if it is stored or not below the compaction revision; otherwise the answer is the compaction error. |
| `RollbackWalk.ListedResolves` | internal/app/server.go:708-743 | The same for every candidate on every page of a walk from the current version: it resolves to exactly the candidate listed, or to the compaction error. |
| `RollbackWalk.ListedBelowCompaction` | internal/app/server.go:708-743 | Such a candidate exists: written at 1 and 3, compacted at 2, version 1 is listed and cannot be read. |
| `Base64.RoundTrip` | internal/store/history.go:367-409 | Decoding the padded encoding of any bytes gives them back. |
| `Base64.TestVectors` | internal/store/history.go:367-379 | The padded encoding agrees with the test vectors of section 10 of RFC 4648 (MoreTestVectors has the longer ones). |
| `Base64.RawInjective` | internal/store/history.go:424-430 | The unpadded encoding is injective. |
| `HistoryFile.RecordRoundTrip` | internal/store/history.go:367-409 | A valid snapshot survives the trip through its record. |
| `HistoryFile.ReadIff` | internal/store/history.go:381-422 | A record is read if and only if its version, its two base 64 fields and the snapshot are valid, and the snapshot says what the record says. |
| `HistoryFile.EntryKeyInjective` | internal/store/history.go:424-426 | The key of `entries` determines cluster and key bytes, whatever characters the cluster identifier contains. |
| `HistoryFile.SeenKeyInjective` | internal/store/history.go:428-430 | The key of `seen` determines cluster, key bytes and revision. |
| `HistoryFile.SeenIffStored` | internal/store/history.go:92-97 | The duplicate check on strings is the check on identifiers. |
| `HistoryFile.AddRepresents` | internal/store/history.go:261-269 | Adding a snapshot keeps `entries` and `seen` representing one table, the old one with that snapshot inserted. |
| `HistoryFile.RepresentsUnique` | internal/store/history.go:261-269 | The lists alone determine the table they represent. |
| `HistoryLog.LogRepresents` | internal/store/history.go:261-269 | The two maps built from any sequence of valid records, duplicates included, represent the table that inserting the records gives. |
| `HistoryLog.LoadLog` | internal/store/history.go:217-259 | Loading a log followed by a torn record gives the index of the complete records and their exact length. |
| `HistoryLog.RewriteLoads` | internal/store/history.go:271-344 | A rewritten file, its keys in any order, loads to exactly the index it was written from. |
| `HistoryLog.FilterRepresents` | internal/store/history.go:333-342 | Lists filtered key by key, with `seen` rebuilt, represent the filtered table. |
| `HistoryDisk.OpenedIsSound` | internal/store/history.go:217-259 | Whatever file opens, blank lines and foreign formatting included, opens to a file and index that reopen to themselves, its torn end cut off, and the index represents a table. |
| `HistoryDisk.CompleteIsSound` | internal/store/history.go:78-203 | Every completed save or prune leaves a file that reopens to exactly the index in memory, which means what the operation means. |
| `HistoryDisk.CrashRecovers` | internal/store/history.go:78-125 | A crash at any byte of an append or on either side of the rename reopens to exactly the file and index before the operation, or exactly those the completed operation leaves. |
| `HistoryDisk.CrashImagesCover` | internal/store/history.go:98-124 | Every part of an appended line and both sides of a rename are among the crashes considered. |
| `HistoryDisk.CorruptLineIsRefused` | internal/store/history.go:231-255 | A complete line that is too long or no valid record makes the file refused, whatever stands around it. |
| `HistoryDisk.BlankLineIsSkipped` | internal/store/history.go:238-240 | A blank line is kept in the file and skipped. |
| `HistoryDisk.FittingIsAllowed` | internal/store/history.go:284-310 | A save of a record that fits, and a prune where the records in memory fit, is never refused for size. |
| `HistoryDisk.CleanBoundary` | internal/store/history.go:217-259 | Every file the store works on is empty or ends with a newline, so the next append starts on a record boundary. |
| `HistoryDisk.CrashesAreAtomic` | internal/store/history.go:217-344 | Over any run with failures and crashes, file and index are exactly those of the run of completed operations in which each interrupted one happened or did not. |
| `FileBackend.LoadFile` | internal/store/history.go:217-259 | The line-by-line loop computes what reopening means, truncating a torn last record and refusing a corrupt one. |
| `FileBackend.FileHistory.constructor` | internal/store/history.go:51-76 | Whatever file load accepts gives a valid store with that file and index. |
| `FileBackend.FileHistory.Save` | internal/store/history.go:78-125 | Inserts into the table and leaves exactly the file and index of a completed save; on any error file, maps and table are unchanged; a stored identifier is accepted without writing. |
| `FileBackend.FileHistory.Append` | internal/store/history.go:98-124 | Writes the whole record and updates both maps, or truncates the file back to its former size and changes nothing. |
| `FileBackend.FileHistory.ListBefore` | internal/store/history.go:135-161 | Returns the newest `limit` stored snapshots of the key below a revision, newest first. |
| `FileBackend.FileHistory.Replace` | internal/store/history.go:271-344 | Writes the lists in sorted key order and installs file and maps together; a record too long to write or a failed rename changes nothing, and an error from closing the replaced file comes after everything is in place. |
| `FileBackend.FileHistory.PruneKey` | internal/store/history.go:163-179 | Leaves exactly the file and lists of a completed prune, the newest `keep` revisions of the key and every other key untouched; on any error but the one from closing the replaced file nothing changes. |
| `FileBackend.FileHistory.Prune` | internal/store/history.go:181-203 | The same for every key at once. |
| `FileBackend.WriteEntries` | internal/store/history.go:284-310 | Refuses exactly when a record is too long, else returns the records key by key in sorted order. |
| `HistoryCut.NewestSorts` | internal/store/history.go:354-360 | Sorting a key's snapshots gives the same snapshots strictly newest first. |
| `History.CutoffPrunes` | internal/store/history_database.go:259-295 | Deleting below the revision at offset keep - 1 leaves exactly what sorting and truncating leaves. |
| `History.SmallKeyUntouched` | internal/store/history_database.go:259-295 | A key with at most `keep` revisions loses none. |
| `Database.AtOffset` | internal/store/history_database.go:259-295 | The cutoff query returns the n-th newest revision, or none when there are not that many. |
| `Database.TakenIffStored` | internal/store/history_database.go:51-85 | The unique constraint on hashed keys rejects exactly the identifiers already stored. |
| `Database.DatabaseHistory.Save` | internal/store/history_database.go:51-85 | Insert-or-ignore is insertion into the table; an invalid snapshot or a failed statement changes nothing. |
| `Database.DatabaseHistory.PruneKey` | internal/store/history_database.go:259-295 | Pruning by cutoff gives the same table as the file backend's pruning of that key; a failed statement changes nothing and a negative retention is refused. |
| `Database.DatabaseHistory.Prune` | internal/store/history_database.go:297-339 | Pruning key by key over the distinct keys gives the same table as the file backend's global pruning; a statement that fails midway leaves some keys pruned and the others untouched, so the newest `keep` revisions of every key are there in every case. |
| `Database.DatabaseHistory.ListBefore` | internal/store/history_database.go:214-257 | Returns the newest `limit` stored snapshots of the key below a revision, newest first, exactly as the file backend does. |
| `Retention.NewestAreNeverLost` | internal/store/history_manager.go:152-164 | From any stored table pruned on load, the empty one included, over any run of saves and retention changes, each key holds at most the current nonzero retention and always the newest m revisions ever stored, m the smallest nonzero retention so far, in whatever order they arrive. |
| `Retention.PromiseStep` | internal/store/history_manager.go:228-251 | One save or retention change keeps that promise. |
| `Retention.EverSavedIff` | internal/store/history_manager.go:152-164 | The revisions called saved are exactly those some step saved. |
| `Retention.SmallestIs` | internal/store/history_manager.go:228-251 | The m of the promise is one of the nonzero retentions in force, and none of them is smaller. |
| `HistoryManager.Manager.Save` | internal/store/history_manager.go:152-164 | Saves and prunes that key to the retention, as one step of the retention run; on error the table is unchanged if the snapshot was refused, holds the snapshot unpruned if the prune failed, and is pruned if only closing the replaced file failed. |
| `HistoryManager.Manager.UpdateRetention` | internal/store/history_manager.go:228-251 | Validates, persists, then prunes everything; the new retention stands exactly when it was persisted, also after a failed prune, which leaves file and table as they were unless only closing the replaced file failed. |
| `HistoryManager.Manager.Load` | internal/store/history_manager.go:304-354 | Loading checks version and retention and prunes the backend to it, the start of a retention run; when that fails nothing is set up. |
| `Registry.StepKeeps` | internal/store/registry.go:69-150 | Every critical section keeps the ownership invariant. |
| `Registry.ClientsNeverLeak` | internal/store/registry.go:177-219 | In every interleaving each open client is held by exactly one lookup or installed in exactly one entry, of the cluster it was built for and under the stamp of the configuration that built it; no premise on timestamps. |
| `Registry.RetriesAreBounded` | internal/store/registry.go:177-219 | A lookup retries at most once for each update of its cluster that commits during it. |
| `Registry.RacingIsCount` | internal/store/registry.go:202-206 | That bound counts exactly the committed updates of the cluster, and the retries exactly the failed attempts to install. |
| `Registry.EntryAfter` | internal/store/registry.go:69-150 | Only a saved creation under a free name adds a cluster, only a saved deletion removes it, and only a saved update under a free name changes its configuration. |
| `Registry.ChangesTakeEffect` | internal/store/registry.go:69-150 | Each of them takes effect when nothing stands against it, on nothing else; one that is not saved changes nothing. |
| `Registry.WhyClosed` | internal/store/registry.go:123-150 | A client is closed only with the entry that held it, or because its lookup could not install it. |
| `Registry.DeletedForGood` | internal/store/registry.go:134-150 | A deleted cluster never comes back. |
| `Registry.LookupsAnswer` | internal/store/registry.go:177-219 | A lookup that ends returns a client unless dialling failed or the cluster is gone. |
| `Registry.LookupAlone` | internal/store/registry.go:177-219 | Left alone, a lookup returns the installed client, or dials one, installs it and returns it with the present configuration. |
| `Registry.AnswersMatchTheirConfig` | internal/store/registry.go:177-219 | A client handed out is open, installed for the cluster asked for and built under the stamp of the configuration handed out; if no two configurations of that one cluster share a stamp, from exactly that configuration. |
| `Registry.MixedIffEqualStamps` | internal/store/registry.go:202-206 | A client built from one configuration can come to serve under another if and only if the two carry the same timestamp. |
| `Registry.NamesStayDistinct` | internal/store/registry.go:318-325 | Names that differ at the start under a case folding, whichever it is, differ under it in every reachable state. |
| `Accounts.ApplyKeeps` | internal/auth/manager.go:302-498 | Every account operation, successful or not, keeps: an active local administrator while local login is enabled, LDAP administrators when only LDAP is, names unique ignoring case, normalised grants. |
| `Accounts.ReachableIsGood` | internal/auth/manager.go:258-291 | From an unconfigured manager every sequence of calls leads to such a configuration. |
| `Accounts.ReloadIsIdentity` | internal/auth/manager.go:689-719 | Reloading any reachable configuration accepts it and gives it back unchanged. |
| `Accounts.GrantsAreNormal` | internal/auth/manager.go:896-913 | Normalised grants are empty for an administrator, else trimmed, nonempty, sorted and distinct. |
| `Accounts.NormalGrantsAreFixed` | internal/auth/manager.go:896-913 | Normalising normal grants changes nothing. |
| `Accounts.FindIsUnique` | internal/auth/manager.go:887-894 | In a reachable configuration a name finds exactly the one account it can mean. |
| `Accounts.AccessIsAsNamed` | internal/auth/manager.go:68-79 | After normalisation an operator may use exactly the clusters named in the input, ignoring blanks, order, repetition and white space; an administrator every cluster. |
| `Accounts.CreateEffect` | internal/auth/manager.go:348-380 | The new account was not there before and is found by its name now, with the role, password and cluster access asked for; nothing else changes. |
| `Accounts.CreateThenDelete` | internal/auth/manager.go:430-452 | Deleting the account just created gives back exactly the configuration before. |
| `Accounts.UpdateEffect` | internal/auth/manager.go:382-428 | The account keeps name, creation time and first-login duty, gets exactly the role, display name, activity, password and cluster access asked for, and no other account changes. |
| `Accounts.DeleteEffect` | internal/auth/manager.go:430-452 | The name is not found any more and every other account stays, in order. |
| `Accounts.RemoveEffect` | internal/auth/manager.go:456-498 | An operator loses access to the removed cluster and to no other; an administrator loses none. |
| `Accounts.RemovedIsRemoved` | internal/auth/manager.go:456-498 | After removing a cluster nobody is granted it and every other grant stands. |
| `Accounts.CreateSucceedsIff` | internal/auth/manager.go:348-380 | Exactly when an account can be created, and exactly when its name is taken. |
| `Accounts.UpdateSucceedsIff` | internal/auth/manager.go:382-428 | Exactly when an account can be updated; the last active administrator is kept exactly while local login is on. |
| `Accounts.DeleteSucceedsIff` | internal/auth/manager.go:430-452 | Exactly when an account can be deleted, in terms of another active administrator. |
| `Accounts.SettingsEffect` | internal/auth/manager.go:302-330 | Exactly when the settings can be changed, and what they are then. |
| `Accounts.BootstrapSucceedsIff` | internal/auth/manager.go:258-291 | The first account is created exactly while nothing is configured. |
| `Accounts.BootstrapEffect` | internal/auth/manager.go:258-291 | It is the only account, an active administrator found by its name, with the password and first-login duty asked for, and local login is on. |
| `Accounts.TemporaryAdminWorks` | internal/auth/manager.go:235-256 | The temporary administrator of a first start can always be created. |
| `Accounts.PasswordSucceedsIff` | internal/auth/manager.go:558-577 | A password is replaced exactly when the account still has the hash that was read. |
| `Accounts.RemoveSucceedsIff` | internal/auth/manager.go:456-498 | Exactly when a cluster can be taken out of the grants. |
| `Accounts.LoadRefusesIff` | internal/auth/manager.go:689-719 | A stored configuration is refused exactly when it has an account with an unacceptable name. |
| `Accounts.ModeNames` | internal/auth/manager.go:302-306 | Exactly the words local, ldap and both, in any case, name the modes. |
| `Text.FoldIgnoresCase` | internal/auth/manager.go:887-894 | Among ASCII characters exactly a letter and its other case compare equal. |
| `Text.EqualFoldIff` | internal/auth/manager.go:887-894 | Names compare equal exactly when they do so character by character. |
| `Text.TrimIs` | internal/auth/manager.go:783-786 | Trimming takes all white space off both ends and nothing else. |
| `AuthManager.FindUserIndex` | internal/auth/manager.go:887-894 | The loop returns the first account of that name. |
| `AuthManager.ClusterIdsForRole` | internal/auth/manager.go:896-913 | The loop and sort return the normalised grants. |
| `AuthManager.Manager.Bootstrap` | internal/auth/manager.go:258-291 | First account or error; on any error the stored configuration is unchanged. |
| `AuthManager.Manager.UpdateSettings` | internal/auth/manager.go:302-330 | New mode and LDAP settings and exactly the sessions of disabled providers revoked, or error with configuration and sessions unchanged. |
| `AuthManager.Manager.CreateUser` | internal/auth/manager.go:348-380 | Appends the account, or undoes it and leaves the configuration unchanged. |
| `AuthManager.Manager.UpdateUser` | internal/auth/manager.go:382-428 | Replaces the account and revokes its sessions by stored name, or restores everything. |
| `AuthManager.Manager.DeleteUser` | internal/auth/manager.go:430-452 | Removes the account and revokes sessions by the name given, or restores everything. |
| `AuthManager.Manager.RemoveClusterPermissions` | internal/auth/manager.go:456-498 | Filters every grant list in place, or puts every list and time back. |
| `AuthManager.Manager.CommitPassword` | internal/auth/manager.go:558-577 | Replaces the hash only if it is still the one read, or changes nothing. |
| `AuthManager.Manager.RevokeSessions` | internal/auth/manager.go:951-969 | Deletes the sessions the revocation is about and keeps every other one. |
| `AuthManager.Manager.CreateSession` | internal/auth/manager.go:631-643 | Drops exactly the expired sessions and adds the new one. |
| `AuthManager.Manager.LookupSession` | internal/auth/manager.go:645-681 | Accepts an unexpired session as the configuration sees it, and deletes a refused one. |
| `Sessions.RevokedLeavesTheTable` | internal/auth/manager.go:951-969 | In every interleaving, a session in the table when an operation that must revoke it commits is out of the table in every state after the operation returned, whatever is re-created or re-enabled. |
| `Sessions.RevokedIsNeverAccepted` | internal/auth/manager.go:645-687 | No lookup of it that begins after the operation returned gets past the table. |
| `Sessions.WhyGone` | internal/auth/manager.go:631-687 | A session leaves the table only when an operation revokes it, on logout, when it has expired, or when a lookup of it is refused. |
| `Sessions.GoneThen` | internal/auth/manager.go:631-687 | And each of these takes it out. |
| `Sessions.OthersStayLoggedIn` | internal/auth/manager.go:951-969 | In every run a session that no operation revokes, and that is neither logged out, expired nor refused, stays in the table unchanged. |
| `Sessions.OnlyTheseRevoke` | internal/auth/manager.go:302-452 | Only successful updates, deletions and changes of the settings revoke sessions. |
| `Sessions.UpdateUserHits` | internal/auth/manager.go:382-428 | Updating an account revokes exactly the local sessions that resolve to that account by an unpadded name. |
| `Sessions.UpdateSettingsHits` | internal/auth/manager.go:302-330 | Changing the mode revokes exactly the sessions of providers no longer enabled. |
| `Sessions.DeleteUserHitsIff` | internal/auth/manager.go:430-452 | Deleting an account revokes its sessions if and only if the name given had no white space around it. |
| `Sessions.DeleteUserSpares` | internal/auth/manager.go:430-452 | Deleting an account never revokes sessions of another account, nor of LDAP users. |
| `Sessions.PaddedDeleteKeepsSession` | internal/auth/manager.go:430-452 | Deleting bob as " bob" leaves his session, which is accepted again once an account bob exists. |
| `Sessions.AcceptedIsCurrent` | internal/auth/manager.go:645-681 | What a lookup returns is the provider, role and grants of the configuration at that moment, for the one active account of that name. |
| `Sessions.AcceptIff` | internal/auth/manager.go:645-681 | A session is accepted if and only if its provider is enabled and, for a local one, its account exists and is active. |
| `Sessions.SessionWorks` | internal/auth/manager.go:631-681 | A session that was opened is found and accepted until it expires, and stays. |
| `Sessions.ChangeReplacesWhatItRead` | internal/auth/manager.go:529-629 | A successful password change replaces exactly the hash it read, in one account, and touches no other. |
| `Sessions.OneChangePerHash` | internal/auth/manager.go:529-629 | In every interleaving at most one of the changes that read one hash succeeds. |
| `Sessions.ChangeAlone` | internal/auth/manager.go:529-629 | A password change left alone succeeds and sets exactly the new hash, if it can be saved. |
| `Sessions.ChangeRefused` | internal/auth/manager.go:529-629 | A change cannot begin for an unknown or inactive account, nor as a first change when none is required. |
| `Password.ValidateStrongPassword` | internal/auth/manager.go:816-842 | Accepts exactly the passwords of 10 characters to 72 bytes with all four classes and nothing forbidden. |
| `Password.AsciiStrongIff` | internal/auth/manager.go:816-842 | For ASCII passwords the rule in plain terms: 10 to 72 visible characters with a capital, a small letter, a digit and something else. |
| `Password.SpacesAreRefused` | internal/auth/manager.go:826-829 | White space and control characters are refused wherever they stand. |
| `Password.Shuffle` | internal/auth/manager.go:867-876 | The in-place shuffle only permutes the buffer, and gives exactly the arrangement its draws determine. |
| `Password.AnyPasswordPossible` | internal/auth/manager.go:844-877 | Every arrangement of four characters of the four classes and any further characters is the outcome of some draws. |
| `Password.NoLookAlikes` | internal/auth/manager.go:848-852 | Characters that are easily mistaken for others are never drawn. |
| `Password.SeededIsStrong` | internal/auth/manager.go:844-877 | A permutation of a buffer seeded with the four classes is strong exactly for lengths 10 to 72. |
| `Password.GenerateTemporaryPassword` | internal/auth/manager.go:844-885 | For every outcome of the draws the password is strong exactly for lengths 10 to 72; errors exactly below length 4 or on a failed draw. |
| `Audit.CursorMeansAfter` | internal/store/audit_file.go:274-307 | A cursor adds to the other filters exactly "strictly after this position in page order". |
| `Audit.FiltersMean` | internal/store/audit_file.go:274-307 | Each filter adds exactly its own condition to a query: actor, actor type, action, cluster, start, end and text search. |
| `Audit.NoFilters` | internal/store/audit_file.go:274-307 | A query without filters matches everything. |
| `Audit.PageOrder` | internal/store/audit_file.go:117-122 | Later events come first, those of one time by descending identifier. |
| `Audit.FileAudit.SaveAudit` | internal/store/audit_file.go:62-99 | Appends record and event, or refuses an invalid or too long one, or truncates a failed append; the file always holds exactly the records of the events. |
| `Audit.FileAudit.ListAudit` | internal/store/audit_file.go:101-130 | Returns the first `limit` of the matching events in a sorted order and whether there are more; with different identifiers that is the one (time, ID) order. |
| `Audit.FileAudit.PruneAudit` | internal/store/audit_file.go:132-152 | Keeps exactly the events not before the cutoff, in order, and rewrites the file with them; on any error but the one from closing the replaced file nothing changes. |
| `Audit.FileReadsBack` | internal/store/audit_file.go:166-211 | Reading the file, with or without a torn last record, gives exactly the events whose records it holds. |
| `Audit.CorruptEventIsRefused` | internal/store/audit_file.go:166-211 | A complete line that is too long or no valid event makes the file unreadable, whatever stands around it. |
| `Audit.ListRecent` | internal/store/history_manager.go:197-213 | A query never looks further back than 90 days before it is made. |
| `Audit.RecentMeans` | internal/store/history_manager.go:204-207 | Raising the start date adds exactly that condition to a query. |
| `Audit.ChangesEvolve` | internal/store/audit_file.go:62-152 | Any sequence of prunes and of saves of events newer than the cursor is a change the paging theorem allows. |
| `Audit.PagingTheAuditLog` | internal/app/server.go:353-378 | While newer events are appended, events pruned and the 90 days move on between pages, each matching event present at the start, never pruned and recent enough for every page is returned exactly once, in order; nothing else is, and everything returned meets every filter of the query. |
| `Audit.WalkExists` | internal/app/server.go:353-378 | On a log at rest, following the cursors reaches a page without a next cursor, whatever the query, time and page size. |
| `Audit.ListedIsRecent` | internal/app/server.go:353-378 | With a clock that does not go back, everything listed was within the 90 days of the first page. |
| `Audit.WalkEnds` | internal/app/server.go:353-378 | Following the cursors ends after at most as many pages as the first log had events matching the query. |
| `KeyList.PrefixRangeEnd` | internal/store/etcd.go:119-124 | The range from the prefix to the computed end holds exactly the keys with the prefix, also for empty and all-0xff prefixes. |
| `KeyList.List` | internal/store/etcd.go:102-145 | Returns the first `limit` keys with the prefix from the cursor on, in order, and as next cursor the key after them; the two error cases exactly. |
| `KeyList.PrefixIsListedOnce` | internal/store/etcd.go:102-145 | Following the cursors on a fixed store, with any page sizes, returns every key with the prefix exactly once in lexicographic order. |
| `KeyList.WalkExists` | internal/store/etcd.go:102-145 | On a fixed store, following the cursors reaches a page without a next cursor, whatever the page size. |
| `KeyList.WalkEnds` | internal/store/etcd.go:102-145 | No walk takes more pages than there are keys. |

## Left out

- Writes without an expected revision: etcd then replaces whatever is there, and the program promises nothing.
- HTTP handling, JSON, cookies, logging and the web interface: no property beyond plumbing.
- LDAP connections, TLS, bcrypt, SHA-256 and random sources: foreign code, seen only through its results.
- Checking the LDAP settings: its outcome is a parameter of UpdateSettings.
- SQL text, drivers and schema creation: the database is an abstract set of rows; its audit search is not modelled.
- The text search of the audit log: any predicate on events.
- The loop that loads the audit file: what it reads is a function here; the loop follows the history file's.
- A database statement that reports an error is taken to have changed nothing.
- The record codec: taken as lawful; only its base 64 fields are concrete.
- Lower case and case folding of account names beyond ASCII: exact only for characters that fold to ASCII, as stored
  user names are ASCII; cluster names are compared under an arbitrary folding.
- Registry.StepKeeps: the registry is a state machine on values rather than an object, because its property is about interleavings; aliasing of configurations is not captured.
- Closing the registry and TestCluster, which opens and closes a client of its own.
- Concurrent updates of one cluster that preserve a password, and retention bounds while a save races a retention change: not promised.
- LatestBefore, Close, Status and the list operations that only copy: easy members.
- Display of versions, labels, previews, configuration parsing and file permissions.
- 64-bit overflow of revisions and times: integers are unbounded here.
